/** JavaScript's global `parseInt(value)` called without a radix, as used on the
    `count` field of a batch-create request. `None` stands for NaN. */
module JsParseInt {
  import opened Optional

  /** The characters `parseInt` skips before the number: ECMAScript white space
      (including every space separator) and line terminators. */
  predicate IsStrWhiteSpace(c: char) {
    || c == '\t' || c == '\n' || c == '\U{000B}' || c == '\U{000C}' || c == '\r'
    || c == ' ' || c == '\U{00A0}' || c == '\U{1680}'
    || ('\U{2000}' <= c <= '\U{200A}')
    || c == '\U{2028}' || c == '\U{2029}' || c == '\U{202F}' || c == '\U{205F}'
    || c == '\U{3000}' || c == '\U{FEFF}'
  }

  /** The value of a digit in bases up to 36, or 36 for a character that is no digit. */
  function DigitValue(c: char): (d: nat)
    ensures d <= 36
    ensures d < 10 <==> '0' <= c <= '9'
  {
    if '0' <= c <= '9' then c as int - '0' as int
    else if 'a' <= c <= 'z' then c as int - 'a' as int + 10
    else if 'A' <= c <= 'Z' then c as int - 'A' as int + 10
    else 36
  }

  predicate IsDigit(c: char, radix: nat) {
    DigitValue(c) < radix
  }

  /** Drops the leading white space. */
  function TrimStart(s: string): (r: string)
    ensures |r| <= |s| && r == s[|s| - |r|..]
    ensures r == [] || !IsStrWhiteSpace(r[0])
    ensures forall i :: 0 <= i < |s| - |r| ==> IsStrWhiteSpace(s[i])
  {
    if s != [] && IsStrWhiteSpace(s[0]) then
      var r := TrimStart(s[1..]);
      assert forall i :: 1 <= i < |s| - |r| ==> s[i] == s[1..][i - 1];
      r
    else s
  }

  /** The length of the longest prefix of `s` made of digits of `radix`. */
  function DigitRun(s: string, radix: nat): (n: nat)
    ensures n <= |s|
    ensures n < |s| ==> !IsDigit(s[n], radix)
  {
    if s != [] && IsDigit(s[0], radix) then 1 + DigitRun(s[1..], radix) else 0
  }

  /** Every character before the end of the run is a digit. */
  lemma {:induction false} DigitRunIsDigits(s: string, radix: nat, i: nat)
    requires i < DigitRun(s, radix)
    ensures IsDigit(s[i], radix)
  {
    if i > 0 {
      DigitRunIsDigits(s[1..], radix, i - 1);
    }
  }

  /** The value of a digit string, most significant digit first. */
  function DigitsValue(ds: string, radix: nat): nat {
    if ds == [] then 0
    else DigitsValue(ds[..|ds| - 1], radix) * radix + DigitValue(ds[|ds| - 1])
  }

  /** `parseInt` on text: white space, an optional sign, then the magnitude. */
  function ParseIntText(text: string): Option<int> {
    ParseSigned(TrimStart(text))
  }

  /** The text after the white space: an optional sign, then the magnitude. */
  function ParseSigned(s: string): Option<int> {
    if s != [] && s[0] == '-' then Negated(ParseMagnitude(s[1..]))
    else if s != [] && s[0] == '+' then ParseOptionalInt(ParseMagnitude(s[1..]))
    else ParseOptionalInt(ParseMagnitude(s))
  }

  function Negated(m: Option<nat>): Option<int> {
    match m
    case None => None
    case Some(v) => Some(-(v as int))
  }

  function ParseOptionalInt(m: Option<nat>): Option<int> {
    match m
    case None => None
    case Some(v) => Some(v)
  }

  /** A `0x` or `0X` prefix switches an unsigned magnitude to base 16. */
  predicate HasHexPrefix(body: string) {
    |body| >= 2 && body[0] == '0' && (body[1] == 'x' || body[1] == 'X')
  }

  /** The longest run of digits after the optional hex prefix; NaN when empty. */
  function ParseMagnitude(body: string): Option<nat> {
    var radix := if HasHexPrefix(body) then 16 else 10;
    var digits := if HasHexPrefix(body) then body[2..] else body;
    var n := DigitRun(digits, radix);
    if n == 0 then None else Some(DigitsValue(digits[..n], radix))
  }

  /** `parseInt(value)`: a missing value is first converted to the text "undefined". */
  function ParseInt(value: Option<string>): (r: Option<int>)
    ensures value.None? ==> r.None?
    ensures value == Some("") ==> r.None?
  {
    ParseIntText(if value.None? then "undefined" else value.value)
  }

  /** The decimal spelling of a natural number, without leading zeros. */
  function DecimalText(n: nat): (s: string)
    ensures |s| >= 1
    ensures forall i :: 0 <= i < |s| ==> '0' <= s[i] <= '9'
    ensures s[0] == '0' ==> n == 0
  {
    var d := ['0' + (n % 10) as char];
    if n < 10 then d else DecimalText(n / 10) + d
  }

  lemma {:induction false} DecimalTextValue(n: nat)
    ensures DigitsValue(DecimalText(n), 10) == n
  {
    if n >= 10 {
      var s := DecimalText(n);
      assert s[..|s| - 1] == DecimalText(n / 10);
      DecimalTextValue(n / 10);
    }
  }

  /** The digits of a decimal number followed by a non-digit form the whole run. */
  lemma DecimalRun(n: nat, rest: string)
    requires rest == [] || !IsDigit(rest[0], 10)
    ensures DigitRun(DecimalText(n) + rest, 10) == |DecimalText(n)|
    ensures DigitsValue((DecimalText(n) + rest)[..|DecimalText(n)|], 10) == n
  {
    var d := DecimalText(n);
    var body := d + rest;
    var k := DigitRun(body, 10);
    if k < |d| { assert IsDigit(body[k], 10); }
    if k > |d| { DigitRunIsDigits(body, 10, |d|); }
    assert body[..|d|] == d;
    DecimalTextValue(n);
  }

  /** Text that starts with neither white space nor a sign is parsed as a magnitude. */
  lemma ParseUnsignedText(s: string)
    requires s != [] && !IsStrWhiteSpace(s[0]) && s[0] != '-' && s[0] != '+'
    ensures ParseIntText(s) == ParseOptionalInt(ParseMagnitude(s))
  {
    assert TrimStart(s) == s;
  }

  /** A minus sign followed by a body is parsed as the body's negated magnitude. */
  lemma ParseMinusText(body: string)
    ensures ParseIntText("-" + body) == Negated(ParseMagnitude(body))
  {
    var s := "-" + body;
    assert s[0] == '-' && s[1..] == body;
    assert TrimStart(s) == s;
  }

  /** A digit string without a hex prefix has the value of its leading decimal run. */
  lemma DecimalMagnitude(body: string, v: nat)
    requires body != [] && '0' <= body[0] <= '9'
    requires !HasHexPrefix(body)
    requires DigitsValue(body[..DigitRun(body, 10)], 10) == v
    ensures ParseMagnitude(body) == Some(v)
  {
    assert DigitRun(body, 10) > 0;
  }

  /** The digits of a decimal number followed by a non-digit, other than the
      `x` or `X` that would make a bare "0" a hexadecimal prefix. */
  lemma DecimalBody(n: nat, rest: string)
    requires rest == [] || !IsDigit(rest[0], 10)
    requires n == 0 ==> rest == [] || (rest[0] != 'x' && rest[0] != 'X')
    ensures var body := DecimalText(n) + rest;
      && body != [] && '0' <= body[0] <= '9' && !HasHexPrefix(body)
      && DigitsValue(body[..DigitRun(body, 10)], 10) == n
  {
    var d := DecimalText(n);
    var body := d + rest;
    assert body[0] == d[0];
    if |d| >= 2 {
      assert body[1] == d[1];
    } else if |body| >= 2 {
      assert body[1] == rest[0];
    }
    DecimalRun(n, rest);
  }

  /** The magnitude read from a decimal spelling followed by a non-digit. */
  lemma DecimalTextMagnitude(n: nat, rest: string)
    requires rest == [] || !IsDigit(rest[0], 10)
    requires n == 0 ==> rest == [] || (rest[0] != 'x' && rest[0] != 'X')
    ensures var body := DecimalText(n) + rest;
      body != [] && '0' <= body[0] <= '9' && ParseMagnitude(body) == Some(n)
  {
    DecimalBody(n, rest);
    DecimalMagnitude(DecimalText(n) + rest, n);
  }

  /** Round trip: a decimal number followed by anything that is not a digit
      parses back to that number. */
  lemma ParseDecimalPrefix(n: nat, rest: string)
    requires rest == [] || !IsDigit(rest[0], 10)
    requires n == 0 ==> rest == [] || (rest[0] != 'x' && rest[0] != 'X')
    ensures ParseIntText(DecimalText(n) + rest) == Some(n)
  {
    DecimalTextMagnitude(n, rest);
    ParseUnsignedText(DecimalText(n) + rest);
  }

  /** Round trip with a minus sign: "-" and a decimal number parse to its negation. */
  lemma ParseNegativeDecimalPrefix(n: nat, rest: string)
    requires rest == [] || !IsDigit(rest[0], 10)
    requires n == 0 ==> rest == [] || (rest[0] != 'x' && rest[0] != 'X')
    ensures ParseIntText("-" + DecimalText(n) + rest) == Some(-(n as int))
  {
    DecimalTextMagnitude(n, rest);
    MinusPrefix(DecimalText(n), rest, n);
  }

  lemma MinusPrefix(digits: string, rest: string, n: nat)
    requires ParseMagnitude(digits + rest) == Some(n)
    ensures ParseIntText("-" + digits + rest) == Some(-(n as int))
  {
    ParseMinusText(digits + rest);
    AppendAssociates("-", digits, rest);
  }

  /** Leading white space is dropped by `TrimStart`. */
  lemma {:induction false} TrimStartSkipsWhiteSpace(ws: string, s: string)
    requires forall i :: 0 <= i < |ws| ==> IsStrWhiteSpace(ws[i])
    ensures TrimStart(ws + s) == TrimStart(s)
  {
    if ws != [] {
      var t := ws + s;
      assert t != [] && t[0] == ws[0] && IsStrWhiteSpace(t[0]);
      assert t[1..] == ws[1..] + s;
      assert TrimStart(t) == TrimStart(t[1..]);
      TrimStartSkipsWhiteSpace(ws[1..], s);
    } else {
      assert ws + s == s;
    }
  }

  /** Leading white space never changes the result. */
  lemma LeadingWhiteSpaceIgnored(ws: string, s: string)
    requires forall i :: 0 <= i < |ws| ==> IsStrWhiteSpace(ws[i])
    ensures ParseIntText(ws + s) == ParseIntText(s)
  {
    TrimStartSkipsWhiteSpace(ws, s);
  }

  /** After "0x" the leading run of hexadecimal digits is read in base 16. */
  lemma HexPrefixSwitchesBase(digits: string)
    requires digits != [] && IsDigit(digits[0], 16)
    ensures ParseIntText("0x" + digits) == Some(DigitsValue(digits[..DigitRun(digits, 16)], 16))
  {
    var text := "0x" + digits;
    assert HasHexPrefix(text) && text[2..] == digits;
    ParseUnsignedText(text);
  }

  lemma AppendAssociates(a: string, b: string, c: string)
    ensures a + b + c == a + (b + c)
  {
  }

  /** `parseInt("")` is NaN. */
  lemma EmptyTextIsNaN()
    ensures ParseIntText("") == None
  {
    assert TrimStart("") == "";
    assert ParseMagnitude("") == None;
  }
}
