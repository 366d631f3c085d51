/** String helpers shared by the server and the console: ASCII case folding
    and JavaScript's `String.prototype.split` on a one-character separator. */
module Text {

  /** ASCII lower-casing of one character; every other character is kept. */
  function LowerChar(c: char): (r: char)
    ensures !('A' <= r <= 'Z')
    ensures 'A' <= c <= 'Z' ==> r as int == c as int + 32
    ensures !('A' <= c <= 'Z') ==> r == c
  {
    if 'A' <= c <= 'Z' then (c as int + 32) as char else c
  }

  function Lower(s: string): (r: string)
    ensures |r| == |s|
    ensures forall i :: 0 <= i < |s| ==> r[i] == LowerChar(s[i])
  {
    seq(|s|, i requires 0 <= i < |s| => LowerChar(s[i]))
  }

  /** Case-insensitive substring test: `needle` occurs in `hay` at some offset. */
  ghost predicate ContainsIgnoreCase(hay: string, needle: string) {
    exists k :: 0 <= k <= |hay| && OccursAt(Lower(hay), Lower(needle), k)
  }

  predicate OccursAt(hay: string, needle: string, k: int) {
    0 <= k <= |hay| - |needle| && hay[k..k + |needle|] == needle
  }

  /** The inverse of Split: the parts glued back with the separator. */
  function Join(parts: seq<string>, c: char): string
    requires |parts| >= 1
  {
    if |parts| == 1 then parts[0] else parts[0] + [c] + Join(parts[1..], c)
  }

  /** `s.split(c)`: the maximal runs between separators, always at least one. */
  function Split(s: string, c: char): (parts: seq<string>)
    ensures |parts| >= 1
    ensures forall i :: 0 <= i < |parts| ==> c !in parts[i]
    ensures Join(parts, c) == s
  {
    if s == [] then [""]
    else
      var rest := Split(s[1..], c);
      if s[0] == c then [""] + rest
      else
        var parts := [[s[0]] + rest[0]] + rest[1..];
        assert parts[1..] == rest[1..];
        assert Join(parts, c) == [s[0]] + Join(rest, c) by { JoinExtendsHead(rest, c, s[0]); }
        parts
  }

  lemma JoinExtendsHead(parts: seq<string>, c: char, x: char)
    requires |parts| >= 1
    ensures Join([[x] + parts[0]] + parts[1..], c) == [x] + Join(parts, c)
  {
    var ext := [[x] + parts[0]] + parts[1..];
    assert ext[1..] == parts[1..];
  }

  /** Text without the separator is a single part. */
  lemma {:induction false} SplitWithoutSeparator(s: string, c: char)
    requires c !in s
    ensures Split(s, c) == [s]
  {
    if s != [] {
      SplitWithoutSeparator(s[1..], c);
    }
  }

  /** Text splits into more than one part exactly when it holds the separator. */
  lemma {:induction false} SplitsIffSeparator(s: string, c: char)
    ensures |Split(s, c)| >= 2 <==> c in s
  {
    if s != [] {
      SplitsIffSeparator(s[1..], c);
      assert s == [s[0]] + s[1..];
    }
  }

  /** The first part ends at the first separator; the rest is split on its own. */
  lemma {:induction false} SplitAtFirst(u: string, c: char, v: string)
    requires c !in u
    ensures Split(u + [c] + v, c) == [u] + Split(v, c)
  {
    if u == [] {
      assert u + [c] + v == [c] + v;
      assert ([c] + v)[1..] == v;
    } else {
      assert (u + [c] + v)[1..] == u[1..] + [c] + v;
      SplitAtFirst(u[1..], c, v);
      assert [u[0]] + u[1..] == u;
    }
  }
}
