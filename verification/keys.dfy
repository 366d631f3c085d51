/** The `activation_keys` table of the license server (index.js) as a map from
    row id to row, and the pure rules that the admin endpoints apply to it. */
module Keys {
  import opened Optional
  import JsParseInt

  /** One row of `activation_keys`. Timestamps are integers on one clock. */
  datatype KeyRecord = KeyRecord(
    activationKey: string,
    isActivated: bool,
    isLocked: bool,
    expiresAt: Option<int>,
    createdAt: int)

  type Table = map<nat, KeyRecord>

  /** A key has expired when it carries an expiry strictly before `now`. */
  predicate IsExpired(k: KeyRecord, now: int): (b: bool)
    ensures k.expiresAt.None? ==> !b
    ensures k.expiresAt == Some(now) ==> !b
  {
    k.expiresAt.Some? && k.expiresAt.value < now
  }

  /** Once expired, a key stays expired as time goes on. */
  lemma ExpiredStaysExpired(k: KeyRecord, now: int, later: int)
    requires IsExpired(k, now) && now <= later
    ensures IsExpired(k, later)
  {
  }

  /** No two rows share an activation key. */
  ghost predicate UniqueKeys(t: Table) {
    forall i, j :: i in t && j in t && i != j ==> t[i].activationKey != t[j].activationKey
  }

  ghost predicate Distinct(keys: seq<string>) {
    forall i, j :: 0 <= i < j < |keys| ==> keys[i] != keys[j]
  }

  /** None of `keys` is already the activation key of a row of `t`. */
  ghost predicate FreshFor(keys: seq<string>, t: Table) {
    forall i, id :: 0 <= i < |keys| && id in t ==> keys[i] != t[id].activationKey
  }

  // ----- toggle-lock: UPDATE ... SET is_locked = NOT is_locked WHERE id = $1 -----

  /** The table after flipping the lock of row `id`; nothing else changes. */
  function ToggledLock(t: Table, id: nat): (t': Table)
    ensures t'.Keys == t.Keys
    ensures id in t ==> t'[id].isLocked == !t[id].isLocked
    ensures id in t ==> t'[id].(isLocked := t[id].isLocked) == t[id]
    ensures forall j :: j in t && j != id ==> t'[j] == t[j]
  {
    if id in t then t[id := t[id].(isLocked := !t[id].isLocked)] else t
  }

  /** Toggling the same row twice restores the table. */
  lemma ToggleTwice(t: Table, id: nat)
    ensures ToggledLock(ToggledLock(t, id), id) == t
  {
    var t2 := ToggledLock(ToggledLock(t, id), id);
    assert forall j :: j in t ==> t2[j] == t[j];
  }

  /** Toggling keeps activation keys, hence their uniqueness. */
  lemma ToggleKeepsUniqueKeys(t: Table, id: nat)
    requires UniqueKeys(t)
    ensures UniqueKeys(ToggledLock(t, id))
  {
    var t' := ToggledLock(t, id);
    forall i, j | i in t' && j in t' && i != j
      ensures t'[i].activationKey != t'[j].activationKey
    {
      assert t'[i].activationKey == t[i].activationKey;
      assert t'[j].activationKey == t[j].activationKey;
    }
  }

  // ----- delete: DELETE FROM activation_keys WHERE id = $1 -----

  /** The table without row `id`; an absent id leaves the table as it was. */
  function Deleted(t: Table, id: nat): (t': Table)
    ensures t'.Keys == t.Keys - {id}
    ensures forall j :: j in t' ==> t'[j] == t[j]
    ensures id !in t ==> t' == t
  {
    t - {id}
  }

  // ----- batch create: POST /api/keys -----

  /** `parseInt(req.body.count) || 1`: NaN and 0 (also -0) fall back to 1. */
  function CountToCreate(countField: Option<string>): (c: int)
    ensures c != 0
  {
    var parsed := JsParseInt.ParseInt(countField);
    if parsed.None? || parsed.value == 0 then 1 else parsed.value
  }

  /** How many times `for (let i = 0; i < count; i++)` runs. */
  function LoopRuns(count: int): (n: nat)
    ensures count <= 0 ==> n == 0
    ensures count > 0 ==> n == count
  {
    if count < 0 then 0 else count
  }

  /** How many keys one request inserts. */
  function KeysToInsert(countField: Option<string>): (n: nat)
    ensures n == 0 <==> JsParseInt.ParseInt(countField).Some? && JsParseInt.ParseInt(countField).value < 0
    ensures JsParseInt.ParseInt(countField).None? ==> n == 1
  {
    LoopRuns(CountToCreate(countField))
  }

  /** `req.body.expires_at || null`: a missing or empty field means no expiry;
      the date text is converted by the database, here by `toTimestamp`. */
  function ExpiryOf(expiresField: Option<string>, toTimestamp: string -> int): (e: Option<int>)
    ensures e.None? <==> expiresField.None? || expiresField.value == ""
  {
    if expiresField.None? || expiresField.value == "" then None
    else Some(toTimestamp(expiresField.value))
  }

  /** The rows one batch inserts: ids `base`, `base + 1`, ... carrying the given
      fresh keys, all unactivated, unlocked, with the same expiry and creation time. */
  function NewBatch(base: nat, keys: seq<string>, expiresAt: Option<int>, now: int): (b: Table)
    ensures b.Keys == set j: nat | base <= j < base + |keys| && InRange(j, base, |keys|)
    ensures forall j :: j in b ==> base <= j < base + |keys|
    ensures forall j :: j in b ==> b[j] == KeyRecord(keys[j - base], false, false, expiresAt, now)
  {
    map j: nat | base <= j < base + |keys| && InRange(j, base, |keys|) :: KeyRecord(keys[j - base], false, false, expiresAt, now)
  }

  /** `j` is one of the n ids starting at `base` (a trigger for the comprehensions). */
  predicate InRange(j: nat, base: nat, n: nat) {
    base <= j < base + n
  }

  lemma {:induction false} RangeSize(base: nat, n: nat)
    ensures |set j: nat | base <= j < base + n && InRange(j, base, n)| == n
  {
    if n > 0 {
      var s := set j: nat | base <= j < base + n && InRange(j, base, n);
      var m: nat := n - 1;
      var s' := set j: nat | base <= j < base + m && InRange(j, base, m);
      assert s == s' + {base + m};
      RangeSize(base, m);
    }
  }

  /** A batch built from n keys holds exactly n rows. */
  lemma BatchSize(base: nat, keys: seq<string>, expiresAt: Option<int>, now: int)
    ensures |NewBatch(base, keys, expiresAt, now)| == |keys|
  {
    var b := NewBatch(base, keys, expiresAt, now);
    RangeSize(base, |keys|);
    assert |b| == |b.Keys|;
  }

  /** Distinct fresh keys give a batch whose keys clash neither with each other
      nor with the existing rows. */
  lemma BatchKeepsUniqueKeys(t: Table, base: nat, keys: seq<string>, expiresAt: Option<int>, now: int)
    requires UniqueKeys(t)
    requires forall id :: id in t ==> id < base
    requires Distinct(keys) && FreshFor(keys, t)
    ensures UniqueKeys(t + NewBatch(base, keys, expiresAt, now))
  {
    var b := NewBatch(base, keys, expiresAt, now);
    var u := t + b;
    forall i, j | i in u && j in u && i != j
      ensures u[i].activationKey != u[j].activationKey
    {
      if i in b && j in b {
        if i < j {
          assert keys[i - base] != keys[j - base];
        } else {
          assert keys[j - base] != keys[i - base];
        }
      } else if i in b {
        assert j in t && u[j] == t[j];
        assert keys[i - base] != t[j].activationKey;
      } else if j in b {
        assert i in t && u[i] == t[i];
        assert keys[j - base] != t[i].activationKey;
      }
    }
  }

  /** The rows present before a batch are still present and unchanged after it. */
  lemma BatchKeepsExistingRows(t: Table, base: nat, keys: seq<string>, expiresAt: Option<int>, now: int)
    requires forall id :: id in t ==> id < base
    ensures var u := t + NewBatch(base, keys, expiresAt, now);
      && (forall id :: id in t ==> id in u && u[id] == t[id])
      && |u| == |t| + |keys|
  {
    var b := NewBatch(base, keys, expiresAt, now);
    var u := t + b;
    assert t.Keys !! b.Keys;
    assert u.Keys == t.Keys + b.Keys;
    BatchSize(base, keys, expiresAt, now);
    assert |u.Keys| == |t.Keys| + |b.Keys|;
  }

  // ----- the count rule, case by case -----

  /** A missing count creates one key: `parseInt(undefined)` is NaN. */
  lemma MissingCountCreatesOne()
    ensures KeysToInsert(None) == 1
  {
    JsParseInt.ParseUnsignedText("undefined");
  }

  /** An empty count creates one key: `parseInt("")` is NaN. */
  lemma EmptyCountCreatesOne()
    ensures KeysToInsert(Some("")) == 1
  {
    JsParseInt.EmptyTextIsNaN();
  }

  /** Text that does not start with a number creates one key. */
  lemma NonNumericCountCreatesOne(text: string)
    requires JsParseInt.ParseIntText(text).None?
    ensures KeysToInsert(Some(text)) == 1
  {
  }

  /** "0" creates one key: 0 is falsy, so `|| 1` applies. */
  lemma ZeroCountCreatesOne()
    ensures KeysToInsert(Some("0")) == 1
  {
    assert JsParseInt.DecimalText(0) + "" == "0";
    JsParseInt.ParseDecimalPrefix(0, "");
  }

  /** A count text that parses to a non-zero number keeps that number. */
  lemma ParsedCountIsKept(text: string, v: int)
    requires JsParseInt.ParseIntText(text) == Some(v) && v != 0
    ensures CountToCreate(Some(text)) == v
  {
  }

  /** A positive decimal count, with any non-digit tail, creates that many keys. */
  lemma PositiveCountCreatesThatMany(n: nat, rest: string)
    requires n > 0
    requires rest == [] || !JsParseInt.IsDigit(rest[0], 10)
    ensures KeysToInsert(Some(JsParseInt.DecimalText(n) + rest)) == n
  {
    JsParseInt.ParseDecimalPrefix(n, rest);
    ParsedCountIsKept(JsParseInt.DecimalText(n) + rest, n);
  }

  /** A negative count creates no key: the loop condition fails at once. */
  lemma NegativeCountCreatesNone(n: nat, rest: string)
    requires n > 0
    requires rest == [] || !JsParseInt.IsDigit(rest[0], 10)
    ensures CountToCreate(Some("-" + JsParseInt.DecimalText(n) + rest)) == -(n as int)
    ensures KeysToInsert(Some("-" + JsParseInt.DecimalText(n) + rest)) == 0
  {
    JsParseInt.ParseNegativeDecimalPrefix(n, rest);
    ParsedCountIsKept("-" + JsParseInt.DecimalText(n) + rest, -(n as int));
  }
}
