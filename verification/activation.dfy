/** POST /api/activate in index.js: a read-only check of one activation key
    against the table, answering with the first failing rule. The update that
    would mark the key as activated is commented out in the source, so the
    check never changes the table. */
module Activation {
  import opened Optional
  import opened Keys

  datatype Response =
    | MissingKey        // 400: no `activation_key` in the body
    | UnknownKey        // 404: no row carries the key
    | AlreadyUsed       // 409: the row is activated
    | KeyLocked         // 403: the row is locked
    | KeyExpired        // 410: the row's expiry lies before now
    | KeyValid          // 200: `valid: true`

  function StatusCode(r: Response): (code: int)
    ensures code == 200 <==> r == KeyValid
    ensures 400 <= code < 500 <==> r != KeyValid
  {
    match r
    case MissingKey => 400
    case UnknownKey => 404
    case AlreadyUsed => 409
    case KeyLocked => 403
    case KeyExpired => 410
    case KeyValid => 200
  }

  /** `m` is the smallest element of `s`. */
  predicate IsLowest(m: nat, s: set<nat>) {
    m in s && forall x :: x in s ==> m <= x
  }

  lemma {:induction false} LowestExists(s: set<nat>)
    requires s != {}
    ensures exists m :: IsLowest(m, s)
  {
    var y :| y in s;
    if s == {y} {
      assert IsLowest(y, s);
    } else {
      var rest := s - {y};
      LowestExists(rest);
      var m :| IsLowest(m, rest);
      var low := if y < m then y else m;
      forall x | x in s
        ensures low <= x
      {
        if x != y { assert x in rest; }
      }
      assert IsLowest(low, s);
    }
  }

  function Lowest(s: set<nat>): (m: nat)
    requires s != {}
    ensures IsLowest(m, s)
  {
    LowestExists(s);
    var m :| IsLowest(m, s);
    m
  }

  /** `SELECT * ... WHERE activation_key = $1` and `result.rows[0]`: the row
      carrying the key, taking the lowest id should several carry it. */
  function Find(t: Table, key: string): (r: Option<nat>)
    ensures r.None? <==> forall id :: id in t ==> t[id].activationKey != key
    ensures r.Some? ==> r.value in t && t[r.value].activationKey == key
    ensures r.Some? ==> forall id :: id in t && t[id].activationKey == key ==> r.value <= id
  {
    var ids := set id | id in t && t[id].activationKey == key;
    assert forall id :: id in t && t[id].activationKey == key ==> id in ids;
    if ids == {} then None else Some(Lowest(ids))
  }

  /** The decision sequence of the handler, in the source's order: missing key,
      unknown key, activated, locked, expired, otherwise valid. */
  function Validate(t: Table, activationKey: Option<string>, now: int): (r: Response)
    ensures r == MissingKey <==> activationKey.None? || activationKey.value == ""
    ensures r == UnknownKey <==>
      && activationKey.Some? && activationKey.value != ""
      && forall id :: id in t ==> t[id].activationKey != activationKey.value
    ensures r == KeyValid ==>
      && activationKey.Some?
      && exists id :: id in t && t[id].activationKey == activationKey.value
                      && !t[id].isActivated && !t[id].isLocked && !IsExpired(t[id], now)
  {
    if activationKey.None? || activationKey.value == "" then MissingKey
    else match Find(t, activationKey.value)
      case None => UnknownKey
      case Some(id) =>
        var k := t[id];
        if k.isActivated then AlreadyUsed
        else if k.isLocked then KeyLocked
        else if IsExpired(k, now) then KeyExpired
        else KeyValid
  }

  /** A missing or empty key is answered with 400 whatever the table holds. */
  lemma MissingKeyIgnoresTable(t1: Table, t2: Table, activationKey: Option<string>, now: int)
    requires activationKey.None? || activationKey.value == ""
    ensures Validate(t1, activationKey, now) == Validate(t2, activationKey, now) == MissingKey
    ensures StatusCode(Validate(t1, activationKey, now)) == 400
  {
  }

  /** A non-empty key is answered with 404 exactly when no row carries it. */
  lemma UnknownKeyIff(t: Table, key: string, now: int)
    requires key != ""
    ensures Validate(t, Some(key), now) == UnknownKey <==>
            forall id :: id in t ==> t[id].activationKey != key
  {
  }

  /** With unique keys, the one row carrying the key decides, checked in the
      fixed order activated (409), locked (403), expired (410). */
  lemma DecidedByTheRow(t: Table, id: nat, now: int)
    requires UniqueKeys(t) && id in t && t[id].activationKey != ""
    ensures var k := t[id];
      Validate(t, Some(k.activationKey), now) ==
        if k.isActivated then AlreadyUsed
        else if k.isLocked then KeyLocked
        else if IsExpired(k, now) then KeyExpired
        else KeyValid
  {
    assert Find(t, t[id].activationKey) == Some(id);
  }

  /** A key that is activated, locked and expired at once is answered with 409. */
  lemma ActivatedOutranksLockAndExpiry(t: Table, id: nat, now: int)
    requires UniqueKeys(t) && id in t && t[id].activationKey != ""
    requires t[id].isActivated
    ensures StatusCode(Validate(t, Some(t[id].activationKey), now)) == 409
  {
    DecidedByTheRow(t, id, now);
  }

  /** A key expiring exactly now has not expired yet and still validates. */
  lemma ExpiryAtNowStillValid(t: Table, id: nat, now: int)
    requires UniqueKeys(t) && id in t && t[id].activationKey != ""
    requires !t[id].isActivated && !t[id].isLocked && t[id].expiresAt == Some(now)
    ensures Validate(t, Some(t[id].activationKey), now) == KeyValid
  {
    DecidedByTheRow(t, id, now);
  }

  /** 200 exactly when some row carries the key and that row is neither
      activated, locked nor expired. */
  lemma ValidIff(t: Table, key: string, now: int)
    requires UniqueKeys(t)
    ensures Validate(t, Some(key), now) == KeyValid <==>
      key != "" &&
      exists id :: id in t && t[id].activationKey == key &&
        !t[id].isActivated && !t[id].isLocked && !IsExpired(t[id], now)
  {
    if Validate(t, Some(key), now) == KeyValid {
      var id := Find(t, key).value;
      assert id in t && t[id].activationKey == key;
    }
    if key != "" && (exists id :: id in t && t[id].activationKey == key &&
                                  !t[id].isActivated && !t[id].isLocked && !IsExpired(t[id], now)) {
      var id :| id in t && t[id].activationKey == key &&
        !t[id].isActivated && !t[id].isLocked && !IsExpired(t[id], now);
      DecidedByTheRow(t, id, now);
    }
  }

  /** Locking the row of a valid key makes it answer 403; unlocking it again
      makes it valid again. */
  lemma LockingBlocksValidation(t: Table, id: nat, now: int)
    requires UniqueKeys(t) && id in t
    requires Validate(t, Some(t[id].activationKey), now) == KeyValid
    ensures Validate(ToggledLock(t, id), Some(t[id].activationKey), now) == KeyLocked
    ensures Validate(ToggledLock(ToggledLock(t, id), id), Some(t[id].activationKey), now) == KeyValid
  {
    var key := t[id].activationKey;
    DecidedByTheRow(t, id, now);
    ToggleKeepsUniqueKeys(t, id);
    DecidedByTheRow(ToggledLock(t, id), id, now);
    ToggleTwice(t, id);
  }

  /** Once its row is deleted, a key is answered with 404. */
  lemma DeletedKeyIsUnknown(t: Table, id: nat, now: int)
    requires UniqueKeys(t) && id in t && t[id].activationKey != ""
    ensures Validate(Deleted(t, id), Some(t[id].activationKey), now) == UnknownKey
  {
    var key := t[id].activationKey;
    var t' := Deleted(t, id);
    forall j | j in t'
      ensures t'[j].activationKey != key
    {
      assert j != id && t'[j] == t[j];
    }
  }

  /** Every key of a fresh batch validates until its expiry has passed. */
  lemma NewKeysValidate(t: Table, base: nat, uuids: seq<string>, expiresAt: Option<int>,
                        created: int, now: int, i: nat)
    requires UniqueKeys(t) && (forall id :: id in t ==> id < base)
    requires Distinct(uuids) && FreshFor(uuids, t)
    requires i < |uuids| && uuids[i] != ""
    requires expiresAt.None? || now <= expiresAt.value
    ensures Validate(t + NewBatch(base, uuids, expiresAt, created), Some(uuids[i]), now) == KeyValid
  {
    var u := t + NewBatch(base, uuids, expiresAt, created);
    BatchKeepsUniqueKeys(t, base, uuids, expiresAt, created);
    assert base + i in u && u[base + i].activationKey == uuids[i];
    DecidedByTheRow(u, base + i, now);
  }
}
