/** The admin endpoints of index.js that change `activation_keys`, as a class
    whose `rows` field is the table and whose `nextId` is the id sequence. */
module Registry {
  import opened Optional
  import opened Keys

  class KeyStore {
    var rows: Table
    var nextId: nat

    /** Every row id was handed out by the sequence, and keys are unique. */
    ghost predicate Valid()
      reads this
    {
      && (forall id :: id in rows ==> id < nextId)
      && UniqueKeys(rows)
    }

    constructor ()
      ensures Valid()
      ensures rows == map[] && nextId == 1
    {
      rows := map[];
      nextId := 1;
    }

    /** POST /api/keys: reads the count and expiry fields, then inserts.
        `uuids` are the values successive `uuidv4()` calls return: pairwise
        distinct and unused. */
    method CreateKeys(countField: Option<string>, expiresField: Option<string>,
                      toTimestamp: string -> int, now: int, uuids: seq<string>)
      requires Valid()
      requires KeysToInsert(countField) <= |uuids|
      requires Distinct(uuids) && FreshFor(uuids, rows)
      modifies this
      ensures Valid()
      ensures nextId == old(nextId) + KeysToInsert(countField)
      ensures rows == old(rows) + NewBatch(old(nextId), uuids[..KeysToInsert(countField)],
                                           ExpiryOf(expiresField, toTimestamp), now)
    {
      var count := CountToCreate(countField);
      var expiresAt := ExpiryOf(expiresField, toTimestamp);
      InsertBatch(count, expiresAt, now, uuids);
    }

    /** The insert loop: `for (let i = 0; i < count; i++)`, one row per pass. */
    method InsertBatch(count: int, expiresAt: Option<int>, now: int, uuids: seq<string>)
      requires Valid()
      requires LoopRuns(count) <= |uuids|
      requires Distinct(uuids) && FreshFor(uuids, rows)
      modifies this
      ensures Valid()
      ensures nextId == old(nextId) + LoopRuns(count)
      ensures rows == old(rows) + NewBatch(old(nextId), uuids[..LoopRuns(count)], expiresAt, now)
    {
      ghost var t0, base := rows, nextId;
      var i := 0;
      while i < count
        invariant 0 <= i <= LoopRuns(count)
        invariant nextId == base + i
        invariant rows == t0 + NewBatch(base, uuids[..i], expiresAt, now)
        invariant Valid()
      {
        BatchStep(t0, rows, base, uuids, i, expiresAt, now);
        rows := rows[nextId := KeyRecord(uuids[i], false, false, expiresAt, now)];
        nextId := nextId + 1;
        i := i + 1;
      }
      assert i == LoopRuns(count);
    }

    /** POST /api/keys/:id/delete. */
    method DeleteKey(id: nat)
      requires Valid()
      modifies this
      ensures Valid()
      ensures rows == Deleted(old(rows), id) && nextId == old(nextId)
    {
      rows := rows - {id};
    }

    /** POST /api/keys/:id/toggle-lock. */
    method ToggleLock(id: nat)
      requires Valid()
      modifies this
      ensures Valid()
      ensures rows == ToggledLock(old(rows), id) && nextId == old(nextId)
    {
      ToggleKeepsUniqueKeys(rows, id);
      if id in rows {
        rows := rows[id := rows[id].(isLocked := !rows[id].isLocked)];
      }
    }
  }

  /** One more loop iteration adds exactly the next row of the batch and
      keeps keys unique; the ids so far all lie below the next one. */
  lemma BatchStep(t: Table, rows: Table, base: nat, uuids: seq<string>, i: nat, expiresAt: Option<int>, now: int)
    requires i < |uuids|
    requires forall id :: id in t ==> id < base
    requires UniqueKeys(t) && Distinct(uuids) && FreshFor(uuids, t)
    requires rows == t + NewBatch(base, uuids[..i], expiresAt, now)
    ensures rows[base + i := KeyRecord(uuids[i], false, false, expiresAt, now)]
            == t + NewBatch(base, uuids[..i + 1], expiresAt, now)
    ensures UniqueKeys(rows[base + i := KeyRecord(uuids[i], false, false, expiresAt, now)])
    ensures forall id :: id in rows ==> id < base + i
  {
    BatchGrows(t, base, uuids, i, expiresAt, now);
    var prefix := uuids[..i + 1];
    assert Distinct(prefix);
    assert FreshFor(prefix, t);
    BatchKeepsUniqueKeys(t, base, prefix, expiresAt, now);
  }

  lemma BatchGrows(t: Table, base: nat, uuids: seq<string>, i: nat, expiresAt: Option<int>, now: int)
    requires i < |uuids|
    requires forall id :: id in t ==> id < base
    ensures (t + NewBatch(base, uuids[..i], expiresAt, now))[base + i := KeyRecord(uuids[i], false, false, expiresAt, now)]
            == t + NewBatch(base, uuids[..i + 1], expiresAt, now)
  {
    var lhs := (t + NewBatch(base, uuids[..i], expiresAt, now))[base + i := KeyRecord(uuids[i], false, false, expiresAt, now)];
    var rhs := t + NewBatch(base, uuids[..i + 1], expiresAt, now);
    assert lhs.Keys == rhs.Keys;
    forall j | j in lhs
      ensures lhs[j] == rhs[j]
    {
      if base <= j < base + i {
        assert uuids[..i][j - base] == uuids[..i + 1][j - base];
      }
    }
  }

  /** The id the sequence hands out next is never in use, so an insert never
      overwrites an existing row. */
  lemma NextIdIsFree(store: KeyStore)
    requires store.Valid()
    ensures store.nextId !in store.rows
  {
  }
}
