/** The server (POST /api/activate in index.js) and the console
    (public/js/main.js) judge the same flags in different orders: the server
    checks activated, locked, expired; the console shows expired, locked, used.
    These lemmas relate the two for one row and its listed view. */
module Precedence {
  import opened Optional
  import Keys
  import Activation
  import Console

  /** The console's view of a row: same flags, same expiry. */
  predicate SameFlags(k: Keys.KeyRecord, v: Console.KeyView) {
    && v.activationKey == k.activationKey
    && v.expiresAt == k.expiresAt
    && v.isLocked == k.isLocked
    && v.isActivated == k.isActivated
  }

  /** What the server answers for the row's own key, given keys are unique. */
  function ServerAnswer(t: Keys.Table, id: nat, now: int): (r: Activation.Response)
    requires Keys.UniqueKeys(t) && id in t && t[id].activationKey != ""
    ensures r != Activation.MissingKey && r != Activation.UnknownKey
  {
    Activation.DecidedByTheRow(t, id, now);
    Activation.Validate(t, Some(t[id].activationKey), now)
  }

  /** The server accepts a key exactly when the console shows it as unused. */
  lemma ValidIffUnused(t: Keys.Table, id: nat, v: Console.KeyView, now: int)
    requires Keys.UniqueKeys(t) && id in t && t[id].activationKey != ""
    requires SameFlags(t[id], v)
    ensures ServerAnswer(t, id, now) == Activation.KeyValid <==>
            Console.StatusOf(v, now) == Console.Unused
  {
    Activation.DecidedByTheRow(t, id, now);
  }

  /** A key the console shows as expired is refused with 409 when activated,
      else 403 when locked, and with 410 only when neither. */
  lemma ExpiredOnConsole(t: Keys.Table, id: nat, v: Console.KeyView, now: int)
    requires Keys.UniqueKeys(t) && id in t && t[id].activationKey != ""
    requires SameFlags(t[id], v)
    requires Console.StatusOf(v, now) == Console.Expired
    ensures ServerAnswer(t, id, now) ==
      if v.isActivated then Activation.AlreadyUsed
      else if v.isLocked then Activation.KeyLocked
      else Activation.KeyExpired
  {
    Activation.DecidedByTheRow(t, id, now);
  }

  /** A key the console shows as locked is refused with 409 when activated,
      else with 403. */
  lemma LockedOnConsole(t: Keys.Table, id: nat, v: Console.KeyView, now: int)
    requires Keys.UniqueKeys(t) && id in t && t[id].activationKey != ""
    requires SameFlags(t[id], v)
    requires Console.StatusOf(v, now) == Console.Locked
    ensures ServerAnswer(t, id, now) ==
      if v.isActivated then Activation.AlreadyUsed else Activation.KeyLocked
  {
    Activation.DecidedByTheRow(t, id, now);
  }

  /** A key the console shows as used is refused with 409. */
  lemma UsedOnConsole(t: Keys.Table, id: nat, v: Console.KeyView, now: int)
    requires Keys.UniqueKeys(t) && id in t && t[id].activationKey != ""
    requires SameFlags(t[id], v)
    requires Console.StatusOf(v, now) == Console.Used
    ensures ServerAnswer(t, id, now) == Activation.AlreadyUsed
  {
    Activation.DecidedByTheRow(t, id, now);
  }

  /** The two orders disagree: an activated key that has also expired shows as
      expired on the console while the server answers 409. */
  lemma OrdersDisagreeOnExpiredActivatedKey(t: Keys.Table, id: nat, v: Console.KeyView, now: int)
    requires Keys.UniqueKeys(t) && id in t && t[id].activationKey != ""
    requires SameFlags(t[id], v)
    requires v.isActivated && v.expiresAt.Some? && v.expiresAt.value < now
    ensures Console.StatusOf(v, now) == Console.Expired
    ensures Activation.StatusCode(ServerAnswer(t, id, now)) == 409
  {
    Activation.DecidedByTheRow(t, id, now);
  }
}
