/**
 The account auth coordinator (packages/accounts/src/auth-health.ts): for every
 identity and credential fingerprint, who refreshes a rejected credential, who
 waits for the refresh, and what survives a restart.
 */
module AuthHealth {
  import opened Wrappers

  datatype FailureKind = Network | RateLimited | ProviderFailure | ProtocolFailure

  type Status = s: nat | s == 401 || s == 403 witness 401

  datatype RuntimeState =
    | Unknown(fingerprint: string)
    | Accepted(fingerprint: string, acceptedAt: real)
    | Recovering(fingerprint: string, recoveryId: nat, attempts: nat, deferred: nat)
    | Probation(fingerprint: string, recoveryId: nat, deferred: nat)
    | Backoff(fingerprint: string, retryAt: real, attempts: nat, failureKind: FailureKind)
    | Rejected(fingerprint: string, status: Status, rejectedAt: real, reasonCode: string)

  /** What the waiters of a recovery are told. */
  datatype Outcome =
    | AcceptedOutcome(fingerprint: string)
    | UnknownOutcome(fingerprint: string)
    | BackoffOutcome(fingerprint: string, retryAt: real)
    | RejectedOutcome(fingerprint: string, status: Status)

  datatype Claim = Claim(identity: string, fingerprint: string, recoveryId: nat)

  datatype Snapshot =
    | Refreshing(fingerprint: string)
    | Settled(state: RuntimeState)
    | SupersededBy(currentFingerprint: string)

  datatype Recovery =
    | Owner(claim: Claim)
    | Waiter(deferred: nat)
    | Blocked(snapshot: Snapshot)
    | Superseded(currentFingerprint: string)

  datatype ProbationOutcome = IsAccepted | Inconclusive | IsRejected(status: Status, reasonCode: string)

  datatype RefreshFailure =
    | Permanent(status: Option<nat>, reasonCode: string)
    | Transient(failureKind: FailureKind, retryAfter: Option<real>)

  type Entries = map<string, RuntimeState>

  // ---- Keys ----

  const NUL: char := '\0'

  function EntryKey(identity: string, fingerprint: string): string {
    identity + [NUL] + fingerprint
  }

  predicate NulFree(s: string) {
    NUL !in s
  }

  /** The part of a key before its first NUL. */
  function IdentityOf(key: string): (r: string)
    ensures NulFree(r) && r <= key
  {
    if key == [] || key[0] == NUL then [] else [key[0]] + IdentityOf(key[1..])
  }

  function FingerprintOf(key: string): string {
    if IdentityOf(key) == key then key else key[|IdentityOf(key)| + 1..]
  }

  predicate BelongsTo(key: string, identity: string) {
    identity + [NUL] <= key
  }

  lemma {:induction false} KeyParts(identity: string, fingerprint: string)
    requires NulFree(identity)
    ensures IdentityOf(EntryKey(identity, fingerprint)) == identity
    ensures FingerprintOf(EntryKey(identity, fingerprint)) == fingerprint
  {
    var key := EntryKey(identity, fingerprint);
    if identity != [] {
      assert key[1..] == EntryKey(identity[1..], fingerprint);
      KeyParts(identity[1..], fingerprint);
    }
  }

  lemma EntryKeyInjective(i: string, f: string, j: string, g: string)
    requires NulFree(i) && NulFree(j)
    ensures EntryKey(i, f) == EntryKey(j, g) <==> i == j && f == g
  {
    KeyParts(i, f);
    KeyParts(j, g);
  }

  /** For NUL-free identities, the prefix test used by the coordinator is identity equality. */
  lemma BelongsToIdentity(identity: string, fingerprint: string, other: string)
    requires NulFree(identity) && NulFree(other)
    ensures BelongsTo(EntryKey(identity, fingerprint), other) <==> identity == other
  {
    var key := EntryKey(identity, fingerprint);
    if BelongsTo(key, other) {
      assert key == EntryKey(other, key[|other| + 1..]);
      EntryKeyInjective(identity, fingerprint, other, key[|other| + 1..]);
    }
  }

  // ---- Invariants ----

  predicate Live(s: RuntimeState) {
    s.Recovering? || s.Probation?
  }

  predicate Holds(s: RuntimeState, d: nat) {
    Live(s) && s.deferred == d
  }

  ghost predicate Held(entries: Entries, d: nat) {
    exists k :: k in entries && Holds(entries[k], d)
  }

  /**
   No lost waiter: the unsettled deferreds are exactly those held by recovering or
   probation entries, each by one entry, and each live entry has its own recovery.
   */
  ghost predicate Sound(entries: Entries, deferreds: seq<Option<Outcome>>, nextRecovery: nat) {
    && (forall k | k in entries && Live(entries[k]) ::
          entries[k].deferred < |deferreds| && deferreds[entries[k].deferred].None? && entries[k].recoveryId < nextRecovery)
    && (forall j, k | j in entries && k in entries && Live(entries[j]) && Live(entries[k]) && j != k ::
          entries[j].deferred != entries[k].deferred && entries[j].recoveryId != entries[k].recoveryId)
    && (forall d | 0 <= d < |deferreds| && deferreds[d].None? :: Held(entries, d))
    && (forall k | k in entries && entries[k].Backoff? :: entries[k].attempts > 0)
  }

  /** A deferred is written at most once. */
  ghost predicate WriteOnce(before: seq<Option<Outcome>>, after: seq<Option<Outcome>>) {
    |before| <= |after| && forall d | 0 <= d < |before| && before[d].Some? :: after[d] == before[d]
  }

  /** Every key is its entry's identity and fingerprint. */
  ghost predicate Keyed(entries: Entries) {
    forall k | k in entries :: k == EntryKey(IdentityOf(k), entries[k].fingerprint)
  }

  lemma KeyedUpdate(entries: Entries, identity: string, state: RuntimeState)
    requires Keyed(entries) && NulFree(identity)
    ensures Keyed(entries[EntryKey(identity, state.fingerprint) := state])
  {
    KeyParts(identity, state.fingerprint);
  }

  lemma KeyedLess(entries: Entries, keys: set<string>)
    ensures Keyed(entries) ==> Keyed(entries - keys)
  {
  }

  lemma KeyedSame(entries: Entries, key: string, state: RuntimeState)
    requires Keyed(entries) && key in entries && state.fingerprint == entries[key].fingerprint
    ensures Keyed(entries[key := state])
  {
  }

  /** Replacing or dropping one live entry while its deferred is settled keeps everything sound. */
  lemma SettleOne(entries: Entries, after: Entries, deferreds: seq<Option<Outcome>>, nextRecovery: nat, key: string,
                  outcome: Outcome)
    requires Sound(entries, deferreds, nextRecovery)
    requires key in entries && Live(entries[key])
    requires forall k | k in after && k != key :: k in entries && after[k] == entries[k]
    requires forall k | k in entries && k != key :: k in after
    requires key in after ==> !Live(after[key]) && (after[key].Backoff? ==> after[key].attempts > 0)
    ensures Sound(after, deferreds[entries[key].deferred := Some(outcome)], nextRecovery)
  {
    var d0 := entries[key].deferred;
    forall d | 0 <= d < |deferreds| && d != d0 && deferreds[d].None? ensures Held(after, d) {
      var k :| k in entries && Holds(entries[k], d);
      assert k in after && Holds(after[k], d);
    }
  }

  /** Starting a recovery where none is live adds one unsettled deferred, held by the new entry. */
  lemma NewRecovery(entries: Entries, deferreds: seq<Option<Outcome>>, nextRecovery: nat, key: string,
                    fingerprint: string, attempts: nat)
    requires Sound(entries, deferreds, nextRecovery)
    requires key in entries ==> !Live(entries[key])
    ensures Sound(entries[key := Recovering(fingerprint, nextRecovery, attempts, |deferreds|)], deferreds + [None], nextRecovery + 1)
  {
    var after := entries[key := Recovering(fingerprint, nextRecovery, attempts, |deferreds|)];
    forall d | 0 <= d < |deferreds| + 1 && (deferreds + [None])[d].None? ensures Held(after, d) {
      if d == |deferreds| {
        assert Holds(after[key], d);
      } else {
        var k :| k in entries && Holds(entries[k], d);
        assert k in after && Holds(after[k], d);
      }
    }
  }

  function Dropped(entries: Entries, key: string): (after: Entries)
    ensures Keyed(entries) ==> Keyed(after)
  {
    entries - {key}
  }

  /** Moving a live recovery to another key keeps everything sound unless that key holds another live recovery. */
  lemma MoveRecovery(entries: Entries, after: Entries, deferreds: seq<Option<Outcome>>, nextRecovery: nat,
                     key: string, newKey: string)
    requires Sound(entries, deferreds, nextRecovery)
    requires key in entries && entries[key].Recovering?
    requires newKey in after && after == (entries - {key})[newKey := after[newKey]]
    requires after[newKey].Probation? && after[newKey].recoveryId == entries[key].recoveryId && after[newKey].deferred == entries[key].deferred
    ensures Sound(after, deferreds, nextRecovery) <==> newKey == key || newKey !in entries || !Live(entries[newKey])
  {
    if newKey == key || newKey !in entries || !Live(entries[newKey]) {
      forall d | 0 <= d < |deferreds| && deferreds[d].None? ensures Held(after, d) {
        var k :| k in entries && Holds(entries[k], d);
        var k' := if k == key then newKey else k;
        assert k' in after && Holds(after[k'], d);
      }
    } else {
      assert forall k | k in after && k != newKey :: k in entries && k != key && after[k] == entries[k];
      assert !Held(after, entries[newKey].deferred);
    }
  }

  /** Writing an entry that is neither live nor a backoff over one that is not live keeps everything sound. */
  lemma NotBackoff(entries: Entries, after: Entries, deferreds: seq<Option<Outcome>>, nextRecovery: nat, key: string)
    requires Sound(entries, deferreds, nextRecovery)
    requires key in after && after == entries[key := after[key]]
    requires !Live(after[key]) && !after[key].Backoff? && (key in entries ==> !Live(entries[key]))
    ensures Sound(after, deferreds, nextRecovery)
  {
    SettleNone(entries, after, deferreds, nextRecovery);
  }

  lemma LiveDeferred(entries: Entries, deferreds: seq<Option<Outcome>>, nextRecovery: nat, key: string)
    requires Sound(entries, deferreds, nextRecovery) && key in entries && Live(entries[key])
    ensures entries[key].deferred < |deferreds| && deferreds[entries[key].deferred].None?
  {
  }

  lemma AttemptsPositive(entries: Entries, deferreds: seq<Option<Outcome>>, nextRecovery: nat)
    requires Sound(entries, deferreds, nextRecovery)
    ensures forall k | k in entries && entries[k].Backoff? :: entries[k].attempts > 0
  {
  }

  lemma SettleMoved(entries: Entries, deferreds: seq<Option<Outcome>>, nextRecovery: nat, key: string,
                    state: RuntimeState)
    requires Sound(entries, deferreds, nextRecovery)
    requires key in entries ==> !Live(entries[key])
    requires state.Backoff? ==> state.attempts > 0
    ensures Sound(entries[key := Moved(state)], deferreds, nextRecovery)
  {
    SettleNone(entries, entries[key := Moved(state)], deferreds, nextRecovery);
  }

  /** Changing entries that are not live, before and after, keeps everything sound. */
  lemma SettleNone(entries: Entries, after: Entries, deferreds: seq<Option<Outcome>>, nextRecovery: nat)
    requires Sound(entries, deferreds, nextRecovery)
    requires forall k | k in entries && Live(entries[k]) :: k in after && after[k] == entries[k]
    requires forall k | k in after && Live(after[k]) :: k in entries && after[k] == entries[k]
    requires forall k | k in after && after[k].Backoff? :: after[k].attempts > 0
    ensures Sound(after, deferreds, nextRecovery)
  {
    forall d | 0 <= d < |deferreds| && deferreds[d].None? ensures Held(after, d) {
      var k :| k in entries && Holds(entries[k], d);
      assert k in after && Holds(after[k], d);
    }
  }

  /** What removing the entries of `keys` does to the deferreds: their waiters are told "unknown", nobody else is told anything. */
  ghost predicate ToldUnknown(before: seq<Option<Outcome>>, after: seq<Option<Outcome>>, entries: Entries,
                              keys: set<string>) {
    && |after| == |before|
    && (forall k | k in keys && k in entries && Live(entries[k]) && entries[k].deferred < |before| ::
          after[entries[k].deferred] == Some(UnknownOutcome(entries[k].fingerprint)))
    && (forall d | 0 <= d < |before| && (forall k | k in keys && k in entries :: !Holds(entries[k], d)) :: after[d] == before[d])
  }

  lemma ToldNobody(deferreds: seq<Option<Outcome>>, entries: Entries)
    ensures WriteOnce(deferreds, deferreds)
    ensures ToldUnknown(deferreds, deferreds, entries, {})
  {
  }

  /** Telling the waiters of two sets of keys, one after the other. */
  lemma ToldBoth(d0: seq<Option<Outcome>>, d1: seq<Option<Outcome>>, d2: seq<Option<Outcome>>, entries: Entries,
                 later: Entries,
                 keys: set<string>, more: set<string>)
    requires ToldUnknown(d0, d1, entries, keys) && ToldUnknown(d1, d2, later, more) && WriteOnce(d0, d1) && WriteOnce(d1, d2)
    requires forall k | k in more :: (k in entries <==> k in later) && (k in later ==> later[k] == entries[k])
    ensures ToldUnknown(d0, d2, entries, keys + more) && WriteOnce(d0, d2)
  {
  }

  // ---- Retry delays ----

  function Pow2(n: nat): nat {
    if n == 0 then 1 else 2 * Pow2(n - 1)
  }

  function Min(a: int, b: int): int {
    if a <= b then a else b
  }

  function MaxReal(a: real, b: real): real {
    if a >= b then a else b
  }

  /** The backoff base in milliseconds after `attempts` failures. */
  function BackoffBase(attempts: nat): (base: int)
    requires attempts > 0
  {
    Min(300000, 5000 * Pow2(Min(6, attempts - 1)))
  }

  lemma {:induction false} BackoffBaseGrows(attempts: nat, later: nat)
    requires 0 < attempts <= later
    ensures 5000 <= BackoffBase(attempts) <= BackoffBase(later) <= 300000
    ensures attempts >= 7 ==> BackoffBase(attempts) == 300000
  {
    assert Pow2(0) == 1 && Pow2(1) == 2 && Pow2(2) == 4 && Pow2(3) == 8 && Pow2(4) == 16 && Pow2(5) == 32 && Pow2(6) == 64;
  }

  function ProviderDelay(retryAfter: Option<real>): real {
    MaxReal(0.0, retryAfter.GetOr(0.0)) * 1000.0
  }

  /** The delay before the next attempt; `random` is the source's number in [0, 1). */
  function RetryDelay(attempts: nat, random: real, retryAfter: Option<real>): (delay: real)
    requires attempts > 0 && 0.0 <= random < 1.0
    ensures delay >= ProviderDelay(retryAfter)
    ensures delay >= 0.8 * BackoffBase(attempts) as real
    ensures delay < 1.2 * BackoffBase(attempts) as real || delay == ProviderDelay(retryAfter)
  {
    BackoffBaseGrows(attempts, attempts);
    var base := BackoffBase(attempts) as real;
    MaxReal(Jittered(base, random), ProviderDelay(retryAfter))
  }

  function Jittered(base: real, random: real): (jittered: real)
    requires base > 0.0 && 0.0 <= random < 1.0
    ensures 0.8 * base <= jittered < 1.2 * base
  {
    Scale(base, random);
    base * (0.8 + random * 0.4)
  }

  lemma Scale(base: real, random: real)
    requires base > 0.0 && 0.0 <= random < 1.0
    ensures 0.8 * base <= base * (0.8 + random * 0.4) < 1.2 * base
  {
    assert base * (0.8 + random * 0.4) == 0.8 * base + 0.4 * (base * random);
    assert 0.0 <= base * random < base;
  }

  /** A recovery is refused while the credential is rejected or its backoff has not run out. */
  predicate Blocks(s: RuntimeState, now: real) {
    s.Rejected? || (s.Backoff? && s.retryAt > now)
  }

  /** Only a backoff carries its failures into the next recovery. */
  function AttemptsSoFar(s: RuntimeState): nat {
    if s.Backoff? then s.attempts else 0
  }

  /** What the waiters of a recovery hear when its entry ends in state `s`. */
  function Told(s: RuntimeState): Outcome {
    match s
    case Accepted(fp, _) => AcceptedOutcome(fp)
    case Backoff(fp, retryAt, _, _) => BackoffOutcome(fp, retryAt)
    case Rejected(fp, status, _, _) => RejectedOutcome(fp, status)
    case _ => UnknownOutcome(s.fingerprint)
  }

  function AfterProbation(fingerprint: string, outcome: ProbationOutcome, now: real): RuntimeState {
    match outcome
    case IsAccepted => Accepted(fingerprint, now)
    case Inconclusive => Unknown(fingerprint)
    case IsRejected(status, reasonCode) => Rejected(fingerprint, status, now, reasonCode)
  }

  function AfterFailure(fingerprint: string, attempts: nat, failure: RefreshFailure, now: real,
                        random: real): RuntimeState
    requires 0.0 <= random < 1.0
  {
    match failure
    case Permanent(status, reasonCode) => Rejected(fingerprint, if status == Some(403) then 403 else 401, now, reasonCode)
    case Transient(kind, retryAfter) => Backoff(fingerprint, now + RetryDelay(attempts + 1, random, retryAfter), attempts + 1, kind)
  }

  function PublicSnapshot(s: RuntimeState): Snapshot {
    if Live(s) then Refreshing(s.fingerprint) else Settled(s)
  }

  // ---- The coordinator ----

  class AccountAuthCoordinator {
    var entries: Entries
    var current: map<string, string>
    var deferreds: seq<Option<Outcome>>
    var nextRecovery: nat
    var closed: bool

    ghost predicate Valid()
      reads this
    {
      && Sound(entries, deferreds, nextRecovery)
      && (closed ==> forall d | 0 <= d < |deferreds| :: deferreds[d].Some?)
    }

    constructor (entries: Entries)
      requires forall k | k in entries :: !Live(entries[k]) && (entries[k].Backoff? ==> entries[k].attempts > 0)
      ensures Valid() && this.entries == entries && current == map[] && !closed
    {
      this.entries := entries;
      current, deferreds, nextRecovery, closed := map[], [], 0, false;
    }

    /** Nothing unsettled is left behind once the coordinator is closed. */
    lemma ClosedIsSettled()
      requires Valid() && closed
      ensures forall k | k in entries :: !Live(entries[k])
    {
    }

    /** At most one owner per key: a live claim names its entry, and two live claims are never the same recovery. */
    lemma OneOwner(a: Claim, b: Claim)
      requires Valid() && IsOwner(a) && IsOwner(b)
      ensures a.recoveryId == b.recoveryId <==> EntryKey(a.identity, a.fingerprint) == EntryKey(b.identity, b.fingerprint)
    {
    }

    /** The claim's recovery is still the one its key is waiting for. */
    predicate IsOwner(claim: Claim)
      reads this
    {
      var key := EntryKey(claim.identity, claim.fingerprint);
      key in entries && entries[key].Recovering? && entries[key].recoveryId == claim.recoveryId
    }

    method Register(identity: string, fingerprint: string) returns (r: Result<Snapshot>)
      requires Valid()
      modifies `entries, `current
      ensures Valid() && r.Err? == closed
      ensures closed ==> entries == old(entries) && current == old(current)
      ensures !closed ==>
                var key := EntryKey(identity, fingerprint);
                && current == (if identity in old(current) then old(current) else old(current)[identity := fingerprint])
                && entries == (if key in old(entries) then old(entries) else old(entries)[key := Unknown(fingerprint)])
                && r == Ok(PublicSnapshot(entries[key]))
      ensures old(Keyed(entries)) && NulFree(identity) ==> Keyed(entries)
    {
      hide Sound, Keyed, IdentityOf;
      if closed { return Err("account auth coordinator is closed"); }
      var key := EntryKey(identity, fingerprint);
      if identity !in current { current := current[identity := fingerprint]; }
      if key !in entries {
        ghost var before := entries;
        entries := entries[key := Unknown(fingerprint)];
        NotBackoff(before, entries, deferreds, nextRecovery, key);
        if Keyed(before) && NulFree(identity) { KeyedUpdate(before, identity, entries[key]); }
      }
      return Ok(PublicSnapshot(entries[key]));
    }

    method TakeSnapshot(identity: string, fingerprint: string) returns (r: Result<Snapshot>)
      requires Valid()
      modifies `entries, `current
      ensures Valid()
      ensures identity in old(current) && old(current)[identity] != fingerprint ==> r == Ok(SupersededBy(old(current)[identity]))
      ensures !(identity in old(current) && old(current)[identity] != fingerprint) ==>
                var key := EntryKey(identity, fingerprint);
                && (key in old(entries) ==> r == Ok(PublicSnapshot(old(entries)[key])) && entries == old(entries))
                && (key !in old(entries) && !closed ==> r == Ok(Settled(Unknown(fingerprint))) && key in entries)
                && (key !in old(entries) && closed ==> r.Err?)
      ensures forall k | k in old(entries) :: k in entries && entries[k] == old(entries)[k]
    {
      if identity in current && current[identity] != fingerprint {
        return Ok(SupersededBy(current[identity]));
      }
      var key := EntryKey(identity, fingerprint);
      if key in entries { return Ok(PublicSnapshot(entries[key])); }
      r := Register(identity, fingerprint);
    }

    /** An answer accepts a credential unless it is superseded, being recovered, waiting or rejected. */
    method MarkAccepted(identity: string, fingerprint: string, now: real) returns (marked: bool)
      requires Valid()
      modifies `entries, `current
      ensures Valid()
      ensures var key := EntryKey(identity, fingerprint);
              && marked == !((identity in old(current) && old(current)[identity] != fingerprint)
                             || (key in old(entries) && !old(entries)[key].Unknown? && !old(entries)[key].Accepted?))
              && entries == (if marked then old(entries)[key := Accepted(fingerprint, now)] else old(entries))
              && current == (if marked then old(current)[identity := fingerprint] else old(current))
      ensures old(Keyed(entries)) && NulFree(identity) ==> Keyed(entries)
    {
      hide Sound, Keyed, IdentityOf;
      if identity in current && current[identity] != fingerprint { return false; }
      var key := EntryKey(identity, fingerprint);
      if key in entries && (Live(entries[key]) || entries[key].Backoff? || entries[key].Rejected?) { return false; }
      ghost var before := entries;
      current := current[identity := fingerprint];
      entries := entries[key := Accepted(fingerprint, now)];
      NotBackoff(before, entries, deferreds, nextRecovery, key);
      if Keyed(before) && NulFree(identity) { KeyedUpdate(before, identity, entries[key]); }
      return true;
    }

    /** Who recovers a rejected credential: at most one owner, everybody else waits, is blocked or is superseded. */
    method BeginRecovery(identity: string, fingerprint: string, now: real) returns (r: Result<Recovery>)
      requires Valid()
      modifies `entries, `current, `deferreds, `nextRecovery
      ensures Valid() && WriteOnce(old(deferreds), deferreds) && r.Err? == closed
      ensures var key := EntryKey(identity, fingerprint);
              r.Ok? ==>
                && (r.value.Superseded? <==> key !in old(entries) && identity in old(current) && old(current)[identity] != fingerprint)
                && (r.value.Superseded? ==> r.value.currentFingerprint == old(current)[identity])
                && (r.value.Waiter? <==> key in old(entries) && Live(old(entries)[key]))
                && (r.value.Waiter? ==> Holds(old(entries)[key], r.value.deferred))
                && (r.value.Blocked? <==> (key in old(entries) && Blocks(old(entries)[key], now)))
                && (r.value.Blocked? ==> r.value.snapshot == PublicSnapshot(old(entries)[key]))
                && (r.value.Owner? ==>
                      && r.value.claim == Claim(identity, fingerprint, old(nextRecovery)) && IsOwner(r.value.claim)
                      && deferreds == old(deferreds) + [None] && nextRecovery == old(nextRecovery) + 1
                      && current == old(current)[identity := fingerprint]
                      && entries == old(entries)[key := Recovering(fingerprint, old(nextRecovery),
                           if key in old(entries) then AttemptsSoFar(old(entries)[key]) else 0, |old(deferreds)|)])
      ensures !(r.Ok? && r.value.Owner?) ==> entries == old(entries) && current == old(current) && deferreds == old(deferreds)
      ensures old(Keyed(entries)) && NulFree(identity) ==> Keyed(entries)
    {
      hide Sound, Keyed, IdentityOf;
      if closed { return Err("account auth coordinator is closed"); }
      var key := EntryKey(identity, fingerprint);
      if key !in entries && identity in current && current[identity] != fingerprint {
        return Ok(Superseded(current[identity]));
      }
      var state := if key in entries then entries[key] else Unknown(fingerprint);
      if Live(state) { return Ok(Waiter(state.deferred)); }
      if Blocks(state, now) { return Ok(Blocked(PublicSnapshot(state))); }
      var claim := Claim(identity, fingerprint, nextRecovery);
      NewRecovery(entries, deferreds, nextRecovery, key, fingerprint, AttemptsSoFar(state));
      ghost var before := entries;
      current := current[identity := fingerprint];
      entries := entries[key := Recovering(fingerprint, nextRecovery, AttemptsSoFar(state), |deferreds|)];
      deferreds := deferreds + [None];
      nextRecovery := nextRecovery + 1;
      if Keyed(before) && NulFree(identity) { KeyedUpdate(before, identity, entries[key]); }
      return Ok(Owner(claim));
    }

    /**
     The refreshed credential goes on probation under its new fingerprint, keeping
     the deferred. No waiter is lost exactly when the new key holds no other live
     recovery.
     */
    method MarkRefreshed(claim: Claim, newFingerprint: string) returns (marked: bool)
      requires Valid()
      modifies `entries, `current
      ensures marked == old(IsOwner(claim))
      ensures !marked ==> entries == old(entries) && current == old(current)
      ensures var key, newKey := EntryKey(claim.identity, claim.fingerprint), EntryKey(claim.identity, newFingerprint);
              marked ==>
                && current == old(current)[claim.identity := newFingerprint]
                && entries == (old(entries) - {key})[newKey := Probation(newFingerprint, claim.recoveryId, old(entries)[key].deferred)]
      ensures var key, newKey := EntryKey(claim.identity, claim.fingerprint), EntryKey(claim.identity, newFingerprint);
              Valid() <==> !marked || newKey == key || newKey !in old(entries) || !Live(old(entries)[newKey])
      ensures old(Keyed(entries)) && NulFree(claim.identity) ==> Keyed(entries)
    {
      hide Sound, Keyed, IdentityOf;
      if !IsOwner(claim) { return false; }
      var key, newKey := EntryKey(claim.identity, claim.fingerprint), EntryKey(claim.identity, newFingerprint);
      ghost var before := entries;
      var state := entries[key];
      current := current[claim.identity := newFingerprint];
      entries := entries - {key};
      entries := entries[newKey := Probation(newFingerprint, claim.recoveryId, state.deferred)];
      MoveRecovery(before, entries, deferreds, nextRecovery, key, newKey);
      if Keyed(before) && NulFree(claim.identity) { KeyedUpdate(Dropped(before, key), claim.identity, entries[newKey]); }
      return true;
    }

    /** The probation entry of a claim's recovery, if it belongs to the claim's identity. */
    method FindProbation(claim: Claim) returns (r: Option<string>)
      requires Valid()
      ensures r.Some? ==> r.value in entries && entries[r.value].Probation?
                          && entries[r.value].recoveryId == claim.recoveryId && IdentityOf(r.value) == claim.identity
      ensures r.None? ==> forall k | k in entries && entries[k].Probation? && entries[k].recoveryId == claim.recoveryId ::
                            IdentityOf(k) != claim.identity
    {
      var left := entries.Keys;
      while left != {}
        invariant left <= entries.Keys
        invariant forall k | k in entries.Keys - left :: !(entries[k].Probation? && entries[k].recoveryId == claim.recoveryId)
        decreases left
      {
        var key :| key in left;
        if entries[key].Probation? && entries[key].recoveryId == claim.recoveryId {
          if IdentityOf(key) != claim.identity { return None; }
          return Some(key);
        }
        left := left - {key};
      }
      assert entries.Keys - left == entries.Keys;
      return None;
    }

    /** The first answer after a refresh settles the recovery and tells every waiter. */
    method FinishProbation(claim: Claim, outcome: ProbationOutcome, now: real)
      returns (finished: bool, ghost key: string)
      requires Valid()
      modifies `entries, `deferreds
      ensures Valid() && WriteOnce(old(deferreds), deferreds)
      ensures finished <==> exists k :: k in old(entries) && old(entries)[k].Probation?
                                        && old(entries)[k].recoveryId == claim.recoveryId && IdentityOf(k) == claim.identity
      ensures !finished ==> entries == old(entries) && deferreds == old(deferreds)
      ensures finished ==>
                && key in old(entries) && old(entries)[key].Probation?
                && old(entries)[key].recoveryId == claim.recoveryId && IdentityOf(key) == claim.identity
                && var next := AfterProbation(old(entries)[key].fingerprint, outcome, now);
                   && entries == old(entries)[key := next]
                   && deferreds == old(deferreds)[old(entries)[key].deferred := Some(Told(next))]
      ensures old(Keyed(entries)) ==> Keyed(entries)
    {
      hide Keyed;
      key := "";
      var found := FindProbation(claim);
      if found.None? { return false, key; }
      key := found.value;
      var state := entries[found.value];
      var next := AfterProbation(state.fingerprint, outcome, now);
      SettleOne(entries, entries[key := next], deferreds, nextRecovery, key, Told(next));
      if Keyed(entries) { KeyedSame(entries, key, next); }
      entries := entries[found.value := next];
      deferreds := deferreds[state.deferred := Some(Told(next))];
      return true, key;
    }

    /** A failed refresh rejects the credential or backs off, and tells every waiter. */
    method FailRefresh(claim: Claim, failure: RefreshFailure, now: real, random: real) returns (failed: bool)
      requires Valid() && 0.0 <= random < 1.0
      modifies `entries, `deferreds
      ensures Valid() && WriteOnce(old(deferreds), deferreds)
      ensures failed == old(IsOwner(claim))
      ensures !failed ==> entries == old(entries) && deferreds == old(deferreds)
      ensures failed ==>
                var key := EntryKey(claim.identity, claim.fingerprint);
                var next := AfterFailure(claim.fingerprint, old(entries)[key].attempts, failure, now, random);
                && entries == old(entries)[key := next]
                && deferreds == old(deferreds)[old(entries)[key].deferred := Some(Told(next))]
      ensures old(Keyed(entries)) && NulFree(claim.identity) ==> Keyed(entries)
    {
      hide RetryDelay, Keyed;
      if !IsOwner(claim) { return false; }
      var key := EntryKey(claim.identity, claim.fingerprint);
      var state := entries[key];
      var next := AfterFailure(claim.fingerprint, state.attempts, failure, now, random);
      SettleOne(entries, entries[key := next], deferreds, nextRecovery, key, Told(next));
      if Keyed(entries) && NulFree(claim.identity) { KeyedUpdate(entries, claim.identity, next); }
      entries := entries[key := next];
      deferreds := deferreds[state.deferred := Some(Told(next))];
      return true;
    }

    /** Removes one entry, telling its waiters that the outcome is unknown. */
    method RemoveEntry(key: string)
      requires Valid()
      modifies `entries, `deferreds
      ensures Valid() && WriteOnce(old(deferreds), deferreds)
      ensures entries == old(entries) - {key}
      ensures ToldUnknown(old(deferreds), deferreds, old(entries), {key})
    {
      if key in entries && Live(entries[key]) {
        var state := entries[key];
        SettleOne(entries, entries - {key}, deferreds, nextRecovery, key, UnknownOutcome(state.fingerprint));
        entries := entries - {key};
        deferreds := deferreds[state.deferred := Some(UnknownOutcome(state.fingerprint))];
      } else {
        SettleNone(entries, entries - {key}, deferreds, nextRecovery);
        entries := entries - {key};
      }
    }

    method RemoveEntries(keys: set<string>)
      requires Valid()
      modifies `entries, `deferreds
      ensures Valid() && WriteOnce(old(deferreds), deferreds)
      ensures entries == old(entries) - keys
      ensures ToldUnknown(old(deferreds), deferreds, old(entries), keys)
    {
      hide Sound, ToldUnknown, WriteOnce;
      var left := keys;
      ToldNobody(deferreds, entries);
      assert keys - left == {};
      while left != {}
        invariant Valid() && left <= keys && WriteOnce(old(deferreds), deferreds)
        invariant entries == old(entries) - (keys - left)
        invariant ToldUnknown(old(deferreds), deferreds, old(entries), keys - left)
        decreases left
      {
        var key :| key in left;
        ghost var before, told := entries, deferreds;
        RemoveEntry(key);
        ToldBoth(old(deferreds), told, deferreds, old(entries), before, keys - left, {key});
        assert keys - (left - {key}) == keys - left + {key};
        left := left - {key};
      }
      assert keys - left == keys;
    }

    method Completion(identity: string, fingerprint: string) returns (r: Option<nat>)
      requires Valid()
      ensures var key := EntryKey(identity, fingerprint);
              && (r.Some? <==> key in entries && Live(entries[key]))
              && (r.Some? ==> r.value < |deferreds| && deferreds[r.value].None? && Holds(entries[key], r.value))
    {
      var key := EntryKey(identity, fingerprint);
      if key in entries && Live(entries[key]) {
        return Some(entries[key].deferred);
      }
      return None;
    }

    /** A newly stored credential supersedes every other fingerprint of its identity. */
    method ActivateFingerprint(identity: string, fingerprint: string)
      requires Valid()
      modifies `entries, `current, `deferreds
      ensures Valid() && WriteOnce(old(deferreds), deferreds)
      ensures current == old(current)[identity := fingerprint]
      ensures var key := EntryKey(identity, fingerprint);
              var others := set k | k in old(entries) && BelongsTo(k, identity) && k != key;
              && entries == (old(entries) - others)[key := if key in old(entries) then old(entries)[key] else Unknown(fingerprint)]
              && ToldUnknown(old(deferreds), deferreds, old(entries), others)
      ensures old(Keyed(entries)) && NulFree(identity) ==> Keyed(entries)
    {
      var key := EntryKey(identity, fingerprint);
      var others := set k | k in entries && BelongsTo(k, identity) && k != key;
      RemoveEntries(others);
      current := current[identity := fingerprint];
      AddUnknown(identity, fingerprint);
    }

    method AddUnknown(identity: string, fingerprint: string)
      requires Valid()
      modifies `entries
      ensures Valid()
      ensures var key := EntryKey(identity, fingerprint);
              entries == if key in old(entries) then old(entries) else old(entries)[key := Unknown(fingerprint)]
      ensures old(Keyed(entries)) && NulFree(identity) ==> Keyed(entries)
    {
      hide Sound, Keyed, IdentityOf;
      var key := EntryKey(identity, fingerprint);
      if key !in entries {
        ghost var before := entries;
        entries := entries[key := Unknown(fingerprint)];
        NotBackoff(before, entries, deferreds, nextRecovery, key);
        if Keyed(before) && NulFree(identity) { KeyedUpdate(before, identity, entries[key]); }
      }
    }

    /** Keeps exactly the active credentials: stale entries go, active ones that are missing start unknown. */
    method ReconcileActiveCredentials(active: map<string, string>)
      requires Valid()
      modifies `entries, `current, `deferreds
      ensures Valid() && WriteOnce(old(deferreds), deferreds)
      ensures current == active
      ensures forall i | i in active :: EntryKey(i, active[i]) in entries
      ensures forall k | k in entries ::
                || (k in old(entries) && IsActive(k, active) && entries[k] == old(entries)[k])
                || StartsUnknown(k, active, entries[k])
      ensures forall k | k in old(entries) && IsActive(k, active) :: k in entries && entries[k] == old(entries)[k]
      ensures ToldUnknown(old(deferreds), deferreds, old(entries), set k | k in old(entries) && !IsActive(k, active))
      ensures old(Keyed(entries)) && (forall i | i in active :: NulFree(i)) ==> Keyed(entries)
    {
      var stale := set k | k in entries && !IsActive(k, active);
      RemoveEntries(stale);
      ActivateAll(active);
    }

    method ActivateAll(active: map<string, string>)
      requires Valid()
      modifies `entries, `current
      ensures Valid() && current == active
      ensures forall i | i in active :: EntryKey(i, active[i]) in entries
      ensures forall k | k in old(entries) :: k in entries && entries[k] == old(entries)[k]
      ensures forall k | k in entries && k !in old(entries) :: StartsUnknown(k, active, entries[k])
      ensures old(Keyed(entries)) && (forall i | i in active :: NulFree(i)) ==> Keyed(entries)
    {
      hide Sound, Keyed, IdentityOf;
      current := map i | i in current && i in active :: current[i];
      var left := active.Keys;
      while left != {}
        invariant Valid() && left <= active.Keys
        invariant current.Keys <= active.Keys && forall i | i in active.Keys - left :: i in current && current[i] == active[i]
        invariant forall i | i in active.Keys - left :: EntryKey(i, active[i]) in entries
        invariant forall k | k in old(entries) :: k in entries && entries[k] == old(entries)[k]
        invariant forall k | k in entries && k !in old(entries) :: StartsUnknown(k, active, entries[k])
        invariant old(Keyed(entries)) && (forall i | i in active :: NulFree(i)) ==> Keyed(entries)
        decreases left
      {
        var i :| i in left;
        current := current[i := active[i]];
        AddUnknown(i, active[i]);
        assert active.Keys - (left - {i}) == active.Keys - left + {i};
        left := left - {i};
      }
      assert active.Keys - left == active.Keys;
      assert current.Keys == active.Keys;
    }

    method Remove(identity: string)
      requires Valid()
      modifies `entries, `current, `deferreds
      ensures Valid() && WriteOnce(old(deferreds), deferreds)
      ensures var gone := set k | k in old(entries) && BelongsTo(k, identity);
              entries == old(entries) - gone && ToldUnknown(old(deferreds), deferreds, old(entries), gone)
      ensures current == old(current) - {identity}
      ensures old(Keyed(entries)) ==> Keyed(entries)
    {
      RemoveEntries(set k | k in entries && BelongsTo(k, identity));
      current := current - {identity};
    }

    /**
     Renames an identity over another one. Pending recoveries on either side end
     as unknown and their waiters are told so; every other entry of the source
     moves to the target unchanged.
     */
    method Rename(source: string, target: string)
      requires Valid()
      modifies `entries, `current, `deferreds
      ensures Valid() && WriteOnce(old(deferreds), deferreds)
      ensures source == target ==> entries == old(entries) && current == old(current) && deferreds == old(deferreds)
      ensures source != target ==>
                && current == (if source in old(current) then (old(current) - {source, target})[target := old(current)[source]]
                               else old(current) - {source, target})
                && ToldUnknown(old(deferreds), deferreds, old(entries),
                               set k | k in old(entries) && (BelongsTo(k, source) || BelongsTo(k, target)))
                && (old(Keyed(entries)) && NulFree(source) && NulFree(target) ==> Renamed(old(entries), entries, source, target))
      ensures old(Keyed(entries)) && NulFree(target) ==> Keyed(entries)
    {
      hide Sound, Keyed, IdentityOf, ToldUnknown, Relocated, Renamed, WriteOnce;
      if source == target {
        ToldNobody(deferreds, entries);
        return;
      }
      var overwritten := set k | k in entries && BelongsTo(k, target);
      RemoveEntries(overwritten);
      ghost var between, cleared := deferreds, entries;
      KeyedLess(old(entries), overwritten);
      var moving := set k | k in entries && BelongsTo(k, source);
      MoveEntries(moving, target);
      ToldBoth(old(deferreds), between, deferreds, old(entries), cleared, overwritten, moving);
      assert overwritten + moving == set k | k in old(entries) && (BelongsTo(k, source) || BelongsTo(k, target));
      if Keyed(old(entries)) && NulFree(source) && NulFree(target) {
        MovedIsRenamed(old(entries), entries, source, target);
      }
      var currentOfSource := if source in current then Some(current[source]) else None;
      current := current - {source} - {target};
      if currentOfSource.Some? { current := current[target := currentOfSource.value]; }
    }

    /** Moves the entries at `moving` below `target`, which has no entries of its own. */
    method MoveEntries(moving: set<string>, target: string)
      requires Valid() && moving <= entries.Keys
      requires forall k | k in entries :: !BelongsTo(k, target)
      modifies `entries, `deferreds
      ensures Valid() && WriteOnce(old(deferreds), deferreds)
      ensures ToldUnknown(old(deferreds), deferreds, old(entries), moving)
      ensures Relocated(old(entries), entries, moving, target)
      ensures old(Keyed(entries)) && NulFree(target) ==> Keyed(entries)
    {
      hide Sound, Keyed, IdentityOf, ToldUnknown, Relocated, WriteOnce;
      var snapshot := entries;
      AttemptsPositive(entries, deferreds, nextRecovery);
      var left := moving;
      ToldNobody(deferreds, snapshot);
      RelocatedNone(snapshot, target);
      assert moving - left == {};
      while left != {}
        invariant Valid() && left <= moving && WriteOnce(old(deferreds), deferreds)
        invariant ToldUnknown(old(deferreds), deferreds, snapshot, moving - left)
        invariant Relocated(snapshot, entries, moving - left, target)
        invariant Keyed(snapshot) && NulFree(target) ==> Keyed(entries)
        decreases left
      {
        var key :| key in left;
        var state := snapshot[key];
        RelocatedRest(snapshot, entries, moving - left, target, key);
        assert moving - (left - {key}) == moving - left + {key};
        ghost var before, told := entries, deferreds;
        RemoveEntry(key);
        ToldBoth(old(deferreds), told, deferreds, snapshot, before, moving - left, {key});
        KeyedLess(before, {key});
        ghost var removed := entries;
        var newKey := EntryKey(target, state.fingerprint);
        entries := entries[newKey := Moved(state)];
        RelocateOne(snapshot, before, entries, moving - left, key, target);
        SettleMoved(removed, deferreds, nextRecovery, newKey, state);
        if Keyed(removed) && NulFree(target) { KeyedUpdate(removed, target, Moved(state)); }
        left := left - {key};
      }
      assert moving - left == moving;
    }

    /**
     Reads the stored state again: entries come from the file, pending recoveries
     are kept, and the last key of an identity, in map order, is its current
     fingerprint. `pending` lists the keys of the pending recoveries in that order. A
     file that cannot be decoded changes nothing.
     */
    method Reload(accounts: seq<PersistedEntry>, pending: seq<string>) returns (ok: bool)
      requires Valid() && forall k :: k in pending <==> k in entries && Live(entries[k])
      modifies `entries, `current
      ensures Valid() && ok == Decode(accounts).Ok?
      ensures !ok ==> entries == old(entries) && current == old(current)
      ensures ok ==>
                && entries == Decode(accounts).value + (map k | k in old(entries) && Live(old(entries)[k]) :: old(entries)[k])
                && current == CurrentOf(MapOrder(accounts, pending))
                && (forall k :: k in entries <==> k in MapOrder(accounts, pending))
                && (forall i :: i in current <==> exists k :: k in entries && IdentityOf(k) == i)
                && (forall i | i in current :: CurrentFrom(entries, i, current[i]))
      ensures old(Keyed(entries)) && (forall a | a in accounts :: NulFree(a.identity)) ==> Keyed(entries)
    {
      hide Sound, Keyed, IdentityOf, Decode, CurrentOf, SetAll;
      var decoded := DecodeAuthState(accounts);
      if decoded.Err? { return false; }
      DecodedIsSettled(accounts);
      DecodedKeys(accounts);
      ReloadKeeps(entries, decoded.value, deferreds, nextRecovery);
      entries := decoded.value + (map k | k in entries && Live(entries[k]) :: entries[k]);
      OrderMembers(accounts, pending);
      RebuildCurrent(MapOrder(accounts, pending));
      return true;
    }

    method RebuildCurrent(order: seq<string>)
      requires forall k :: k in entries <==> k in order
      modifies `current
      ensures current == CurrentOf(order)
      ensures forall i :: i in current <==> exists k :: k in entries && IdentityOf(k) == i
      ensures forall i | i in current :: CurrentFrom(entries, i, current[i])
    {
      hide IdentityOf;
      current := map[];
      for n := 0 to |order|
        invariant current == CurrentOf(order[..n])
      {
        assert order[..n + 1][..n] == order[..n];
        current := current[IdentityOf(order[n]) := FingerprintOf(order[n])];
      }
      assert order[..|order|] == order;
      forall i ensures i in current <==> exists k :: k in entries && IdentityOf(k) == i {
        LastDecides(order, i);
      }
      forall i | i in current ensures CurrentFrom(entries, i, current[i]) {
        LastDecides(order, i);
      }
    }

    /** Closing settles every pending recovery as unknown; nothing can be pending afterwards. */
    method Close()
      requires Valid()
      modifies `entries, `deferreds, `closed
      ensures Valid() && WriteOnce(old(deferreds), deferreds) && closed
      ensures old(closed) ==> entries == old(entries) && deferreds == old(deferreds)
      ensures entries == map k | k in old(entries) :: Moved(old(entries)[k])
      ensures ToldUnknown(old(deferreds), deferreds, old(entries), old(entries).Keys)
      ensures old(Keyed(entries)) ==> Keyed(entries)
    {
      hide Sound, Keyed, ToldUnknown, WriteOnce;
      if closed {
        ClosedStays(entries, deferreds, nextRecovery);
        return;
      }
      var left := entries.Keys;
      ToldNobody(deferreds, entries);
      assert entries.Keys - left == {};
      while left != {}
        invariant Valid() && !closed && left <= entries.Keys == old(entries).Keys
        invariant WriteOnce(old(deferreds), deferreds)
        invariant forall k | k in entries :: entries[k] == if k in left then old(entries)[k] else Moved(old(entries)[k])
        invariant ToldUnknown(old(deferreds), deferreds, old(entries), old(entries).Keys - left)
        invariant old(Keyed(entries)) ==> Keyed(entries)
        decreases left
      {
        var key :| key in left;
        assert old(entries).Keys - (left - {key}) == old(entries).Keys - left + {key};
        ghost var before, told := entries, deferreds;
        SettleEntry(key);
        ToldBoth(old(deferreds), told, deferreds, old(entries), before, old(entries).Keys - left, {key});
        left := left - {key};
      }
      assert old(entries).Keys - left == old(entries).Keys;
      assert entries == map k | k in old(entries) :: Moved(old(entries)[k]);
      AllSettled(entries, deferreds, nextRecovery);
      closed := true;
    }

    /** A pending entry becomes unknown and its waiters are told so; any other entry stays. */
    method SettleEntry(key: string)
      requires Valid() && !closed && key in entries
      modifies `entries, `deferreds
      ensures Valid() && WriteOnce(old(deferreds), deferreds)
      ensures entries == old(entries)[key := Moved(old(entries)[key])]
      ensures ToldUnknown(old(deferreds), deferreds, old(entries), {key})
      ensures old(Keyed(entries)) ==> Keyed(entries)
    {
      hide Sound, Keyed;
      ghost var before := entries;
      var state := entries[key];
      if Keyed(entries) { KeyedSame(entries, key, Moved(state)); }
      if Live(state) {
        LiveDeferred(entries, deferreds, nextRecovery, key);
        SettleOne(entries, entries[key := Moved(state)], deferreds, nextRecovery, key, UnknownOutcome(state.fingerprint));
        entries := entries[key := Moved(state)];
        deferreds := deferreds[state.deferred := Some(UnknownOutcome(state.fingerprint))];
      }
    }
  }

  /**
   A run that loses a waiter: both fingerprints of an identity are being recovered,
   and the first refresh yields the second fingerprint.
   */
  method LoseWaiter(identity: string, first: string, second: string, now: real)
    returns (c: AccountAuthCoordinator, lost: nat)
    requires first != second
    ensures lost < |c.deferreds| && c.deferreds[lost].None? && !Held(c.entries, lost)
    ensures !c.Valid()
  {
    hide Sound, Keyed;
    c := new AccountAuthCoordinator(map[]);
    var a, b := EntryKey(identity, first), EntryKey(identity, second);
    OtherFingerprint(identity, first, second);
    var r1 := c.Register(identity, first);
    var r2 := c.Register(identity, second);
    var one := c.BeginRecovery(identity, first, now);
    var two := c.BeginRecovery(identity, second, now);
    lost := c.entries[b].deferred;
    LiveDeferred(c.entries, c.deferreds, c.nextRecovery, b);
    OwnDeferreds(c.entries, c.deferreds, c.nextRecovery, a, b);
    var marked := c.MarkRefreshed(one.value.claim, second);
    assert forall k :: k in c.entries ==> k == b;
  }

  /**
   A refresh that has been marked can no longer be failed: the recovery stays on
   probation and its waiters are told nothing.
   */
  method FailAfterMark(c: AccountAuthCoordinator, claim: Claim, newFingerprint: string, failure: RefreshFailure,
                       now: real, random: real)
    returns (failed: bool)
    requires c.Valid() && c.IsOwner(claim) && 0.0 <= random < 1.0
    requires var key, newKey := EntryKey(claim.identity, claim.fingerprint), EntryKey(claim.identity, newFingerprint);
             newKey == key || newKey !in c.entries || !Live(c.entries[newKey])
    modifies c
    ensures !failed && c.Valid() && c.deferreds == old(c.deferreds)
    ensures var newKey := EntryKey(claim.identity, newFingerprint);
            && newKey in c.entries && c.entries[newKey].Probation? && c.entries[newKey].recoveryId == claim.recoveryId
            && c.entries[newKey].deferred < |c.deferreds| && c.deferreds[c.entries[newKey].deferred].None?
  {
    hide Sound, Keyed;
    var marked := c.MarkRefreshed(claim, newFingerprint);
    failed := c.FailRefresh(claim, failure, now, random);
    LiveDeferred(c.entries, c.deferreds, c.nextRecovery, EntryKey(claim.identity, newFingerprint));
  }

  /**
   Asking who recovers a credential that is on probation under one's own claim: the
   answer is to wait, for the deferred that only this claim, or the removal of its
   entry, settles.
   */
  method WaitsForItself(c: AccountAuthCoordinator, claim: Claim, newFingerprint: string, now: real)
    returns (r: Result<Recovery>)
    requires c.Valid() && !c.closed && c.IsOwner(claim)
    requires var key, newKey := EntryKey(claim.identity, claim.fingerprint), EntryKey(claim.identity, newFingerprint);
             newKey == key || newKey !in c.entries || !Live(c.entries[newKey])
    modifies c
    ensures c.Valid() && r.Ok? && r.value.Waiter?
    ensures r.value.deferred < |c.deferreds| && c.deferreds[r.value.deferred].None?
    ensures var newKey := EntryKey(claim.identity, newFingerprint);
            newKey in c.entries && c.entries[newKey] == Probation(newFingerprint, claim.recoveryId, r.value.deferred)
  {
    hide Sound, Keyed;
    var marked := c.MarkRefreshed(claim, newFingerprint);
    r := c.BeginRecovery(claim.identity, newFingerprint, now);
    LiveDeferred(c.entries, c.deferreds, c.nextRecovery, EntryKey(claim.identity, newFingerprint));
  }

  lemma OtherFingerprint(identity: string, first: string, second: string)
    requires first != second
    ensures EntryKey(identity, first) != EntryKey(identity, second)
  {
    assert EntryKey(identity, first)[|identity| + 1..] == first;
    assert EntryKey(identity, second)[|identity| + 1..] == second;
  }

  lemma OwnDeferreds(entries: Entries, deferreds: seq<Option<Outcome>>, nextRecovery: nat, j: string, k: string)
    requires Sound(entries, deferreds, nextRecovery) && j in entries && k in entries && j != k
    requires Live(entries[j]) && Live(entries[k])
    ensures entries[j].deferred != entries[k].deferred
  {}

  lemma ClosedStays(entries: Entries, deferreds: seq<Option<Outcome>>, nextRecovery: nat)
    requires Sound(entries, deferreds, nextRecovery) && forall d | 0 <= d < |deferreds| :: deferreds[d].Some?
    ensures entries == map k | k in entries :: Moved(entries[k])
    ensures ToldUnknown(deferreds, deferreds, entries, entries.Keys) && WriteOnce(deferreds, deferreds)
  {
  }

  lemma ReloadKeeps(entries: Entries, durable: Entries, deferreds: seq<Option<Outcome>>, nextRecovery: nat)
    requires Sound(entries, deferreds, nextRecovery)
    requires forall k | k in durable :: !Live(durable[k]) && (durable[k].Backoff? ==> durable[k].attempts > 0)
    ensures var after := durable + (map k | k in entries && Live(entries[k]) :: entries[k]);
            Sound(after, deferreds, nextRecovery) && (Keyed(entries) && Keyed(durable) ==> Keyed(after))
  {
    SettleNone(entries, durable + (map k | k in entries && Live(entries[k]) :: entries[k]), deferreds, nextRecovery);
  }

  lemma AllSettled(entries: Entries, deferreds: seq<Option<Outcome>>, nextRecovery: nat)
    requires Sound(entries, deferreds, nextRecovery) && forall k | k in entries :: !Live(entries[k])
    ensures forall d | 0 <= d < |deferreds| :: deferreds[d].Some?
  {
    forall d | 0 <= d < |deferreds| ensures deferreds[d].Some? {
      assert deferreds[d].Some? || Held(entries, d);
    }
  }

  // ---- Persistence ----

  datatype PersistedEntry =
    | PersistedBackoff(identity: string, fingerprint: string, retryAt: real, attempts: int, failureKind: FailureKind)
    | PersistedRejected(identity: string, fingerprint: string, status: nat, rejectedAt: real, reasonCode: string)

  const MAX_SAFE_INTEGER: int := 0x1F_FFFF_FFFF_FFFF

  predicate IsHex(c: char) {
    '0' <= c <= '9' || 'a' <= c <= 'f' || 'A' <= c <= 'F'
  }

  function ToLower(c: char): char {
    if 'A' <= c <= 'Z' then c - 'A' + 'a' else c
  }

  /** `sha256:` and 64 hexadecimal digits, in any case. */
  predicate IsFingerprint(s: string) {
    && |s| == 71
    && (forall i | 0 <= i < 7 :: ToLower(s[i]) == "sha256:"[i])
    && (forall i | 7 <= i < 71 :: IsHex(s[i]))
  }

  ghost predicate CurrentFrom(entries: Entries, identity: string, fingerprint: string) {
    exists k :: k in entries && IdentityOf(k) == identity && FingerprintOf(k) == fingerprint
  }

  /** A map lists its keys in the order in which they were first set. */
  function SetAll(order: seq<string>, keys: seq<string>): seq<string>
    decreases |keys|
  {
    if keys == [] then order
    else SetAll(if keys[0] in order then order else order + [keys[0]], keys[1..])
  }

  function KeysListed(accounts: seq<PersistedEntry>): seq<string> {
    seq(|accounts|, i requires 0 <= i < |accounts| => EntryKey(accounts[i].identity, accounts[i].fingerprint))
  }

  /** The order of the map that `reload` builds. */
  function MapOrder(accounts: seq<PersistedEntry>, pending: seq<string>): seq<string> {
    SetAll(SetAll([], KeysListed(accounts)), pending)
  }

  /** The current fingerprints that are rebuilt from keys in that order. */
  function CurrentOf(order: seq<string>): map<string, string> {
    if order == [] then map[]
    else
      var last := order[|order| - 1];
      CurrentOf(order[..|order| - 1])[IdentityOf(last) := FingerprintOf(last)]
  }

  lemma {:induction false} SetAllMembers(order: seq<string>, keys: seq<string>)
    ensures forall k :: k in SetAll(order, keys) <==> k in order || k in keys
    decreases |keys|
  {
    if keys != [] {
      SetAllMembers(if keys[0] in order then order else order + [keys[0]], keys[1..]);
      assert keys == [keys[0]] + keys[1..];
    }
  }

  lemma OrderMembers(accounts: seq<PersistedEntry>, pending: seq<string>)
    ensures forall k :: k in MapOrder(accounts, pending) <==> k in KeysListed(accounts) || k in pending
  {
    SetAllMembers([], KeysListed(accounts));
    SetAllMembers(SetAll([], KeysListed(accounts)), pending);
  }

  /** The fingerprint of the last key of the identity, which no later key has. */
  ghost predicate LastFor(order: seq<string>, identity: string, fingerprint: string) {
    exists n: nat :: IsLast(order, identity, fingerprint, n)
  }

  ghost predicate IsLast(order: seq<string>, identity: string, fingerprint: string, n: nat) {
    && n < |order| && IdentityOf(order[n]) == identity && FingerprintOf(order[n]) == fingerprint
    && forall m: nat :: n < m < |order| ==> IdentityOf(order[m]) != identity
  }

  /** An identity that has keys gets the fingerprint of its last one. */
  lemma {:induction false} LastDecides(order: seq<string>, identity: string)
    ensures identity in CurrentOf(order) <==> exists k :: k in order && IdentityOf(k) == identity
    ensures identity in CurrentOf(order) ==> LastFor(order, identity, CurrentOf(order)[identity])
    decreases |order|
  {
    hide IdentityOf;
    if order != [] {
      var n := |order| - 1;
      var (init, last) := (order[..n], order[n]);
      LastDecides(init, identity);
      assert order == init + [last];
      assert forall k :: k in order <==> k in init || k == last;
      if IdentityOf(last) == identity {
        assert last in order && IdentityOf(last) == identity;
        assert IsLast(order, identity, FingerprintOf(last), n);
      } else if identity in CurrentOf(init) {
        var m: nat :| IsLast(init, identity, CurrentOf(init)[identity], m);
        assert IsLast(order, identity, CurrentOf(init)[identity], m);
      }
    }
  }

  lemma {:induction false} DecodedKeys(accounts: seq<PersistedEntry>)
    requires Decode(accounts).Ok?
    ensures forall k :: k in Decode(accounts).value <==> k in KeysListed(accounts)
    decreases |accounts|
  {
    if accounts != [] {
      var n := |accounts| - 1;
      DecodedKeys(accounts[..n]);
      assert KeysListed(accounts) == KeysListed(accounts[..n]) + [EntryKey(accounts[n].identity, accounts[n].fingerprint)];
    }
  }

  predicate Acceptable(a: PersistedEntry) {
    && IsFingerprint(a.fingerprint)
    && match a
       case PersistedRejected(_, _, status, _, _) => status == 401 || status == 403
       case PersistedBackoff(_, _, _, attempts, _) => 0 < attempts <= MAX_SAFE_INTEGER
  }

  function StateOf(a: PersistedEntry): RuntimeState
    requires Acceptable(a)
  {
    match a
    case PersistedRejected(_, fp, status, rejectedAt, reasonCode) => Rejected(fp, status, rejectedAt, reasonCode)
    case PersistedBackoff(_, fp, retryAt, attempts, kind) => Backoff(fp, retryAt, attempts, kind)
  }

  /** Later entries win; one unacceptable entry makes the whole file invalid. */
  function Decode(accounts: seq<PersistedEntry>): Result<Entries>
    decreases |accounts|
  {
    if accounts == [] then Ok(map[])
    else
      var entries :- Decode(accounts[..|accounts| - 1]);
      var a := accounts[|accounts| - 1];
      if Acceptable(a) then Ok(entries[EntryKey(a.identity, a.fingerprint) := StateOf(a)])
      else Err("auth account state is invalid")
  }

  method DecodeAuthState(accounts: seq<PersistedEntry>) returns (r: Result<Entries>)
    ensures r == Decode(accounts)
  {
    var entries: Entries := map[];
    assert accounts[..0] == [];
    for i := 0 to |accounts|
      invariant Decode(accounts[..i]) == Ok(entries)
    {
      assert accounts[..i + 1][..i] == accounts[..i];
      if !Acceptable(accounts[i]) {
        DecodePrefix(accounts, i + 1);
        return Err("auth account state is invalid");
      }
      entries := entries[EntryKey(accounts[i].identity, accounts[i].fingerprint) := StateOf(accounts[i])];
    }
    assert accounts[..|accounts|] == accounts;
    return Ok(entries);
  }

  lemma {:induction false} DecodePrefix(accounts: seq<PersistedEntry>, n: nat)
    requires n <= |accounts| && Decode(accounts[..n]) == Err("auth account state is invalid")
    ensures Decode(accounts) == Err("auth account state is invalid")
    decreases |accounts| - n
  {
    if n == |accounts| {
      assert accounts[..n] == accounts;
    } else {
      assert accounts[..n + 1][..n] == accounts[..n];
      DecodePrefix(accounts, n + 1);
    }
  }

  /** What decoding yields: one settled entry for each account listed, nothing else. */
  lemma {:induction false} DecodedEntries(accounts: seq<PersistedEntry>)
    requires forall a | a in accounts :: Acceptable(a)
    ensures Decode(accounts).Ok?
    ensures forall k | k in Decode(accounts).value ::
              exists a :: a in accounts && k == EntryKey(a.identity, a.fingerprint) && Decode(accounts).value[k] == StateOf(a)
    ensures forall a | a in accounts :: EntryKey(a.identity, a.fingerprint) in Decode(accounts).value
    decreases |accounts|
  {
    if accounts != [] {
      var n := |accounts| - 1;
      DecodedEntries(accounts[..n]);
      assert accounts == accounts[..n] + [accounts[n]];
    }
  }

  lemma {:induction false} DecodedIsSettled(accounts: seq<PersistedEntry>)
    requires Decode(accounts).Ok?
    ensures forall k | k in Decode(accounts).value ::
              !Live(Decode(accounts).value[k]) && (Decode(accounts).value[k].Backoff? ==> Decode(accounts).value[k].attempts > 0)
    ensures (forall a | a in accounts :: NulFree(a.identity)) ==> Keyed(Decode(accounts).value)
    decreases |accounts|
  {
    if accounts != [] {
      var n := |accounts| - 1;
      DecodedIsSettled(accounts[..n]);
      assert accounts[n] in accounts && forall a | a in accounts[..n] :: a in accounts;
      if NulFree(accounts[n].identity) { KeyParts(accounts[n].identity, accounts[n].fingerprint); }
    }
  }

  predicate Persistable(s: RuntimeState) {
    s.Rejected? || s.Backoff?
  }

  function ToPersisted(key: string, s: RuntimeState): PersistedEntry
    requires Persistable(s)
  {
    match s
    case Rejected(fp, status, rejectedAt, reasonCode) => PersistedRejected(IdentityOf(key), fp, status, rejectedAt, reasonCode)
    case Backoff(fp, retryAt, attempts, kind) => PersistedBackoff(IdentityOf(key), fp, retryAt, attempts, kind)
  }

  /** `accounts` lists exactly the rejected and backoff entries, in any order. */
  ghost predicate Encodes(entries: Entries, accounts: seq<PersistedEntry>) {
    && (forall a | a in accounts :: exists k :: k in entries && Persistable(entries[k]) && a == ToPersisted(k, entries[k]))
    && (forall k | k in entries && Persistable(entries[k]) :: ToPersisted(k, entries[k]) in accounts)
  }

  method EncodeAuthState(entries: Entries) returns (accounts: seq<PersistedEntry>)
    ensures Encodes(entries, accounts)
    ensures |accounts| == |set k | k in entries && Persistable(entries[k])|
  {
    accounts := [];
    var left := entries.Keys;
    ghost var done: set<string> := {};
    while left != {}
      invariant left <= entries.Keys
      invariant done == set k | k in entries && k !in left && Persistable(entries[k])
      invariant |accounts| == |done|
      invariant forall a | a in accounts :: exists k :: k in entries && Persistable(entries[k]) && a == ToPersisted(k, entries[k])
      invariant forall k | k in done :: ToPersisted(k, entries[k]) in accounts
      decreases left
    {
      var key :| key in left;
      if Persistable(entries[key]) {
        accounts := accounts + [ToPersisted(key, entries[key])];
        done := done + {key};
      }
      left := left - {key};
    }
    assert done == set k | k in entries && Persistable(entries[k]);
  }

  /** Every state the coordinator can reach holds values its own decoder accepts. */
  predicate Storable(s: RuntimeState) {
    && IsFingerprint(s.fingerprint)
    && (s.Backoff? ==> 0 < s.attempts <= MAX_SAFE_INTEGER)
  }

  /** Persistence round trip: a restart finds exactly the rejected and backoff entries again. */
  lemma RoundTrip(entries: Entries, accounts: seq<PersistedEntry>)
    requires Keyed(entries) && Encodes(entries, accounts)
    requires forall k | k in entries && Persistable(entries[k]) :: Storable(entries[k])
    ensures Decode(accounts) == Ok(map k | k in entries && Persistable(entries[k]) :: entries[k])
  {
    hide IsFingerprint, IdentityOf, Decode, Encodes, Keyed;
    forall a | a in accounts ensures Acceptable(a) && Stored(entries, a) {
      ListedIsStored(entries, accounts, a);
    }
    DecodedEntries(accounts);
    var expected := map k | k in entries && Persistable(entries[k]) :: entries[k];
    var decoded := Decode(accounts).value;
    forall k | k in expected ensures k in decoded {
      PersistedIsListed(entries, accounts, k);
    }
    forall k | k in decoded ensures k in expected && decoded[k] == expected[k] {
      var a :| a in accounts && k == EntryKey(a.identity, a.fingerprint) && decoded[k] == StateOf(a);
      assert Stored(entries, a);
    }
    assert decoded == expected;
  }

  lemma PersistedIsListed(entries: Entries, accounts: seq<PersistedEntry>, k: string)
    requires Keyed(entries) && Encodes(entries, accounts) && k in entries && Persistable(entries[k])
    ensures var a := ToPersisted(k, entries[k]); a in accounts && k == EntryKey(a.identity, a.fingerprint)
  {
  }

  /** The account describes an entry that is persisted. */
  ghost predicate Stored(entries: Entries, a: PersistedEntry)
    requires Acceptable(a)
  {
    var key := EntryKey(a.identity, a.fingerprint);
    key in entries && entries[key] == StateOf(a) && Persistable(entries[key])
  }

  lemma ListedIsStored(entries: Entries, accounts: seq<PersistedEntry>, a: PersistedEntry)
    requires Keyed(entries) && Encodes(entries, accounts) && a in accounts
    requires forall k | k in entries && Persistable(entries[k]) :: Storable(entries[k])
    ensures Acceptable(a) && Stored(entries, a)
  {
    hide IsFingerprint, IdentityOf;
    var k :| k in entries && Persistable(entries[k]) && a == ToPersisted(k, entries[k]);
    assert k == EntryKey(a.identity, a.fingerprint);
  }

  /** The round trip of one entry holds exactly for identities without a NUL. */
  lemma RoundTripNeedsNulFree(identity: string, state: RuntimeState)
    requires Persistable(state) && Storable(state)
    ensures var key := EntryKey(identity, state.fingerprint);
            Decode([ToPersisted(key, state)]) == Ok(map[key := state]) <==> NulFree(identity)
  {
    var key := EntryKey(identity, state.fingerprint);
    var a := ToPersisted(key, state);
    assert [a][..0] == [];
    assert Decode([a]) == Ok(map[EntryKey(a.identity, a.fingerprint) := StateOf(a)]);
    if NulFree(identity) {
      KeyParts(identity, state.fingerprint);
    } else {
      assert |a.identity| <= |identity| && a.identity != identity by {
        ShorterIdentity(identity, state.fingerprint);
      }
      assert |EntryKey(a.identity, a.fingerprint)| < |key|;
      assert EntryKey(a.identity, a.fingerprint) in map[EntryKey(a.identity, a.fingerprint) := StateOf(a)];
      assert EntryKey(a.identity, a.fingerprint) !in map[key := state];
    }
  }

  lemma {:induction false} ShorterIdentity(identity: string, fingerprint: string)
    requires !NulFree(identity)
    ensures |IdentityOf(EntryKey(identity, fingerprint))| < |identity|
  {
    var key := EntryKey(identity, fingerprint);
    if identity[0] != NUL {
      assert identity == [identity[0]] + identity[1..];
      assert key[1..] == EntryKey(identity[1..], fingerprint);
      ShorterIdentity(identity[1..], fingerprint);
    }
  }

  // ---- Renaming ----

  /** What is left of a state when its key changes or the coordinator closes: a pending recovery becomes unknown. */
  function Moved(s: RuntimeState): RuntimeState {
    if Live(s) then Unknown(s.fingerprint) else s
  }

  ghost predicate StartsUnknown(key: string, active: map<string, string>, state: RuntimeState) {
    exists i :: i in active && key == EntryKey(i, active[i]) && state == Unknown(active[i])
  }

  predicate IsActive(key: string, active: map<string, string>) {
    IdentityOf(key) in active && active[IdentityOf(key)] == FingerprintOf(key)
  }

  /** `moved` keys of `before` sit below `target` in `after`; the rest has not changed. */
  ghost predicate Relocated(before: Entries, after: Entries, moved: set<string>, target: string) {
    && (forall k | k in after && !BelongsTo(k, target) :: k in before && k !in moved && after[k] == before[k])
    && (forall k | k in before && k !in moved :: k in after && after[k] == before[k])
    && (forall k | k in after && BelongsTo(k, target) ::
          exists j :: j in moved && j in before && k == EntryKey(target, before[j].fingerprint) && after[k] == Moved(before[j]))
    && (forall j | j in moved && j in before :: EntryKey(target, before[j].fingerprint) in after)
  }

  lemma RelocatedNone(entries: Entries, target: string)
    requires forall k | k in entries :: !BelongsTo(k, target)
    ensures Relocated(entries, entries, {}, target)
  {
  }

  lemma RelocatedRest(snapshot: Entries, entries: Entries, moved: set<string>, target: string, key: string)
    requires Relocated(snapshot, entries, moved, target) && key in snapshot && key !in moved
    ensures key in entries && entries[key] == snapshot[key]
    ensures forall k | k in entries && BelongsTo(k, target) :: !Live(entries[k])
  {
  }

  lemma RelocateOne(snapshot: Entries, before: Entries, after: Entries, moved: set<string>, key: string, target: string)
    requires Relocated(snapshot, before, moved, target)
    requires forall k | k in snapshot :: !BelongsTo(k, target)
    requires key in snapshot && key !in moved
    requires after == (before - {key})[EntryKey(target, snapshot[key].fingerprint) := Moved(snapshot[key])]
    ensures Relocated(snapshot, after, moved + {key}, target)
  {
    var newKey := EntryKey(target, snapshot[key].fingerprint);
    assert BelongsTo(newKey, target);
    forall k | k in after && BelongsTo(k, target)
      ensures exists j :: j in moved + {key} && j in snapshot && k == EntryKey(target, snapshot[j].fingerprint) && after[k] == Moved(snapshot[j])
    {
      if k == newKey {
        assert key in moved + {key};
      } else {
        var j :| j in moved && j in snapshot && k == EntryKey(target, snapshot[j].fingerprint) && before[k] == Moved(snapshot[j]);
        assert j in moved + {key};
      }
    }
  }

  ghost predicate Renamed(before: Entries, after: Entries, source: string, target: string) {
    && (forall k | k in after :: !BelongsTo(k, source))
    && (forall k | !BelongsTo(k, source) && !BelongsTo(k, target) :: (k in before <==> k in after) && (k in before ==> after[k] == before[k]))
    && (forall f :: EntryKey(target, f) in after <==> EntryKey(source, f) in before)
    && (forall f | EntryKey(source, f) in before :: EntryKey(target, f) in after && after[EntryKey(target, f)] == Moved(before[EntryKey(source, f)]))
  }

  lemma MovedIsRenamed(before: Entries, after: Entries, source: string, target: string)
    requires Keyed(before) && NulFree(source) && NulFree(target) && source != target
    requires var cleared := before - (set k | k in before && BelongsTo(k, target));
             Relocated(cleared, after, (set k | k in cleared && BelongsTo(k, source)), target)
    ensures Renamed(before, after, source, target)
  {
    var cleared := before - (set k | k in before && BelongsTo(k, target));
    var moving := set k | k in cleared && BelongsTo(k, source);
    forall f
      ensures EntryKey(target, f) in after <==> EntryKey(source, f) in before
      ensures EntryKey(source, f) in before ==> EntryKey(target, f) in after && after[EntryKey(target, f)] == Moved(before[EntryKey(source, f)])
    {
      var from, to := EntryKey(source, f), EntryKey(target, f);
      KeyParts(source, f);
      BelongsToIdentity(source, f, target);
      BelongsToIdentity(target, f, target);
      if from in before {
        assert from in moving && before[from].fingerprint == f by {
          assert from == EntryKey(IdentityOf(from), before[from].fingerprint);
          EntryKeyInjective(source, f, source, before[from].fingerprint);
          BelongsToIdentity(source, f, source);
        }
      }
      if to in after {
        var j :| j in moving && j in cleared && to == EntryKey(target, cleared[j].fingerprint) && after[to] == Moved(cleared[j]);
        EntryKeyInjective(target, f, target, cleared[j].fingerprint);
        assert j == EntryKey(IdentityOf(j), f);
        BelongsToIdentity(IdentityOf(j), f, source);
        assert j == from;
      }
    }
    forall k | k in after ensures !BelongsTo(k, source) {
      if BelongsTo(k, target) {
        var j :| j in moving && j in cleared && k == EntryKey(target, cleared[j].fingerprint) && after[k] == Moved(cleared[j]);
        BelongsToIdentity(target, cleared[j].fingerprint, source);
      }
    }
  }
}
