/**
 Failover of subscription requests: the pool selector's leases
 (packages/accounts/src/subscription-pool-selection.ts), the recovery of a
 rejected credential (packages/accounts/src/account-set.ts) and the executor's
 retry loop (packages/accounts/src/subscription-request-executor.ts).

 Other requests run between any two steps that wait. `PoolSelector.Interfere`
 stands for them: they may take and return leases of their own, never this
 request's.
 */
module SubscriptionExecutor {
  import opened Wrappers

  type Id = nat
  type Lease = nat

  type Claim = nat

  // ---- Claims on recoveries ----

  /** An entry that a claim owns is refreshing its credential, or has a refreshed one on probation. */
  datatype ClaimState = Refreshing | OnProbation

  /** The ways to leave a claim behind. */
  datatype Cause = RefreshDied | FingerprintUnreadable | NotPersisted | NoAttempt | AttemptThrew | NeverEnds

  datatype Fault = Fault(claim: Claim, cause: Cause)

  /**
   The claims of one request: those whose entry is open, with its state, and those
   whose entry others have removed or replaced; and the faults of the request so far.
   */
  datatype Claims = Claims(open: map<Claim, ClaimState>, takenAway: set<Claim>, next: Claim, faults: seq<Fault>)

  /** The claims that the request will still act on, and the state it expects them in. */
  type Hand = map<Claim, ClaimState>

  function Stranded(faults: seq<Fault>): set<Claim> {
    set f | f in faults :: f.claim
  }

  function StateAt(cause: Cause): ClaimState {
    if cause.RefreshDied? || cause.FingerprintUnreadable? then Refreshing else OnProbation
  }

  /**
   The open claims are exactly those in hand and those of the faults, each in the
   state that the request left it in, except for those that others took away.
   */
  ghost predicate Accounted(c: Claims, hand: Hand) {
    && c.open.Keys == Stranded(c.faults) + hand.Keys - c.takenAway
    && hand.Keys !! Stranded(c.faults)
    && (forall x | x in hand :: x < c.next) && (forall x | x in c.takenAway :: x < c.next)
    && (forall f | f in c.faults :: f.claim < c.next)
    && (forall x | x in hand && x in c.open :: c.open[x] == hand[x])
    && (forall f | f in c.faults && f.claim in c.open :: c.open[f.claim] == StateAt(f.cause))
  }

  /** The faults added are failed writes of a refreshed state, unless the request throws or hangs. */
  ghost predicate Excused(before: seq<Fault>, after: seq<Fault>, threw: bool) {
    before <= after && forall i | |before| <= i < |after| :: after[i].cause.NotPersisted? || threw
  }

  // ---- Waits ----

  /**
   Waiting for the outcome of a recovery: the one of the request's own claim, or
   somebody else's; with a lease in hand or without; and whether the wait ends.
   */
  datatype Wait = Wait(own: Option<Claim>, leased: bool, ends: bool)

  ghost predicate AllEnd(before: seq<Wait>, after: seq<Wait>) {
    before <= after && forall i | |before| <= i < |after| :: after[i].ends
  }

  /** Of the waits added, only the last one does not end, and only if the request hangs. */
  ghost predicate Waited(before: seq<Wait>, after: seq<Wait>, hangs: bool, leased: bool) {
    if !hangs then AllEnd(before, after)
    else
      && |before| < |after| && AllEnd(before, after[..|after| - 1])
      && !after[|after| - 1].ends && after[|after| - 1].leased == leased
  }

  lemma WaitedVia(a: seq<Wait>, b: seq<Wait>, c: seq<Wait>, hangs: bool, leased: bool)
    requires AllEnd(a, b) && Waited(b, c, hangs, leased)
    ensures Waited(a, c, hangs, leased)
  {
    var end := if hangs then c[..|c| - 1] else c;
    assert AllEnd(b, end);
    forall i | |a| <= i < |end| ensures end[i].ends {
      if i < |b| { assert end[i] == b[i]; }
    }
  }

  lemma ExcusedVia(a: seq<Fault>, b: seq<Fault>, threwFirst: bool, c: seq<Fault>, threw: bool)
    requires Excused(a, b, threwFirst) && Excused(b, c, threw)
    ensures Excused(a, c, threwFirst || threw)
  {
    forall i | |a| <= i < |c| ensures c[i].cause.NotPersisted? || threwFirst || threw {
      if i < |b| { assert c[i] == b[i]; }
    }
  }

  /** A claim whose entry is gone need not be kept in hand. */
  lemma LetGo(c: Claims, hand: Hand, claim: Claim)
    requires Accounted(c, hand) && claim in hand && claim !in c.open
    ensures Accounted(c, hand - {claim})
  {
  }

  lemma StrandedMore(faults: seq<Fault>, fault: Fault)
    ensures Stranded(faults + [fault]) == Stranded(faults) + {fault.claim}
  {
    assert fault in faults + [fault];
    forall x | x in Stranded(faults) ensures x in Stranded(faults + [fault]) {
      var f :| f in faults && f.claim == x;
      assert f in faults + [fault];
    }
  }

  // ---- The world around one request ----

  /**
   Everything the request cannot control. Answers are arbitrary, except that a
   recovery that settles nothing, and a wait inside the selector, can happen only
   finitely often: `neutral` and `stalls` are how often they still will.
   */
  class Environment {
    var neutral: nat
    var stalls: nat
    var claims: Claims
    var activityClosed: bool
    ghost var waits: seq<Wait>

    constructor (neutral: nat, stalls: nat)
      ensures this.neutral == neutral && this.stalls == stalls
      ensures Accounted(claims, map[]) && claims.faults == [] && waits == []
    {
      this.neutral, this.stalls, claims, activityClosed := neutral, stalls, Claims(map[], {}, 0, []), false;
      waits := [];
    }

    /** Others close the coordinators, or remove, rename or replace entries, and open claims with them. */
    method Others(ghost hand: Hand)
      requires Accounted(claims, hand)
      modifies `claims, `activityClosed
      ensures Accounted(claims, hand) && claims.faults == old(claims.faults)
    {
      var gone := Subset(claims.open.Keys);
      claims := claims.(open := claims.open - gone, takenAway := claims.takenAway + gone);
      if * { activityClosed := true; }
    }

    /** `beginRecovery`, for the owner. */
    method BeginRecovery(ghost hand: Hand) returns (claim: Claim)
      requires Accounted(claims, hand)
      modifies `claims
      ensures Accounted(claims, hand[claim := Refreshing]) && claim !in hand && claims.faults == old(claims.faults)
      ensures claim in claims.open
    {
      claim := claims.next;
      claims := claims.(open := claims.open[claim := Refreshing], next := claim + 1);
    }

    /** The claim's entry is taken away while its owner refreshes. */
    method Lose(claim: Claim, ghost hand: Hand)
      requires Accounted(claims, hand) && claim in hand
      modifies `claims
      ensures Accounted(claims, hand) && claim !in claims.open && claims.faults == old(claims.faults)
    {
      if claim in claims.open {
        claims := claims.(open := claims.open - {claim}, takenAway := claims.takenAway + {claim});
      }
    }

    /** `markRefreshed`: moves the entry to probation if the claim still owns it. */
    method MarkRefreshed(claim: Claim, ghost hand: Hand) returns (held: bool)
      requires Accounted(claims, hand) && claim in hand && hand[claim] == Refreshing
      modifies `claims
      ensures held == (claim in old(claims.open)) && claims.faults == old(claims.faults)
      ensures Accounted(claims, if held then hand[claim := OnProbation] else hand)
      ensures claim in claims.open <==> held
    {
      held := claim in claims.open && claims.open[claim] == Refreshing;
      if held { claims := claims.(open := claims.open[claim := OnProbation]); }
    }

    /** `failRefresh`: settles the claim only if its entry is still refreshing. */
    method FailRefresh(claim: Claim, ghost hand: Hand) returns (settled: bool)
      requires Accounted(claims, hand) && claim in hand
      modifies `claims
      ensures Accounted(claims, if hand[claim] == Refreshing then hand - {claim} else hand)
      ensures claims.faults == old(claims.faults) && (settled ==> hand[claim] == Refreshing)
    {
      settled := claim in claims.open && claims.open[claim] == Refreshing;
      if settled { claims := claims.(open := claims.open - {claim}); }
    }

    /** `finishProbation`: settles the claim if its entry is on probation. */
    method FinishProbation(claim: Claim, ghost hand: Hand)
      requires Accounted(claims, hand) && claim in hand && hand[claim] == OnProbation
      modifies `claims
      ensures Accounted(claims, hand - {claim}) && claims.faults == old(claims.faults)
    {
      if claim in claims.open && claims.open[claim] == OnProbation {
        claims := claims.(open := claims.open - {claim});
      }
    }

    /** A fault: the request lets go of a claim and does nothing about its entry. */
    method Strand(claim: Claim, cause: Cause, ghost hand: Hand)
      requires Accounted(claims, hand) && claim in hand && hand[claim] == StateAt(cause)
      modifies `claims
      ensures Accounted(claims, hand - {claim}) && claims.faults == old(claims.faults) + [Fault(claim, cause)]
    {
      StrandedMore(claims.faults, Fault(claim, cause));
      claims := claims.(faults := claims.faults + [Fault(claim, cause)]);
    }

    ghost function Logs(): Log
      reads this
    {
      Log(claims.faults, waits, neutral)
    }

    method Chance() returns (yes: bool) {
      yes := *;
    }

    method Stall() returns (yes: bool)
      modifies `stalls
      ensures yes ==> old(stalls) == stalls + 1
      ensures !yes ==> stalls == old(stalls)
    {
      yes := *;
      if yes && stalls > 0 { stalls := stalls - 1; } else { yes := false; }
    }

    method Subset(s: set<Id>) returns (r: set<Id>)
      ensures r <= s
    {
      r := {};
      var left := s;
      while left != {}
        invariant r <= s && left <= s
        decreases left
      {
        var m :| m in left;
        left := left - {m};
        if * { r := r + {m}; }
      }
    }

    /** The coordinator's answer when nothing is settled: superseded, a waiter told accepted or unknown, or a lost claim. */
    method Neutral() returns (yes: bool)
      modifies `neutral
      ensures yes ==> old(neutral) == neutral + 1
      ensures !yes ==> neutral == old(neutral)
    {
      yes := *;
      if yes && neutral > 0 { neutral := neutral - 1; } else { yes := false; }
    }
  }

  // ---- Recovering accounts ----

  /** `Failed` and `Died` end the request: an error that can be caught, and one that cannot. `Hangs` is no answer at all. */
  datatype Recovery = Claimed(claim: Claim) | ExcludesMember | SettlesNothing | Failed | Died | Hangs

  /**
   What a recovery adds to the faults: nothing if it claims, settles nothing or fails;
   otherwise one fault at most, which is a failed write unless the recovery died.
   */
  ghost predicate Leaves(before: seq<Fault>, after: seq<Fault>, answer: Recovery) {
    || after == before
    || (&& |after| == |before| + 1 && before <= after
        && match after[|before|].cause {
             case NotPersisted => answer.ExcludesMember? || answer.Died?
             case RefreshDied => answer.Died?
             case FingerprintUnreadable => answer.Died?
             case _ => false
           })
  }

  datatype Role = Superseded | Blocked | Waiter | Owner

  datatype Refresh = Refreshed | RefreshFails | RefreshDies

  /** Whether a credential can be used; `Throws` and `NoEnd` are not failures that can be caught. */
  datatype Freshness = Fresh | Stale | Throws | NoEnd

  datatype Ending = Succeeds | Fails | Dies

  /** The part of the account set that recovers credentials. */
  class Accounts {
    const env: Environment

    constructor (env: Environment)
      ensures this.env == env
    {
      this.env := env;
    }

    /**
     What a recovery brings (`#recoverAuthentication`): a claim to try the refreshed
     credential, the member's exclusion, nothing, an error, or a wait that does not
     end. A claim that is not handed on is settled, taken away by others, or one of
     the faults. `own` is the claim of the caller whose entry the recovery meets if it
     is still open.
     */
    method RecoverAuthentication(member: Id, excluded: set<Id>, own: Option<Claim>, alternative: bool, leased: bool,
                                 ghost hand: Hand)
      returns (answer: Recovery, excludedAfter: set<Id>)
      requires Accounted(env.claims, hand)
      requires own.Some? ==> own.value in hand && hand[own.value] == OnProbation
      modifies env`neutral, env`claims, env`activityClosed, env`waits
      ensures excludedAfter == if answer.ExcludesMember? then excluded + {member} else excluded
      ensures env.neutral <= old(env.neutral)
      ensures answer.SettlesNothing? && own.None? ==> env.neutral < old(env.neutral)
      ensures answer.Claimed? ==> answer.claim !in hand && !(own.Some? && own.value in old(env.claims.open))
      ensures Accounted(env.claims, if answer.Claimed? then hand[answer.claim := OnProbation] else hand)
      ensures Leaves(old(env.claims.faults), env.claims.faults, answer)
      ensures Excused(old(env.claims.faults), env.claims.faults, answer.Died?)
      ensures Waited(old(env.waits), env.waits, answer.Hangs?, leased)
      ensures if own.Some? && own.value in old(env.claims.open) && !alternative
              then env.waits == old(env.waits) + [Wait(own, leased, own.value !in env.claims.open)]
              else forall i | |old(env.waits)| <= i < |env.waits| :: env.waits[i].own.None?
    {
      excludedAfter := excluded;
      if own.Some? && own.value in env.claims.open {
        answer := AwaitItself(own.value, alternative, leased, hand);
      } else {
        var closed := env.Chance();
        var role := SomeRole();
        if closed { return Died, excluded; }
        match role {
          case Superseded =>
            answer := Synchronize();
          case Blocked =>
            answer := ExcludesMember;
          case Waiter =>
            answer := AwaitOwner(alternative, leased);
          case Owner =>
            answer := RefreshCredential(hand);
        }
      }
      if answer.ExcludesMember? { excludedAfter := excluded + {member}; }
    }

    method SomeRole() returns (role: Role) {
      role := *;
    }

    /** `#synchronizeCredential`: takes over the credential that another request refreshed, if it can be read. */
    method Synchronize() returns (answer: Recovery)
      modifies env`neutral
      ensures answer.SettlesNothing? || answer.Failed? || answer.Died?
      ensures env.neutral == old(env.neutral) - if answer.SettlesNothing? then 1 else 0
    {
      var synchronized := env.Neutral();
      if synchronized { return SettlesNothing; }
      var thrown := env.Chance();
      return if thrown then Died else Failed;
    }

    /** A waiter gives way to other members, or awaits the outcome of somebody else's recovery, which may never come. */
    method AwaitOwner(alternative: bool, leased: bool) returns (answer: Recovery)
      modifies env`neutral, env`waits
      ensures answer.SettlesNothing? || answer.Died? || answer.ExcludesMember? || answer.Hangs?
      ensures env.neutral == old(env.neutral) - if answer.SettlesNothing? then 1 else 0
      ensures env.waits == old(env.waits) + if alternative then [] else [Wait(None, leased, !answer.Hangs?)]
      ensures alternative ==> answer.ExcludesMember?
    {
      if alternative { return ExcludesMember; }
      var ends := env.Chance();
      env.waits := env.waits + [Wait(None, leased, ends)];
      if !ends { return Hangs; }
      var told := env.Neutral();
      if told { return SettlesNothing; }
      // An abort interrupts the wait, which is not a failure that can be caught.
      var aborted := env.Chance();
      return if aborted then Died else ExcludesMember;
    }

    /**
     A waiter for its own claim. Nobody but this request would settle it, so the wait
     ends exactly if others take the entry away meanwhile.
     */
    method AwaitItself(own: Claim, alternative: bool, leased: bool, ghost hand: Hand) returns (answer: Recovery)
      requires Accounted(env.claims, hand) && own in hand && own in env.claims.open
      modifies env`claims, env`activityClosed, env`waits
      ensures Accounted(env.claims, hand) && env.claims.faults == old(env.claims.faults)
      ensures answer.SettlesNothing? || answer.ExcludesMember? || answer.Hangs?
      ensures alternative <==> answer.ExcludesMember?
      ensures answer.Hangs? <==> !alternative && own in env.claims.open
      ensures env.waits == old(env.waits) + if alternative then [] else [Wait(Some(own), leased, own !in env.claims.open)]
    {
      if alternative { return ExcludesMember; }
      env.Others(hand);
      var ends := own !in env.claims.open;
      env.waits := env.waits + [Wait(Some(own), leased, ends)];
      return if ends then SettlesNothing else Hangs;
    }

    /** The owner's part: refreshes the credential and puts it on probation. */
    method RefreshCredential(ghost hand: Hand) returns (answer: Recovery)
      requires Accounted(env.claims, hand)
      modifies env`neutral, env`claims, env`activityClosed
      ensures env.neutral <= old(env.neutral) && (answer.SettlesNothing? ==> env.neutral < old(env.neutral))
      ensures answer.Claimed? ==> answer.claim !in hand
      ensures Accounted(env.claims, if answer.Claimed? then hand[answer.claim := OnProbation] else hand)
      ensures Leaves(old(env.claims.faults), env.claims.faults, answer)
      ensures !answer.Hangs?
    {
      hide Accounted;
      var claim := env.BeginRecovery(hand);
      ghost var held := hand[claim := Refreshing];
      assert held - {claim} == hand && held[claim := OnProbation] == hand[claim := OnProbation];
      var refresh := SomeRefresh();
      if refresh.RefreshDies? {
        env.Strand(claim, RefreshDied, held);
        return Died;
      }
      if refresh.RefreshFails? {
        answer := AfterFailure(claim, false, held);
        return;
      }
      var readable := env.Chance();
      if !readable {
        env.Strand(claim, FingerprintUnreadable, held);
        return Died;
      }
      answer := PutOnProbation(claim, held);
    }

    method SomeRefresh() returns (refresh: Refresh) {
      refresh := *;
    }

    /** The refreshed credential: marked, its cooldown reset, and handed on unless the caller has gone away. */
    method PutOnProbation(claim: Claim, ghost held: Hand) returns (answer: Recovery)
      requires Accounted(env.claims, held) && claim in held && held[claim] == Refreshing && claim in env.claims.open
      modifies env`neutral, env`claims, env`activityClosed
      ensures env.neutral <= old(env.neutral) && (answer.SettlesNothing? ==> env.neutral < old(env.neutral))
      ensures answer.Claimed? ==> answer.claim == claim
      ensures Accounted(env.claims, if answer.Claimed? then held[claim := OnProbation] else held - {claim})
      ensures Leaves(old(env.claims.faults), env.claims.faults, answer)
      ensures !answer.Hangs?
    {
      hide Accounted;
      var lost := env.Neutral();
      if lost { env.Lose(claim, held); }
      var marked := env.MarkRefreshed(claim, held);
      if !marked {
        var synchronized := env.Chance();
        var thrown := env.Chance();
        if !synchronized && !thrown {
          answer := AfterFailure(claim, false, held);
          return;
        }
        LetGo(env.claims, held, claim);
        return if synchronized then SettlesNothing else Died;
      }
      ghost var onProbation := held[claim := OnProbation];
      assert onProbation - {claim} == held - {claim};
      var persisted := env.Chance();
      if persisted {
        env.Others(onProbation);
        persisted := env.Chance();
      }
      if !persisted {
        answer := AfterFailure(claim, true, onProbation);
        return;
      }
      var aborted := env.Chance();
      if aborted {
        env.FinishProbation(claim, onProbation);
        return Died;
      }
      return Claimed(claim);
    }

    /** The handler of a failed refresh. It does nothing for a claim that is on probation already. */
    method AfterFailure(claim: Claim, marked: bool, ghost held: Hand) returns (answer: Recovery)
      requires Accounted(env.claims, held) && claim in held && held[claim] == if marked then OnProbation else Refreshing
      modifies env`claims
      ensures answer.ExcludesMember? || answer.Died? || (answer.Failed? && !marked)
      ensures Accounted(env.claims, held - {claim})
      ensures env.claims.faults == old(env.claims.faults) + if marked then [Fault(claim, NotPersisted)] else []
    {
      hide Accounted;
      var settled := env.FailRefresh(claim, held);
      if marked { env.Strand(claim, NotPersisted, held); }
      if settled {
        var persisted := env.Chance();
        if !persisted { return Failed; }
      }
      var aborted := env.Chance();
      return if aborted then Died else ExcludesMember;
    }

    /**
     `#ensureFresh`: refreshes a credential that is about to expire, for a lease in
     hand. A claim that it takes is settled again at once.
     */
    method EnsureFresh(member: Id) returns (r: Freshness)
      requires Accounted(env.claims, map[])
      modifies env`neutral, env`claims, env`activityClosed, env`waits
      ensures env.neutral <= old(env.neutral) && Accounted(env.claims, map[])
      ensures Excused(old(env.claims.faults), env.claims.faults, r.Throws?)
      ensures Waited(old(env.waits), env.waits, r.NoEnd?, true)
    {
      hide Accounted, Leaves, Excused, Waited, AllEnd;
      ghost var faults := env.claims.faults;
      NoFaults(faults);
      NoWaits(env.waits);
      NotStuck(env.waits, env.waits, true);
      env.Others(map[]);
      var synchronized := SomeEnding();
      var due := env.Chance();
      if synchronized.Dies? { return Throws; }
      if synchronized.Fails? { return Stale; }
      if !due { return Fresh; }
      var alternative := env.Chance();
      var answer, _ := RecoverAuthentication(member, {}, None, alternative, true, map[]);
      ExcusedVia(faults, faults, true, env.claims.faults, answer.Died?);
      if answer.Claimed? {
        env.FinishProbation(answer.claim, map[answer.claim := OnProbation]);
        assert map[answer.claim := OnProbation] - {answer.claim} == map[];
      }
      var settled := env.Chance();
      return if answer.Died? then Throws else if answer.Hangs? then NoEnd
             else if answer.Failed? || !settled then Stale else Fresh;
    }

    /** The selector awaits a recovery of some member when no member is eligible. */
    method AwaitRecovery() returns (r: Freshness)
      modifies env`waits
      ensures r.Fresh? || r.Throws? || r.NoEnd?
      ensures Waited(old(env.waits), env.waits, r.NoEnd?, false)
    {
      var ends := env.Chance();
      var aborted := env.Chance();
      env.waits := env.waits + [Wait(None, false, ends)];
      return if !ends then NoEnd else if aborted then Throws else Fresh;
    }

    /** Synchronizing credentials, clearing cooldowns, waiting for the ramp: these may fail, or throw. */
    method SomeEnding() returns (r: Ending) {
      r := *;
    }
  }

  // ---- Leases ----

  /** The leases of requests that are in flight on `m`. */
  ghost function InFlightOf(counted: set<Lease>, memberOf: map<Lease, Id>, m: Id): set<Lease> {
    set l | l in counted && l in memberOf && memberOf[l] == m
  }

  /** A member's counter is the number of its leases acquired and not yet released. */
  ghost predicate Conserved(inFlight: map<Id, int>, counted: set<Lease>, memberOf: map<Lease, Id>) {
    forall m | m in inFlight :: inFlight[m] == |InFlightOf(counted, memberOf, m)|
  }

  lemma InFlightMore(counted: set<Lease>, memberOf: map<Lease, Id>, lease: Lease, m: Id)
    requires lease in memberOf && lease !in counted
    ensures |InFlightOf(counted + {lease}, memberOf, m)| == |InFlightOf(counted, memberOf, m)| + if m == memberOf[lease] then 1 else 0
  {
    assert InFlightOf(counted + {lease}, memberOf, m) == InFlightOf(counted, memberOf, m) + if m == memberOf[lease] then {lease} else {};
  }

  lemma CountConserves(inFlight: map<Id, int>, counted: set<Lease>, memberOf: map<Lease, Id>, lease: Lease)
    requires Conserved(inFlight, counted, memberOf)
    requires lease in memberOf && lease !in counted && memberOf[lease] in inFlight
    ensures Conserved(inFlight[memberOf[lease] := inFlight[memberOf[lease]] + 1], counted + {lease}, memberOf)
  {
    forall m { InFlightMore(counted, memberOf, lease, m); }
  }

  lemma ReleaseConserves(inFlight: map<Id, int>, counted: set<Lease>, memberOf: map<Lease, Id>, lease: Lease)
    requires Conserved(inFlight, counted, memberOf)
    requires lease in memberOf && lease in counted && memberOf[lease] in inFlight
    ensures inFlight[memberOf[lease]] >= 1
    ensures Conserved(inFlight[memberOf[lease] := inFlight[memberOf[lease]] - 1], counted - {lease}, memberOf)
  {
    var rest := counted - {lease};
    assert counted == rest + {lease};
    forall m { InFlightMore(rest, memberOf, lease, m); }
  }

  /** The lease bookkeeping of the selector, as one value. */
  datatype View = View(counted: set<Lease>, leases: set<Lease>, memberOf: map<Lease, Id>, nextLease: Lease)

  /** Nothing has changed for the leases in `mine`. */
  ghost predicate Untouched(mine: set<Lease>, before: View, after: View) {
    && (forall l | l in mine && l in before.memberOf :: l in after.memberOf && after.memberOf[l] == before.memberOf[l])
    && (forall l | l in mine :: (l in after.counted <==> l in before.counted) && (l in after.leases <==> l in before.leases))
    && before.nextLease <= after.nextLease
  }

  lemma UntouchedVia(mine: set<Lease>, a: View, b: View, held: set<Lease>, c: View)
    requires Untouched(mine, a, b) && Untouched(held, b, c) && mine <= held
    ensures Untouched(mine, a, c)
  {
  }

  lemma UntouchedSelf(mine: set<Lease>, view: View)
    ensures Untouched(mine, view, view)
  {
  }

  /** What holding a lease means for its owner while others run. */
  lemma StillHeld(held: set<Lease>, lease: Lease, before: View, after: View)
    requires Untouched(held, before, after) && lease in held && lease in before.memberOf
    ensures lease in after.memberOf && after.memberOf[lease] == before.memberOf[lease]
    ensures (lease in after.counted <==> lease in before.counted) && (lease in after.leases <==> lease in before.leases)
    ensures before.nextLease <= after.nextLease
  {
  }

  /** A request for a lease is granted or refused, or it throws or does not end, perhaps with a lease that is not counted. */
  datatype Grant = Granted(lease: Lease) | Refused | Lost(held: Option<Lease>) | Waits(held: Option<Lease>)

  function LeaseOf(g: Grant): Option<Lease> {
    match g
    case Granted(lease) => Some(lease)
    case Refused => None
    case Lost(held) => held
    case Waits(held) => held
  }

  ghost predicate Returned(taken: set<Lease>, from: Lease, now: View) {
    forall l | l in taken :: from <= l < now.nextLease && l !in now.counted && l !in now.leases
  }

  /** Every lease taken is returned, except for the one that the answer holds, which is counted exactly if it is granted. */
  ghost predicate Took(g: Grant, taken: set<Lease>, from: Lease, now: View) {
    && (forall l | l in taken :: from <= l < now.nextLease)
    && (forall l | l in taken && LeaseOf(g) != Some(l) :: l !in now.counted && l !in now.leases)
    && (LeaseOf(g).Some? ==>
          && LeaseOf(g).value in taken && LeaseOf(g).value in now.leases && LeaseOf(g).value in now.memberOf
          && (LeaseOf(g).value in now.counted <==> g.Granted?))
  }

  lemma TookNothing(g: Grant, from: Lease, now: View)
    requires LeaseOf(g).None?
    ensures Took(g, {}, from, now)
  {
  }

  lemma TookOne(g: Grant, lease: Lease, from: Lease, now: View)
    requires LeaseOf(g) == Some(lease) && from <= lease < now.nextLease && lease in now.leases && lease in now.memberOf
    requires lease in now.counted <==> g.Granted?
    ensures Took(g, {lease}, from, now)
  {
  }

  lemma TookReturned(g: Grant, taken: set<Lease>, from: Lease, now: View)
    requires LeaseOf(g).None? && Returned(taken, from, now)
    ensures Took(g, taken, from, now)
  {
  }

  /** Leases returned before stay so while others run, and while more are taken. */
  lemma TookMore(g: Grant, mine: set<Lease>, taken: set<Lease>, more: set<Lease>, from: Lease, mid: View, now: View)
    requires Returned(taken, from, mid) && taken <= mine && Untouched(mine, mid, now) && from <= mid.nextLease
    requires Took(g, more, mid.nextLease, now)
    ensures Took(g, taken + more, from, now)
    ensures g.Refused? ==> Returned(taken + more, from, now)
  {
  }

  /** What a call adds to the log of faults and waits, and spends, given how it ends. */
  datatype Log = Log(faults: seq<Fault>, waits: seq<Wait>, neutral: nat)

  ghost predicate Logged(a: Log, b: Log, g: Grant) {
    && Excused(a.faults, b.faults, g.Lost?) && Waited(a.waits, b.waits, g.Waits?, LeaseOf(g).Some?)
    && b.neutral <= a.neutral
  }

  lemma LoggedNothing(log: Log, g: Grant)
    requires !g.Waits?
    ensures Logged(log, log, g)
  {
  }

  lemma LoggedVia(a: Log, b: Log, c: Log, g: Grant)
    requires Excused(a.faults, b.faults, false) && AllEnd(a.waits, b.waits) && b.neutral <= a.neutral && Logged(b, c, g)
    ensures Logged(a, c, g)
  {
    ExcusedVia(a.faults, b.faults, false, c.faults, g.Lost?);
    WaitedVia(a.waits, b.waits, c.waits, g.Waits?, LeaseOf(g).Some?);
  }

  lemma LoggedEnds(a: Log, b: Log, g: Grant)
    requires Logged(a, b, g) && !g.Lost? && !g.Waits?
    ensures Excused(a.faults, b.faults, false) && AllEnd(a.waits, b.waits) && b.neutral <= a.neutral
  {
  }

  /** Refreshing the credential of a leased member, as an answer to the request for the lease. */
  lemma LoggedFresh(a: Log, b: Log, r: Freshness, lease: Lease, g: Grant)
    requires Excused(a.faults, b.faults, r.Throws?) && Waited(a.waits, b.waits, r.NoEnd?, true) && b.neutral <= a.neutral
    requires (r.Throws? ==> g.Lost?) && (r.NoEnd? <==> g == Waits(Some(lease))) && (g.Waits? ==> r.NoEnd?)
    ensures Logged(a, b, g)
    ensures !r.Throws? && !r.NoEnd? ==> Excused(a.faults, b.faults, false) && AllEnd(a.waits, b.waits)
  {
  }

  class PoolSelector {
    const members: set<Id>
    var inFlight: map<Id, int>
    var leases: set<Lease>
    ghost var memberOf: map<Lease, Id>
    ghost var counted: set<Lease>
    var nextLease: Lease

    constructor (members: set<Id>)
      ensures Valid() && this.members == members && leases == {} && counted == {}
    {
      this.members := members;
      inFlight := map m | m in members :: 0;
      leases, memberOf, counted, nextLease := {}, map[], {}, 0;
      new;
      assert forall m | m in members :: InFlightOf(counted, memberOf, m) == {};
    }

    ghost predicate Valid()
      reads this
    {
      && counted <= leases <= memberOf.Keys
      && (forall l | l in memberOf :: l < nextLease && memberOf[l] in members)
      && inFlight.Keys == members
      && Conserved(inFlight, counted, memberOf)
    }

    ghost function Now(): View
      reads this
    {
      View(counted, leases, memberOf, nextLease)
    }

    /** Other requests take and return leases of their own. */
    method Interfere(ghost mine: set<Lease>)
      requires Valid()
      modifies this
      ensures Valid() && Untouched(mine, old(Now()), Now())
    {
    }

    /** The capacity pool grants a lease on one of `allowed`, or refuses. */
    method TakeLease(env: Environment, allowed: set<Id>) returns (r: Option<Lease>, member: Id)
      requires Valid() && allowed <= members
      modifies this
      ensures Valid() && counted == old(counted)
      ensures r.None? ==> leases == old(leases) && memberOf == old(memberOf) && nextLease == old(nextLease)
      ensures r.Some? ==>
                && r.value == old(nextLease) && r.value !in old(leases) && member in allowed
                && leases == old(leases) + {r.value} && memberOf == old(memberOf)[r.value := member] && nextLease == old(nextLease) + 1
      ensures forall mine: set<Lease> | (forall l | l in mine :: l < old(nextLease)) :: Untouched(mine, old(Now()), Now())
    {
      member := 0;
      var granted := env.Chance();
      if allowed == {} || !granted { return None, member; }
      member :| member in allowed;
      ghost var before := memberOf;
      r := Some(nextLease);
      assert forall m :: InFlightOf(counted, memberOf[nextLease := member], m) == InFlightOf(counted, memberOf, m);
      leases := leases + {nextLease};
      memberOf := memberOf[nextLease := member];
      nextLease := nextLease + 1;
    }

    /** Returning a lease is idempotent. */
    method ReturnLease(lease: Lease)
      requires Valid() && lease !in counted
      modifies `leases
      ensures Valid() && leases == old(leases) - {lease}
      ensures forall mine: set<Lease> | lease !in mine :: Untouched(mine, old(Now()), Now())
    {
      leases := leases - {lease};
    }

    method Count(lease: Lease, member: Id)
      requires Valid() && lease in leases && lease !in counted && memberOf[lease] == member
      modifies `inFlight, `counted
      ensures Valid() && counted == old(counted) + {lease}
      ensures inFlight == old(inFlight)[member := old(inFlight)[member] + 1]
      ensures forall mine: set<Lease> | lease !in mine :: Untouched(mine, old(Now()), Now())
    {
      hide Conserved;
      CountConserves(inFlight, counted, memberOf, lease);
      inFlight := inFlight[member := inFlight[member] + 1];
      counted := counted + {lease};
    }

    /** Releases a request in flight. The source clamps the counter at zero; the clamp never fires. */
    method Release(lease: Lease, member: Id)
      requires Valid() && lease in counted && memberOf[lease] == member
      modifies `inFlight, `counted, `leases
      ensures Valid() && counted == old(counted) - {lease} && leases == old(leases) - {lease}
      ensures old(inFlight)[member] >= 1 && inFlight == old(inFlight)[member := old(inFlight)[member] - 1]
      ensures forall mine: set<Lease> | lease !in mine :: Untouched(mine, old(Now()), Now())
    {
      hide Conserved;
      ReleaseConserves(inFlight, counted, memberOf, lease);
      inFlight := inFlight[member := if inFlight[member] - 1 < 0 then 0 else inFlight[member] - 1];
      counted := counted - {lease};
      leases := leases - {lease};
    }

    /**
     Acquires a lease on a member that is eligible and not excluded. A lease that
     turns out useless is returned; a member that fails while others are left is
     excluded. What throws, or does not end, while a leased member's credential is
     refreshed or its ramp awaited keeps that lease, which is not counted.
     */
    method Acquire(accounts: Accounts, excluded: set<Id>, ghost mine: set<Lease>)
      returns (g: Grant, member: Id, excludedAfter: set<Id>, ghost taken: set<Lease>)
      requires Valid() && excluded <= members && Accounted(accounts.env.claims, map[])
      requires forall l | l in mine :: l < nextLease
      modifies this, accounts.env
      decreases |members - excluded|, accounts.env.stalls, 2
      ensures Valid() && Untouched(mine, old(Now()), Now()) && accounts.env.stalls <= old(accounts.env.stalls)
      ensures Accounted(accounts.env.claims, map[]) && Logged(old(accounts.env.Logs()), accounts.env.Logs(), g)
      ensures excluded <= excludedAfter <= members
      ensures Took(g, taken, old(nextLease), Now())
      ensures g.Granted? ==> memberOf[g.lease] == member && member in members && member !in excludedAfter
    {
      hide Conserved, Untouched, Accounted, Took, Logged, Excused, Waited, AllEnd;
      g, member, excludedAfter, taken := Refused, 0, excluded, {};
      ghost var log := accounts.env.Logs();
      LoggedNothing(log, Refused);
      LoggedNothing(log, Lost(None));
      var ready := accounts.SomeEnding();
      Interfere(mine);
      NextGrows(mine, old(Now()), Now());
      TookNothing(Refused, old(nextLease), Now());
      TookNothing(Lost(None), old(nextLease), Now());
      if !ready.Succeeds? {
        g := if ready.Dies? then Lost(None) else Refused;
        return;
      }
      var eligible := accounts.env.Subset(members - excluded);
      if eligible == {} {
        g, member, excludedAfter, taken := AwaitEligible(accounts, excluded, mine, old(Now()));
        LoggedVia(log, log, accounts.env.Logs(), g);
        return;
      }
      ghost var before := Now();
      var lease, on := TakeLease(accounts.env, eligible);
      UntouchedVia(mine, old(Now()), before, mine, Now());
      if lease.None? {
        TookNothing(Refused, old(nextLease), Now());
        return;
      }
      ghost var held := mine + {lease.value};
      ghost var start := Now();
      Interfere(held);
      StillHeld(held, lease.value, start, Now());
      UntouchedVia(mine, old(Now()), start, held, Now());
      g, member, excludedAfter, taken := UseLease(accounts, lease.value, on, excluded, mine, old(Now()));
    }

    /** A lease on exactly one member, for the attempt that follows its credential refresh. */
    method AcquireProbation(env: Environment, on: Id, ghost mine: set<Lease>) returns (g: Grant, ghost taken: set<Lease>)
      requires Valid() && on in members
      requires forall l | l in mine :: l < nextLease
      modifies this
      ensures Valid() && Untouched(mine, old(Now()), Now())
      ensures g.Granted? || g.Refused?
      ensures Took(g, taken, old(nextLease), Now())
      ensures g.Granted? ==> memberOf[g.lease] == on
    {
      hide Conserved, Untouched, Took;
      g, taken := Refused, {};
      var aborted := env.Chance();
      if aborted {
        UntouchedSelf(mine, Now());
        TookNothing(g, nextLease, Now());
        return;
      }
      Interfere(mine);
      NextGrows(mine, old(Now()), Now());
      ghost var before := Now();
      var granted, member := TakeLease(env, {on});
      UntouchedVia(mine, old(Now()), before, mine, Now());
      TookNothing(g, old(nextLease), Now());
      if granted.Some? {
        before := Now();
        Count(granted.value, on);
        UntouchedVia(mine, old(Now()), before, mine, Now());
        g, taken := Granted(granted.value), {granted.value};
        TookOne(g, granted.value, old(nextLease), Now());
      }
    }

    /** Nobody is eligible: awaits a recovery of some member, if there is one, and tries again. */
    method AwaitEligible(accounts: Accounts, excluded: set<Id>, ghost mine: set<Lease>, ghost start: View)
      returns (g: Grant, member: Id, excludedAfter: set<Id>, ghost taken: set<Lease>)
      requires Valid() && excluded <= members && Accounted(accounts.env.claims, map[])
      requires (forall l | l in mine :: l < start.nextLease) && Untouched(mine, start, Now())
      modifies this, accounts.env
      decreases |members - excluded|, accounts.env.stalls, 1
      ensures Valid() && Untouched(mine, start, Now()) && accounts.env.stalls <= old(accounts.env.stalls)
      ensures Accounted(accounts.env.claims, map[]) && Logged(old(accounts.env.Logs()), accounts.env.Logs(), g)
      ensures excluded <= excludedAfter <= members
      ensures Took(g, taken, start.nextLease, Now())
      ensures g.Granted? ==> memberOf[g.lease] == member && member in members && member !in excludedAfter
    {
      hide Conserved, Untouched, Accounted, Took, Logged, Excused, Waited, AllEnd;
      g, member, excludedAfter, taken := Refused, 0, excluded, {};
      ghost var log, before := accounts.env.Logs(), Now();
      NextGrows(mine, start, before);
      LoggedNothing(log, Refused);
      TookNothing(Refused, start.nextLease, before);
      TookNothing(Lost(None), start.nextLease, before);
      TookNothing(Waits(None), start.nextLease, before);
      var recovering := accounts.env.Stall();
      if !recovering { return; }
      var awaited := accounts.AwaitRecovery();
      AwaitLogged(log, accounts.env.Logs(), awaited);
      if !awaited.Fresh? {
        g := if awaited.Throws? then Lost(None) else Waits(None);
        return;
      }
      ghost var mid := accounts.env.Logs();
      g, member, excludedAfter, taken := Acquire(accounts, excluded, mine);
      UntouchedVia(mine, start, before, mine, Now());
      LoggedVia(log, mid, accounts.env.Logs(), g);
      ReturnedNothing(start.nextLease, before);
      TookMore(g, mine, {}, taken, start.nextLease, before, Now());
      assert {} + taken == taken;
    }

    /** Refreshes and revalidates a granted lease; returns it and tries again when it has become useless. */
    method UseLease(accounts: Accounts, lease: Lease, on: Id, excluded: set<Id>, ghost mine: set<Lease>, ghost start: View)
      returns (g: Grant, member: Id, excludedAfter: set<Id>, ghost taken: set<Lease>)
      requires Valid() && excluded <= members && on in members && on !in excluded && Accounted(accounts.env.claims, map[])
      requires lease !in mine && lease in leases && lease !in counted && memberOf[lease] == on && start.nextLease <= lease
      requires (forall l | l in mine :: l < start.nextLease) && Untouched(mine, start, Now())
      modifies this, accounts.env
      decreases |members - excluded|, accounts.env.stalls, 1
      ensures Valid() && Untouched(mine, start, Now()) && accounts.env.stalls <= old(accounts.env.stalls)
      ensures Accounted(accounts.env.claims, map[]) && Logged(old(accounts.env.Logs()), accounts.env.Logs(), g)
      ensures excluded <= excludedAfter <= members
      ensures Took(g, taken, start.nextLease, Now())
      ensures g.Granted? ==> memberOf[g.lease] == member && member in members && member !in excludedAfter
    {
      hide Conserved, Untouched, Accounted, Took, Returned, Logged, Excused, Waited, AllEnd;
      ghost var held, before, log := mine + {lease}, Now(), accounts.env.Logs();
      var freshness := accounts.EnsureFresh(on);
      var ramp := accounts.SomeEnding();
      Interfere(held);
      StillHeld(held, lease, before, Now());
      UntouchedVia(mine, start, before, held, Now());
      NextGrows(mine, start, Now());
      member, excludedAfter, taken := on, excluded, {lease};
      g := if freshness.NoEnd? then Waits(Some(lease))
           else if freshness.Throws? || (freshness.Fresh? && ramp.Dies?) then Lost(Some(lease)) else Granted(lease);
      LoggedFresh(log, accounts.env.Logs(), freshness, lease, g);
      if !g.Granted? {
        TookOne(g, lease, start.nextLease, Now());
        return;
      }
      if freshness.Fresh? && ramp.Succeeds? {
        var lost := accounts.env.Stall();
        if !lost {
          before := Now();
          Count(lease, on);
          UntouchedVia(mine, start, before, mine, Now());
          TookOne(g, lease, start.nextLease, Now());
          return;
        }
        ghost var mid := accounts.env.Logs();
        g, member, excludedAfter, taken := TryAgain(accounts, lease, excluded, mine, start);
        LoggedVia(log, mid, accounts.env.Logs(), g);
        if !g.Refused? { return; }
        LoggedEnds(log, accounts.env.Logs(), g);
      } else {
        before := Now();
        ReturnLease(lease);
        UntouchedVia(mine, start, before, mine, Now());
        ReturnedOne(lease, start.nextLease, Now());
      }
      NextGrows(mine, start, Now());
      ghost var mid, earlier := accounts.env.Logs(), taken;
      g, member, excludedAfter, taken := GiveUp(accounts, on, excluded, excludedAfter, mine, earlier, start);
      LoggedVia(log, mid, accounts.env.Logs(), g);
    }

    /** Returns a lease that has become useless, and tries again. */
    method TryAgain(accounts: Accounts, lease: Lease, excluded: set<Id>, ghost mine: set<Lease>, ghost start: View)
      returns (g: Grant, member: Id, excludedAfter: set<Id>, ghost taken: set<Lease>)
      requires Valid() && excluded <= members && Accounted(accounts.env.claims, map[])
      requires lease !in mine && lease in leases && lease !in counted && start.nextLease <= lease
      requires (forall l | l in mine :: l < start.nextLease) && Untouched(mine, start, Now())
      modifies this, accounts.env
      decreases |members - excluded|, accounts.env.stalls, 3
      ensures Valid() && Untouched(mine, start, Now()) && accounts.env.stalls <= old(accounts.env.stalls)
      ensures Accounted(accounts.env.claims, map[]) && Logged(old(accounts.env.Logs()), accounts.env.Logs(), g)
      ensures excluded <= excludedAfter <= members
      ensures Took(g, taken, start.nextLease, Now())
      ensures g.Refused? ==> Returned(taken, start.nextLease, Now())
      ensures g.Granted? ==> memberOf[g.lease] == member && member in members && member !in excludedAfter
    {
      hide Conserved, Untouched, Accounted, Took, Returned, Logged;
      ghost var before := Now();
      ReturnLease(lease);
      UntouchedVia(mine, start, before, mine, Now());
      NextGrows(mine, start, Now());
      ReturnedOne(lease, start.nextLease, Now());
      ghost var mid := Now();
      ghost var more;
      g, member, excludedAfter, more := Acquire(accounts, excluded, mine + {lease});
      UntouchedVia(mine, start, mid, mine + {lease}, Now());
      TookMore(g, mine + {lease}, {lease}, more, start.nextLease, mid, Now());
      taken := {lease} + more;
    }

    /** The leases led nowhere; if the member is hopeless and others are left, it is excluded, and the search goes on. */
    method GiveUp(accounts: Accounts, on: Id, excluded: set<Id>, excludedSoFar: set<Id>, ghost mine: set<Lease>,
                  ghost earlier: set<Lease>, ghost start: View)
      returns (g: Grant, member: Id, excludedAfter: set<Id>, ghost taken: set<Lease>)
      requires Valid() && excluded <= excludedSoFar <= members && on in members && Accounted(accounts.env.claims, map[])
      requires (forall l | l in mine :: l < start.nextLease) && Untouched(mine, start, Now())
      requires Returned(earlier, start.nextLease, Now()) && start.nextLease <= nextLease
      modifies this, accounts.env
      decreases |members - excluded|, 0, 0
      ensures Valid() && Untouched(mine, start, Now()) && accounts.env.stalls <= old(accounts.env.stalls)
      ensures Accounted(accounts.env.claims, map[]) && Logged(old(accounts.env.Logs()), accounts.env.Logs(), g)
      ensures excludedSoFar <= excludedAfter <= members
      ensures Took(g, taken, start.nextLease, Now())
      ensures g.Granted? ==> memberOf[g.lease] == member && member in members && member !in excludedAfter
    {
      hide Conserved, Untouched, Accounted, Took, Returned, Logged;
      g, member, excludedAfter, taken := Refused, 0, excludedSoFar, earlier;
      TookReturned(g, taken, start.nextLease, Now());
      LoggedNothing(accounts.env.Logs(), g);
      var hopeless := accounts.env.Chance();
      if on !in excludedAfter && hopeless {
        Fewer(members, excluded, excludedAfter, on);
        ghost var before := Now();
        ReturnedBefore(earlier, start.nextLease, before);
        ghost var more;
        g, member, excludedAfter, more := Acquire(accounts, excludedAfter + {on}, mine + earlier);
        UntouchedVia(mine, start, before, mine + earlier, Now());
        TookMore(g, mine + earlier, earlier, more, start.nextLease, before, Now());
        taken := earlier + more;
      }
    }
  }

  lemma ReturnedNothing(from: Lease, now: View)
    ensures Returned({}, from, now)
  {
  }

  lemma ReturnedOne(lease: Lease, from: Lease, now: View)
    requires from <= lease < now.nextLease && lease !in now.counted && lease !in now.leases
    ensures Returned({lease}, from, now)
  {
  }

  lemma ReturnedBefore(taken: set<Lease>, from: Lease, now: View)
    requires Returned(taken, from, now)
    ensures forall l | l in taken :: l < now.nextLease
  {
  }

  lemma AwaitLogged(a: Log, b: Log, r: Freshness)
    requires a.faults == b.faults && a.neutral == b.neutral && Waited(a.waits, b.waits, r.NoEnd?, false) && !r.Stale?
    ensures r.Throws? ==> Logged(a, b, Lost(None))
    ensures r.NoEnd? ==> Logged(a, b, Waits(None))
    ensures r.Fresh? ==> Excused(a.faults, b.faults, false) && AllEnd(a.waits, b.waits)
  {
    NoFaults(a.faults);
  }

  lemma NextGrows(mine: set<Lease>, before: View, after: View)
    requires Untouched(mine, before, after)
    ensures before.nextLease <= after.nextLease
  {
  }

  lemma Fewer(members: set<Id>, excluded: set<Id>, more: set<Id>, m: Id)
    requires excluded <= more <= members && m in members && m !in more
    ensures |members - (more + {m})| < |members - excluded|
  {
    assert members - more == members - (more + {m}) + {m};
    Monotone(members - more, members - excluded);
  }

  lemma {:induction false} Monotone(a: set<Id>, b: set<Id>)
    requires a <= b
    ensures |a| <= |b|
  {
    assert b == a + (b - a);
  }

  // ---- The executor ----

  datatype Scope = CredentialScope | MemberModelScope | RequestScope

  datatype Category = Transient | QuotaExhausted | AuthTransient | AuthPermanent | ContextOverflow | UnknownCategory

  datatype Failure = Failure(scope: Option<Scope>, category: Category)

  predicate IsRetryable(category: Category) {
    category.Transient? || category.QuotaExhausted?
  }

  /**
   How one attempt ends: an error, a clean response, a response read to its end,
   perhaps classified as a failure, or not at all.
   */
  datatype Verdict = Threw | Clean | Read(failure: Option<Failure>) | Unanswered

  predicate IsCredentialFailure(verdict: Verdict) {
    verdict.Read? && verdict.failure.Some? && verdict.failure.value.scope == Some(CredentialScope)
  }

  datatype Step = Done | Retry | Thrown | Stuck

  /**
   What a streaming response shows along with output: no failure, one that cools the
   member if that can be written, or a rejected credential. In the last case it
   matters whether the member's fingerprint is still that of the attempt's claim, and
   whether another member is eligible.
   */
  datatype Sight = Nothing | Retryable(penalized: bool) | Rejected(current: bool, alternative: bool)

  /** The recovery for what was seen meets the probation of the same attempt, and has nobody to give way to. */
  predicate MeetsItself(sight: Sight, probation: Option<Probation>, open: map<Claim, ClaimState>) {
    && sight.Rejected? && sight.current && !sight.alternative
    && probation.Some? && probation.value.claim in open
  }

  datatype Result = Response(streaming: bool) | Unavailable | Error | Hung(leased: bool)

  /** The member whose refreshed credential the next attempt tries, and the claim on its recovery. */
  datatype Probation = Probation(member: Id, claim: Claim)

  datatype LoopState = LoopState(excluded: set<Id>, absorbed: set<Id>, failovers: nat, probation: Option<Probation>)

  const FRESH_LOOP := LoopState({}, {}, 0, None)

  function InHand(probation: Option<Probation>): Hand {
    if probation.Some? then map[probation.value.claim := OnProbation] else map[]
  }

  /** All leases that a request has taken so far, and how many attempts it has made. */
  datatype Tally = Tally(leases: set<Lease>, attempts: nat)

  /** A lease that a request does not return, and whether it is counted. */
  datatype Kept = Kept(lease: Lease, counted: bool)

  /**
   The books of a running request: all its leases so far are returned, and there are
   at most two attempts for each member excluded or absorbed, one for each answer
   that settled nothing and one for a claim in hand.
   */
  ghost predicate Books(s: LoopState, own: Tally, mine: set<Lease>, start: View, now: View, members: set<Id>,
                        spent: int) {
    && s.excluded <= members && s.absorbed <= members
    && (s.probation.Some? ==> s.probation.value.member in members && s.probation.value.member !in s.excluded)
    && Untouched(mine, start, now)
    && start.nextLease <= now.nextLease
    && (forall l | l in mine :: l < start.nextLease)
    && Returned(own.leases, start.nextLease, now)
    && own.attempts <= 2 * |s.excluded| + 2 * |s.absorbed| + spent + if s.probation.Some? then 1 else 0
  }

  /** How a request ends: every lease that it has taken is returned, except for one that it keeps. */
  ghost predicate ClosedBooks(kept: Option<Kept>, own: Tally, mine: set<Lease>, start: View, now: View,
                              members: set<Id>, spent: int) {
    && Untouched(mine, start, now)
    && (forall l | l in own.leases :: start.nextLease <= l < now.nextLease)
    && (forall l | l in own.leases && !(kept.Some? && kept.value.lease == l) :: l !in now.counted && l !in now.leases)
    && (kept.Some? ==>
          && kept.value.lease in own.leases && kept.value.lease in now.leases
          && (kept.value.lease in now.counted <==> kept.value.counted))
    && own.attempts <= 4 * |members| + spent
  }

  lemma BooksClose(s: LoopState, own: Tally, mine: set<Lease>, start: View, now: View, members: set<Id>, spent: int)
    requires Books(s, own, mine, start, now, members, spent)
    ensures ClosedBooks(None, own, mine, start, now, members, spent)
  {
    CloseEarly(own.attempts, s, members, spent);
  }

  /** No further attempt is made, and a lease is kept. */
  lemma BooksKeep(s: LoopState, own: Tally, lease: Lease, mine: set<Lease>, start: View, now: View, members: set<Id>,
                  spent: int)
    requires Books(s, own, mine, start, now, members, spent)
    requires start.nextLease <= lease < now.nextLease && lease in now.leases
    ensures ClosedBooks(Some(Kept(lease, lease in now.counted)), own.(leases := own.leases + {lease}), mine, start, now, members, spent)
  {
    CloseEarly(own.attempts, s, members, spent);
  }

  /** The books after leases were sought: those that are returned are entered. */
  lemma BooksAfterSearch(s: LoopState, excluded: set<Id>, own: Tally, g: Grant, taken: set<Lease>, mine: set<Lease>,
                         start: View, before: View, now: View, members: set<Id>, spent: int, spentNow: int)
    requires Books(s, own, mine, start, before, members, spent) && spent <= spentNow
    requires s.excluded <= excluded <= members && (s.probation.Some? ==> excluded == s.excluded)
    requires Untouched(mine + own.leases, before, now) && Took(g, taken, before.nextLease, now)
    ensures Books(s.(excluded := excluded), Enter(own, g, taken), mine, start, now, members, spentNow)
    ensures LeaseOf(g).Some? ==>
              && start.nextLease <= LeaseOf(g).value < now.nextLease && LeaseOf(g).value in now.leases
              && LeaseOf(g).value !in Enter(own, g, taken).leases
              && (LeaseOf(g).value in now.counted <==> g.Granted?)
  {
    UntouchedVia(mine, start, before, mine + own.leases, now);
    Monotone(s.excluded, excluded);
  }

  ghost function Enter(own: Tally, g: Grant, taken: set<Lease>): Tally {
    own.(leases := own.leases + (set l | l in taken && LeaseOf(g) != Some(l)))
  }

  /** The books after one more attempt, on a lease that is returned or kept. */
  lemma BooksAfterAttempt(s: LoopState, next: LoopState, step: Step, kept: bool, own: Tally, lease: Lease,
                          member: Id,
                          mine: set<Lease>, start: View, before: View, now: View, members: set<Id>,
                          neutralAtStart: nat, neutral: nat, neutralAfter: nat)
    requires Books(s, own, mine, start, before, members, neutralAtStart - neutral)
    requires neutralAfter <= neutral <= neutralAtStart
    requires start.nextLease <= lease < now.nextLease && member in members && member !in s.excluded
    requires s.probation.Some? ==> s.probation.value.member == member
    requires Untouched(mine + own.leases, before, now)
    requires if kept then lease in now.counted && lease in now.leases else lease !in now.counted && lease !in now.leases
    requires next.excluded <= members && next.absorbed <= members
    requires step.Retry? ==> !kept && Progress(member, s.probation.Some?, s.(probation := None), next, neutral, neutralAfter)
    ensures step.Retry? ==> Books(next, Attempted(own, lease), mine, start, now, members, neutralAtStart - neutralAfter)
    ensures !step.Retry? ==>
              ClosedBooks(if kept then Some(Kept(lease, true)) else None, Attempted(own, lease), mine, start, now, members,
                          neutralAtStart - neutralAfter)
  {
    UntouchedVia(mine, start, before, mine + own.leases, now);
    if step.Retry? {
      AttemptAdvances(s, next, own.attempts + 1, member, members, neutralAtStart, neutral, neutralAfter);
    } else {
      LastAttempt(s, own.attempts + 1, member, members, neutralAtStart - neutralAfter);
    }
  }

  ghost function Attempted(own: Tally, lease: Lease): Tally {
    Tally(own.leases + {lease}, own.attempts + 1)
  }

  class Executor {
    const selector: PoolSelector
    const accounts: Accounts
    const env: Environment := accounts.env

    constructor (selector: PoolSelector, accounts: Accounts)
      ensures this.selector == selector && this.accounts == accounts
    {
      this.selector, this.accounts := selector, accounts;
    }

    /** What follows an attempt on `member`, given how it ended. */
    method Conclude(member: Id, probation: Option<Probation>, verdict: Verdict, s: LoopState) returns (step: Step, next: LoopState)
      requires member in selector.members && s.excluded <= selector.members && s.absorbed <= selector.members && s.probation.None?
      requires Accounted(env.claims, InHand(probation))
      modifies env`neutral, env`claims, env`activityClosed, env`waits
      ensures next.excluded <= selector.members && next.absorbed <= selector.members
      ensures step.Retry? ==> Progress(member, probation.Some?, s, next, old(env.neutral), env.neutral)
      ensures !step.Retry? ==> next == s
      ensures (verdict.Threw? ==> step.Thrown?) && (verdict.Unanswered? ==> step.Stuck?) && (step.Retry? ==> verdict.Read?)
      ensures env.neutral <= old(env.neutral)
      ensures Accounted(env.claims, InHand(next.probation))
      ensures Excused(old(env.claims.faults), env.claims.faults, step.Thrown? || step.Stuck?)
      ensures probation.Some? ==>
                env.claims.faults == old(env.claims.faults) + if verdict.Threw? then [Fault(probation.value.claim, AttemptThrew)]
                else if verdict.Unanswered? then [Fault(probation.value.claim, NeverEnds)] else []
      ensures if verdict.Unanswered? then env.waits == old(env.waits)
              else Waited(old(env.waits), env.waits, step.Stuck?, false)
      ensures step.Stuck? ==> verdict.Unanswered? || (verdict.Read? && IsCredentialFailure(verdict))
    {
      hide Accounted, Leaves;
      next := s;
      if probation.Some? {
        assert InHand(probation) - {probation.value.claim} == map[];
      }
      if verdict.Threw? {
        if probation.Some? { env.Strand(probation.value.claim, AttemptThrew, InHand(probation)); }
        return Thrown, s;
      }
      if verdict.Unanswered? {
        if probation.Some? { env.Strand(probation.value.claim, NeverEnds, InHand(probation)); }
        return Stuck, s;
      }
      if probation.Some? {
        env.FinishProbation(probation.value.claim, InHand(probation));
        var persisted := env.Chance();
        if !persisted { return Thrown, s; }
      }
      if verdict.Clean? || verdict.failure.None? { return Done, s; }
      var failure := verdict.failure.value;
      if failure.scope == Some(CredentialScope) {
        if probation.Some? {
          return Retry, s.(excluded := s.excluded + {member});
        }
        env.Others(map[]);
        var alternative := env.Chance();
        var answer, excluded := accounts.RecoverAuthentication(member, s.excluded, None, alternative, false, map[]);
        match answer {
          case Claimed(claim) => return Retry, s.(probation := Some(Probation(member, claim)));
          case Failed => return Thrown, s;
          case Died => return Thrown, s;
          case Hangs => return Stuck, s;
          case _ => return Retry, s.(excluded := excluded);
        }
      }
      if failure.scope == Some(MemberModelScope) {
        return Retry, s.(excluded := s.excluded + {member});
      }
      if failure.scope == Some(RequestScope) || !IsRetryable(failure.category) {
        return Done, s;
      }
      if failure.category.Transient? {
        if member !in s.absorbed {
          return Retry, s.(absorbed := s.absorbed + {member});
        }
        var alternative := env.Chance();
        if s.failovers == 0 && alternative {
          return Retry, s.(failovers := 1, excluded := s.excluded + {member});
        }
        return Done, s;
      }
      var penalized := env.Chance();
      if !penalized { return Thrown, s; }
      return Retry, s.(excluded := s.excluded + {member});
    }

    method SomeVerdict() returns (verdict: Verdict) {
      verdict := *;
    }

    /**
     The failure that a streaming response showed along with output. A rejected
     credential is recovered, for the benefit of later requests only, and a failed
     recovery is ignored unless it died. On probation the recovery meets the claim of
     its own attempt: it waits for itself exactly as `MeetsItself` says, and for ever
     unless others take the claim away.
     */
    method ObserveFailure(member: Id, sight: Sight, probation: Option<Probation>) returns (verdict: Verdict)
      requires member in selector.members && Accounted(env.claims, InHand(probation))
      modifies env`neutral, env`claims, env`activityClosed, env`waits
      ensures verdict.Clean? || verdict.Threw? || verdict.Unanswered?
      ensures env.neutral <= old(env.neutral) && Accounted(env.claims, InHand(probation))
      ensures Excused(old(env.claims.faults), env.claims.faults, verdict.Threw?)
      ensures Waited(old(env.waits), env.waits, verdict.Unanswered?, true)
      ensures if MeetsItself(sight, probation, old(env.claims.open))
              then env.waits == old(env.waits) + [Wait(Some(probation.value.claim), true, probation.value.claim !in env.claims.open)]
              else forall i | |old(env.waits)| <= i < |env.waits| :: env.waits[i].own.None?
    {
      hide Accounted, Leaves, Excused;
      NoFaults(env.claims.faults);
      match sight {
        case Nothing =>
          verdict := Clean;
        case Retryable(penalized) =>
          verdict := if penalized then Clean else Threw;
        case Rejected(current, alternative) =>
          var own := if current && probation.Some? then Some(probation.value.claim) else None;
          ghost var hand := InHand(probation);
          var answer, _ := accounts.RecoverAuthentication(member, {}, own, alternative, true, hand);
          if answer.Claimed? {
            env.FinishProbation(answer.claim, hand[answer.claim := OnProbation]);
            assert hand[answer.claim := OnProbation] - {answer.claim} == hand;
          }
          verdict := if answer.Died? then Threw else if answer.Hangs? then Unanswered else Clean;
      }
    }

    method SomeSight() returns (sight: Sight) {
      sight := *;
    }

    /**
     One attempt on a lease. The lease is released exactly once before the attempt
     returns, unless a clean response took it over, or the attempt does not return.
     */
    method Attempt(lease: Lease, member: Id, probation: Option<Probation>, s: LoopState, ghost held: set<Lease>)
      returns (step: Step, next: LoopState, kept: bool)
      requires selector.Valid() && member in selector.members && lease in held && forall l | l in held :: l < selector.nextLease
      requires lease in selector.counted && selector.memberOf[lease] == member
      requires s.excluded <= selector.members && s.absorbed <= selector.members && s.probation.None?
      requires Accounted(env.claims, InHand(probation))
      modifies selector, env`neutral, env`claims, env`activityClosed, env`waits
      ensures selector.Valid() && Untouched(held - {lease}, old(selector.Now()), selector.Now())
      ensures if kept then lease in selector.counted && selector.memberOf[lease] == member
              else lease !in selector.counted && lease !in selector.leases
      ensures old(selector.nextLease) <= selector.nextLease
      ensures kept ==> step.Done? || step.Stuck?
      ensures Waited(old(env.waits), env.waits, step.Stuck?, kept)
      ensures next.excluded <= selector.members && next.absorbed <= selector.members
      ensures step.Retry? ==> Progress(member, probation.Some?, s, next, old(env.neutral), env.neutral)
      ensures !step.Retry? ==> next == s
      ensures env.neutral <= old(env.neutral)
      ensures Accounted(env.claims, InHand(next.probation))
      ensures Excused(old(env.claims.faults), env.claims.faults, step.Thrown? || step.Stuck?)
    {
      hide Conserved, Untouched, Accounted, Excused, Waited, AllEnd, InHand, Progress, MeetsItself;
      ghost var start, rest, faults := selector.Now(), held - {lease}, env.claims.faults;
      selector.Interfere(held);
      env.Others(InHand(probation));
      Observed(held, lease, start, selector.Now());
      var verdict := Answer(member, probation);
      ghost var faultsThen, waitsThen := env.claims.faults, env.waits;
      var early := IsCredentialFailure(verdict);
      ghost var before := selector.Now();
      if early {
        selector.Release(lease, member);
        UntouchedVia(rest, start, before, rest, selector.Now());
      }
      before := selector.Now();
      step, next := Conclude(member, probation, verdict, s);
      ExcusedVia(faults, faultsThen, verdict.Threw?, env.claims.faults, step.Thrown? || step.Stuck?);
      kept := (verdict.Clean? && step.Done?) || verdict.Unanswered?;
      AttemptWaited(old(env.waits), waitsThen, env.waits, verdict.Unanswered?, step.Stuck?, kept);
      selector.Interfere(held);
      StillHeld(held, lease, before, selector.Now());
      UntouchedVia(rest, start, before, held, selector.Now());
      if !kept && !early {
        before := selector.Now();
        selector.Release(lease, member);
        UntouchedVia(rest, start, before, rest, selector.Now());
      }
    }

    /** The provider's answer. A clean one may have shown a failure along with output. */
    method Answer(member: Id, probation: Option<Probation>) returns (verdict: Verdict)
      requires member in selector.members && Accounted(env.claims, InHand(probation))
      modifies env`neutral, env`claims, env`activityClosed, env`waits
      ensures env.neutral <= old(env.neutral) && Accounted(env.claims, InHand(probation))
      ensures Excused(old(env.claims.faults), env.claims.faults, verdict.Threw?)
      ensures verdict.Read? ==> env.neutral == old(env.neutral)
      ensures Waited(old(env.waits), env.waits, verdict.Unanswered?, true)
    {
      verdict := SomeVerdict();
      if verdict.Clean? || verdict.Unanswered? {
        var sight := SomeSight();
        verdict := ObserveFailure(member, sight, probation);
      }
    }

    ghost predicate Balanced(s: LoopState, own: Tally, mine: set<Lease>, start: View, neutralAtStart: nat)
      reads selector, env
    {
      && selector.Valid() && env.neutral <= neutralAtStart && Accounted(env.claims, InHand(s.probation))
      && Books(s, own, mine, start, selector.Now(), selector.members, neutralAtStart - env.neutral)
    }

    ghost predicate Closed(kept: Option<Kept>, own: Tally, mine: set<Lease>, start: View, neutralAtStart: nat)
      reads selector, env
    {
      && selector.Valid() && env.neutral <= neutralAtStart && Accounted(env.claims, map[])
      && ClosedBooks(kept, own, mine, start, selector.Now(), selector.members, neutralAtStart - env.neutral)
    }

    lemma StartsBalanced(mine: set<Lease>)
      requires selector.Valid() && Accounted(env.claims, map[]) && forall l | l in mine :: l < selector.nextLease
      ensures Balanced(FRESH_LOOP, Tally({}, 0), mine, selector.Now(), env.neutral)
    {
      UntouchedSelf(mine, selector.Now());
    }

    lemma EndsBalanced(s: LoopState, own: Tally, mine: set<Lease>, start: View, neutralAtStart: nat)
      requires Balanced(s, own, mine, start, neutralAtStart) && |s.excluded| >= |selector.members|
      ensures Closed(None, own, mine, start, neutralAtStart)
    {
      BooksClose(s, own, mine, start, selector.Now(), selector.members, neutralAtStart - env.neutral);
      if s.probation.Some? { Monotone(s.excluded + {s.probation.value.member}, selector.members); }
    }

    lemma Within(s: LoopState, own: Tally, mine: set<Lease>, start: View, neutralAtStart: nat)
      requires Balanced(s, own, mine, start, neutralAtStart)
      ensures s.excluded <= selector.members && s.absorbed <= selector.members
    {
      hide Accounted, Conserved, Untouched;
    }

    /** With nothing in hand, the open claims are those of the faults. */
    lemma OpenAtEnd(kept: Option<Kept>, own: Tally, mine: set<Lease>, start: View, neutralAtStart: nat)
      requires Closed(kept, own, mine, start, neutralAtStart)
      ensures env.claims.open.Keys == Stranded(env.claims.faults) - env.claims.takenAway
    {
      hide ClosedBooks, Conserved;
    }

    lemma Decreases(s: LoopState, next: LoopState, neutral: nat, neutralAfter: nat)
      requires Advances(s, next, neutral, neutralAfter)
      requires next.excluded <= selector.members && next.absorbed <= selector.members
      ensures |selector.members - next.excluded| <= |selector.members - s.excluded|
      ensures |selector.members - next.absorbed| <= |selector.members - s.absorbed| && neutralAfter <= neutral
      ensures || |selector.members - next.excluded| < |selector.members - s.excluded|
              || |selector.members - next.absorbed| < |selector.members - s.absorbed|
              || neutralAfter < neutral
              || (s.probation.None? && next.probation.Some?)
    {
      LeavesFewer(selector.members, s.excluded, next.excluded);
      LeavesFewer(selector.members, s.absorbed, next.absorbed);
      Monotone(s.excluded, next.excluded);
      Monotone(s.absorbed, next.absorbed);
    }

    ghost predicate Advances(s: LoopState, next: LoopState, neutralBefore: nat, neutralAfter: nat) {
      && s.excluded <= next.excluded && s.absorbed <= next.absorbed && neutralAfter <= neutralBefore
      && (|s.excluded| < |next.excluded|
          || |s.absorbed| < |next.absorbed|
          || neutralAfter < neutralBefore
          || (s.probation.None? && next.probation.Some?))
    }

    /**
     The last lease is kept exactly by a streaming response, by a request that hangs
     with a lease in hand, and by one that dies with a lease that nothing releases: one
     that the closed activity coordinator refuses, or one that was not counted yet.
     */
    ghost predicate Keeps(kept: Option<Kept>, stranded: bool, result: Result)
      reads env
    {
      && (kept.Some? <==> result == Response(true) || result == Hung(true) || stranded)
      && (stranded ==> result.Error? && (kept.value.counted ==> env.activityClosed))
      && (result == Response(true) ==> kept.value.counted)
    }

    /**
     The retry loop. It makes at most four attempts per member, plus one for each
     recovery answer that settled nothing, and it ends exactly if each of its waits
     for a recovery does; `Hung` stands for not ending. Every lease it took is returned
     or handed to the response, unless it hangs in an attempt or the activity
     coordinator is closed. The claims it leaves open are exactly those of its faults,
     and a request that answers has no fault but writes that failed after a refresh.
     */
    method Execute(ghost mine: set<Lease>)
      returns (result: Result, ghost kept: Option<Kept>, ghost own: Tally, ghost stranded: bool)
      requires selector.Valid() && forall l | l in mine :: l < selector.nextLease
      requires Accounted(env.claims, map[])
      modifies selector, env
      ensures Closed(kept, own, mine, old(selector.Now()), old(env.neutral)) && Keeps(kept, stranded, result)
      ensures env.claims.open.Keys == Stranded(env.claims.faults) - env.claims.takenAway
      ensures Excused(old(env.claims.faults), env.claims.faults, result.Error? || result.Hung?)
      ensures Waited(old(env.waits), env.waits, result.Hung?, result == Hung(true))
    {
      hide Conserved, Untouched, Excused, Accounted, Stranded, Balanced, Closed, Advances, Waited, AllEnd;
      kept, own, stranded := None, Tally({}, 0), false;
      var s := FRESH_LOOP;
      StartsBalanced(mine);
      ghost var faults, waits := env.claims.faults, env.waits;
      NoFaults(faults);
      NoWaits(waits);
      while |s.excluded| < |selector.members|
        invariant Balanced(s, own, mine, old(selector.Now()), old(env.neutral))
        invariant Excused(faults, env.claims.faults, false) && AllEnd(waits, env.waits)
        invariant kept.None? && !stranded
        decreases |selector.members - s.excluded|, |selector.members - s.absorbed|, env.neutral, if s.probation.None? then 1 else 0
      {
        var step, next;
        ghost var before, neutral, waitsBefore := env.claims.faults, env.neutral, env.waits;
        step, next, result, kept, own, stranded := Iterate(s, own, mine, old(selector.Now()), old(env.neutral));
        ExcusedVia(faults, before, false, env.claims.faults, step.Thrown? || step.Stuck?);
        WaitedVia(waits, waitsBefore, env.waits, step.Stuck?, result == Hung(true));
        NotStuck(waits, env.waits, result == Hung(true));
        if !step.Retry? {
          OpenAtEnd(kept, own, mine, old(selector.Now()), old(env.neutral));
          return;
        }
        Within(next, own, mine, old(selector.Now()), old(env.neutral));
        Decreases(s, next, neutral, env.neutral);
        s := next;
      }
      EndsBalanced(s, own, mine, old(selector.Now()), old(env.neutral));
      OpenAtEnd(kept, own, mine, old(selector.Now()), old(env.neutral));
      NotStuck(waits, env.waits, false);
      result := Unavailable;
    }

    /** One turn: recover an expired backoff first, then attempt a request on a lease. */
    method Iterate(s: LoopState, ghost ownBefore: Tally, ghost mine: set<Lease>, ghost start: View,
                   ghost neutralAtStart: nat)
      returns (step: Step, next: LoopState, result: Result, ghost kept: Option<Kept>, ghost own: Tally, ghost stranded: bool)
      requires Balanced(s, ownBefore, mine, start, neutralAtStart) && |s.excluded| < |selector.members|
      modifies selector, env
      ensures step.Retry? ==>
                && Balanced(next, own, mine, start, neutralAtStart)
                && Advances(s, next, old(env.neutral), env.neutral)
                && kept.None? && !stranded
      ensures !step.Retry? ==> Closed(kept, own, mine, start, neutralAtStart) && Keeps(kept, stranded, result)
      ensures (step.Thrown? <==> !step.Retry? && result.Error?) && (step.Stuck? <==> !step.Retry? && result.Hung?)
      ensures Excused(old(env.claims.faults), env.claims.faults, step.Thrown? || step.Stuck?)
      ensures Waited(old(env.waits), env.waits, step.Stuck?, result == Hung(true))
    {
      hide Conserved, Untouched, Excused, Accounted, Waited, AllEnd, Balanced, Closed, Advances;
      next, own, kept, stranded, result := s, ownBefore, None, false, Error;
      ghost var faults, waits := env.claims.faults, env.waits;
      NoFaults(faults);
      NoWaits(waits);
      if s.probation.None? {
        var expired := env.Chance();
        if expired && selector.members - s.excluded != {} {
          var member :| member in selector.members - s.excluded;
          var answer;
          answer, next := RecoverExpired(s, member, own, mine, start, neutralAtStart);
          NotStuck(waits, env.waits, false);
          match answer {
            case Claimed(_) => return Retry, next, result, kept, own, stranded;
            case Failed =>
              ExcusedVia(faults, faults, true, env.claims.faults, false);
              return Thrown, next, Error, kept, own, stranded;
            case Died =>
              return Thrown, next, Error, kept, own, stranded;
            case Hangs =>
              ExcusedVia(faults, faults, true, env.claims.faults, false);
              return Stuck, next, Hung(false), kept, own, stranded;
            case _ =>
          }
        }
      }
      ghost var ready, neutral, before, waitsBefore := next, env.neutral, env.claims.faults, env.waits;
      step, next, result, kept, own, stranded := AcquireAndAttempt(next, own, mine, start, neutralAtStart);
      ExcusedVia(faults, before, false, env.claims.faults, step.Thrown? || step.Stuck?);
      WaitedVia(waits, waitsBefore, env.waits, step.Stuck?, result == Hung(true));
      if step.Retry? { AdvancesFrom(s, ready, next, old(env.neutral), neutral, env.neutral); }
    }

    lemma AdvancesFrom(s: LoopState, ready: LoopState, next: LoopState, neutral0: nat, neutral1: nat, neutral2: nat)
      requires Advances(ready, next, neutral1, neutral2) && neutral1 <= neutral0
      requires s.excluded <= ready.excluded && s.absorbed == ready.absorbed && s.probation == ready.probation
      ensures Advances(s, next, neutral0, neutral2)
    {
      Monotone(s.excluded, ready.excluded);
    }

    /** Recovers a member whose backoff has expired, in the books. */
    method RecoverExpired(s: LoopState, member: Id, ghost own: Tally, ghost mine: set<Lease>, ghost start: View,
                          ghost neutralAtStart: nat)
      returns (answer: Recovery, next: LoopState)
      requires Balanced(s, own, mine, start, neutralAtStart) && s.probation.None?
      requires member in selector.members && member !in s.excluded
      modifies env`neutral, env`claims, env`activityClosed, env`waits
      ensures if answer.Failed? || answer.Died? || answer.Hangs? then Closed(None, own, mine, start, neutralAtStart)
              else
                && Balanced(next, own, mine, start, neutralAtStart) && env.neutral <= old(env.neutral)
                && s.excluded <= next.excluded && s.absorbed == next.absorbed
                && (next.probation.Some? <==> answer.Claimed?)
                && (answer.Claimed? ==> Advances(s, next, old(env.neutral), env.neutral))
      ensures Excused(old(env.claims.faults), env.claims.faults, answer.Died?)
      ensures Waited(old(env.waits), env.waits, answer.Hangs?, false)
    {
      hide Conserved, Untouched, Excused, Accounted, Waited, AllEnd, Leaves;
      ghost var faults := env.claims.faults;
      NoFaults(faults);
      env.Others(map[]);
      var alternative := env.Chance();
      var excluded;
      answer, excluded := accounts.RecoverAuthentication(member, s.excluded, None, alternative, false, map[]);
      ExcusedVia(faults, faults, false, env.claims.faults, answer.Died?);
      next := if answer.Claimed? then s.(probation := Some(Probation(member, answer.claim))) else s.(excluded := excluded);
      Monotone(s.excluded, next.excluded);
      if answer.Failed? || answer.Died? || answer.Hangs? {
        BooksClose(s, own, mine, start, selector.Now(), selector.members, neutralAtStart - env.neutral);
      }
    }

    /** Takes a lease, for the probation if there is one, and makes the attempt. */
    method AcquireAndAttempt(s: LoopState, ghost ownBefore: Tally, ghost mine: set<Lease>, ghost start: View,
                             ghost neutralAtStart: nat)
      returns (step: Step, next: LoopState, result: Result, ghost kept: Option<Kept>, ghost own: Tally, ghost stranded: bool)
      requires Balanced(s, ownBefore, mine, start, neutralAtStart)
      modifies selector, env
      ensures step.Retry? ==>
                && Balanced(next, own, mine, start, neutralAtStart)
                && Advances(s, next, old(env.neutral), env.neutral)
                && kept.None? && !stranded
      ensures !step.Retry? ==> Closed(kept, own, mine, start, neutralAtStart) && Keeps(kept, stranded, result)
      ensures (step.Thrown? <==> !step.Retry? && result.Error?) && (step.Stuck? <==> !step.Retry? && result.Hung?)
      ensures Excused(old(env.claims.faults), env.claims.faults, step.Thrown? || step.Stuck?)
      ensures Waited(old(env.waits), env.waits, step.Stuck?, result == Hung(true))
    {
      hide Conserved, Untouched, ClosedBooks, Accounted, Waited, AllEnd;
      NoWaits(env.waits);
      NotStuck(env.waits, env.waits, false);
      kept, stranded, result := None, false, Error;
      ghost var faults, waits, neutral := env.claims.faults, env.waits, env.neutral;
      var g, member, ready;
      g, member, ready, own := AcquireFor(s, ownBefore, mine, start, neutralAtStart);
      step, next := if g.Waits? then Stuck else Thrown, ready;
      NotStuck(waits, env.waits, LeaseOf(g).Some?);
      NotStuck(waits, env.waits, false);
      if !g.Granted? {
        var held := LeaseOf(g);
        if held.None? {
          BooksClose(ready, own, mine, start, selector.Now(), selector.members, neutralAtStart - env.neutral);
        } else {
          BooksKeep(ready, own, held.value, mine, start, selector.Now(), selector.members, neutralAtStart - env.neutral);
          kept, own := Some(Kept(held.value, false)), own.(leases := own.leases + {held.value});
        }
        stranded := held.Some? && g.Lost?;
        result := if g.Waits? then Hung(held.Some?) else Error;
        NoAttempt(s.probation, faults);
        return;
      }
      if env.activityClosed {
        // The lease has been counted, and nothing releases it.
        BooksKeep(ready, own, g.lease, mine, start, selector.Now(), selector.members, neutralAtStart - env.neutral);
        kept, own, stranded := Some(Kept(g.lease, true)), own.(leases := own.leases + {g.lease}), true;
        NoAttempt(s.probation, faults);
        return;
      }
      ghost var before, waitsBefore, neutralBefore := env.claims.faults, env.waits, env.neutral;
      step, next, result, kept, own := AttemptOn(g.lease, member, ready, own, mine, start, neutralAtStart);
      ExcusedVia(faults, before, false, env.claims.faults, step.Thrown? || step.Stuck?);
      WaitedVia(waits, waitsBefore, env.waits, step.Stuck?, result == Hung(true));
      if step.Retry? { AdvancesFrom(s, ready, next, neutral, neutralBefore, env.neutral); }
    }

    /** Makes the attempt on the lease that was taken for it, and enters it in the books. */
    method AttemptOn(lease: Lease, member: Id, s: LoopState, ghost ownBefore: Tally, ghost mine: set<Lease>,
                     ghost start: View, ghost neutralAtStart: nat)
      returns (step: Step, next: LoopState, result: Result, ghost kept: Option<Kept>, ghost own: Tally)
      requires Balanced(s, ownBefore, mine, start, neutralAtStart)
      requires start.nextLease <= lease < selector.nextLease && lease !in mine && lease !in ownBefore.leases
      requires lease in selector.counted && selector.memberOf[lease] == member
      requires member in selector.members && member !in s.excluded
      requires s.probation.Some? ==> s.probation.value.member == member
      modifies selector, env
      ensures step.Retry? ==>
                && Balanced(next, own, mine, start, neutralAtStart)
                && Advances(s, next, old(env.neutral), env.neutral)
                && kept.None?
      ensures !step.Retry? ==> Closed(kept, own, mine, start, neutralAtStart) && Keeps(kept, false, result)
      ensures (step.Thrown? <==> !step.Retry? && result.Error?) && (step.Stuck? <==> !step.Retry? && result.Hung?)
      ensures Excused(old(env.claims.faults), env.claims.faults, step.Thrown? || step.Stuck?)
      ensures Waited(old(env.waits), env.waits, step.Stuck?, result == Hung(true))
    {
      hide Conserved, Untouched, ClosedBooks, Accounted, Excused, Waited, AllEnd;
      ghost var view, others, neutral := selector.Now(), mine + ownBefore.leases, env.neutral;
      own := Attempted(ownBefore, lease);
      var handed;
      step, next, handed := Attempt(lease, member, s.probation, s.(probation := None), others + {lease});
      assert others + {lease} - {lease} == others;
      BooksAfterAttempt(s, next, step, handed, ownBefore, lease, member, mine, start, view, selector.Now(),
                        selector.members, neutralAtStart, neutral, env.neutral);
      kept := if handed then Some(Kept(lease, true)) else None;
      NotStuck(old(env.waits), env.waits, handed);
      NotStuck(old(env.waits), env.waits, false);
      result := if step.Thrown? then Error else if step.Stuck? then Hung(handed) else Response(handed);
      if step.Retry? {
        AttemptAdvances(s, next, 0, member, selector.members, neutral, neutral, env.neutral);
      }
    }

    /** The claim of a probation attempt that is never made. */
    method NoAttempt(probation: Option<Probation>, ghost faults: seq<Fault>)
      requires Accounted(env.claims, InHand(probation)) && Excused(faults, env.claims.faults, true)
      modifies env`claims
      ensures Accounted(env.claims, map[]) && Excused(faults, env.claims.faults, true)
    {
      if probation.Some? {
        env.Strand(probation.value.claim, Cause.NoAttempt, InHand(probation));
        assert InHand(probation) - {probation.value.claim} == map[];
      }
    }

    /** Seeks a lease: on the member on probation, or on any eligible member that is not excluded. */
    method AcquireFor(s: LoopState, ghost ownBefore: Tally, ghost mine: set<Lease>, ghost start: View,
                      ghost neutralAtStart: nat)
      returns (g: Grant, member: Id, next: LoopState, ghost own: Tally)
      requires Balanced(s, ownBefore, mine, start, neutralAtStart)
      modifies selector, env
      ensures Balanced(next, own, mine, start, neutralAtStart) && env.neutral <= old(env.neutral)
      ensures Excused(old(env.claims.faults), env.claims.faults, g.Lost?)
      ensures Waited(old(env.waits), env.waits, g.Waits?, LeaseOf(g).Some?)
      ensures next == s.(excluded := next.excluded) && s.excluded <= next.excluded
      ensures s.probation.Some? ==> g.Granted? || g.Refused?
      ensures LeaseOf(g).Some? ==>
                && start.nextLease <= LeaseOf(g).value < selector.nextLease && LeaseOf(g).value !in mine
                && LeaseOf(g).value !in own.leases && LeaseOf(g).value in selector.leases
                && (LeaseOf(g).value in selector.counted <==> g.Granted?)
      ensures g.Granted? ==>
                && selector.memberOf[g.lease] == member
                && member in selector.members && member !in next.excluded
                && (s.probation.Some? ==> s.probation.value.member == member)
    {
      hide Conserved, Untouched, Accounted, Took, Returned, Excused, Waited, AllEnd, Enter;
      ghost var view, others, neutral, faults := selector.Now(), mine + ownBefore.leases, env.neutral, env.claims.faults;
      ghost var taken;
      BelowNext(s, ownBefore, mine, start, view, selector.members, neutralAtStart - neutral);
      next := s;
      if s.probation.Some? {
        member := s.probation.value.member;
        g, taken := selector.AcquireProbation(env, member, others);
        NoFaults(faults);
        NoWaits(env.waits);
        NotStuck(env.waits, env.waits, LeaseOf(g).Some?);
      } else {
        var excluded;
        g, member, excluded, taken := selector.Acquire(accounts, s.excluded, others);
        next := next.(excluded := excluded);
      }
      env.Others(InHand(s.probation));
      BooksAfterSearch(s, next.excluded, ownBefore, g, taken, mine, start, view, selector.Now(), selector.members,
                       neutralAtStart - neutral, neutralAtStart - env.neutral);
      own := Enter(ownBefore, g, taken);
    }
  }

  /** Leases in the books are older than any that is taken next. */
  lemma BelowNext(s: LoopState, own: Tally, mine: set<Lease>, start: View, now: View, members: set<Id>, spent: int)
    requires Books(s, own, mine, start, now, members, spent)
    ensures forall l | l in mine + own.leases :: l < now.nextLease
    ensures forall l | l in mine :: l < start.nextLease
  {
  }

  lemma LeavesFewer(members: set<Id>, some: set<Id>, more: set<Id>)
    requires some <= more <= members
    ensures |members - more| == |members| - |more| && |members - some| == |members| - |some|
  {
    assert members == members - more + more && members == members - some + some;
  }

  lemma NoWaits(waits: seq<Wait>)
    ensures AllEnd(waits, waits)
  {
  }

  /** Not to hang is that all waits ended. */
  lemma NotStuck(before: seq<Wait>, after: seq<Wait>, leased: bool)
    ensures Waited(before, after, false, leased) <==> AllEnd(before, after)
  {
  }

  /** The waits of an attempt: those for what was seen, and then those of the recovery that follows. */
  lemma AttemptWaited(before: seq<Wait>, answered: seq<Wait>, after: seq<Wait>, unanswered: bool, stuck: bool, kept: bool)
    requires Waited(before, answered, unanswered, true)
    requires if unanswered then after == answered && stuck && kept else Waited(answered, after, stuck, false)
    requires !unanswered && stuck ==> !kept
    ensures Waited(before, after, stuck, kept)
  {
    if !unanswered {
      WaitedVia(before, answered, after, stuck, false);
    }
  }

  lemma NoFaults(faults: seq<Fault>)
    ensures Excused(faults, faults, false) && Excused(faults, faults, true)
  {
  }

  /** The bound on attempts when no further attempt is made. */
  lemma CloseEarly(attempts: nat, s: LoopState, members: set<Id>, spent: int)
    requires s.excluded <= members && s.absorbed <= members
    requires s.probation.Some? ==> s.probation.value.member in members && s.probation.value.member !in s.excluded
    requires attempts <= 2 * |s.excluded| + 2 * |s.absorbed| + spent + if s.probation.Some? then 1 else 0
    ensures attempts <= 4 * |members| + spent
  {
    Monotone(s.excluded, members);
    Monotone(s.absorbed, members);
    if s.probation.Some? { Monotone(s.excluded + {s.probation.value.member}, members); }
  }

  /** The bound when the last attempt ends the request: its member was not excluded yet. */
  lemma LastAttempt(s: LoopState, attempts: nat, member: Id, members: set<Id>, spent: int)
    requires s.excluded <= members && s.absorbed <= members && member in members && member !in s.excluded
    requires attempts <= 2 * |s.excluded| + 2 * |s.absorbed| + spent + 2
    ensures attempts <= 4 * |members| + spent
  {
    Monotone(s.excluded + {member}, members);
    Monotone(s.absorbed, members);
  }

  /** An attempt that is retried keeps the books balanced and advances the request. */
  lemma AttemptAdvances(s: LoopState, next: LoopState, attempts: nat, member: Id, members: set<Id>,
                        neutralAtStart: nat, neutral: nat, neutralAfter: nat)
    requires member !in s.excluded
    requires s.probation.Some? ==> s.probation.value.member == member
    requires Progress(member, s.probation.Some?, s.(probation := None), next, neutral, neutralAfter)
    requires attempts <= 2 * |s.excluded| + 2 * |s.absorbed| + (neutralAtStart - neutral) + 1 + if s.probation.Some? then 1 else 0
    ensures attempts <= 2 * |next.excluded| + 2 * |next.absorbed| + (neutralAtStart - neutralAfter) + if next.probation.Some? then 1 else 0
    ensures s.excluded <= next.excluded && s.absorbed <= next.absorbed && neutralAfter <= neutral
    ensures || |s.excluded| < |next.excluded| || |s.absorbed| < |next.absorbed| || neutralAfter < neutral
            || (s.probation.None? && next.probation.Some?)
    ensures next.probation.Some? ==> next.probation.value.member == member && member !in next.excluded
  {
  }

  /** The ways a retry makes progress: it excludes or absorbs the member, puts it on probation, or spends an answer that settles nothing. */
  ghost predicate Progress(member: Id, onProbation: bool, s: LoopState, next: LoopState, neutralBefore: nat,
                           neutralAfter: nat) {
    && neutralAfter <= neutralBefore
    && (|| (next.excluded == s.excluded + {member} && next.absorbed == s.absorbed && next.probation.None?)
        || (next.excluded == s.excluded && member !in s.absorbed && next.absorbed == s.absorbed + {member} && next.probation.None?)
        || (next.probation.Some? && next.probation.value.member == member && next == s.(probation := next.probation) && !onProbation)
        || (next == s && !onProbation && neutralAfter < neutralBefore))
  }

  lemma Observed(held: set<Lease>, lease: Lease, before: View, after: View)
    requires Untouched(held, before, after) && lease in held && lease in before.memberOf
    ensures Untouched(held - {lease}, before, after)
    ensures lease in after.memberOf && after.memberOf[lease] == before.memberOf[lease]
    ensures (lease in after.counted <==> lease in before.counted) && (lease in after.leases <==> lease in before.leases)
    ensures before.nextLease <= after.nextLease
  {
  }
}
