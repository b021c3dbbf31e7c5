/**
 Cooldowns shared by overlapping router generations
 (packages/accounts/src/rate-limit-tracker.ts), and the two clients that clear
 them: the pool selector and the usage probe.

 All trackers of one state file work on one map. A client remembers the revision
 it saw; a clear names that revision and fails if the cooldown has changed since.
 */
module RateLimitTracker {
  import opened Wrappers

  type Time = real

  datatype Limits = Limits(observedAt: Time, snapshot: bool, windows: map<string, real>)

  datatype Context = Context(model: Option<string>, windows: Option<seq<string>>)

  datatype MemberState = MemberState(limits: Option<Limits>, coolingUntil: Option<Time>, revision: Option<nat>, context: Option<Context>)

  type Members = map<string, MemberState>

  const EMPTY: MemberState := MemberState(None, None, None, None)

  function Get(members: Members, id: string): MemberState {
    if id in members then members[id] else EMPTY
  }

  function Revision(members: Members, id: string): nat {
    Get(members, id).revision.GetOr(0)
  }

  function CoolingUntil(members: Members, id: string): Option<Time> {
    Get(members, id).coolingUntil
  }

  /** A partial observation adds to the windows it does not mention; a snapshot replaces them. */
  function MergeLimits(previous: Option<Limits>, next: Limits): Limits {
    if next.snapshot || previous.None? then next
    else next.(windows := previous.value.windows + next.windows)
  }

  // ---- Operations ----

  datatype Op =
    | Update(id: string, limits: Limits)
    | Cool(id: string, until: Time, context: Option<Context>)
    | ClearCooling(id: string, expected: Option<nat>)
    | ReconcileSnapshot(id: string, limits: Limits, expectedRevision: nat, recovered: bool)
    | ResetAfterRefresh(id: string, expectedRevision: nat)

  /** A cleared cooldown takes a new revision of its own. */
  function Cleared(m: MemberState): MemberState {
    m.(coolingUntil := None, context := None, revision := Some(m.revision.GetOr(0) + 1))
  }

  /** Whether the operation changes the member's cooldown. */
  predicate Changes(members: Members, op: Op) {
    var m := Get(members, op.id);
    match op
    case Update(_, _) => false
    case Cool(_, _, _) => true
    case ClearCooling(id, expected) =>
      // An entry read from a file may have no revision; a clear that names one then fails, even for zero.
      id in members && m.coolingUntil.Some? && (expected.None? || m.revision == Some(expected.value))
    case ReconcileSnapshot(_, limits, expectedRevision, recovered) =>
      recovered && limits.snapshot && m.coolingUntil.Some? && m.revision.GetOr(0) == expectedRevision
    case ResetAfterRefresh(_, expectedRevision) => m.revision.GetOr(0) == expectedRevision
  }

  function Apply(members: Members, op: Op): Members {
    var m := Get(members, op.id);
    var changes := Changes(members, op);
    match op
    case Update(id, limits) => members[id := m.(limits := Some(MergeLimits(m.limits, limits)))]
    case Cool(id, until, context) =>
      members[id := m.(coolingUntil := Some(until), context := context, revision := Some(m.revision.GetOr(0) + 1))]
    case ClearCooling(id, _) => if changes then members[id := Cleared(m)] else members
    case ReconcileSnapshot(id, limits, _, _) =>
      var merged := m.(limits := Some(MergeLimits(m.limits, limits)));
      members[id := if changes then Cleared(merged) else merged]
    case ResetAfterRefresh(id, _) =>
      var reset := m.(limits := None);
      members[id := if changes then Cleared(reset) else reset]
  }

  /** The operations of any number of trackers, in the order in which they reach the shared map. */
  function Run(members: Members, ops: seq<Op>): Members
    decreases |ops|
  {
    if ops == [] then members else Run(Apply(members, ops[0]), ops[1..])
  }

  /** How many of the operations change the member's cooldown. */
  function CountChanges(members: Members, ops: seq<Op>, id: string): nat
    decreases |ops|
  {
    if ops == [] then 0
    else (if ops[0].id == id && Changes(members, ops[0]) then 1 else 0) + CountChanges(Apply(members, ops[0]), ops[1..], id)
  }

  // ---- No cooldown is lost ----

  /** Revisions count the cooldown changes: they never go back and never stand still over a change. */
  lemma {:induction false} RevisionsCount(members: Members, ops: seq<Op>, id: string)
    ensures Revision(Run(members, ops), id) == Revision(members, id) + CountChanges(members, ops, id)
    decreases |ops|
  {
    if ops != [] {
      RevisionsCount(Apply(members, ops[0]), ops[1..], id);
    }
  }

  /** A run without a change of the member's cooldown leaves all of it as it was. */
  lemma {:induction false} UnchangedCooldown(members: Members, ops: seq<Op>, id: string)
    requires CountChanges(members, ops, id) == 0
    ensures CoolingUntil(Run(members, ops), id) == CoolingUntil(members, id)
    ensures Get(Run(members, ops), id).context == Get(members, id).context
    decreases |ops|
  {
    if ops != [] {
      UnchangedCooldown(Apply(members, ops[0]), ops[1..], id);
    }
  }

  lemma {:induction false} RunSnoc(members: Members, ops: seq<Op>, op: Op)
    ensures Run(members, ops + [op]) == Apply(Run(members, ops), op)
    decreases |ops|
  {
    if ops == [] {
      assert (ops + [op])[1..] == [];
    } else {
      assert (ops + [op])[1..] == ops[1..] + [op];
      RunSnoc(Apply(members, ops[0]), ops[1..], op);
    }
  }

  lemma {:induction false} RunJoin(members: Members, ops: seq<Op>, more: seq<Op>)
    ensures Run(members, ops + more) == Run(Run(members, ops), more)
    decreases |more|
  {
    if more == [] {
      assert ops + more == ops;
    } else {
      var (init, last) := (more[..|more| - 1], more[|more| - 1]);
      RunJoin(members, ops, init);
      assert ops + more == (ops + init) + [last] && more == init + [last];
      RunSnoc(members, ops + init, last);
      RunSnoc(Run(members, ops), init, last);
    }
  }

  /** One of the operations cools the member, and none after it clears that cooldown. */
  ghost predicate Recooled(members: Members, ops: seq<Op>, id: string) {
    exists k: nat :: CooledLast(members, ops, id, k)
  }

  ghost predicate CooledLast(members: Members, ops: seq<Op>, id: string, k: nat) {
    && k < |ops| && ops[k].Cool? && ops[k].id == id
    && forall m: nat :: k < m < |ops| ==> !ClearsAt(members, ops, id, m)
  }

  /** The operation at `m` takes effect as a clear of the member's cooldown. */
  predicate ClearsAt(members: Members, ops: seq<Op>, id: string, m: nat) {
    m < |ops| && !ops[m].Cool? && ops[m].id == id && Changes(Run(members, ops[..m]), ops[m])
  }

  /** A member that does not cool at first cools after the operations exactly if it was cooled and not cleared since. */
  lemma {:induction false} RecooledCools(members: Members, ops: seq<Op>, id: string)
    requires CoolingUntil(members, id).None?
    ensures CoolingUntil(Run(members, ops), id).Some? <==> Recooled(members, ops, id)
    decreases |ops|
  {
    if ops != [] {
      var n := |ops| - 1;
      var (init, last) := (ops[..n], ops[n]);
      assert ops == init + [last];
      RunSnoc(members, init, last);
      RecooledCools(members, init, id);
      forall m: nat | m < n ensures ClearsAt(members, ops, id, m) <==> ClearsAt(members, init, id, m) {
        assert init[..m] == ops[..m];
      }
      if last.Cool? && last.id == id {
        assert CooledLast(members, ops, id, n);
      } else if ClearsAt(members, ops, id, n) {
        assert forall k: nat :: !CooledLast(members, ops, id, k);
      } else {
        assert forall k: nat :: CooledLast(members, ops, id, k) <==> CooledLast(members, init, id, k);
      }
    }
  }

  /**
   Optimistic concurrency: a client reads the revision, others run `ops`, and then
   the client's clear names what it read. If the clear takes effect, nothing has
   changed the cooldown in between, so the cooldown it removes is the one it saw.
   */
  lemma ClearRemovesWhatWasSeen(members: Members, ops: seq<Op>, clear: Op)
    requires clear.ClearCooling? || clear.ReconcileSnapshot? || clear.ResetAfterRefresh?
    requires clear.ClearCooling? ==> clear.expected == Some(Revision(members, clear.id))
    requires !clear.ClearCooling? ==> clear.expectedRevision == Revision(members, clear.id)
    requires Changes(Run(members, ops), clear)
    ensures CountChanges(members, ops, clear.id) == 0
    ensures CoolingUntil(Run(members, ops), clear.id) == CoolingUntil(members, clear.id)
    ensures CoolingUntil(Apply(Run(members, ops), clear), clear.id) == None
  {
    RevisionsCount(members, ops, clear.id);
    UnchangedCooldown(members, ops, clear.id);
  }

  /** Renaming members brings revisions back: a clear may then remove a cooldown its client has never seen. */
  function RenameMember(members: Members, source: string, target: string): Members {
    if source in members then (members - {source, target})[target := members[source]] else members - {source, target}
  }

  lemma RenameForgetsRevisions(seen: Time, unseen: Time)
    requires seen != unseen
    ensures var start := Run(map[], [Cool("a", seen, None), Cool("b", unseen, None)]);
            var later := RenameMember(start, "b", "a");
            && CoolingUntil(start, "a") == Some(seen) && CoolingUntil(later, "a") == Some(unseen)
            && Changes(later, ClearCooling("a", Some(Revision(start, "a"))))
  {
    var first := Apply(map[], Cool("a", seen, None));
    assert "a"[0] != "b"[0];
    assert Run(first, [Cool("b", unseen, None)]) == Run(Apply(first, Cool("b", unseen, None)), []);
    assert [Cool("a", seen, None), Cool("b", unseen, None)][1..] == [Cool("b", unseen, None)];
  }

  // ---- The tracker ----

  class Shared {
    var members: Members

    constructor (members: Members)
      ensures this.members == members
    {
      this.members := members;
    }
  }

  class Tracker {
    const shared: Shared

    constructor (shared: Shared)
      ensures this.shared == shared
    {
      this.shared := shared;
    }

    method Update(id: string, limits: Limits)
      modifies shared
      ensures shared.members == Apply(old(shared.members), Op.Update(id, limits))
    {
      var member := Get(shared.members, id);
      member := member.(limits := Some(MergeLimits(member.limits, limits)));
      shared.members := shared.members[id := member];
    }

    method Cool(id: string, until: Time, context: Option<Context>) returns (revision: nat)
      modifies shared
      ensures shared.members == Apply(old(shared.members), Op.Cool(id, until, context))
      ensures revision == Revision(shared.members, id)
    {
      var member := Get(shared.members, id);
      member := member.(revision := Some(member.revision.GetOr(0) + 1));
      member := member.(coolingUntil := Some(until));
      member := member.(context := context);
      shared.members := shared.members[id := member];
      revision := member.revision.value;
    }

    method ClearCooling(id: string, expected: Option<nat>) returns (cleared: bool)
      modifies shared
      ensures shared.members == Apply(old(shared.members), Op.ClearCooling(id, expected))
      ensures cleared == Changes(old(shared.members), Op.ClearCooling(id, expected))
    {
      if id !in shared.members { return false; }
      var member := shared.members[id];
      if member.coolingUntil.None? || (expected.Some? && member.revision != Some(expected.value)) { return false; }
      member := member.(revision := Some(member.revision.GetOr(0) + 1));
      member := member.(coolingUntil := None, context := None);
      shared.members := shared.members[id := member];
      return true;
    }

    method ReconcileSnapshot(id: string, limits: Limits, expectedRevision: nat, recovered: bool) returns (cleared: bool)
      modifies shared
      ensures shared.members == Apply(old(shared.members), Op.ReconcileSnapshot(id, limits, expectedRevision, recovered))
      ensures cleared == Changes(old(shared.members), Op.ReconcileSnapshot(id, limits, expectedRevision, recovered))
    {
      var member := Get(shared.members, id);
      member := member.(limits := Some(MergeLimits(member.limits, limits)));
      cleared := recovered && limits.snapshot && member.coolingUntil.Some? && member.revision.GetOr(0) == expectedRevision;
      if cleared {
        member := member.(revision := Some(member.revision.GetOr(0) + 1));
        member := member.(coolingUntil := None, context := None);
      }
      shared.members := shared.members[id := member];
    }

    method ResetAfterRefresh(id: string, expectedRevision: nat) returns (cleared: bool)
      modifies shared
      ensures shared.members == Apply(old(shared.members), Op.ResetAfterRefresh(id, expectedRevision))
      ensures cleared == Changes(old(shared.members), Op.ResetAfterRefresh(id, expectedRevision))
    {
      var member := Get(shared.members, id);
      member := member.(limits := None);
      cleared := member.revision.GetOr(0) == expectedRevision;
      if cleared {
        member := member.(revision := Some(member.revision.GetOr(0) + 1));
        member := member.(coolingUntil := None, context := None);
      }
      shared.members := shared.members[id := member];
    }
  }

  // ---- The clients' cached cooldowns ----

  /** A pool member's own copy of its cooldown. */
  class PoolMember {
    const id: string
    var coolingUntil: Option<Time>
    var cooldownRevision: nat

    constructor (id: string, tracker: Tracker)
      ensures this.id == id && Agrees(tracker.shared.members)
    {
      this.id := id;
      coolingUntil := CoolingUntil(tracker.shared.members, id);
      cooldownRevision := Revision(tracker.shared.members, id);
    }

    /** The copy is what the tracker holds. */
    predicate Agrees(members: Members)
      reads this
    {
      coolingUntil == CoolingUntil(members, id) && cooldownRevision == Revision(members, id)
    }
  }

  /** While the tracker persists, other requests and generations may run `ops`. */
  method Elsewhere(shared: Shared, ops: seq<Op>)
    modifies shared
    ensures shared.members == Run(old(shared.members), ops)
  {
    assert ops[0..] == ops;
    for i := 0 to |ops|
      invariant Run(shared.members, ops[i..]) == Run(old(shared.members), ops)
    {
      assert ops[i..][1..] == ops[i + 1..];
      shared.members := Apply(shared.members, ops[i]);
    }
  }

  predicate Expired(coolingUntil: Option<Time>, now: Time) {
    coolingUntil.Some? && coolingUntil.value <= now
  }

  /** What happens while a write is under way: others run `ops`, and it may fail. */
  datatype Write = Write(ops: seq<Op>, fails: bool)

  /**
   One turn of `#clearExpiredCooldowns`. `w.ops` are what other generations do while
   the clear is persisted. The copy agrees with the tracker afterwards exactly when
   there was nothing to clear, or the clear was persisted and none of them cooled the
   member for good: after that the copy drops its time in any case, and after a
   failed write it is not touched.
   */
  method ClearExpired(member: PoolMember, tracker: Tracker, now: Time, w: Write)
    returns (expired: bool, cleared: bool, ok: bool)
    modifies member, tracker.shared
    ensures expired == old(Expired(member.coolingUntil, now)) && ok == !(cleared && w.fails)
    ensures !expired ==> !cleared && tracker.shared.members == old(tracker.shared.members)
    ensures !expired || !ok ==> member.coolingUntil == old(member.coolingUntil)
                                && member.cooldownRevision == old(member.cooldownRevision)
    ensures expired ==>
              var clear := Op.ClearCooling(member.id, Some(old(member.cooldownRevision)));
              var afterClear := Apply(old(tracker.shared.members), clear);
              && cleared == Changes(old(tracker.shared.members), clear)
              && tracker.shared.members == Run(afterClear, if cleared then w.ops else [])
              && (ok ==>
                    && member.coolingUntil == (if cleared then None else CoolingUntil(tracker.shared.members, member.id))
                    && member.cooldownRevision == Revision(tracker.shared.members, member.id))
              && member.cooldownRevision <= Revision(tracker.shared.members, member.id)
              && (member.Agrees(tracker.shared.members) <==> !cleared || (!w.fails && !Recooled(afterClear, w.ops, member.id)))
  {
    expired := member.coolingUntil.Some? && member.coolingUntil.value <= now;
    cleared, ok := false, true;
    if expired {
      cleared := tracker.ClearCooling(member.id, Some(member.cooldownRevision));
      if cleared {
        RecooledCools(tracker.shared.members, w.ops, member.id);
        RevisionsCount(tracker.shared.members, w.ops, member.id);
        Elsewhere(tracker.shared, w.ops);
        if w.fails { return expired, cleared, false; }
        member.coolingUntil := None;
        member.cooldownRevision := Revision(tracker.shared.members, member.id);
      } else {
        member.coolingUntil := CoolingUntil(tracker.shared.members, member.id);
        member.cooldownRevision := Revision(tracker.shared.members, member.id);
      }
    }
  }

  /** An instance: a member that is cooled once while its clear is persisted. */
  method CooledAgain(id: string, seen: Time, again: Time, now: Time) returns (member: PoolMember, tracker: Tracker)
    requires seen <= now
    ensures CoolingUntil(tracker.shared.members, id) == Some(again)
    ensures member.coolingUntil.None? && member.cooldownRevision == Revision(tracker.shared.members, id)
  {
    var shared := new Shared(Apply(map[], Op.Cool(id, seen, None)));
    tracker := new Tracker(shared);
    member := new PoolMember(id, tracker);
    var afterClear := Apply(shared.members, Op.ClearCooling(id, Some(member.cooldownRevision)));
    var ops := [Op.Cool(id, again, None)];
    var expired, cleared, ok := ClearExpired(member, tracker, now, Write(ops, false));
    assert CooledLast(afterClear, ops, id, 0);
    assert ops[1..] == [];
    assert Run(afterClear, ops) == Apply(afterClear, ops[0]);
  }

  /** One turn of the loop: its operations reach the map as `trail[from..end]`. */
  datatype Turn = Turn(from: nat, end: nat, expired: bool, cleared: bool, persisted: bool)

  function ClearOf(id: string, revision: nat): Op {
    Op.ClearCooling(id, Some(revision))
  }

  /** What turn of a member, whose copy had this time and revision, put on the trail. */
  ghost predicate Took(start: Members, trail: seq<Op>, turn: Turn, id: string, coolingUntil: Option<Time>, revision: nat,
                       now: Time, w: Write) {
    && turn.from <= turn.end <= |trail|
    && turn.expired == Expired(coolingUntil, now)
    && turn.cleared == (turn.expired && Changes(Run(start, trail[..turn.from]), ClearOf(id, revision)))
    && turn.persisted == !(turn.cleared && w.fails)
    && trail[turn.from..turn.end] == if turn.cleared then [ClearOf(id, revision)] + w.ops else []
  }

  /**
   Whether the copy of a member that had expired is up to date after the whole loop:
   if it was cleared, that was persisted and nobody cooled it for good meanwhile; and
   nothing changed its cooldown while later turns were persisted.
   */
  ghost predicate UpToDate(start: Members, trail: seq<Op>, turn: Turn, w: Write, id: string, revision: nat) {
    && turn.from <= turn.end <= |trail| && turn.persisted
    && (turn.cleared ==> !Recooled(Apply(Run(start, trail[..turn.from]), ClearOf(id, revision)), w.ops, id))
    && CountChanges(Run(start, trail[..turn.end]), trail[turn.end..], id) == 0
  }

  ghost predicate Distinct(members: seq<PoolMember>) {
    forall i, j :: 0 <= i < j < |members| ==> members[i].id != members[j].id
  }

  predicate CopyAgrees(coolingUntil: Option<Time>, revision: nat, members: Members, id: string) {
    coolingUntil == CoolingUntil(members, id) && revision == Revision(members, id)
  }

  /** Later operations outdate an up-to-date copy if and only if they change the cooldown, and never repair one. */
  lemma CopyLater(coolingUntil: Option<Time>, revision: nat, members: Members, more: seq<Op>, id: string)
    requires revision <= Revision(members, id)
    ensures revision <= Revision(Run(members, more), id)
    ensures CopyAgrees(coolingUntil, revision, Run(members, more), id)
            <==> CopyAgrees(coolingUntil, revision, members, id) && CountChanges(members, more, id) == 0
  {
    RevisionsCount(members, more, id);
    if CountChanges(members, more, id) == 0 { UnchangedCooldown(members, more, id); }
  }

  lemma {:induction false} CountJoin(members: Members, ops: seq<Op>, more: seq<Op>, id: string)
    ensures CountChanges(members, ops + more, id) == CountChanges(members, ops, id) + CountChanges(Run(members, ops), more, id)
    decreases |ops|
  {
    if ops == [] {
      assert ops + more == more;
    } else {
      assert (ops + more)[1..] == ops[1..] + more;
      CountJoin(Apply(members, ops[0]), ops[1..], more, id);
    }
  }

  /** A longer trail, for a turn that is over. */
  lemma TrailGrows(start: Members, trail: seq<Op>, more: seq<Op>, turn: Turn, id: string, coolingUntil: Option<Time>,
                   revision: nat, now: Time, w: Write)
    requires Took(start, trail, turn, id, coolingUntil, revision, now, w)
    ensures Took(start, trail + more, turn, id, coolingUntil, revision, now, w)
    ensures UpToDate(start, trail + more, turn, w, id, revision)
            <==> UpToDate(start, trail, turn, w, id, revision) && CountChanges(Run(start, trail), more, id) == 0
  {
    hide Recooled, Changes;
    var all := trail + more;
    assert all[..turn.from] == trail[..turn.from] && all[..turn.end] == trail[..turn.end];
    assert all[turn.from..turn.end] == trail[turn.from..turn.end];
    assert all[turn.end..] == trail[turn.end..] + more;
    assert trail == trail[..turn.end] + trail[turn.end..];
    CountJoin(Run(start, trail[..turn.end]), trail[turn.end..], more, id);
    RunJoin(start, trail[..turn.end], trail[turn.end..]);
  }

  /** The turn that has just ended. */
  lemma TurnEnds(start: Members, trail: seq<Op>, id: string, coolingUntil: Option<Time>, revision: nat, now: Time,
                 w: Write, cleared: bool) returns (turn: Turn, more: seq<Op>)
    requires cleared == (Expired(coolingUntil, now) && Changes(Run(start, trail), ClearOf(id, revision)))
    ensures turn.from == |trail| <= turn.end == |trail + more| && turn.cleared == cleared
    ensures turn.expired == Expired(coolingUntil, now) && (cleared ==> turn.expired)
    ensures Took(start, trail + more, turn, id, coolingUntil, revision, now, w)
    ensures Run(start, trail + more) == if cleared then Run(Apply(Run(start, trail), ClearOf(id, revision)), w.ops) else Run(start, trail)
    ensures UpToDate(start, trail + more, turn, w, id, revision)
            <==> !cleared || (!w.fails && !Recooled(Apply(Run(start, trail), ClearOf(id, revision)), w.ops, id))
    ensures turn.persisted == !(cleared && w.fails)
  {
    hide Recooled, Changes;
    more := if cleared then [ClearOf(id, revision)] + w.ops else [];
    turn := Turn(|trail|, |trail + more|, Expired(coolingUntil, now), cleared, !(cleared && w.fails));
    assert (trail + more)[..|trail|] == trail && (trail + more)[..|trail + more|] == trail + more;
    assert (trail + more)[|trail|..|trail + more|] == more && (trail + more)[|trail + more|..] == [];
    RunJoin(start, trail, more);
    if cleared { assert more[1..] == w.ops; }
  }

  /**
   The whole loop, up to the first write that fails. `writes[k]` is what happens while turn `k` is
   persisted, and `trail` is all that reaches the map. At its end the copy of each
   member that had expired is what the tracker holds exactly when it is up to date in
   the sense above; other copies are left alone.
   */
  method ClearExpiredCooldowns(members: seq<PoolMember>, tracker: Tracker, now: Time, writes: seq<Write>)
    returns (ok: bool, ghost trail: seq<Op>, ghost turns: seq<Turn>)
    requires Distinct(members) && |writes| == |members|
    modifies tracker.shared, members
    ensures tracker.shared.members == Run(old(tracker.shared.members), trail)
    ensures |turns| <= |members| && (ok ==> |turns| == |members|)
    ensures forall j :: 0 <= j < |turns| ==> turns[j].from == StartOf(turns, j) && (turns[j].persisted || (!ok && j == |turns| - 1))
    ensures !ok ==> turns != [] && !turns[|turns| - 1].persisted
    ensures forall j :: 0 <= j < |turns| ==>
              && Took(old(tracker.shared.members), trail, turns[j], members[j].id, old(members[j].coolingUntil),
                      old(members[j].cooldownRevision), now, writes[j])
              && (if turns[j].expired then
                    (members[j].Agrees(tracker.shared.members)
                     <==> UpToDate(old(tracker.shared.members), trail, turns[j], writes[j], members[j].id, old(members[j].cooldownRevision)))
                  else members[j].coolingUntil == old(members[j].coolingUntil)
                       && members[j].cooldownRevision == old(members[j].cooldownRevision))
    ensures forall j :: |turns| <= j < |members| ==>
              members[j].coolingUntil == old(members[j].coolingUntil) && members[j].cooldownRevision == old(members[j].cooldownRevision)
  {
    hide Recooled, Changes, Took, UpToDate, Consecutive, AllSettled, Run;
    NoTurns();
    ghost var start, copies := tracker.shared.members, Copies(members);
    ok, trail, turns := true, [], [];
    NothingSettled(members, copies, start, now, writes);
    var k := 0;
    while ok && k < |members|
      invariant |turns| == k <= |members| && tracker.shared.members == Run(start, trail)
      invariant Consecutive(turns, |trail|)
      invariant forall j :: 0 <= j < k ==> turns[j].persisted || (!ok && j == k - 1)
      invariant !ok ==> k > 0 && !turns[k - 1].persisted
      invariant Waiting(members, copies, k)
      invariant AllSettled(members, copies, start, trail, turns, now, writes)
      decreases |members| - k
    {
      ghost var turn, more;
      ok, turn, more := TakeNextTurn(members, k, tracker, now, writes, copies, start, trail, turns);
      ConsecutiveMore(turns, |trail|, turn);
      trail, turns := trail + more, turns + [turn];
      k := k + 1;
    }
    AllMean(members, copies, start, trail, turns, now, writes);
    FromEnds(turns, |trail|);
  }

  /** The members from `k` on still have the copies that they had before the loop. */
  ghost predicate Waiting(members: seq<PoolMember>, copies: seq<(Option<Time>, nat)>, k: nat)
    reads members
  {
    && |copies| == |members|
    && forall j :: k <= j < |members| ==>
         members[j].coolingUntil == copies[j].0 && members[j].cooldownRevision == copies[j].1
  }

  ghost predicate AllSettled(members: seq<PoolMember>, copies: seq<(Option<Time>, nat)>, start: Members, trail: seq<Op>,
                             turns: seq<Turn>, now: Time, writes: seq<Write>)
    reads members
  {
    && |turns| <= |members| == |copies| == |writes|
    && forall j :: 0 <= j < |turns| ==> Settled(members[j], copies[j].0, copies[j].1, start, trail, turns[j], now, writes[j])
  }

  lemma NothingSettled(members: seq<PoolMember>, copies: seq<(Option<Time>, nat)>, start: Members, now: Time,
                       writes: seq<Write>)
    requires |members| == |copies| == |writes|
    ensures AllSettled(members, copies, start, [], [], now, writes) && Run(start, []) == start
  {
  }

  method TakeNextTurn(members: seq<PoolMember>, k: nat, tracker: Tracker, now: Time, writes: seq<Write>,
                      ghost copies: seq<(Option<Time>, nat)>, ghost start: Members, ghost trail: seq<Op>,
                      ghost turns: seq<Turn>)
    returns (ok: bool, ghost turn: Turn, ghost more: seq<Op>)
    requires Distinct(members) && |turns| == k < |members| == |writes| && Waiting(members, copies, k)
    requires tracker.shared.members == Run(start, trail)
    requires AllSettled(members, copies, start, trail, turns, now, writes)
    modifies tracker.shared, members
    ensures tracker.shared.members == Run(start, trail + more)
    ensures turn.from == |trail| <= turn.end == |trail + more| && turn.persisted == ok
    ensures Waiting(members, copies, k + 1)
    ensures AllSettled(members, copies, start, trail + more, turns + [turn], now, writes)
  {
    hide Recooled, Changes, Took, UpToDate, Settled, Run;
    assert forall j | 0 <= j < |members| && j != k :: members[j] != members[k];
    ok, turn, more := TakeTurn(members[k], tracker, now, writes[k], start, trail);
    forall j | 0 <= j < k
      ensures Settled(members[j], copies[j].0, copies[j].1, start, trail + more, turns[j], now, writes[j])
    {
      SettledLater(members[j], copies[j].0, copies[j].1, start, trail, more, turns[j], now, writes[j]);
    }
  }

  lemma AllMean(members: seq<PoolMember>, copies: seq<(Option<Time>, nat)>, start: Members, trail: seq<Op>,
                turns: seq<Turn>, now: Time, writes: seq<Write>)
    requires AllSettled(members, copies, start, trail, turns, now, writes)
    ensures |turns| <= |members| == |copies| == |writes|
    ensures forall j :: 0 <= j < |turns| ==>
              && Took(start, trail, turns[j], members[j].id, copies[j].0, copies[j].1, now, writes[j])
              && (if turns[j].expired then
                    (members[j].Agrees(Run(start, trail)) <==> UpToDate(start, trail, turns[j], writes[j], members[j].id, copies[j].1))
                  else members[j].coolingUntil == copies[j].0 && members[j].cooldownRevision == copies[j].1)
  {
    hide Took, UpToDate;
    forall j | 0 <= j < |turns|
      ensures Took(start, trail, turns[j], members[j].id, copies[j].0, copies[j].1, now, writes[j])
      ensures if turns[j].expired then
                (members[j].Agrees(Run(start, trail)) <==> UpToDate(start, trail, turns[j], writes[j], members[j].id, copies[j].1))
              else members[j].coolingUntil == copies[j].0 && members[j].cooldownRevision == copies[j].1
    {
      SettledMeans(members[j], copies[j].0, copies[j].1, start, trail, turns[j], now, writes[j]);
    }
  }

  /** The copies before the loop. */
  ghost function Copies(members: seq<PoolMember>): seq<(Option<Time>, nat)>
    reads members
  {
    seq(|members|, i requires 0 <= i < |members| reads members => (members[i].coolingUntil, members[i].cooldownRevision))
  }

  function StartOf(turns: seq<Turn>, j: nat): nat
    requires j <= |turns|
  {
    if j == 0 then 0 else turns[j - 1].end
  }

  /** Each turn starts on the trail where the one before it ended. */
  ghost predicate Consecutive(turns: seq<Turn>, end: nat) {
    && (forall j :: 0 <= j < |turns| ==> turns[j].from == StartOf(turns, j))
    && end == StartOf(turns, |turns|)
  }

  lemma NoTurns()
    ensures Consecutive([], 0)
  {}

  lemma FromEnds(turns: seq<Turn>, end: nat)
    requires Consecutive(turns, end)
    ensures forall j :: 0 <= j < |turns| ==> turns[j].from == StartOf(turns, j)
  {}

  lemma ConsecutiveMore(turns: seq<Turn>, end: nat, turn: Turn)
    requires Consecutive(turns, end) && turn.from == end
    ensures Consecutive(turns + [turn], turn.end)
  {
    var all := turns + [turn];
    forall j | 0 <= j < |all| ensures all[j].from == StartOf(all, j) {
      if j < |turns| {
        assert turns[j].from == StartOf(turns, j);
      }
    }
  }

  method TakeTurn(member: PoolMember, tracker: Tracker, now: Time, w: Write, ghost start: Members, ghost trail: seq<Op>)
    returns (ok: bool, ghost turn: Turn, ghost more: seq<Op>)
    requires tracker.shared.members == Run(start, trail)
    modifies tracker.shared, member
    ensures tracker.shared.members == Run(start, trail + more)
    ensures turn.from == |trail| <= turn.end == |trail + more| && turn.persisted == ok
    ensures Settled(member, old(member.coolingUntil), old(member.cooldownRevision), start, trail + more, turn, now, w)
  {
    hide Recooled, Changes, Took, UpToDate;
    ghost var coolingUntil, revision := member.coolingUntil, member.cooldownRevision;
    var expired, cleared;
    expired, cleared, ok := ClearExpired(member, tracker, now, w);
    turn, more := TurnEnds(start, trail, member.id, coolingUntil, revision, now, w, cleared);
  }

  lemma SettledMeans(member: PoolMember, coolingUntil: Option<Time>, revision: nat, start: Members, trail: seq<Op>,
                     turn: Turn, now: Time, w: Write)
    requires Settled(member, coolingUntil, revision, start, trail, turn, now, w)
    ensures Took(start, trail, turn, member.id, coolingUntil, revision, now, w) && turn.from <= turn.end <= |trail|
    ensures if turn.expired then
              (member.Agrees(Run(start, trail)) <==> UpToDate(start, trail, turn, w, member.id, revision))
            else member.coolingUntil == coolingUntil && member.cooldownRevision == revision
  {}

  /** A member's copy after its turn: as it was, or up to date exactly in the sense above. */
  ghost predicate Settled(member: PoolMember, coolingUntil: Option<Time>, revision: nat, start: Members, trail: seq<Op>,
                          turn: Turn, now: Time, w: Write)
    reads member
  {
    && Took(start, trail, turn, member.id, coolingUntil, revision, now, w)
    && turn.expired == Expired(coolingUntil, now)
    && turn.from <= turn.end <= |trail|
    && (if turn.expired then
          && member.cooldownRevision <= Revision(Run(start, trail), member.id)
          && (member.Agrees(Run(start, trail)) <==> UpToDate(start, trail, turn, w, member.id, revision))
        else member.coolingUntil == coolingUntil && member.cooldownRevision == revision)
  }

  lemma SettledLater(member: PoolMember, coolingUntil: Option<Time>, revision: nat, start: Members, trail: seq<Op>,
                     more: seq<Op>, turn: Turn, now: Time, w: Write)
    requires Settled(member, coolingUntil, revision, start, trail, turn, now, w)
    ensures Settled(member, coolingUntil, revision, start, trail + more, turn, now, w)
  {
    hide Recooled, Changes, Took, UpToDate;
    TrailGrows(start, trail, more, turn, member.id, coolingUntil, revision, now, w);
    RunJoin(start, trail, more);
    if turn.expired { CopyLater(member.coolingUntil, member.cooldownRevision, Run(start, trail), more, member.id); }
  }

  /**
   A usage probe: reads the copied revision, fetches usage while others run `ops`,
   and reconciles with what it read, which `w` describes the write of. With a copy
   that is not ahead of the tracker it clears only if the copy was up to date and
   nothing has changed since. Its copy agrees with the tracker at the end if the
   write succeeds, and otherwise exactly if it did before and nothing has changed.
   */
  method Probe(member: PoolMember, tracker: Tracker, limits: Limits, recovered: bool, ops: seq<Op>, w: Write)
    returns (cleared: bool)
    modifies member, tracker.shared
    ensures if w.fails then member.coolingUntil == old(member.coolingUntil) && member.cooldownRevision == old(member.cooldownRevision)
            else member.Agrees(tracker.shared.members)
    ensures var reconcile := Op.ReconcileSnapshot(member.id, limits, old(member.cooldownRevision), recovered);
            && tracker.shared.members == Run(old(tracker.shared.members), ops + ([reconcile] + w.ops))
            && cleared == Changes(Run(old(tracker.shared.members), ops), reconcile)
    ensures var reconcile := Op.ReconcileSnapshot(member.id, limits, old(member.cooldownRevision), recovered);
            var changes := CountChanges(old(tracker.shared.members), ops + ([reconcile] + w.ops), member.id);
            old(member.cooldownRevision <= Revision(tracker.shared.members, member.id)) ==>
              && (member.Agrees(tracker.shared.members) <==> !w.fails || (old(member.Agrees(tracker.shared.members)) && changes == 0))
              && (cleared ==>
                    && old(member.cooldownRevision == Revision(tracker.shared.members, member.id))
                    && CountChanges(old(tracker.shared.members), ops, member.id) == 0)
  {
    var cooldownRevision := member.cooldownRevision;
    ghost var before := tracker.shared.members;
    ghost var reconcile := Op.ReconcileSnapshot(member.id, limits, cooldownRevision, recovered);
    Elsewhere(tracker.shared, ops);
    cleared := tracker.ReconcileSnapshot(member.id, limits, cooldownRevision, recovered);
    Elsewhere(tracker.shared, w.ops);
    RunJoin(before, ops, [reconcile] + w.ops);
    assert ([reconcile] + w.ops)[1..] == w.ops;
    RevisionsCount(before, ops, member.id);
    if cooldownRevision <= Revision(before, member.id) {
      CopyLater(member.coolingUntil, cooldownRevision, before, ops + ([reconcile] + w.ops), member.id);
    }
    if !w.fails {
      member.coolingUntil := CoolingUntil(tracker.shared.members, member.id);
      member.cooldownRevision := Revision(tracker.shared.members, member.id);
    }
  }
}
