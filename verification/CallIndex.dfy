/**
 The bounded index of model calls (packages/daemon/src/call-attribution-store.ts):
 an ordered map that is pruned from its old end, against a plain list that is
 filtered.
 */
module CallIndex {
  import opened Wrappers

  type Time = int

  datatype Record = Record(callId: string, inspection: string, insertedAt: Time)

  // ---- The plain list ----

  predicate Expired(r: Record, now: Time, ttl: nat) {
    now - r.insertedAt > ttl
  }

  /** All records that have not expired. */
  function Fresh(records: seq<Record>, now: Time, ttl: nat): seq<Record> {
    if records == [] then []
    else (if Expired(records[0], now, ttl) then [] else [records[0]]) + Fresh(records[1..], now, ttl)
  }

  /** All records of other calls. */
  function Others(records: seq<Record>, callId: string): seq<Record> {
    if records == [] then []
    else (if records[0].callId == callId then [] else [records[0]]) + Others(records[1..], callId)
  }

  function Newest(records: seq<Record>, limit: nat): (r: seq<Record>)
    ensures |r| <= limit && |r| <= |records|
  {
    if |records| <= limit then records else records[|records| - limit..]
  }

  function Find(records: seq<Record>, callId: string): Option<string> {
    if records == [] then None
    else if records[0].callId == callId then Some(records[0].inspection)
    else Find(records[1..], callId)
  }

  /** The latest record of each call, in the order of insertion. */
  function Latest(history: seq<Record>): seq<Record> {
    if history == [] then []
    else Others(Latest(history[..|history| - 1]), history[|history| - 1].callId) + [history[|history| - 1]]
  }

  /** What a list would give: of all calls ever recorded, the latest records that have not expired, up to the limit. */
  function Index(history: seq<Record>, now: Time, ttl: nat, limit: nat): seq<Record> {
    Newest(Fresh(Latest(history), now, ttl), limit)
  }

  // ---- The invariant ----

  /** Insertion order is age order. */
  predicate Aged(records: seq<Record>) {
    forall i, j :: 0 <= i < j < |records| ==> records[i].insertedAt <= records[j].insertedAt
  }

  predicate Distinct(records: seq<Record>) {
    forall i, j :: 0 <= i < j < |records| ==> records[i].callId != records[j].callId
  }

  predicate Before(records: seq<Record>, clock: Time) {
    forall i :: 0 <= i < |records| ==> records[i].insertedAt <= clock
  }

  predicate Ordered(records: seq<Record>, clock: Time) {
    Aged(records) && Distinct(records) && Before(records, clock)
  }

  lemma {:induction false} AllFresh(records: seq<Record>, now: Time, ttl: nat)
    requires forall i :: 0 <= i < |records| ==> !Expired(records[i], now, ttl)
    ensures Fresh(records, now, ttl) == records
    decreases |records|
  {
    if records != [] { AllFresh(records[1..], now, ttl); }
  }

  /** In age order the expired records are the first ones. */
  lemma {:induction false} FreshIsSuffix(records: seq<Record>, now: Time, ttl: nat) returns (k: nat)
    requires Aged(records)
    ensures k <= |records| && Fresh(records, now, ttl) == records[k..]
    ensures forall i :: 0 <= i < |records| ==> (i < k <==> Expired(records[i], now, ttl))
    decreases |records|
  {
    if records == [] || !Expired(records[0], now, ttl) {
      k := 0;
      AllFresh(records, now, ttl);
    } else {
      hide Expired;
      var j := FreshIsSuffix(records[1..], now, ttl);
      k := j + 1;
      assert records[1..][j..] == records[k..];
      assert forall i :: 0 < i < |records| ==> records[i] == records[1..][i - 1];
    }
  }

  lemma {:induction false} OthersMembers(records: seq<Record>, callId: string)
    ensures forall r :: r in Others(records, callId) <==> r in records && r.callId != callId
    decreases |records|
  {
    if records != [] {
      OthersMembers(records[1..], callId);
      assert records == [records[0]] + records[1..];
    }
  }

  lemma {:induction false} NoOthers(records: seq<Record>, callId: string)
    requires forall i :: 0 <= i < |records| ==> records[i].callId != callId
    ensures Others(records, callId) == records
    decreases |records|
  {
    if records != [] { NoOthers(records[1..], callId); }
  }

  /** At most one record of distinct calls goes. */
  lemma {:induction false} OthersLength(records: seq<Record>, callId: string)
    requires Distinct(records)
    ensures |Others(records, callId)| >= |records| - 1
    decreases |records|
  {
    if records != [] {
      if records[0].callId == callId { NoOthers(records[1..], callId); } else { OthersLength(records[1..], callId); }
    }
  }

  lemma {:induction false} OthersOrdered(records: seq<Record>, callId: string, clock: Time)
    requires Ordered(records, clock)
    ensures Ordered(Others(records, callId), clock)
    decreases |records|
  {
    if records != [] {
      hide Ordered;
      TailOrdered(records, clock);
      OthersOrdered(records[1..], callId, clock);
      OthersMembers(records[1..], callId);
      ConsOrdered(records[0], Others(records[1..], callId), clock);
    }
  }

  lemma TailOrdered(records: seq<Record>, clock: Time)
    requires Ordered(records, clock) && records != []
    ensures Ordered(records[1..], clock) && records[0].insertedAt <= clock
    ensures forall r :: r in records[1..] ==> records[0].insertedAt <= r.insertedAt && records[0].callId != r.callId
  {}

  lemma ConsOrdered(first: Record, rest: seq<Record>, clock: Time)
    requires Ordered(rest, clock) && first.insertedAt <= clock
    requires forall r :: r in rest ==> first.insertedAt <= r.insertedAt && first.callId != r.callId
    ensures Ordered([first] + rest, clock)
  {
    assert forall j :: 0 <= j < |rest| ==> rest[j] in rest;
  }

  lemma SnocOrdered(rest: seq<Record>, last: Record)
    requires Ordered(rest, last.insertedAt) && forall r :: r in rest ==> r.callId != last.callId
    ensures Ordered(rest + [last], last.insertedAt)
  {
    assert forall j :: 0 <= j < |rest| ==> rest[j] in rest;
  }

  lemma {:induction false} OthersConcat(a: seq<Record>, b: seq<Record>, callId: string)
    ensures Others(a + b, callId) == Others(a, callId) + Others(b, callId)
    decreases |a|
  {
    if a == [] {
      assert a + b == b;
    } else {
      OthersConcat(a[1..], b, callId);
      assert (a + b)[1..] == a[1..] + b;
      var head := if a[0].callId == callId then [] else [a[0]];
      assert head + (Others(a[1..], callId) + Others(b, callId)) == (head + Others(a[1..], callId)) + Others(b, callId);
    }
  }

  lemma {:induction false} FreshConcat(a: seq<Record>, b: seq<Record>, now: Time, ttl: nat)
    ensures Fresh(a + b, now, ttl) == Fresh(a, now, ttl) + Fresh(b, now, ttl)
    decreases |a|
  {
    if a == [] {
      assert a + b == b;
    } else {
      FreshConcat(a[1..], b, now, ttl);
      assert (a + b)[1..] == a[1..] + b;
      var head := if Expired(a[0], now, ttl) then [] else [a[0]];
      assert head + (Fresh(a[1..], now, ttl) + Fresh(b, now, ttl)) == (head + Fresh(a[1..], now, ttl)) + Fresh(b, now, ttl);
    }
  }

  lemma {:induction false} FreshOthers(records: seq<Record>, callId: string, now: Time, ttl: nat)
    ensures Fresh(Others(records, callId), now, ttl) == Others(Fresh(records, now, ttl), callId)
    decreases |records|
  {
    if records != [] {
      FreshOthers(records[1..], callId, now, ttl);
      var head := if records[0].callId == callId then [] else [records[0]];
      FreshConcat(head, Others(records[1..], callId), now, ttl);
      var fresh' := if Expired(records[0], now, ttl) then [] else [records[0]];
      OthersConcat(fresh', Fresh(records[1..], now, ttl), callId);
    }
  }

  lemma OthersAround(records: seq<Record>, callId: string, i: nat)
    requires Distinct(records) && i <= |records|
    requires forall j :: 0 <= j < i ==> records[j].callId != callId
    requires i < |records| ==> records[i].callId == callId
    ensures Others(records, callId) == if i < |records| then records[..i] + records[i + 1..] else records
  {
    hide Others;
    if i < |records| {
      assert records == records[..i] + [records[i]] + records[i + 1..];
      OthersBetween(records[..i], records[i], records[i + 1..]);
    } else {
      NoOthers(records, callId);
    }
  }

  lemma OthersBetween(before: seq<Record>, r: Record, after: seq<Record>)
    requires forall j :: 0 <= j < |before| ==> before[j].callId != r.callId
    requires forall j :: 0 <= j < |after| ==> after[j].callId != r.callId
    ensures Others(before + [r] + after, r.callId) == before + after
  {
    hide Others;
    NoOthers(before, r.callId);
    NoOthers(after, r.callId);
    OthersOfOne(r, r.callId);
    OthersConcat(before, [r], r.callId);
    OthersConcat(before + [r], after, r.callId);
    assert before + [] == before;
  }

  lemma OthersOfOne(r: Record, callId: string)
    ensures r.callId == callId ==> Others([r], callId) == []
  {}

  /** Pruning and evicting cut the same list from its old end, so they can be done in any order and again. */
  lemma CutAgain(records: seq<Record>, earlier: Time, now: Time, ttl: nat, limit: nat)
    requires Aged(records) && earlier <= now
    ensures Fresh(Newest(Fresh(records, earlier, ttl), limit), now, ttl) == Newest(Fresh(records, now, ttl), limit)
  {
    hide Fresh, Expired;
    var j := FreshIsSuffix(records, earlier, ttl);
    var k := FreshIsSuffix(records, now, ttl);
    if k < |records| { ExpiredLater(records[k], earlier, now, ttl); }
    var kept := Newest(records[j..], limit);
    var from := |records| - |kept|;
    assert kept == records[from..];
    FreshOfSuffix(records, from, k, now, ttl);
  }

  lemma ExpiredLater(r: Record, earlier: Time, now: Time, ttl: nat)
    requires earlier <= now
    ensures Expired(r, earlier, ttl) ==> Expired(r, now, ttl)
  {}

  lemma {:induction false} FreshOfSuffix(records: seq<Record>, from: nat, k: nat, now: Time, ttl: nat)
    requires from <= |records| && k <= |records|
    requires forall i :: 0 <= i < |records| ==> (i < k <==> Expired(records[i], now, ttl))
    ensures Fresh(records[from..], now, ttl) == records[if from < k then k else from..]
    decreases |records| - from
  {
    hide Expired;
    if from >= k {
      AllFresh(records[from..], now, ttl);
    } else {
      FreshOfSuffix(records, from + 1, k, now, ttl);
      assert records[from..][1..] == records[from + 1..];
      assert Expired(records[from..][0], now, ttl);
    }
  }

  lemma NewestOfTail(a: seq<Record>, c: seq<Record>, limit: nat)
    requires |c| >= limit
    ensures Newest(a + c, limit) == Newest(c, limit)
  {
    assert (a + c)[|a + c| - limit..] == c[|c| - limit..];
  }

  /** Evicting before a record is added leaves what is kept after it as it is. */
  lemma EvictBefore(records: seq<Record>, r: Record, limit: nat)
    requires Distinct(records)
    ensures Newest(Others(Newest(records, limit), r.callId) + [r], limit) == Newest(Others(records, r.callId) + [r], limit)
  {
    hide Others;
    if |records| > limit && limit > 0 {
      var (old', kept) := (records[..|records| - limit], records[|records| - limit..]);
      assert records == old' + kept;
      OthersConcat(old', kept, r.callId);
      OthersLength(kept, r.callId);
      var (a, b) := (Others(old', r.callId), Others(kept, r.callId));
      assert a + b + [r] == a + (b + [r]);
      NewestOfTail(a, b + [r], limit);
    }
  }

  lemma {:induction false} LatestIsOrdered(history: seq<Record>, clock: Time)
    requires Aged(history) && Before(history, clock)
    ensures Ordered(Latest(history), clock)
    decreases |history|
  {
    if history != [] {
      var (init, last) := (history[..|history| - 1], history[|history| - 1]);
      LatestIsOrdered(init, last.insertedAt);
      OthersOrdered(Latest(init), last.callId, last.insertedAt);
      OthersMembers(Latest(init), last.callId);
      SnocOrdered(Others(Latest(init), last.callId), last);
    }
  }

  /** One more record, on the index as it was at an earlier time. */
  lemma IndexNext(history: seq<Record>, r: Record, earlier: Time, ttl: nat, limit: nat)
    requires Aged(history) && Before(history, earlier) && earlier <= r.insertedAt
    ensures Newest(Others(Fresh(Index(history, earlier, ttl, limit), r.insertedAt, ttl), r.callId) + [r], limit)
         == Index(history + [r], r.insertedAt, ttl, limit)
  {
    var now, latest := r.insertedAt, Latest(history);
    LatestIsOrdered(history, earlier);
    CutAgain(latest, earlier, now, ttl, limit);
    var all := Fresh(latest, now, ttl);
    var k := FreshIsSuffix(latest, now, ttl);
    assert Distinct(all);
    EvictBefore(all, r, limit);
    assert (history + [r])[..|history|] == history;
    FreshConcat(Others(latest, r.callId), [r], now, ttl);
    FreshOthers(latest, r.callId, now, ttl);
    assert Fresh([r], now, ttl) == [r];
  }

  // ---- Operations ----

  /** What recording a call does to the entries. */
  function Recorded(entries: seq<Record>, r: Record, ttl: nat, limit: nat): seq<Record> {
    Newest(Others(Fresh(entries, r.insertedAt, ttl), r.callId) + [r], limit)
  }

  datatype State = State(entries: seq<Record>, ttl: nat, limit: nat)

  /** Recording a call, reading, and changing the budget, each of which prunes. */
  datatype Op = Insert(r: Record) | Read(at: Time) | Configure(limit: nat, ttl: nat, at: Time)

  function At(op: Op): Time {
    if op.Insert? then op.r.insertedAt else op.at
  }

  function Step(s: State, op: Op): State {
    match op
    case Insert(r) => s.(entries := Recorded(s.entries, r, s.ttl, s.limit))
    case Read(at) => s.(entries := Fresh(s.entries, at, s.ttl))
    case Configure(limit, ttl, at) => State(Newest(Fresh(s.entries, at, ttl), limit), ttl, limit)
  }

  // ---- The store ----

  class CallAttributionStore {
    /** The ordered map, with insertion order. */
    var entries: seq<Record>
    var limit: nat
    var ttlMs: nat
    var evicted: bool
    /** The time of the last operation. */
    ghost var clock: Time

    ghost predicate Valid()
      reads this
    {
      Ordered(entries, clock)
    }

    ghost function Abstract(): State
      reads this
    {
      State(entries, ttlMs, limit)
    }

    constructor (limit: nat, ttlMs: nat, ghost clock: Time)
      ensures Valid() && entries == [] && this.limit == limit && this.ttlMs == ttlMs && !evicted && this.clock == clock
    {
      this.limit, this.ttlMs, this.clock := limit, ttlMs, clock;
      entries, evicted := [], false;
    }

    /** `#prune` stops at the first record that has not expired, and so removes exactly the expired ones. */
    method Prune(now: Time)
      requires Valid() && clock <= now
      modifies `entries, `clock
      ensures Valid() && clock == now
      ensures entries == Fresh(old(entries), now, ttlMs)
    {
      ghost var k := FreshIsSuffix(entries, now, ttlMs);
      ghost var gone := 0;
      while |entries| > 0
        invariant gone <= k && entries == old(entries)[gone..]
      {
        if now - entries[0].insertedAt <= ttlMs { break; }
        entries := entries[1..];
        gone := gone + 1;
      }
      clock := now;
    }

    /** Deletes the oldest records while there are too many. */
    method Evict()
      requires Valid()
      modifies `entries, `evicted
      ensures Valid()
      ensures entries == Newest(old(entries), limit)
      ensures evicted == (old(evicted) || |old(entries)| > limit)
    {
      ghost var gone := 0;
      while |entries| > limit
        invariant 0 <= gone <= |old(entries)| && entries == old(entries)[gone..]
        invariant gone > 0 ==> |entries| >= limit
        invariant evicted == (old(evicted) || gone > 0)
      {
        entries := entries[1..];
        gone := gone + 1;
        evicted := true;
      }
    }

    method ConfigureBudget(limit: nat, ttlMs: nat, now: Time)
      requires Valid() && clock <= now
      modifies this
      ensures Valid() && clock == now
      ensures Abstract() == Step(old(Abstract()), Configure(limit, ttlMs, now))
      ensures evicted == (old(evicted) || |Fresh(old(entries), now, ttlMs)| > limit)
    {
      this.limit := limit;
      this.ttlMs := ttlMs;
      Prune(now);
      Evict();
    }

    /** A call is recorded as the newest, in place of an earlier record of it. */
    method OnModelCall(callId: string, inspection: string, now: Time)
      requires Valid() && clock <= now
      modifies `entries, `evicted, `clock
      ensures Valid() && clock == now
      ensures Abstract() == Step(old(Abstract()), Insert(Record(callId, inspection, now)))
      ensures evicted == (old(evicted) || |Others(Fresh(old(entries), now, ttlMs), callId)| + 1 > limit)
    {
      hide Fresh, Others, Newest, Ordered;
      Prune(now);
      OthersOrdered(entries, callId, now);
      OthersMembers(entries, callId);
      SnocOrdered(Others(entries, callId), Record(callId, inspection, now));
      Delete(callId);
      entries := entries + [Record(callId, inspection, now)];
      Evict();
    }

    /** `Map.delete`. */
    method Delete(callId: string)
      requires Valid()
      modifies `entries
      ensures entries == Others(old(entries), callId)
    {
      hide Others;
      var i := 0;
      while i < |entries| && entries[i].callId != callId
        invariant 0 <= i <= |entries| && forall j :: 0 <= j < i ==> entries[j].callId != callId
      {
        i := i + 1;
      }
      OthersAround(entries, callId, i);
      if i < |entries| {
        entries := entries[..i] + entries[i + 1..];
      }
    }

    method Get(callId: string, now: Time) returns (inspection: Option<string>)
      requires Valid() && clock <= now
      modifies `entries, `clock
      ensures Valid() && clock == now && Abstract() == Step(old(Abstract()), Read(now))
      ensures inspection == Find(entries, callId)
    {
      Prune(now);
      inspection := Find(entries, callId);
    }

    method List(now: Time) returns (inspections: seq<string>)
      requires Valid() && clock <= now
      modifies `entries, `clock
      ensures Valid() && clock == now && Abstract() == Step(old(Abstract()), Read(now))
      ensures |inspections| == |entries| && forall i :: 0 <= i < |entries| ==> inspections[i] == entries[i].inspection
    {
      Prune(now);
      inspections := seq(|entries|, i requires 0 <= i < |entries| reads this => entries[i].inspection);
    }
  }

  // ---- Every run agrees with the list ----

  function Run(s: State, ops: seq<Op>): State {
    if ops == [] then s else Step(Run(s, ops[..|ops| - 1]), ops[|ops| - 1])
  }

  /** Everything recorded, in order. */
  function History(ops: seq<Op>): seq<Record> {
    if ops == [] then []
    else
      var (before, last) := (History(ops[..|ops| - 1]), ops[|ops| - 1]);
      if last.Insert? then before + [last.r] else before
  }

  predicate InOrder(ops: seq<Op>) {
    forall i, j :: 0 <= i < j < |ops| ==> At(ops[i]) <= At(ops[j])
  }

  lemma {:induction false} HistoryIsAged(ops: seq<Op>, clock: Time)
    requires InOrder(ops) && forall i :: 0 <= i < |ops| ==> At(ops[i]) <= clock
    ensures Aged(History(ops)) && Before(History(ops), clock)
    decreases |ops|
  {
    if ops != [] {
      HistoryIsAged(ops[..|ops| - 1], At(ops[|ops| - 1]));
    }
  }

  /** The time before which everything so far happened. */
  function ClockBefore(init: seq<Op>, last: Op): Time {
    if init == [] then At(last) else At(init[|init| - 1])
  }

  /**
   With a clock that does not go back and any changes of the budget, the index is
   the newest part of the latest records of all calls: it never lacks a record newer
   than one that it holds.
   */
  lemma {:induction false} RunIsNewest(s: State, ops: seq<Op>)
    requires InOrder(ops) && s.entries == []
    ensures IsNewest(Run(s, ops).entries, History(ops))
    decreases |ops|
  {
    hide Step, Latest, IsNewest;
    if ops == [] {
      NothingIsNewest();
    } else {
      var (init, last) := (ops[..|ops| - 1], ops[|ops| - 1]);
      RunIsNewest(s, init);
      HistoryIsAged(init, ClockBefore(init, last));
      StepIsNewest(Run(s, init), History(init), last, ClockBefore(init, last));
    }
  }

  predicate IsNewest(entries: seq<Record>, history: seq<Record>) {
    |entries| <= |Latest(history)| && entries == Latest(history)[|Latest(history)| - |entries|..]
  }

  lemma NothingIsNewest()
    ensures IsNewest([], [])
  {}

  lemma StepIsNewest(s: State, history: seq<Record>, op: Op, clock: Time)
    requires Aged(history) && Before(history, clock) && IsNewest(s.entries, history)
    ensures IsNewest(Step(s, op).entries, if op.Insert? then history + [op.r] else history)
  {
    hide Fresh, Others;
    var latest := Latest(history);
    LatestIsOrdered(history, clock);
    var k := FreshIsSuffix(s.entries, At(op), if op.Configure? then op.ttl else s.ttl);
    if op.Insert? {
      hide Aged, Before;
      var kept := s.entries[k..];
      var gone := latest[..|latest| - |kept|];
      assert latest == gone + kept;
      OthersConcat(gone, kept, op.r.callId);
      assert (history + [op.r])[..|history|] == history;
      assert Latest(history + [op.r]) == Others(gone, op.r.callId) + (Others(kept, op.r.callId) + [op.r]);
    }
  }

  // ---- What is retained under changing budgets ----

  /** The record was made at `i` and is the latest of its call. */
  predicate MadeAt(ops: seq<Op>, i: nat) {
    && i < |ops| && ops[i].Insert?
    && forall k :: i < k < |ops| && ops[k].Insert? ==> ops[k].r.callId != ops[i].r.callId
  }

  /** The calls recorded after the operation `i`. */
  function NewerCalls(ops: seq<Op>, i: nat): set<string> {
    set k | i < k < |ops| && ops[k].Insert? :: ops[k].r.callId
  }

  /** At the last operation the record made at `i` was unexpired and within the limit, under the budget then in force. */
  predicate Kept(s: State, ops: seq<Op>, i: nat)
    requires i < |ops| && ops[i].Insert?
  {
    !Expired(ops[i].r, At(ops[|ops| - 1]), s.ttl) && |NewerCalls(ops, i)| < s.limit
  }

  /** It was so at every operation since it was made. */
  ghost predicate Survives(s: State, ops: seq<Op>, i: nat)
    requires i < |ops| && ops[i].Insert?
  {
    forall t :: i < t <= |ops| ==> KeptUpTo(s, ops, i, t)
  }

  ghost predicate KeptUpTo(s: State, ops: seq<Op>, i: nat, t: nat)
    requires i < t <= |ops| && ops[i].Insert?
  {
    Kept(Run(s, ops[..t]), ops[..t], i)
  }

  function CallIds(records: seq<Record>): set<string> {
    set i | 0 <= i < |records| :: records[i].callId
  }

  /** The record is in the list at `x`, with exactly these calls behind it. */
  predicate Behind(records: seq<Record>, r: Record, calls: set<string>, x: nat) {
    x < |records| && records[x] == r && CallIds(records[x + 1..]) == calls
  }

  ghost predicate HeldWith(records: seq<Record>, r: Record, calls: set<string>) {
    exists x: nat :: Behind(records, r, calls, x)
  }

  lemma {:induction false} DistinctCount(records: seq<Record>)
    requires Distinct(records)
    ensures |CallIds(records)| == |records|
    decreases |records|
  {
    if records != [] {
      var rest := records[1..];
      DistinctCount(rest);
      assert forall i :: 0 <= i < |rest| ==> rest[i] == records[i + 1];
      assert CallIds(records) == {records[0].callId} + CallIds(rest);
    }
  }

  /** What cutting the old end does to a record that is held. */
  lemma CutHolds(records: seq<Record>, d: nat, r: Record, calls: set<string>)
    requires Distinct(records) && d <= |records| && HeldWith(records, r, calls)
    ensures r in records[d..] <==> |calls| < |records| - d
    ensures r in records[d..] ==> HeldWith(records[d..], r, calls)
  {
    var x: nat :| Behind(records, r, calls, x);
    DistinctCount(records[x + 1..]);
    if x >= d {
      assert records[d..][x - d] == r && records[d..][x - d + 1..] == records[x + 1..];
      assert Behind(records[d..], r, calls, x - d);
    } else {
      forall y | 0 <= y < |records[d..]| ensures records[d..][y] != r {
        assert records[d..][y] == records[d + y] && records[d + y].callId != records[x].callId;
      }
    }
  }

  lemma FreshHolds(records: seq<Record>, r: Record, calls: set<string>, now: Time, ttl: nat)
    requires Aged(records) && Distinct(records) && HeldWith(records, r, calls)
    ensures Distinct(Fresh(records, now, ttl))
    ensures r in Fresh(records, now, ttl) <==> !Expired(r, now, ttl)
    ensures r in Fresh(records, now, ttl) ==> HeldWith(Fresh(records, now, ttl), r, calls)
  {
    hide Expired;
    var k := FreshIsSuffix(records, now, ttl);
    CutHolds(records, k, r, calls);
    var x: nat :| Behind(records, r, calls, x);
    DistinctCount(records[x + 1..]);
  }

  lemma NewestIsSuffix(records: seq<Record>, limit: nat) returns (d: nat)
    ensures d <= |records| && Newest(records, limit) == records[d..]
    ensures d == if |records| <= limit then 0 else |records| - limit
  {
    d := if |records| <= limit then 0 else |records| - limit;
    assert records[0..] == records;
  }

  lemma HeldIsCounted(records: seq<Record>, r: Record, calls: set<string>)
    requires Distinct(records) && HeldWith(records, r, calls)
    ensures |calls| < |records|
  {
    var x: nat :| Behind(records, r, calls, x);
    DistinctCount(records[x + 1..]);
  }

  lemma NewestHolds(records: seq<Record>, r: Record, calls: set<string>, limit: nat)
    requires Distinct(records) && HeldWith(records, r, calls)
    ensures r in Newest(records, limit) <==> |calls| < limit
    ensures r in Newest(records, limit) ==> HeldWith(Newest(records, limit), r, calls)
  {
    hide Newest, HeldWith, Distinct;
    var d := NewestIsSuffix(records, limit);
    HeldIsCounted(records, r, calls);
    CutHolds(records, d, r, calls);
  }

  lemma InsertHolds(records: seq<Record>, r: Record, calls: set<string>, newer: Record, clock: Time)
    requires Ordered(records, clock) && clock <= newer.insertedAt && HeldWith(records, r, calls) && newer.callId != r.callId
    ensures Distinct(Others(records, newer.callId) + [newer])
    ensures HeldWith(Others(records, newer.callId) + [newer], r, calls + {newer.callId})
  {
    hide Others, Distinct;
    var id := newer.callId;
    var x: nat :| Behind(records, r, calls, x);
    var (before, after) := (records[..x], records[x + 1..]);
    assert records == before + ([r] + after);
    OthersConcat(before, [r] + after, id);
    OthersConcat([r], after, id);
    OthersOther(r, id);
    var all := Others(records, id) + [newer];
    var (front, tail) := (Others(before, id), Others(after, id) + [newer]);
    assert all == front + [r] + tail;
    OthersMembers(after, id);
    IdsOfOthers(after, newer);
    assert all[|front|] == r && all[|front| + 1..] == tail;
    assert Behind(all, r, calls + {id}, |front|);
    OrderedLater(records, clock, newer.insertedAt);
    OthersOrdered(records, id, newer.insertedAt);
    OthersMembers(records, id);
    SnocOrdered(Others(records, id), newer);
    OrderedDistinct(all, newer.insertedAt);
  }

  lemma OthersOther(r: Record, callId: string)
    ensures r.callId != callId ==> Others([r], callId) == [r]
  {}

  lemma OrderedLater(records: seq<Record>, clock: Time, later: Time)
    requires Ordered(records, clock) && clock <= later
    ensures Ordered(records, later)
  {}

  lemma OrderedDistinct(records: seq<Record>, clock: Time)
    requires Ordered(records, clock)
    ensures Distinct(records) && Aged(records)
  {}

  lemma IdsAre(records: seq<Record>, id: string)
    ensures id in CallIds(records) <==> exists r :: r in records && r.callId == id
  {
    if r :| r in records && r.callId == id {
      var i :| 0 <= i < |records| && records[i] == r;
      assert records[i].callId == id;
    }
  }

  lemma IdsOfOthers(records: seq<Record>, newer: Record)
    ensures CallIds(Others(records, newer.callId) + [newer]) == CallIds(records) + {newer.callId}
  {
    hide Others;
    var all := Others(records, newer.callId) + [newer];
    OthersMembers(records, newer.callId);
    assert all[|all| - 1] == newer;
    forall id ensures id in CallIds(all) <==> id in CallIds(records) + {newer.callId} {
      IdsAre(all, id);
      IdsAre(records, id);
      if id in CallIds(records) && id != newer.callId {
        var r :| r in records && r.callId == id;
        assert r in all;
      }
    }
  }

  /**
   Retention over every run, with any changes of the budget: the latest record of a
   call is held exactly if at every operation since it was made it was unexpired
   under the lifetime then in force, and fewer calls than the limit then in force
   had been recorded after it.
   */
  lemma {:induction false} RetainedExactly(s: State, ops: seq<Op>, i: nat)
    requires InOrder(ops) && s.entries == [] && MadeAt(ops, i)
    ensures ops[i].r in Run(s, ops).entries <==> Survives(s, ops, i)
    ensures ops[i].r in Run(s, ops).entries ==> HeldWith(Run(s, ops).entries, ops[i].r, NewerCalls(ops, i))
    decreases |ops|
  {
    hide Step, HeldWith, Survives, Kept, NewerCalls;
    var n := |ops| - 1;
    var init := ops[..n];
    SurvivesSoFar(s, ops, i);
    RunIsOrdered(s, init, ClockBefore(init, ops[n]));
    if i == n {
      JustMade(Run(s, init), ops, i);
    } else {
      RetainedExactly(s, init, i);
      CallsSoFar(ops, i);
      StepRetains(Run(s, init), ops[n], ops[i].r, NewerCalls(init, i), ClockBefore(init, ops[n]));
      if Survives(s, init, i) { SurvivesLimit(s, init, i); }
      KeptIs(Run(s, ops), ops, i);
    }
  }

  /** Nothing else is held: every entry is the latest record of its call. */
  lemma EntriesWereMade(s: State, ops: seq<Op>, r: Record)
    requires InOrder(ops) && s.entries == [] && r in Run(s, ops).entries
    ensures WasMade(ops, r)
  {
    RunIsNewest(s, ops);
    LatestWasMade(ops, r);
  }

  ghost predicate WasMade(ops: seq<Op>, r: Record) {
    exists i: nat :: MadeAt(ops, i) && ops[i].r == r
  }

  lemma {:induction false} LatestWasMade(ops: seq<Op>, r: Record)
    requires r in Latest(History(ops))
    ensures WasMade(ops, r)
    decreases |ops|
  {
    hide WasMade, Others;
    var (init, last) := (ops[..|ops| - 1], ops[|ops| - 1]);
    if last.Insert? {
      assert History(ops)[..|History(init)|] == History(init);
      OthersMembers(Latest(History(init)), last.r.callId);
    }
    if last.Insert? && r == last.r {
      LastWasMade(ops);
    } else {
      LatestWasMade(init, r);
      StillMade(ops, r);
    }
  }

  lemma LastWasMade(ops: seq<Op>)
    requires ops != [] && ops[|ops| - 1].Insert?
    ensures WasMade(ops, ops[|ops| - 1].r)
  {
    assert MadeAt(ops, |ops| - 1);
  }

  lemma StillMade(ops: seq<Op>, r: Record)
    requires ops != [] && WasMade(ops[..|ops| - 1], r)
    requires ops[|ops| - 1].Insert? ==> ops[|ops| - 1].r.callId != r.callId
    ensures WasMade(ops, r)
  {
    var init := ops[..|ops| - 1];
    var i: nat :| MadeAt(init, i) && init[i].r == r;
    assert MadeAt(ops, i) && ops[i].r == r;
  }

  /** Surviving a run is surviving the run up to its last operation and that operation. */
  lemma SurvivesSoFar(s: State, ops: seq<Op>, i: nat)
    requires i < |ops| && ops[i].Insert?
    ensures Survives(s, ops, i) <==> (i < |ops| - 1 ==> Survives(s, ops[..|ops| - 1], i)) && Kept(Run(s, ops), ops, i)
  {
    hide Kept;
    var n := |ops| - 1;
    assert ops[..|ops|] == ops;
    if i < n {
      forall t | i < t <= n ensures KeptUpTo(s, ops, i, t) <==> KeptUpTo(s, ops[..n], i, t) {
        assert ops[..n][..t] == ops[..t];
      }
    }
    assert KeptUpTo(s, ops, i, |ops|) <==> Kept(Run(s, ops), ops, i);
  }

  lemma SurvivesLimit(s: State, ops: seq<Op>, i: nat)
    requires i < |ops| && ops[i].Insert? && Survives(s, ops, i)
    ensures |NewerCalls(ops, i)| < Run(s, ops).limit
  {
    assert KeptUpTo(s, ops, i, |ops|);
    assert ops[..|ops|] == ops;
  }

  lemma KeptIs(s: State, ops: seq<Op>, i: nat)
    requires i < |ops| && ops[i].Insert?
    ensures Kept(s, ops, i) <==> !Expired(ops[i].r, At(ops[|ops| - 1]), s.ttl) && |NewerCalls(ops, i)| < s.limit
  {}

  lemma CallsSoFar(ops: seq<Op>, i: nat)
    requires i < |ops| - 1
    ensures var (init, last) := (ops[..|ops| - 1], ops[|ops| - 1]);
            NewerCalls(ops, i) == NewerCalls(init, i) + if last.Insert? then {last.r.callId} else {}
  {
    var (init, last) := (ops[..|ops| - 1], ops[|ops| - 1]);
    assert ops == init + [last];
    assert forall k :: i < k < |init| ==> init[k] == ops[k];
  }

  lemma RunIsOrdered(s: State, ops: seq<Op>, clock: Time)
    requires InOrder(ops) && s.entries == [] && forall i :: 0 <= i < |ops| ==> At(ops[i]) <= clock
    ensures Ordered(Run(s, ops).entries, clock)
  {
    HistoryIsAged(ops, clock);
    LatestIsOrdered(History(ops), clock);
    RunIsNewest(s, ops);
  }

  lemma JustMade(s: State, ops: seq<Op>, i: nat)
    requires ops != [] && i == |ops| - 1 && ops[i].Insert?
    ensures NewerCalls(ops, i) == {}
    ensures Kept(Step(s, ops[i]), ops, i) <==> ops[i].r in Step(s, ops[i]).entries
    ensures ops[i].r in Step(s, ops[i]).entries ==> HeldWith(Step(s, ops[i]).entries, ops[i].r, {})
  {
    hide Fresh, Others;
    var r := ops[i].r;
    var others := Others(Fresh(s.entries, r.insertedAt, s.ttl), r.callId);
    var after := Step(s, ops[i]).entries;
    if s.limit > 0 {
      assert after[|after| - 1] == r;
      assert CallIds(after[|after|..]) == {};
      assert Behind(after, r, {}, |after| - 1);
    }
  }

  /** One operation keeps a record exactly if the record is not expired and, where something may be evicted, is within the limit. */
  lemma StepRetains(s: State, op: Op, r: Record, calls: set<string>, clock: Time)
    requires Ordered(s.entries, clock) && clock <= At(op)
    requires op.Insert? ==> op.r.callId != r.callId
    requires r in s.entries ==> HeldWith(s.entries, r, calls)
    ensures var after := Step(s, op);
            var newer := calls + if op.Insert? then {op.r.callId} else {};
            && (r in after.entries <==> r in s.entries && !Expired(r, At(op), after.ttl) && (op.Read? || |newer| < after.limit))
            && (r in after.entries ==> HeldWith(after.entries, r, newer))
            && (op.Read? ==> after.limit == s.limit && newer == calls)
  {
    hide Fresh, Others, Newest, HeldWith, Expired;
    var after := Step(s, op);
    var now := At(op);
    OrderedDistinct(s.entries, clock);
    var k := FreshIsSuffix(s.entries, now, after.ttl);
    var entries := Fresh(s.entries, now, after.ttl);
    assert entries == s.entries[k..];
    assert Ordered(entries, clock);
    if r in s.entries {
      FreshHolds(s.entries, r, calls, now, after.ttl);
    }
    StepFinishes(s, op);
    assert calls + {} == calls;
    if r in entries {
      if op.Insert? {
        InsertHolds(entries, r, calls, op.r, clock);
        NewestHolds(Others(entries, op.r.callId) + [op.r], r, calls + {op.r.callId}, after.limit);
      } else if op.Configure? {
        NewestHolds(entries, r, calls, after.limit);
      }
    } else {
      FinishAddsOnly(entries, op, after.limit, r);
    }
  }

  /** What an operation does to the entries that pruning has left. */
  function Finish(entries: seq<Record>, op: Op, limit: nat): seq<Record> {
    if op.Insert? then Newest(Others(entries, op.r.callId) + [op.r], limit)
    else if op.Configure? then Newest(entries, limit)
    else entries
  }

  lemma StepFinishes(s: State, op: Op)
    ensures Step(s, op).entries == Finish(Fresh(s.entries, At(op), Step(s, op).ttl), op, Step(s, op).limit)
  {}

  lemma FinishAddsOnly(entries: seq<Record>, op: Op, limit: nat, r: Record)
    requires r !in entries && (op.Insert? ==> op.r.callId != r.callId)
    ensures r !in Finish(entries, op, limit)
  {
    if op.Insert? { OthersMembers(entries, op.r.callId); }
  }

  /** No operation changes the budget. */
  predicate OneBudget(ops: seq<Op>) {
    forall i :: 0 <= i < |ops| ==> !ops[i].Configure?
  }

  lemma {:induction false} BudgetStays(s: State, ops: seq<Op>)
    requires OneBudget(ops)
    ensures Run(s, ops).ttl == s.ttl && Run(s, ops).limit == s.limit
    decreases |ops|
  {
    if ops != [] { BudgetStays(s, ops[..|ops| - 1]); }
  }

  /**
   Under one budget the index holds exactly what the list of everything ever
   recorded gives.
   */
  lemma {:induction false} RunIsIndex(s: State, ops: seq<Op>)
    requires InOrder(ops) && ops != [] && OneBudget(ops) && s.entries == []
    ensures Run(s, ops).entries == Index(History(ops), At(ops[|ops| - 1]), s.ttl, s.limit)
    decreases |ops|
  {
    hide Fresh, Others, Latest, Newest, Recorded;
    var (init, last) := (ops[..|ops| - 1], ops[|ops| - 1]);
    var earlier := ClockBefore(init, last);
    HistoryIsAged(init, earlier);
    BudgetStays(s, init);
    assert Run(s, init).entries == Index(History(init), earlier, s.ttl, s.limit) by {
      if init == [] { EmptyIndex(earlier, s.ttl, s.limit); } else { RunIsIndex(s, init); }
    }
    OneMoreOp(History(init), last, earlier, s.ttl, s.limit);
  }

  lemma EmptyIndex(now: Time, ttl: nat, limit: nat)
    ensures Index([], now, ttl, limit) == []
  {}

  lemma OneMoreOp(history: seq<Record>, op: Op, earlier: Time, ttl: nat, limit: nat)
    requires Aged(history) && Before(history, earlier) && earlier <= At(op)
    ensures op.Insert? ==>
              Recorded(Index(history, earlier, ttl, limit), op.r, ttl, limit) == Index(history + [op.r], At(op), ttl, limit)
    ensures op.Read? ==> Fresh(Index(history, earlier, ttl, limit), At(op), ttl) == Index(history, At(op), ttl, limit)
  {
    hide Fresh, Others, Latest, Newest;
    LatestIsOrdered(history, earlier);
    if op.Insert? {
      IndexNext(history, op.r, earlier, ttl, limit);
    } else {
      CutAgain(Latest(history), earlier, At(op), ttl, limit);
    }
  }
}
