/**
 Serialised mutations (packages/daemon/src/daemon-runtime-state.ts): a chain of
 deferreds as a lock, and what waiting for its tail means.

 A fiber runs between two yields in one step. Deferred `k + 1` belongs to the
 operation admitted as number `k`; deferred 0 is the effect that is done at once.
 */
module RuntimeState {
  import opened Wrappers

  datatype Lifecycle = Running | Paused | Quiescing | Draining | Closed

  /** An admitted operation: waiting for a deferred, at work, or over with its own deferred settled. */
  datatype Operation = Waiting(previous: nat) | Working | Over

  datatype State = State(lifecycle: Lifecycle, draining: bool, closed: bool, tail: nat, operations: seq<Operation>)

  datatype Step =
    | BeginShutdown
    | BeginRetire
    | MarkDraining
    | MarkClosed
    | Pause
    | Resume
    | Admit
    | Start(k: nat)
    | Finish(k: nat)
    | Interrupt(k: nat)

  predicate Settled(s: State, deferred: nat) {
    deferred == 0 || (deferred <= |s.operations| && s.operations[deferred - 1].Over?)
  }

  function Next(s: State, step: Step): State {
    match step
    case BeginShutdown => s.(closed := true, lifecycle := if s.lifecycle.Running? then Quiescing else s.lifecycle, draining := true)
    case BeginRetire => if s.lifecycle.Running? || s.lifecycle.Paused? then s.(lifecycle := Quiescing, draining := true) else s
    case MarkDraining => s.(lifecycle := Draining)
    case MarkClosed => s.(lifecycle := Closed)
    case Pause => if s.lifecycle.Running? then s.(lifecycle := Paused) else s
    case Resume => if s.lifecycle.Paused? then s.(lifecycle := Running) else s
    case Admit =>
      if s.lifecycle.Running? then s.(tail := |s.operations| + 1, operations := s.operations + [Waiting(s.tail)]) else s
    case Start(k) =>
      if k < |s.operations| && s.operations[k].Waiting? && Settled(s, s.operations[k].previous)
      then s.(operations := s.operations[k := Working]) else s
    case Finish(k) =>
      if k < |s.operations| && s.operations[k].Working? then s.(operations := s.operations[k := Over]) else s
    case Interrupt(k) =>
      // The finalizer settles the deferred even of an operation that never started.
      if k < |s.operations| && s.operations[k].Waiting? then s.(operations := s.operations[k := Over]) else s
  }

  function Run(s: State, steps: seq<Step>): State
    decreases |steps|
  {
    if steps == [] then s else Run(Next(s, steps[0]), steps[1..])
  }

  function Initial(paused: bool): State {
    State(if paused then Paused else Running, false, false, 0, [])
  }

  // ---- One at a time, in the order of admission ----

  /** Each operation waits for the one admitted before it, and the tail is the last one's deferred. */
  predicate Chained(s: State) {
    && s.tail == |s.operations|
    && forall k :: 0 <= k < |s.operations| && s.operations[k].Waiting? ==> s.operations[k].previous == k
  }

  /** An operation is no longer waiting only when all earlier ones are over. */
  predicate Ordered(s: State) {
    forall j, k :: 0 <= j < k < |s.operations| && !s.operations[k].Waiting? ==> s.operations[j].Over?
  }

  /** The step interrupts an operation that waits for one that is not over. */
  predicate Premature(s: State, step: Step) {
    && step.Interrupt? && 0 < step.k < |s.operations|
    && s.operations[step.k].Waiting? && !s.operations[step.k - 1].Over?
  }

  /** No step of the run is premature. */
  predicate Patient(s: State, steps: seq<Step>)
    decreases |steps|
  {
    steps == [] || (!Premature(s, steps[0]) && Patient(Next(s, steps[0]), steps[1..]))
  }

  predicate Overlaps(s: State) {
    exists j, k :: 0 <= j < k < |s.operations| && s.operations[j].Working? && s.operations[k].Working?
  }

  lemma StepKeepsChain(s: State, step: Step)
    requires Chained(s)
    ensures Chained(Next(s, step))
  {}

  /** A step keeps the order if and only if it is not premature. */
  lemma StepKeepsOrder(s: State, step: Step)
    requires Chained(s) && Ordered(s)
    ensures Ordered(Next(s, step)) <==> !Premature(s, step)
  {
    if Premature(s, step) {
      var t := Next(s, step);
      assert !t.operations[step.k - 1].Over? && !t.operations[step.k].Waiting?;
    } else if step.Start? || step.Interrupt? {
      var t := Next(s, step);
      if t != s && step.k > 0 {
        assert s.operations[step.k - 1].Over?;
        forall j | 0 <= j < step.k ensures s.operations[j].Over? {
          if j < step.k - 1 { assert !s.operations[step.k - 1].Waiting?; }
        }
      }
    }
  }

  /** Mutual exclusion over every run in which no queued operation is interrupted too early. */
  lemma {:induction false} PatientRunsAreSerial(s: State, steps: seq<Step>)
    requires Chained(s) && Ordered(s) && Patient(s, steps)
    ensures Chained(Run(s, steps)) && Ordered(Run(s, steps)) && !Overlaps(Run(s, steps))
    decreases |steps|
  {
    if steps != [] {
      StepKeepsChain(s, steps[0]);
      StepKeepsOrder(s, steps[0]);
      PatientRunsAreSerial(Next(s, steps[0]), steps[1..]);
    }
  }

  lemma {:induction false} RunInTwo(s: State, steps: seq<Step>, more: seq<Step>)
    ensures Run(s, steps + more) == Run(Run(s, steps), more)
    ensures Patient(s, steps + more) <==> Patient(s, steps) && Patient(Run(s, steps), more)
    decreases |steps|
  {
    if steps == [] {
      assert steps + more == more;
    } else {
      assert (steps + more)[1..] == steps[1..] + more;
      RunInTwo(Next(s, steps[0]), steps[1..], more);
    }
  }

  lemma Three(s: State, a: Step, b: Step, c: Step)
    ensures Run(s, [a, b, c]) == Next(Next(Next(s, a), b), c)
  {
    var steps := [a, b, c];
    assert steps[1..] == [b, c] && steps[1..][1..] == [c] && steps[1..][1..][1..] == [];
    assert Run(s, steps) == Run(Next(s, a), steps[1..]);
    assert Run(Next(s, a), steps[1..]) == Run(Next(Next(s, a), b), steps[1..][1..]);
  }

  function FirstNotOver(operations: seq<Operation>): (j: nat)
    ensures j <= |operations| && forall i :: 0 <= i < j ==> operations[i].Over?
    ensures j < |operations| ==> !operations[j].Over?
  {
    if operations == [] || !operations[0].Over? then 0 else 1 + FirstNotOver(operations[1..])
  }

  /**
   The hypothesis is exact: while the daemon takes mutations, every premature
   interruption can go on to two operations at work at once.
   */
  lemma PrematureOverlaps(s: State, k: nat)
    requires Chained(s) && Ordered(s) && s.lifecycle.Running? && Premature(s, Interrupt(k))
    ensures exists steps :: Overlaps(Run(Next(s, Interrupt(k)), steps))
  {
    var j := FirstNotOver(s.operations);
    var steps := [Admit, Start(j), Start(k + 1)];
    var t := Next(s, Interrupt(k));
    Three(t, Admit, Start(j), Start(k + 1));
    var admitted := Next(t, Admit);
    var first := Next(admitted, Start(j));
    assert first.operations[j].Working?;
    assert k + 1 < |s.operations| ==> s.operations[k + 1].Waiting?;
    var last := Next(first, Start(k + 1));
    assert last.operations[j].Working? && last.operations[k + 1].Working?;
    assert Overlaps(Run(t, steps));
  }

  // ---- Quiescence ----

  predicate Idle(s: State) {
    forall k :: 0 <= k < |s.operations| ==> s.operations[k].Over?
  }

  /** The run never resumes a paused daemon. */
  predicate StaysStopped(s: State, steps: seq<Step>)
    decreases |steps|
  {
    steps == [] || (!(s.lifecycle.Paused? && steps[0].Resume?) && StaysStopped(Next(s, steps[0]), steps[1..]))
  }

  lemma {:induction false} StoppedAdmitsNothing(s: State, steps: seq<Step>)
    requires !s.lifecycle.Running? && StaysStopped(s, steps)
    ensures !Run(s, steps).lifecycle.Running? && |Run(s, steps).operations| == |s.operations|
    decreases |steps|
  {
    if steps != [] { StoppedAdmitsNothing(Next(s, steps[0]), steps[1..]); }
  }

  lemma {:induction false} OverStaysOver(s: State, steps: seq<Step>, k: nat)
    requires k < |s.operations| && s.operations[k].Over?
    ensures k < |Run(s, steps).operations| && Run(s, steps).operations[k].Over?
    decreases |steps|
  {
    if steps != [] { OverStaysOver(Next(s, steps[0]), steps[1..], k); }
  }

  /**
   `awaitMutations` called once the daemon has stopped: when the tail that it read is
   settled, nothing is queued or at work, and that remains so while the daemon is not
   resumed.
   */
  lemma AwaitedIsIdle(s: State, waiting: seq<Step>, after: seq<Step>)
    requires Chained(s) && Ordered(s) && !s.lifecycle.Running?
    requires StaysStopped(s, waiting) && Patient(s, waiting) && Settled(Run(s, waiting), s.tail)
    requires StaysStopped(Run(s, waiting), after)
    ensures Idle(Run(s, waiting)) && Idle(Run(s, waiting + after))
    ensures |Run(s, waiting + after).operations| == |s.operations|
  {
    var t := Run(s, waiting);
    PatientRunsAreSerial(s, waiting);
    StoppedAdmitsNothing(s, waiting);
    StoppedAdmitsNothing(t, after);
    RunInTwo(s, waiting, after);
    forall k: nat | k < |t.operations| ensures Run(t, after).operations[k].Over? {
      OverStaysOver(t, after, k);
    }
  }

  predicate Retired(s: State) {
    s.lifecycle.Quiescing? || s.lifecycle.Draining? || s.lifecycle.Closed?
  }

  /** Nothing brings back a daemon that is retiring, so it stays stopped whatever follows. */
  lemma {:induction false} RetiredStaysStopped(s: State, steps: seq<Step>)
    requires Retired(s)
    ensures Retired(Run(s, steps)) && StaysStopped(s, steps)
    decreases |steps|
  {
    if steps != [] { RetiredStaysStopped(Next(s, steps[0]), steps[1..]); }
  }

  /** After `beginRetire` and a completed wait no mutation runs again. */
  lemma RetiredIsIdleForGood(s: State, waiting: seq<Step>, after: seq<Step>)
    requires Chained(s) && Ordered(s)
    requires var t := Next(s, BeginRetire); Patient(t, waiting) && Settled(Run(t, waiting), t.tail)
    ensures Idle(Run(Next(s, BeginRetire), waiting + after))
  {
    var t := Next(s, BeginRetire);
    RetiredStaysStopped(t, waiting);
    RetiredStaysStopped(Run(t, waiting), after);
    AwaitedIsIdle(t, waiting, after);
  }

  /** `beginShutdown` stops mutations for good if and only if the daemon is not paused: a paused one can still be resumed. */
  lemma ShutdownRetires(s: State)
    ensures Retired(Next(s, BeginShutdown)) <==> !s.lifecycle.Paused?
    ensures s.lifecycle.Paused? ==> Next(Next(s, BeginShutdown), Resume).lifecycle.Running? && Next(s, BeginShutdown).closed
  {}

  // ---- The class ----

  class DaemonRuntimeState {
    var lifecycle: Lifecycle
    var draining: bool
    var closed: bool
    var mutationTail: nat
    /** The admitted fibers: their deferreds and where they are. */
    var operations: seq<Operation>

    ghost function Abstract(): State
      reads this
    {
      State(lifecycle, draining, closed, mutationTail, operations)
    }

    constructor (initiallyPaused: bool)
      ensures Abstract() == Initial(initiallyPaused)
    {
      lifecycle := if initiallyPaused then Paused else Running;
      draining, closed, mutationTail, operations := false, false, 0, [];
    }

    method BeginShutdown()
      modifies this
      ensures Abstract() == Next(old(Abstract()), Step.BeginShutdown)
    {
      closed := true;
      if lifecycle.Running? { lifecycle := Quiescing; }
      draining := true;
    }

    method BeginRetire() returns (began: bool)
      modifies this
      ensures Abstract() == Next(old(Abstract()), Step.BeginRetire)
      ensures began <==> !old(Retired(Abstract()))
      ensures Retired(Abstract())
    {
      if lifecycle.Quiescing? || lifecycle.Closed? || lifecycle.Draining? { return false; }
      lifecycle := Quiescing;
      draining := true;
      return true;
    }

    method MarkDraining()
      modifies this
      ensures Abstract() == Next(old(Abstract()), Step.MarkDraining)
    {
      lifecycle := Draining;
    }

    method MarkClosed()
      modifies this
      ensures Abstract() == Next(old(Abstract()), Step.MarkClosed)
    {
      lifecycle := Closed;
    }

    method Pause() returns (r: Result<()>)
      modifies this
      ensures Abstract() == Next(old(Abstract()), Step.Pause)
      ensures r.Ok? <==> old(lifecycle).Running?
    {
      if !lifecycle.Running? { return Err("RouteKit daemon is not mutable"); }
      lifecycle := Paused;
      return Ok(());
    }

    method Resume()
      modifies this
      ensures Abstract() == Next(old(Abstract()), Step.Resume)
    {
      if lifecycle.Paused? { lifecycle := Running; }
    }

    /** The deferred that a wait starting now waits for. */
    method AwaitMutations() returns (deferred: nat)
      ensures deferred == mutationTail
    {
      deferred := mutationTail;
    }

    /** The synchronous part of `serializeEffect`: the number of the operation, if it is admitted. */
    method SerializeEffect() returns (r: Result<nat>)
      modifies this
      ensures Abstract() == Next(old(Abstract()), Admit)
      ensures r.Ok? <==> old(lifecycle).Running?
      ensures r.Ok? ==> r.value == |old(operations)| && operations[r.value] == Waiting(old(mutationTail))
    {
      if !lifecycle.Running? { return Err("RouteKit daemon is shutting down"); }
      var previous := mutationTail;
      var k := |operations|;
      operations := operations + [Waiting(previous)];
      mutationTail := k + 1;
      return Ok(k);
    }

    /** The fiber goes on once what it waits for is settled. */
    method Proceed(k: nat)
      requires k < |operations| && operations[k].Waiting? && Settled(Abstract(), operations[k].previous)
      modifies this
      ensures Abstract() == Next(old(Abstract()), Start(k))
    {
      operations := operations[k := Working];
    }

    /** The finalizer, which runs when the operation succeeds or fails and when the fiber is interrupted. */
    method Release(k: nat)
      requires k < |operations| && !operations[k].Over?
      modifies this
      ensures Abstract() == Next(old(Abstract()), if old(operations[k]).Working? then Finish(k) else Interrupt(k))
      ensures Settled(Abstract(), k + 1)
    {
      operations := operations[k := Over];
    }
  }
}
