/**
 Relaying a provider's event stream (packages/accounts/src/subscription-stream.ts):
 a prelude is buffered until the provider shows output or a failure, and then the
 stream is passed on.

 The provider and the decoder behave in any way: which chunks arrive and whether
 the stream then ends or fails, and what the decoder finds in each chunk.
 */
module SubscriptionStream {
  import opened Octets
  import opened Wrappers

  const CAP := 1024 * 1024

  type Failure = string

  /** What the events of one chunk come to: output, the last failure, and whether inspecting them threw. */
  datatype Inspection = Inspection(semanticOutput: bool, failure: Option<Failure>, throws: bool)

  // ---- Bytes ----

  function Flatten(chunks: seq<Bytes>): Bytes {
    if chunks == [] then [] else Flatten(chunks[..|chunks| - 1]) + chunks[|chunks| - 1]
  }

  function Total(chunks: seq<Bytes>): (n: nat)
    ensures n == |Flatten(chunks)|
  {
    if chunks == [] then 0 else Total(chunks[..|chunks| - 1]) + |chunks[|chunks| - 1]|
  }

  lemma FlattenNext(chunks: seq<Bytes>, k: nat)
    requires k < |chunks|
    ensures Flatten(chunks[..k + 1]) == Flatten(chunks[..k]) + chunks[k]
  {
    assert chunks[..k + 1][..k] == chunks[..k];
  }

  lemma {:induction false} FlattenGrows(chunks: seq<Bytes>, k: nat)
    requires k <= |chunks|
    ensures |Flatten(chunks[..k])| <= |Flatten(chunks)|
    decreases |chunks|
  {
    if k < |chunks| {
      FlattenGrows(chunks[..|chunks| - 1], k);
      assert chunks[..|chunks| - 1][..k] == chunks[..k];
    } else {
      assert chunks[..k] == chunks;
    }
  }

  /** `concatSubscriptionBytes`. */
  method ConcatSubscriptionBytes(chunks: seq<Bytes>) returns (result: array<Byte>)
    ensures fresh(result) && result[..] == Flatten(chunks)
  {
    result := new Byte[Total(chunks)](_ => 0);
    var offset := 0;
    for k := 0 to |chunks|
      invariant offset == |Flatten(chunks[..k])| <= result.Length
      invariant result[..offset] == Flatten(chunks[..k])
    {
      FlattenNext(chunks, k);
      FlattenGrows(chunks, k + 1);
      Set(result, chunks[k], offset);
      offset := offset + |chunks[k]|;
    }
    assert chunks[..|chunks|] == chunks;
    assert result[..offset] == result[..];
  }

  /** `Uint8Array.set`. */
  method Set(target: array<Byte>, source: Bytes, offset: nat)
    requires offset + |source| <= target.Length
    modifies target
    ensures target[..offset + |source|] == old(target[..offset]) + source
  {
    for i := 0 to |source|
      invariant target[..offset + i] == old(target[..offset]) + source[..i]
    {
      target[offset + i] := source[i];
    }
  }

  // ---- Upstream ----

  datatype Read = Next(chunk: Bytes) | Done | Broken

  /**
   The provider's body: the chunks that arrive, whether reading then fails, by itself
   or by an abort, and whether cancelling it fails.
   */
  class Upstream {
    const chunks: seq<Bytes>
    const fails: bool
    const cancelFails: bool
    var position: nat
    var cancelled: bool

    ghost predicate Valid()
      reads this
    {
      position <= |chunks|
    }

    constructor (chunks: seq<Bytes>, fails: bool, cancelFails: bool)
      ensures Valid() && this.chunks == chunks && this.fails == fails && this.cancelFails == cancelFails
      ensures position == 0 && !cancelled
    {
      this.chunks, this.fails, this.cancelFails, position, cancelled := chunks, fails, cancelFails, 0, false;
    }

    method NextChunk() returns (r: Read)
      requires Valid()
      modifies `position
      ensures Valid()
      ensures old(position) < |chunks| ==> r == Next(chunks[old(position)]) && position == old(position) + 1
      ensures old(position) == |chunks| ==> r == (if fails then Broken else Done) && position == old(position)
    {
      if position < |chunks| {
        r := Next(chunks[position]);
        position := position + 1;
      } else if fails {
        r := Broken;
      } else {
        r := Done;
      }
    }

    method Cancel() returns (ok: bool)
      modifies `cancelled
      ensures ok == cancelled == !cancelFails
    {
      ok := !cancelFails;
      cancelled := ok;
    }
  }

  /** A released lease: how often the callback ran. */
  class Lease {
    var releases: nat

    constructor ()
      ensures releases == 0
    {
      releases := 0;
    }

    method Release()
      modifies this
      ensures releases == old(releases) + 1
    {
      releases := releases + 1;
    }
  }

  // ---- Buffered responses ----

  /** `readBoundedSubscriptionBody`: the whole body if it is within the cap; released exactly once in any case. */
  method ReadBoundedBody(upstream: Upstream, lease: Lease) returns (r: Result<Bytes>)
    requires upstream.Valid() && upstream.position == 0
    modifies upstream, lease
    ensures r.Ok? <==> !upstream.fails && |Flatten(upstream.chunks)| <= CAP
    ensures r.Ok? ==> r.value == Flatten(upstream.chunks)
    ensures lease.releases == old(lease.releases) + 1
  {
    var chunks: seq<Bytes> := [];
    var size := 0;
    while true
      invariant upstream.Valid() && chunks == upstream.chunks[..upstream.position]
      invariant size == |Flatten(chunks)| <= CAP
      invariant lease.releases == old(lease.releases)
      decreases |upstream.chunks| - upstream.position
    {
      var next := upstream.NextChunk();
      match next {
        case Done =>
          assert chunks == upstream.chunks;
          var bytes := ConcatSubscriptionBytes(chunks);
          lease.Release();
          return Ok(bytes[..]);
        case Broken =>
          lease.Release();
          return Err("read failed");
        case Next(chunk) =>
          FlattenNext(upstream.chunks, upstream.position - 1);
          size := size + |chunk|;
          if size > CAP {
            FlattenGrows(upstream.chunks, upstream.position);
            // A failure to cancel is swallowed.
            var cancelled := upstream.Cancel();
            lease.Release();
            return Err("provider SSE body exceeded the buffer cap");
          }
          chunks := chunks + [chunk];
      }
    }
  }

  // ---- What the decoder has found ----

  /** The decoder's behaviour on the chunks that it is fed in order, and on each flush. */
  datatype Decoder = Decoder(inspections: nat -> Inspection, flushThrows: nat -> bool)

  /** The terminal-failure callback: whether there is one, and whether it throws. */
  datatype Observer = Observer(present: bool, throws: bool)

  predicate SeenOutput(d: Decoder, fed: nat) {
    exists k: nat :: k < fed && d.inspections(k).semanticOutput
  }

  /** The latest failure in the first `fed` chunks. */
  function LastFailure(d: Decoder, fed: nat): Option<Failure> {
    if fed == 0 then None
    else if d.inspections(fed - 1).failure.Some? then d.inspections(fed - 1).failure
    else LastFailure(d, fed - 1)
  }

  /** The flags are what the decoder has found in the first `fed` chunks. */
  ghost predicate Inspected(d: Decoder, fed: nat, semanticOutput: bool, terminalFailure: Option<Failure>) {
    semanticOutput == SeenOutput(d, fed) && terminalFailure == LastFailure(d, fed)
  }

  // ---- Where the prelude ends, and how ----

  predicate OverCap(chunks: seq<Bytes>, k: nat)
    requires k < |chunks|
  {
    |Flatten(chunks[..k + 1])| > CAP
  }

  /** The prelude cannot go on after chunk `k`. */
  predicate Stops(chunks: seq<Bytes>, d: Decoder, k: nat)
    requires k < |chunks|
  {
    var i := d.inspections(k);
    OverCap(chunks, k) || i.throws || i.semanticOutput || i.failure.Some?
  }

  /** The first chunk from `from` on that ends the prelude, or the end. */
  function FirstStop(chunks: seq<Bytes>, d: Decoder, from: nat): (n: nat)
    requires from <= |chunks|
    ensures from <= n <= |chunks| && (n < |chunks| ==> Stops(chunks, d, n))
    ensures forall k: nat :: from <= k < n ==> !Stops(chunks, d, k)
    decreases |chunks| - from
  {
    if from == |chunks| || Stops(chunks, d, from) then from else FirstStop(chunks, d, from + 1)
  }

  /** Reading up to the stop `n`, and inspecting its chunk, throws. */
  predicate FillThrows(upstream: Upstream, d: Decoder, n: nat)
    requires n <= |upstream.chunks|
  {
    if n == |upstream.chunks| then upstream.fails || d.flushThrows(0)
    else OverCap(upstream.chunks, n) || d.inspections(n).throws
  }

  /** So does what follows: the callback, for a failure that came with output, or cancelling, for one that came without. */
  predicate PreludeThrows(upstream: Upstream, d: Decoder, o: Observer, n: nat)
    requires n <= |upstream.chunks|
  {
    || FillThrows(upstream, d, n)
    || (n < |upstream.chunks| && d.inspections(n).failure.Some?
        && if d.inspections(n).semanticOutput then o.present && o.throws else upstream.cancelFails)
  }

  /** The prelude ends with a failure before any output. */
  predicate FailsEarly(upstream: Upstream, d: Decoder, o: Observer, n: nat)
    requires n <= |upstream.chunks|
  {
    && !PreludeThrows(upstream, d, o, n)
    && n < |upstream.chunks| && d.inspections(n).failure.Some? && !d.inspections(n).semanticOutput
  }

  /** A later chunk errors the body: its inspection throws, or the callback does, on the first failure. */
  predicate ChunkThrows(d: Decoder, o: Observer, p: nat) {
    || d.inspections(p).throws
    || (o.present && o.throws && LastFailure(d, p).None? && d.inspections(p).failure.Some?)
  }

  lemma FirstStopIs(chunks: seq<Bytes>, d: Decoder, n: nat)
    requires n <= |chunks| && (forall k: nat :: k < n ==> !Stops(chunks, d, k)) && (n < |chunks| ==> Stops(chunks, d, n))
    ensures FirstStop(chunks, d, 0) == n
  {}

  /** Before the first stop there is neither output nor failure. */
  lemma {:induction false} QuietBefore(chunks: seq<Bytes>, d: Decoder, n: nat)
    requires n <= |chunks| && forall k: nat :: k < n ==> !Stops(chunks, d, k)
    ensures !SeenOutput(d, n) && LastFailure(d, n).None?
    decreases n
  {
    if n > 0 {
      QuietBefore(chunks, d, n - 1);
      assert !Stops(chunks, d, n - 1);
    }
  }

  /** At the first stop they are those of its chunk. */
  lemma FoundAtStop(chunks: seq<Bytes>, d: Decoder, n: nat)
    requires n < |chunks| && forall k: nat :: k < n ==> !Stops(chunks, d, k)
    ensures SeenOutput(d, n + 1) <==> d.inspections(n).semanticOutput
    ensures LastFailure(d, n + 1) == d.inspections(n).failure
  {
    QuietBefore(chunks, d, n);
  }

  // ---- Streaming responses ----

  datatype Outcome = FailedEarly(body: Bytes, failure: Failure) | Streams | Threw(message: string)

  datatype Pulled = Enqueued(chunk: Bytes) | Closed | Errored

  datatype Phase = Prelude | Open | Ended(cleanly: bool)

  /** The local variables of `inspectSubscriptionResponse` that its closures share. */
  class Relay {
    const upstream: Upstream
    const lease: Lease
    const decoder: Decoder
    const observer: Observer
    var buffered: seq<Bytes>
    var bufferedBytes: nat
    var terminalFailure: Option<Failure>
    var terminalFailureApplied: bool
    var semanticOutput: bool
    var prefix: nat
    var fed: nat
    var flushes: nat
    var phase: Phase
    /** How many inspections have ended, the failures given to the callback, and the chunks given to the client. */
    ghost var heard: nat
    ghost var applied: seq<Failure>
    ghost var delivered: seq<Bytes>

    ghost predicate Valid()
      reads this, upstream, lease
    {
      && upstream.Valid() && prefix <= |buffered| <= upstream.position
      && heard <= fed <= upstream.position && buffered <= upstream.chunks
      && Inspected(decoder, fed, semanticOutput, terminalFailure)
      && |applied| == (if terminalFailureApplied then 1 else 0)
      && (phase.Prelude? ==> prefix == 0 && delivered == [] && applied == [] && lease.releases == 0 && flushes == 0
                             && |buffered| == upstream.position == fed == heard)
      && (phase.Open? ==> delivered == upstream.chunks[..Given()] && fed == heard == upstream.position
                          && (prefix < |buffered| ==> upstream.position == |buffered|)
                          && flushes == (if lease.releases > 0 then 1 else 0)
                          && (lease.releases > 0 ==> upstream.position == |upstream.chunks| && !upstream.fails))
      // Once the prelude is over, the callback has run exactly if there is one and a failure has been found.
      && (!phase.Prelude? ==> (terminalFailureApplied <==> observer.present && LastFailure(decoder, heard).Some?))
      && (phase.Ended? ==> delivered <= upstream.chunks && (phase.cleanly ==> delivered == upstream.chunks) && lease.releases > 0)
    }

    /** How many chunks the client has: it gets the prelude first. */
    ghost function Given(): nat
      reads this, upstream
    {
      if prefix < |buffered| then prefix else upstream.position
    }

    constructor (upstream: Upstream, lease: Lease, decoder: Decoder, observer: Observer)
      requires upstream.Valid() && upstream.position == 0 && lease.releases == 0
      ensures Valid() && phase == Prelude && bufferedBytes == |Flatten(buffered)|
      ensures this.upstream == upstream && this.lease == lease && this.decoder == decoder && this.observer == observer
      ensures terminalFailure.None? && !semanticOutput
    {
      this.upstream, this.lease, this.decoder, this.observer := upstream, lease, decoder, observer;
      buffered, bufferedBytes, terminalFailure, terminalFailureApplied, semanticOutput := [], 0, None, false, false;
      prefix, fed, flushes, phase, heard, applied, delivered := 0, 0, 0, Prelude, 0, [], [];
    }

    /** `inspect`, on the next chunk. */
    method Inspect() returns (ok: bool)
      requires Inspected(decoder, fed, semanticOutput, terminalFailure) && heard == fed
      modifies `semanticOutput, `terminalFailure, `fed, `heard
      ensures fed == old(fed) + 1 && Inspected(decoder, fed, semanticOutput, terminalFailure)
      ensures ok == !decoder.inspections(old(fed)).throws
      ensures heard == if ok then fed else old(fed)
    {
      var inspection := decoder.inspections(fed);
      fed := fed + 1;
      if inspection.semanticOutput { semanticOutput := true; }
      if inspection.failure.Some? { terminalFailure := inspection.failure; }
      ok := !inspection.throws;
      if ok { heard := fed; }
    }

    /** `applyTerminalFailure`: gives the callback the failure, the first time. */
    method ApplyTerminalFailure() returns (ok: bool)
      modifies `terminalFailureApplied, `applied
      ensures var applies := !old(terminalFailureApplied) && terminalFailure.Some? && observer.present;
              && terminalFailureApplied == (old(terminalFailureApplied) || applies)
              && applied == old(applied) + (if applies then [terminalFailure.value] else [])
              && ok == !(applies && observer.throws)
    {
      ok := true;
      if !terminalFailureApplied && terminalFailure.Some? && observer.present {
        terminalFailureApplied := true;
        applied := applied + [terminalFailure.value];
        ok := !observer.throws;
      }
    }

    /**
     The prelude, with its exact outcome. It ends at the first chunk `n` that brings
     too many bytes, throws, or shows output or a failure, or at the end. It throws
     exactly as `PreludeThrows` says; a failure without output ends with exactly the
     bytes read so far; otherwise the stream opens with at most 1 MiB buffered.
     */
    method ReadPrelude() returns (r: Outcome)
      requires Valid() && phase == Prelude && bufferedBytes == |Flatten(buffered)| <= CAP
      requires terminalFailure.None? && !semanticOutput && upstream.position == 0
      modifies this, upstream, lease
      ensures upstream.Valid()
      ensures var n := FirstStop(upstream.chunks, decoder, 0);
              && upstream.position == (if n < |upstream.chunks| then n + 1 else n)
              && (r.Threw? <==> PreludeThrows(upstream, decoder, observer, n))
              && (r.FailedEarly? <==> FailsEarly(upstream, decoder, observer, n))
              && (r.FailedEarly? ==>
                    && r.body == Flatten(upstream.chunks[..n + 1]) && |r.body| <= CAP
                    && decoder.inspections(n).failure == Some(r.failure)
                    && lease.releases == 1 && upstream.cancelled && applied == [])
              && (r.Streams? ==>
                    && Valid() && phase == Open && delivered == [] && buffered == upstream.chunks[..upstream.position]
                    && |Flatten(buffered)| <= CAP && (n < |upstream.chunks| ==> decoder.inspections(n).semanticOutput))
              && (r.Threw? ==>
                    lease.releases == if n == |upstream.chunks| then (if upstream.fails then 0 else 1)
                                      else if OverCap(upstream.chunks, n) && !upstream.cancelFails then 1 else 0)
    {
      hide Flatten, SeenOutput, LastFailure;
      var threw := FillPrelude();
      ghost var n := FirstStop(upstream.chunks, decoder, 0);
      if threw.Some? { return Threw(threw.value); }
      FoundByFill(n);
      if terminalFailure.Some? && semanticOutput {
        var ok := ApplyTerminalFailure();
        if !ok { return Threw("onTerminalFailure"); }
      }
      if terminalFailure.Some? && !semanticOutput {
        var cancelled := upstream.Cancel();
        if !cancelled { return Threw("cancel"); }
        lease.Release();
        var bytes := ConcatSubscriptionBytes(buffered);
        return FailedEarly(bytes[..], terminalFailure.value);
      }
      phase := Open;
      return Streams;
    }

    lemma FoundByFill(n: nat)
      requires n == FirstStop(upstream.chunks, decoder, 0) && Inspected(decoder, fed, semanticOutput, terminalFailure)
      requires fed == if n < |upstream.chunks| then n + 1 else n
      ensures n < |upstream.chunks| ==>
                semanticOutput == decoder.inspections(n).semanticOutput && terminalFailure == decoder.inspections(n).failure
      ensures n == |upstream.chunks| ==> !semanticOutput && terminalFailure.None?
    {
      if n < |upstream.chunks| {
        FoundAtStop(upstream.chunks, decoder, n);
      } else {
        QuietBefore(upstream.chunks, decoder, n);
      }
    }

    /** The bounded loop: reads until there is output, a failure or the end, or throws. */
    method FillPrelude() returns (threw: Option<string>)
      requires Valid() && phase == Prelude && bufferedBytes == |Flatten(buffered)| <= CAP
      requires terminalFailure.None? && !semanticOutput && upstream.position == 0
      modifies `semanticOutput, `terminalFailure, `fed, `heard, `buffered, `bufferedBytes, `flushes, upstream, lease
      ensures upstream.Valid() && buffered == upstream.chunks[..upstream.position]
      ensures var n := FirstStop(upstream.chunks, decoder, 0);
              && upstream.position == (if n < |upstream.chunks| then n + 1 else n)
              && (threw.Some? <==> FillThrows(upstream, decoder, n))
              && (threw.Some? ==>
                    lease.releases == if n == |upstream.chunks| then (if upstream.fails then 0 else 1)
                                      else if OverCap(upstream.chunks, n) && !upstream.cancelFails then 1 else 0)
              && (threw.None? ==> lease.releases == flushes == if n == |upstream.chunks| then 1 else 0)
      ensures threw.None? ==>
                && |Flatten(buffered)| <= CAP && fed == heard == upstream.position
                && Inspected(decoder, fed, semanticOutput, terminalFailure)
    {
      hide Flatten, SeenOutput, LastFailure, FirstStop;
      assert upstream.chunks[..0] == [];
      while !semanticOutput && terminalFailure.None?
        invariant upstream.Valid() && buffered == upstream.chunks[..upstream.position]
        invariant fed == heard == upstream.position && lease.releases == flushes == 0
        invariant bufferedBytes == |Flatten(buffered)| <= CAP
        invariant Inspected(decoder, fed, semanticOutput, terminalFailure)
        invariant forall k: nat :: k < upstream.position - 1 ==> !Stops(upstream.chunks, decoder, k)
        invariant if semanticOutput || terminalFailure.Some? then
                    && upstream.position > 0 && Stops(upstream.chunks, decoder, upstream.position - 1)
                    && !OverCap(upstream.chunks, upstream.position - 1) && !decoder.inspections(upstream.position - 1).throws
                  else upstream.position > 0 ==> !Stops(upstream.chunks, decoder, upstream.position - 1)
        decreases |upstream.chunks| - upstream.position
      {
        ghost var n := upstream.position;
        var next := upstream.NextChunk();
        if !next.Next? {
          FirstStopIs(upstream.chunks, decoder, n);
          if next.Broken? { return Some("read failed"); }
          var flushed := Flush();
          lease.Release();
          return if flushed then None else Some("flush");
        }
        FlattenNext(upstream.chunks, n);
        assert buffered + [next.chunk] == upstream.chunks[..n + 1];
        buffered := buffered + [next.chunk];
        bufferedBytes := bufferedBytes + |next.chunk|;
        if bufferedBytes > CAP {
          FirstStopIs(upstream.chunks, decoder, n);
          var cancelled := upstream.Cancel();
          if !cancelled { return Some("cancel"); }
          lease.Release();
          return Some("provider SSE prelude exceeded the 1 MiB retry buffer cap");
        }
        FoundAtStop(upstream.chunks, decoder, n);
        var inspected := Inspect();
        if !inspected {
          FirstStopIs(upstream.chunks, decoder, n);
          return Some("inspection");
        }
      }
      FirstStopIs(upstream.chunks, decoder, upstream.position - 1);
      return None;
    }

    method Flush() returns (ok: bool)
      modifies `flushes
      ensures flushes == old(flushes) + 1 && ok == !decoder.flushThrows(old(flushes))
    {
      ok := !decoder.flushThrows(flushes);
      flushes := flushes + 1;
    }

    /** `pull`: the next chunk for the client, or the end, exactly. */
    method Pull() returns (r: Pulled)
      requires Valid() && phase == Open
      modifies this, upstream, lease
      ensures Valid()
      ensures r.Errored? <==>
                && old(prefix == |buffered|)
                && if old(upstream.position) == |upstream.chunks| then upstream.fails || decoder.flushThrows(old(flushes))
                   else ChunkThrows(decoder, observer, old(upstream.position))
      ensures r.Closed? <==>
                && old(prefix == |buffered| && upstream.position == |upstream.chunks|)
                && !upstream.fails && !decoder.flushThrows(old(flushes))
      ensures r.Enqueued? ==>
                && phase == Open && delivered == old(delivered) + [r.chunk] && flushes == old(flushes)
                && |old(delivered)| < |upstream.chunks| && r.chunk == upstream.chunks[|old(delivered)|]
      ensures !r.Enqueued? ==>
                && phase == Ended(r.Closed?) && delivered == old(delivered)
                && |delivered| == old(upstream.position) && lease.releases > old(lease.releases)
      ensures old(applied) <= applied && old(heard) <= heard
      ensures upstream.position == old(upstream.position)
              || (old(prefix == |buffered|) && upstream.position == old(upstream.position) + 1)
    {
      hide Inspected, Flatten, LastFailure;
      if prefix < |buffered| {
        r := Enqueued(buffered[prefix]);
        delivered := delivered + [buffered[prefix]];
        prefix := prefix + 1;
        return;
      }
      var next := upstream.NextChunk();
      match next {
        case Done =>
          var flushed := Flush();
          End(flushed);
          // A flush that throws releases in its own finalizer and again in the error path.
          if !flushed { lease.Release(); }
          return if flushed then Closed else Errored;
        case Broken =>
          End(false);
          return Errored;
        case Next(chunk) =>
          var ok := Observe();
          if !ok {
            End(false);
            return Errored;
          }
          delivered := delivered + [chunk];
          return Enqueued(chunk);
      }
    }

    /** Ends the body: the lease is released. */
    method End(cleanly: bool)
      modifies lease, `phase
      ensures phase == Ended(cleanly) && lease.releases == old(lease.releases) + 1
    {
      lease.Release();
      phase := Ended(cleanly);
    }

    /** Inspects the chunk that was just read, and reports a failure once. */
    method Observe() returns (ok: bool)
      requires Inspected(decoder, fed, semanticOutput, terminalFailure) && heard == fed
      requires terminalFailureApplied <==> observer.present && LastFailure(decoder, heard).Some?
      requires |applied| == (if terminalFailureApplied then 1 else 0)
      modifies `semanticOutput, `terminalFailure, `fed, `heard, `terminalFailureApplied, `applied
      ensures fed == old(fed) + 1 && Inspected(decoder, fed, semanticOutput, terminalFailure)
      ensures |applied| == (if terminalFailureApplied then 1 else 0) && old(applied) <= applied
      ensures terminalFailureApplied <==> observer.present && LastFailure(decoder, heard).Some?
      ensures ok == !ChunkThrows(decoder, observer, old(fed))
      ensures old(fed) <= heard <= fed && (ok ==> heard == fed)
      ensures applied != old(applied) ==> terminalFailure.Some? && applied == [terminalFailure.value]
    {
      ok := Inspect();
      if ok && terminalFailure.Some? { ok := ApplyTerminalFailure(); }
    }

    /** The client goes away; the lease is released even if cancelling fails. */
    method CancelBody() returns (ok: bool)
      requires Valid() && phase == Open
      modifies this, upstream, lease
      ensures Valid() && phase == Ended(false) && delivered == old(delivered) && ok == !upstream.cancelFails
    {
      ok := upstream.Cancel();
      End(false);
    }

    /**
     A client that reads to the end. The body closes exactly if the upstream ends
     well, the last flush does not throw and no remaining chunk errors it, and then
     the client has all the upstream chunks in order; otherwise it has the chunks
     before the one that errored it. The callback has run exactly if there is one and
     a failure was found, and only once.
     */
    method Drain() returns (closed: bool)
      requires Valid() && phase == Open
      modifies this, upstream, lease
      ensures Valid() && phase == Ended(closed) && lease.releases > 0
      ensures closed <==>
                && !upstream.fails && !decoder.flushThrows(old(flushes))
                && forall p: nat :: old(upstream.position) <= p < |upstream.chunks| ==> !ChunkThrows(decoder, observer, p)
      ensures delivered <= upstream.chunks && (closed ==> delivered == upstream.chunks)
      ensures |delivered| < |upstream.chunks| ==> ChunkThrows(decoder, observer, |delivered|)
      ensures forall p: nat :: old(upstream.position) <= p < |delivered| ==> !ChunkThrows(decoder, observer, p)
      ensures |applied| == if observer.present && LastFailure(decoder, heard).Some? then 1 else 0
      ensures |delivered| <= heard <= |delivered| + 1 && (closed ==> heard == |upstream.chunks|)
    {
      hide ChunkThrows, LastFailure, Inspected;
      ghost var start := upstream.position;
      var pulled := Enqueued([]);
      while pulled.Enqueued?
        invariant Valid() && start <= upstream.position
        invariant phase == if pulled.Enqueued? then Open else Ended(pulled.Closed?)
        invariant forall p: nat :: start <= p < (if pulled.Enqueued? then upstream.position else |delivered|) ==>
                    !ChunkThrows(decoder, observer, p)
        invariant if pulled.Enqueued? then flushes == old(flushes) else start <= |delivered| <= heard <= |delivered| + 1
        invariant !pulled.Enqueued? ==>
                    if |delivered| < |upstream.chunks| then pulled.Errored? && ChunkThrows(decoder, observer, |delivered|)
                    else pulled.Closed? <==> !upstream.fails && !decoder.flushThrows(old(flushes))
        decreases |upstream.chunks| - |delivered|, if pulled.Enqueued? then 1 else 0
      {
        pulled := Pull();
      }
      closed := pulled.Closed?;
    }
  }
}
