/**
 Idempotent control calls (packages/control/src/idempotency-store.ts and the
 handler of packages/control/src/index.ts): when the same key can run twice.

 An entry is identified by the number of the run that made it.
 */
module Idempotency {
  import opened Wrappers

  type Time = int

  datatype Slot = Slot(key: string, run: nat, fingerprint: string, completedAt: Option<Time>)

  /** What happens to runs. The last three are the ways in which a run's entry goes. */
  datatype Event =
    | Started(run: nat, key: string)
    | Completed(run: nat)
    | Failed(run: nat)
    | Expired(run: nat)
    | Evicted(run: nat)

  predicate Loses(event: Event, run: nat) {
    event == Failed(run) || event == Expired(run) || event == Evicted(run)
  }

  /** The run's entry went at some time from `i` on and before `j`. */
  ghost predicate LostBetween(history: seq<Event>, i: int, j: int, run: nat) {
    exists m :: 0 <= i < m < j <= |history| && Loses(history[m], run)
  }

  // ---- The store ----

  function IndexOf(operations: seq<Slot>, key: string): (i: nat)
    ensures i <= |operations|
    ensures i < |operations| ==> operations[i].key == key
    ensures forall j :: 0 <= j < i ==> operations[j].key != key
  {
    if operations == [] || operations[0].key == key then 0 else 1 + IndexOf(operations[1..], key)
  }

  function Lookup(operations: seq<Slot>, key: string): Option<Slot> {
    var i := IndexOf(operations, key);
    if i < |operations| then Some(operations[i]) else None
  }

  predicate Stale(slot: Slot, now: Time, ttl: int) {
    slot.completedAt.Some? && now - slot.completedAt.value > ttl
  }

  function CompletedCount(operations: seq<Slot>): (n: nat)
    ensures n <= |operations|
  {
    if operations == [] then 0 else (if operations[0].completedAt.Some? then 1 else 0) + CompletedCount(operations[1..])
  }

  ghost predicate DistinctKeys(operations: seq<Slot>) {
    forall i, j :: 0 <= i < j < |operations| ==> operations[i].key != operations[j].key
  }

  /** The entry of the run is in the store. */
  ghost predicate Holds(operations: seq<Slot>, key: string, run: nat) {
    exists i :: 0 <= i < |operations| && operations[i].key == key && operations[i].run == run
  }

  /** Every run that started has its entry in the store, or its entry went since. */
  ghost predicate Accounted(operations: seq<Slot>, history: seq<Event>) {
    forall i :: 0 <= i < |history| && history[i].Started? ==>
      Holds(operations, history[i].key, history[i].run) || LostBetween(history, i, |history|, history[i].run)
  }

  /** Between two runs for one key the first one's entry went. */
  ghost predicate AtMostOnce(history: seq<Event>) {
    forall i, j :: 0 <= i < j < |history| && history[i].Started? && history[j].Started? && history[i].key == history[j].key ==>
      LostBetween(history, i, j, history[i].run)
  }

  ghost predicate Sound(operations: seq<Slot>, history: seq<Event>, maxEntries: nat) {
    && DistinctKeys(operations) && Accounted(operations, history) && AtMostOnce(history)
    && CompletedCount(operations) <= maxEntries
  }

  lemma LostStays(history: seq<Event>, more: seq<Event>, i: int, j: int, run: nat)
    requires j <= |history|
    ensures LostBetween(history, i, j, run) ==> LostBetween(history + more, i, j, run)
  {
    if LostBetween(history, i, j, run) {
      var m :| 0 <= i < m < j <= |history| && Loses(history[m], run);
      assert (history + more)[m] == history[m];
    }
  }

  lemma LostLater(history: seq<Event>, i: int, j: int, k: int, run: nat)
    requires LostBetween(history, i, j, run) && j <= k <= |history|
    ensures LostBetween(history, i, k, run)
  {}

  /** Events that start nothing keep the runs apart. */
  lemma MoreEvents(history: seq<Event>, more: seq<Event>)
    requires AtMostOnce(history) && forall m :: 0 <= m < |more| ==> !more[m].Started?
    ensures AtMostOnce(history + more)
  {
    var all := history + more;
    forall i, j | 0 <= i < j < |all| && all[i].Started? && all[j].Started? && all[i].key == all[j].key
      ensures LostBetween(all, i, j, all[i].run) {
      assert j < |history| && all[i] == history[i] && all[j] == history[j];
      LostStays(history, more, i, j, all[i].run);
    }
  }

  /** An entry may leave the store when the event says so; the others stay. */
  lemma OneGoes(operations: seq<Slot>, history: seq<Event>, i: nat, event: Event, maxEntries: nat)
    requires DistinctKeys(operations) && Accounted(operations, history) && AtMostOnce(history)
    requires i < |operations| && Loses(event, operations[i].run)
    ensures var rest := operations[..i] + operations[i + 1..];
            && DistinctKeys(rest) && Accounted(rest, history + [event]) && AtMostOnce(history + [event])
    ensures CompletedCount(operations[..i] + operations[i + 1..]) <= CompletedCount(operations)
  {
    var rest, all := operations[..i] + operations[i + 1..], history + [event];
    MoreEvents(history, [event]);
    CompletedSplit(operations, i);
    forall s | 0 <= s < |all| && all[s].Started?
      ensures Holds(rest, all[s].key, all[s].run) || LostBetween(all, s, |all|, all[s].run) {
      assert all[s] == history[s];
      var (key, run) := (all[s].key, all[s].run);
      if Holds(operations, key, run) {
        var k :| 0 <= k < |operations| && operations[k].key == key && operations[k].run == run;
        if k < i { assert rest[k] == operations[k]; }
        else if k > i { assert rest[k - 1] == operations[k]; }
        else { assert Loses(all[|history|], run); }
      } else {
        LostStays(history, [event], s, |history|, run);
        LostLater(all, s, |history|, |all|, run);
      }
    }
  }

  lemma {:induction false} CompletedSplit(operations: seq<Slot>, i: nat)
    requires i < |operations|
    ensures CompletedCount(operations) == CompletedCount(operations[..i] + operations[i + 1..]) + if operations[i].completedAt.Some? then 1 else 0
    decreases i
  {
    if i == 0 {
      assert operations[..0] + operations[1..] == operations[1..];
    } else {
      CompletedSplit(operations[1..], i - 1);
      var rest := operations[..i] + operations[i + 1..];
      assert rest[1..] == operations[1..][..i - 1] + operations[1..][i..];
    }
  }

  function Marked(operations: seq<Slot>, i: nat, now: Time): (r: seq<Slot>)
    requires i < |operations|
  {
    operations[i := operations[i].(completedAt := Some(now))]
  }

  function Less(operations: seq<Slot>, i: nat): seq<Slot>
    requires i < |operations|
  {
    operations[..i] + operations[i + 1..]
  }

  /** The entries after the oldest ones in excess have gone. */
  function Newest(operations: seq<Slot>, maxEntries: nat): (r: seq<Slot>)
    ensures |r| <= maxEntries
  {
    if |operations| <= maxEntries then operations else operations[|operations| - maxEntries..]
  }

  function EvictedEvents(operations: seq<Slot>): (events: seq<Event>)
    ensures |events| == |operations| && forall m :: 0 <= m < |events| ==> events[m] == Evicted(operations[m].run)
  {
    if operations == [] then [] else EvictedEvents(operations[..|operations| - 1]) + [Evicted(operations[|operations| - 1].run)]
  }

  lemma SameHolders(before: seq<Slot>, after: seq<Slot>, history: seq<Event>, more: seq<Event>)
    requires DistinctKeys(before) && Accounted(before, history) && AtMostOnce(history)
    requires |before| == |after| && forall i :: 0 <= i < |before| ==> before[i].key == after[i].key && before[i].run == after[i].run
    requires forall m :: 0 <= m < |more| ==> !more[m].Started?
    ensures DistinctKeys(after) && Accounted(after, history + more) && AtMostOnce(history + more)
  {
    MoreEvents(history, more);
    var all := history + more;
    forall s | 0 <= s < |all| && all[s].Started?
      ensures Holds(after, all[s].key, all[s].run) || LostBetween(all, s, |all|, all[s].run) {
      assert all[s] == history[s];
      if Holds(before, all[s].key, all[s].run) {
        var k :| 0 <= k < |before| && before[k].key == all[s].key && before[k].run == all[s].run;
        assert after[k].key == all[s].key && after[k].run == all[s].run;
      } else {
        LostStays(history, more, s, |history|, all[s].run);
        LostLater(all, s, |history|, |all|, all[s].run);
      }
    }
  }

  /** A run may start when no entry has its key: the earlier runs for the key are all lost. */
  lemma OneStarts(operations: seq<Slot>, history: seq<Event>, slot: Slot)
    requires DistinctKeys(operations) && Accounted(operations, history) && AtMostOnce(history)
    requires slot.completedAt.None? && forall i :: 0 <= i < |operations| ==> operations[i].key != slot.key
    ensures var (after, all) := (operations + [slot], history + [Started(slot.run, slot.key)]);
            DistinctKeys(after) && Accounted(after, all) && AtMostOnce(all) && CompletedCount(after) == CompletedCount(operations)
  {
    var after := operations + [slot];
    CompletedSplit(after, |operations|);
    assert after[..|operations|] + after[|operations| + 1..] == operations;
    StartAccounted(operations, history, slot);
    StartIsOnce(operations, history, slot);
  }

  lemma StartAccounted(operations: seq<Slot>, history: seq<Event>, slot: Slot)
    requires Accounted(operations, history)
    ensures Accounted(operations + [slot], history + [Started(slot.run, slot.key)])
  {
    hide Holds, LostBetween;
    var started := Started(slot.run, slot.key);
    var after, all := operations + [slot], history + [started];
    forall s | 0 <= s < |all| && all[s].Started?
      ensures Holds(after, all[s].key, all[s].run) || LostBetween(all, s, |all|, all[s].run) {
      HoldsStays(operations, slot, all[s].key, all[s].run);
      if s < |history| && !Holds(after, all[s].key, all[s].run) {
        LostStays(history, [started], s, |history|, all[s].run);
        LostLater(all, s, |history|, |all|, all[s].run);
      }
    }
  }

  lemma StartIsOnce(operations: seq<Slot>, history: seq<Event>, slot: Slot)
    requires Accounted(operations, history) && AtMostOnce(history)
    requires forall i :: 0 <= i < |operations| ==> operations[i].key != slot.key
    ensures AtMostOnce(history + [Started(slot.run, slot.key)])
  {
    hide LostBetween;
    var started := Started(slot.run, slot.key);
    var all := history + [started];
    assert forall run :: !Holds(operations, slot.key, run);
    forall i, j | 0 <= i < j < |all| && all[i].Started? && all[j].Started? && all[i].key == all[j].key
      ensures LostBetween(all, i, j, all[i].run) {
      assert all[i] == history[i];
      LostStays(history, [started], i, j, all[i].run);
    }
  }

  lemma HoldsStays(operations: seq<Slot>, slot: Slot, key: string, run: nat)
    ensures Holds(operations, key, run) || (key == slot.key && run == slot.run) ==> Holds(operations + [slot], key, run)
  {
    var after := operations + [slot];
    assert after[|operations|] == slot;
    if Holds(operations, key, run) {
      var k :| 0 <= k < |operations| && operations[k].key == key && operations[k].run == run;
      assert after[k] == operations[k];
    }
  }

  /** Runs are numbered as they start. */
  ghost predicate Numbered(history: seq<Event>, runs: nat) {
    && (forall i :: 0 <= i < |history| && history[i].Started? ==> history[i].run < runs)
    && forall i, j :: 0 <= i < j < |history| && history[i].Started? && history[j].Started? ==> history[i].run != history[j].run
  }

  class IdempotencyStore {
    const maxEntries: nat
    const ttl: int
    var operations: seq<Slot>
    /** The number of the next run. */
    var runs: nat
    ghost var history: seq<Event>

    ghost predicate Valid()
      reads this
    {
      Sound(operations, history, maxEntries) && Numbered(history, runs)
    }

    constructor (maxEntries: nat, ttl: int)
      ensures Valid() && operations == [] && history == []
      ensures this.maxEntries == maxEntries && this.ttl == ttl
    {
      this.maxEntries, this.ttl := maxEntries, ttl;
      operations, runs, history := [], 0, [];
    }

    /** The live entry of the key; an entry that outlived its time goes. */
    method Get(key: string, now: Time) returns (existing: Option<Slot>)
      requires Valid()
      modifies this
      ensures Valid() && runs == old(runs)
      ensures var found := Lookup(old(operations), key);
              var stale := found.Some? && Stale(found.value, now, ttl);
              && existing == (if stale then None else found)
              && history == old(history) + (if stale then [Expired(found.value.run)] else [])
              && operations == (if stale then Less(old(operations), IndexOf(old(operations), key)) else old(operations))
      ensures existing.None? ==> forall i :: 0 <= i < |operations| ==> operations[i].key != key
    {
      hide Sound, CompletedCount;
      var i := IndexOf(operations, key);
      assert history + [] == history;
      if i == |operations| { return None; }
      if Stale(operations[i], now, ttl) {
        SoundParts(operations, history, maxEntries);
        Goes(operations, history, i, Expired(operations[i].run), maxEntries);
        history := history + [Expired(operations[i].run)];
        operations := operations[..i] + operations[i + 1..];
        return None;
      }
      return Some(operations[i]);
    }

    /** `set`, as the handler uses it: in the turn in which `get` found nothing. */
    method Set(key: string, fingerprint: string) returns (run: nat)
      requires Valid() && forall i :: 0 <= i < |operations| ==> operations[i].key != key
      modifies this
      ensures Valid() && run == old(runs)
      ensures operations == old(operations) + [Slot(key, run, fingerprint, None)]
      ensures history == old(history) + [Started(run, key)]
    {
      run := runs;
      OneStarts(operations, history, Slot(key, run, fingerprint, None));
      runs := runs + 1;
      operations := operations + [Slot(key, run, fingerprint, None)];
      history := history + [Started(run, key)];
    }

    /**
     Completes the run's entry, if it still is the key's entry, and evicts the oldest
     entries while there are too many. A stale completion changes nothing.
     */
    method Complete(key: string, run: nat, now: Time)
      requires Valid()
      modifies this
      ensures Valid() && runs == old(runs)
      ensures var found := Lookup(old(operations), key);
              var stale := found.None? || found.value.run != run;
              var all := if stale then old(operations) else Marked(old(operations), IndexOf(old(operations), key), now);
              && operations == (if stale then all else Newest(all, maxEntries))
              && history == old(history) + [Completed(run)] + (if stale then [] else EvictedEvents(all[..|all| - |operations|]))
    {
      hide Sound, CompletedCount, EvictedEvents, DistinctKeys, Accounted, AtMostOnce, Newest;
      var i := IndexOf(operations, key);
      if i == |operations| || operations[i].run != run {
        Same(operations, operations, history, [Completed(run)], maxEntries);
        history := history + [Completed(run)];
        assert history + [] == history;
        return;
      }
      ghost var all := Marked(operations, i, now);
      ghost var completed := history + [Completed(run)];
      SoundParts(operations, history, maxEntries);
      SameHolders(operations, all, history, [Completed(run)]);
      operations := operations[i := operations[i].(completedAt := Some(now))];
      history := completed;
      EvictOldest();
    }

    method EvictOldest()
      requires DistinctKeys(operations) && Accounted(operations, history) && AtMostOnce(history) && Numbered(history, runs)
      modifies this
      ensures Valid() && runs == old(runs)
      ensures operations == Newest(old(operations), maxEntries)
      ensures history == old(history) + EvictedEvents(old(operations)[..|old(operations)| - |operations|])
    {
      hide Sound, CompletedCount, EvictedEvents, DistinctKeys, Accounted, AtMostOnce;
      ghost var all, before := operations, history;
      ghost var gone := 0;
      NothingEvicted();
      assert all[..0] == [] && history + [] == history;
      while |operations| > maxEntries
        invariant 0 <= gone <= |all| && operations == all[gone..]
        invariant gone > 0 ==> |operations| >= maxEntries
        invariant DistinctKeys(operations) && Accounted(operations, history) && AtMostOnce(history) && Numbered(history, runs)
        invariant history == before + EvictedEvents(all[..gone])
        invariant runs == old(runs)
      {
        var oldest := operations[0];
        OneGoes(operations, history, 0, Evicted(oldest.run), maxEntries);
        assert operations[..0] + operations[1..] == all[gone + 1..] == operations[1..];
        OneMoreEvicted(all, gone, before);
        history := history + [Evicted(oldest.run)];
        operations := operations[1..];
        gone := gone + 1;
      }
      FewEnough(operations, history, maxEntries);
    }

    /** Deletes the run's entry, if it still is the key's entry: the run failed. */
    method Delete(key: string, run: nat)
      requires Valid()
      modifies this
      ensures Valid() && runs == old(runs)
      ensures history == old(history) + [Failed(run)]
      ensures var i := IndexOf(old(operations), key);
              operations == if i < |old(operations)| && old(operations)[i].run == run
                            then Less(old(operations), i) else old(operations)
    {
      hide Sound, CompletedCount;
      var i := IndexOf(operations, key);
      if i < |operations| && operations[i].run == run {
        Goes(operations, history, i, Failed(run), maxEntries);
        operations := operations[..i] + operations[i + 1..];
      } else {
        Same(operations, operations, history, [Failed(run)], maxEntries);
      }
      history := history + [Failed(run)];
    }
  }

  lemma Goes(operations: seq<Slot>, history: seq<Event>, i: nat, event: Event, maxEntries: nat)
    requires Sound(operations, history, maxEntries) && i < |operations| && Loses(event, operations[i].run)
    ensures Sound(operations[..i] + operations[i + 1..], history + [event], maxEntries)
  {
    OneGoes(operations, history, i, event, maxEntries);
  }

  lemma Same(before: seq<Slot>, after: seq<Slot>, history: seq<Event>, more: seq<Event>, maxEntries: nat)
    requires Sound(before, history, maxEntries) && before == after
    requires forall m :: 0 <= m < |more| ==> !more[m].Started?
    ensures Sound(after, history + more, maxEntries)
  {
    SameHolders(before, after, history, more);
  }

  lemma SoundParts(operations: seq<Slot>, history: seq<Event>, maxEntries: nat)
    requires Sound(operations, history, maxEntries)
    ensures DistinctKeys(operations) && Accounted(operations, history) && AtMostOnce(history)
  {}

  lemma FewEnough(operations: seq<Slot>, history: seq<Event>, maxEntries: nat)
    requires DistinctKeys(operations) && Accounted(operations, history) && AtMostOnce(history) && |operations| <= maxEntries
    ensures Sound(operations, history, maxEntries)
  {}

  lemma NothingEvicted()
    ensures EvictedEvents([]) == []
  {}

  lemma OneMoreEvicted(all: seq<Slot>, gone: nat, history: seq<Event>)
    requires gone < |all|
    ensures history + EvictedEvents(all[..gone + 1]) == history + EvictedEvents(all[..gone]) + [Evicted(all[gone].run)]
  {
    assert all[..gone + 1][..gone] == all[..gone];
  }

  // ---- The handler ----

  /** The caller gets the result of a run: its own or an earlier one's. */
  datatype Outcome = Conflict | Joined(run: nat) | Ran(run: nat)

  function Key(method': string, idempotencyKey: string): string {
    method' + ":" + idempotencyKey
  }

  /** Method names have no colon, so keys of different calls differ. */
  lemma KeyIsInjective(m: string, k: string, n: string, l: string)
    requires ':' !in m && ':' !in n
    ensures Key(m, k) == Key(n, l) ==> m == n && k == l
  {
    BeforeColonIs(m, k);
    BeforeColonIs(n, l);
    assert k == Key(m, k)[|m| + 1..] && l == Key(n, l)[|n| + 1..];
  }

  function BeforeColon(key: string): string {
    if key == "" || key[0] == ':' then "" else [key[0]] + BeforeColon(key[1..])
  }

  lemma {:induction false} BeforeColonIs(m: string, k: string)
    requires ':' !in m
    ensures BeforeColon(Key(m, k)) == m
    decreases |m|
  {
    if m != "" {
      BeforeColonIs(m[1..], k);
      assert Key(m, k)[1..] == Key(m[1..], k);
    }
  }

  lemma {:induction false} LookupAppended(operations: seq<Slot>, slot: Slot)
    requires forall i :: 0 <= i < |operations| ==> operations[i].key != slot.key
    ensures Lookup(operations + [slot], slot.key) == Some(slot)
  {
    var all := operations + [slot];
    assert all[|operations|] == slot;
    assert IndexOf(all, slot.key) == |operations|;
  }

  class ControlHandler {
    const store: IdempotencyStore

    constructor (store: IdempotencyStore)
      ensures this.store == store
    {
      this.store := store;
    }

    /** The part of a keyed call up to where it waits for a result. */
    method Call(method': string, idempotencyKey: string, fingerprint: string, now: Time) returns (outcome: Outcome)
      requires store.Valid()
      modifies store
      ensures store.Valid()
      ensures var found := Lookup(old(store.operations), Key(method', idempotencyKey));
              var live := found.Some? && !Stale(found.value, now, store.ttl);
              && (outcome.Conflict? <==> live && found.value.fingerprint != fingerprint)
              && (outcome.Joined? <==> live && found.value.fingerprint == fingerprint)
              && (outcome.Joined? ==> outcome.run == found.value.run)
      ensures !outcome.Ran? ==> store.history == old(store.history) && store.operations == old(store.operations)
      ensures var key := Key(method', idempotencyKey);
              var found := Lookup(old(store.operations), key);
              outcome.Ran? ==>
                && outcome.run == old(store.runs)
                && store.history == old(store.history) + (if found.Some? then [Expired(found.value.run)] else [])
                                    + [Started(outcome.run, key)]
                && store.operations == (if found.Some? then Less(old(store.operations), IndexOf(old(store.operations), key))
                                        else old(store.operations)) + [Slot(key, outcome.run, fingerprint, None)]
                && Lookup(store.operations, key) == Some(Slot(key, outcome.run, fingerprint, None))
    {
      hide Sound, Numbered;
      var key := Key(method', idempotencyKey);
      var existing := store.Get(key, now);
      if existing.Some? {
        assert store.history == old(store.history);
        if existing.value.fingerprint != fingerprint { return Conflict; }
        return Joined(existing.value.run);
      }
      LookupAppended(store.operations, Slot(key, store.runs, fingerprint, None));
      var run := store.Set(key, fingerprint);
      return Ran(run);
    }

    /** What the call that ran does when its promise settles. */
    method Settle(key: string, run: nat, succeeded: bool, now: Time)
      requires store.Valid()
      modifies store
      ensures store.Valid()
      ensures |store.history| > |old(store.history)| && old(store.history) <= store.history
      ensures store.history[|old(store.history)|] == if succeeded then Completed(run) else Failed(run)
      ensures forall m :: |old(store.history)| < m < |store.history| ==>
                store.history[m].Evicted? && succeeded && |old(store.operations)| > store.maxEntries
      ensures var found := Lookup(old(store.operations), key);
              found.None? || found.value.run != run ==> store.operations == old(store.operations)
    {
      if succeeded { store.Complete(key, run, now); } else { store.Delete(key, run); }
    }
  }
}
