/**
 Live attempts of accounts (packages/accounts/src/activity.ts): entry objects that
 attempts keep hold of while accounts are renamed, removed and reloaded.
 */
module Activity {
  import opened Wrappers

  type Time = real

  datatype Selected = Selected(at: Time, sequence: nat)

  class ActivityEntry {
    var inFlight: int
    var selected: Option<Selected>

    constructor (selected: Option<Selected>)
      ensures inFlight == 0 && this.selected == selected
    {
      inFlight := 0;
      this.selected := selected;
    }
  }

  /** The closure that ends an attempt, with the entry object that it holds. */
  class Attempt {
    const entry: ActivityEntry
    var released: bool

    constructor (entry: ActivityEntry)
      ensures this.entry == entry && !released
    {
      this.entry := entry;
      released := false;
    }
  }

  /** Those of the live attempts that are on the entry object. */
  ghost function On(live: set<Attempt>, entry: ActivityEntry): set<Attempt> {
    set a | a in live && a.entry == entry
  }

  /** Every entry object counts exactly the live attempts on it. */
  ghost predicate Counted(live: set<Attempt>, objects: set<ActivityEntry>)
    reads objects
  {
    forall e :: e in objects ==> e.inFlight == |On(live, e)|
  }

  /** An attempt is on one entry object only. */
  lemma OnOne(live: set<Attempt>, a: Attempt, e: ActivityEntry, f: ActivityEntry)
    requires a in On(live, e) && a in On(live, f)
    ensures e == f
  {}

  lemma OnMore(live: set<Attempt>, a: Attempt, e: ActivityEntry)
    requires a !in live
    ensures |On(live + {a}, e)| == |On(live, e)| + if a.entry == e then 1 else 0
  {
    assert On(live + {a}, e) == On(live, e) + if a.entry == e then {a} else {};
  }

  lemma OnLess(live: set<Attempt>, a: Attempt, e: ActivityEntry)
    requires a in live
    ensures |On(live - {a}, e)| == |On(live, e)| - if a.entry == e then 1 else 0
  {
    assert On(live - {a}, e) == On(live, e) - if a.entry == e then {a} else {};
  }

  predicate Later(s: Selected, than: Selected) {
    s.at > than.at || (s.at == than.at && s.sequence > than.sequence)
  }

  datatype Snapshot = Snapshot(serving: bool, inFlight: int, lastSelected: bool)

  class AccountActivityCoordinator {
    var entries: map<string, ActivityEntry>
    var sequence: nat
    var closed: bool
    /** All attempts that have begun, those that have not been released, and all entry objects that there have been. */
    ghost var attempts: set<Attempt>
    ghost var live: set<Attempt>
    ghost var objects: set<ActivityEntry>

    ghost predicate Valid()
      reads this, objects, attempts
    {
      && Mapped(entries, objects)
      && live <= attempts && (forall a :: a in attempts ==> a.entry in objects && (a.released <==> a !in live))
      && Counted(live, objects)
      && Numbered(entries, objects, sequence)
    }

    constructor ()
      ensures Valid() && entries == map[] && attempts == {} && objects == {} && !closed && sequence == 0
    {
      entries, sequence, closed, attempts, live, objects := map[], 0, false, {}, {}, {};
    }

    /** A new entry object, which no attempt is on. */
    method NewEntry(selected: Option<Selected>) returns (entry: ActivityEntry)
      requires Valid()
      modifies `objects
      ensures Valid() && fresh(entry) && entry !in old(objects) && objects == old(objects) + {entry}
      ensures entry.selected == selected && entry.inFlight == 0
    {
      entry := new ActivityEntry(selected);
      assert On(live, entry) == {};
      objects := objects + {entry};
    }

    /** The account's entry, which is made if there is none. */
    method EntryOf(identity: string) returns (entry: ActivityEntry)
      requires Valid()
      modifies `objects, `entries
      ensures Valid() && entry in objects && entries == old(entries)[identity := entry]
      ensures identity in old(entries) ==> entry == old(entries)[identity] && objects == old(objects)
      ensures identity !in old(entries) ==> fresh(entry) && objects == old(objects) + {entry}
    {
      if identity in entries {
        entry := entries[identity];
        assert entries == entries[identity := entry];
      } else {
        entry := NewEntry(None);
        entries := entries[identity := entry];
      }
    }

    method BeginAttempt(identity: string, now: Time) returns (r: Result<Attempt>)
      requires Valid()
      modifies this, objects
      ensures Valid()
      ensures r.Err? <==> old(closed)
      ensures r.Err? ==> entries == old(entries) && live == old(live) && attempts == old(attempts)
      ensures r.Ok? ==>
                && fresh(r.value) && live == old(live) + {r.value} && attempts == old(attempts) + {r.value}
                && !r.value.released && sequence == old(sequence) + 1
                && entries == old(entries)[identity := r.value.entry]
                && (identity in old(entries) ==> r.value.entry == old(entries)[identity])
                && r.value.entry.selected == Some(Selected(now, sequence))
      ensures forall e :: e in old(objects) && (r.Ok? ==> e != r.value.entry) ==> e.inFlight == old(e.inFlight) && e.selected == old(e.selected)
      ensures r.Ok? && old(NoneAfter(entries, objects, now)) ==> IsOnlyLatest(entries, objects, identity)
    {
      if closed { return Err("account activity coordinator is closed"); }
      var entry := EntryOf(identity);
      var a := Start(entry, now);
      r := Ok(a);
    }

    /** Counts one more attempt on the entry and makes it the one selected last. */
    method Start(entry: ActivityEntry, now: Time) returns (a: Attempt)
      requires Valid() && entry in objects
      modifies entry, `sequence, `attempts, `live
      ensures Valid() && fresh(a) && a.entry == entry && !a.released
      ensures live == old(live) + {a} && attempts == old(attempts) + {a} && sequence == old(sequence) + 1
      ensures entry.selected == Some(Selected(now, sequence)) && entry.inFlight == old(entry.inFlight) + 1
    {
      hide Mapped;
      entry.inFlight := entry.inFlight + 1;
      sequence := sequence + 1;
      entry.selected := Some(Selected(now, sequence));
      a := new Attempt(entry);
      forall e ensures |On(live + {a}, e)| == |On(live, e)| + if entry == e then 1 else 0 { OnMore(live, a, e); }
      attempts := attempts + {a};
      live := live + {a};
    }

    /** Calling the closure. The clamp never decides. */
    method Release(a: Attempt)
      requires Valid() && a in attempts
      modifies a, a.entry, `live
      ensures Valid() && a.released && live == old(live) - {a}
      ensures a.entry.inFlight == old(a.entry.inFlight) - (if old(a.released) then 0 else 1)
      ensures !old(a.released) ==> old(a.entry.inFlight) > 0
      ensures a.entry.selected == old(a.entry.selected)
    {
      if a.released {
        assert live - {a} == live;
        return;
      }
      forall e ensures |On(live - {a}, e)| == |On(live, e)| - if a.entry == e then 1 else 0 { OnLess(live, a, e); }
      assert a.entry.inFlight == |On(live, a.entry)|;
      a.released := true;
      live := live - {a};
      a.entry.inFlight := if a.entry.inFlight - 1 > 0 then a.entry.inFlight - 1 else 0;
    }

    /** A closed coordinator counts down but starts nothing. */
    method Close()
      requires Valid()
      modifies `closed
      ensures Valid() && closed
    {
      closed := true;
    }

    /** The identity that was selected last, if any was. */
    method LatestIdentity() returns (latest: Option<string>)
      requires Valid()
      ensures latest.Some? ==> IsLatest(entries, objects, latest.value)
      ensures latest.None? ==> forall id :: id in entries ==> entries[id].selected.None?
    {
      latest := None;
      var rest := entries.Keys;
      while rest != {}
        invariant rest <= entries.Keys
        invariant latest.Some? ==> latest.value in entries && entries[latest.value].selected.Some?
        invariant forall id :: id in entries && id !in rest && entries[id].selected.Some? ==>
                    latest.Some? && !Later(entries[id].selected.value, entries[latest.value].selected.value)
        decreases |rest|
      {
        var id :| id in rest;
        rest := rest - {id};
        var entry := entries[id];
        if entry.selected.Some? && (latest.None? || Later(entry.selected.value, entries[latest.value].selected.value)) {
          latest := Some(id);
        }
      }
    }

    /** The count is that of the account's live attempts, and the account whose attempt began last is the last selected one. */
    method TakeSnapshot(identity: string) returns (s: Snapshot)
      requires Valid()
      ensures s.inFlight == if identity in entries then |On(live, entries[identity])| else 0
      ensures s.serving <==> identity in entries && On(live, entries[identity]) != {}
      ensures s.lastSelected ==> IsLatest(entries, objects, identity)
      ensures IsOnlyLatest(entries, objects, identity) ==> s.lastSelected
    {
      var latest := LatestIdentity();
      var inFlight := 0;
      if identity in entries { inFlight := entries[identity].inFlight; }
      s := Snapshot(inFlight > 0, inFlight, latest == Some(identity));
    }

    /** The attempts of the source go with it; those of a stale target are counted on its object, out of sight. */
    method Rename(source: string, target: string)
      requires Valid()
      modifies `entries
      ensures Valid()
      ensures entries == if source == target then old(entries) else Moved(old(entries), source, target)
    {
      if source == target { return; }
      entries := Moved(entries, source, target);
    }

    method Remove(identity: string)
      requires Valid()
      modifies `entries
      ensures Valid() && entries == old(entries) - {identity}
    {
      if identity !in entries {
        assert entries - {identity} == entries;
        return;
      }
      entries := entries - {identity};
    }

    /** The entries of a file: new objects without attempts. */
    method LoadEntries(durable: map<string, Selected>) returns (loaded: map<string, ActivityEntry>)
      requires Valid()
      modifies `objects
      ensures Valid() && objects >= old(objects) && fresh(objects - old(objects)) && Mapped(entries, old(objects))
      ensures loaded.Keys == durable.Keys && Mapped(loaded, objects - old(objects))
      ensures forall id :: id in durable ==> loaded[id].selected == Some(durable[id])
    {
      hide Counted, Numbered;
      loaded := map[];
      var rest := durable.Keys;
      while rest != {}
        invariant rest <= durable.Keys && loaded.Keys == durable.Keys - rest
        invariant Valid() && objects >= old(objects) && fresh(objects - old(objects)) && Mapped(loaded, objects - old(objects))
        invariant forall id :: id in loaded ==> loaded[id].selected == Some(durable[id])
        decreases |rest|
      {
        var id :| id in rest;
        rest := rest - {id};
        var entry := NewEntry(Some(durable[id]));
        loaded := loaded[id := entry];
      }
    }

    /** Reading the file anew. An account with live attempts keeps its object, whatever the file says. */
    method Reload(durable: map<string, Selected>, durableSequence: nat)
      requires Valid() && forall id :: id in durable ==> durable[id].sequence <= durableSequence
      modifies this, objects
      ensures Valid() && live == old(live) && attempts == old(attempts)
      ensures forall id :: id in entries <==> id in durable || (id in old(entries) && On(live, old(entries)[id]) != {})
      ensures forall id :: id in old(entries) && On(live, old(entries)[id]) != {} ==> entries[id] == old(entries)[id]
      ensures forall id :: id in durable ==> entries[id].selected == Some(durable[id])
      ensures sequence >= old(sequence) && sequence >= durableSequence
    {
      hide Mapped;
      ghost var before := objects;
      var loaded := LoadEntries(durable);
      var kept := Merge(loaded, durable, before);
      sequence := if durableSequence > sequence then durableSequence else sequence;
    }

    /** Puts the kept accounts' objects in place of the loaded ones. */
    method Merge(loaded: map<string, ActivityEntry>, durable: map<string, Selected>, ghost before: set<ActivityEntry>)
      returns (kept: set<string>)
      requires Valid() && before <= objects && Mapped(entries, before)
      requires loaded.Keys == durable.Keys && Mapped(loaded, objects - before)
      requires forall id :: id in durable ==> loaded[id].selected == Some(durable[id])
      modifies before`selected, `entries
      ensures Mapped(entries, objects) && kept <= old(entries).Keys && entries == Merged(loaded, old(entries), kept)
      ensures forall id :: id in kept <==> id in old(entries) && On(live, old(entries)[id]) != {}
      ensures forall id :: id in entries ==>
                entries[id].selected == if id in durable then Some(durable[id]) else old(if id in entries then entries[id].selected else None)
    {
      hide Counted, Numbered;
      ServingIsLive();
      kept := KeepLive(durable, before);
      MergedMapped(loaded, entries, objects, before, kept);
      forall id | id in loaded && id !in kept ensures loaded[id].selected == Some(durable[id]) {
        assert loaded[id] in objects - before;
      }
      entries := Merged(loaded, entries, kept);
    }

    lemma ServingIsLive()
      requires Valid()
      ensures forall id :: id in entries ==> (entries[id].inFlight > 0 <==> On(live, entries[id]) != {})
    {}

    /** The accounts with live attempts; their objects take over what the file says. */
    method KeepLive(durable: map<string, Selected>, ghost before: set<ActivityEntry>) returns (kept: set<string>)
      requires Mapped(entries, before)
      modifies before`selected
      ensures forall id :: id in kept <==> id in entries && entries[id].inFlight > 0
      ensures forall id :: id in kept && id in durable ==> entries[id].selected == Some(durable[id])
      ensures forall id :: id in kept && id !in durable ==> entries[id].selected == old(entries[id].selected)
    {
      kept := {};
      var rest := entries.Keys;
      while rest != {}
        invariant rest <= entries.Keys
        invariant forall id :: id in kept <==> id in entries && id !in rest && entries[id].inFlight > 0
        invariant forall id :: id in entries && id !in kept ==> entries[id].selected == old(entries[id].selected)
        invariant forall id :: id in kept ==>
                    entries[id].selected == if id in durable then Some(durable[id]) else old(entries[id].selected)
        decreases |rest|
      {
        var id :| id in rest;
        rest := rest - {id};
        var previous := entries[id];
        if previous.inFlight > 0 {
          if id in durable { previous.selected := Some(durable[id]); }
          kept := kept + {id};
        }
      }
    }
  }

  /** The loaded entries, with the kept accounts' objects in place of theirs. */
  function Merged(loaded: map<string, ActivityEntry>, entries: map<string, ActivityEntry>,
                  kept: set<string>): map<string, ActivityEntry>
    requires kept <= entries.Keys
  {
    loaded + map id | id in kept :: entries[id]
  }

  /** Different accounts have different entry objects. */
  ghost predicate Mapped(entries: map<string, ActivityEntry>, objects: set<ActivityEntry>) {
    && (forall id :: id in entries ==> entries[id] in objects)
    && forall i, j :: i in entries && j in entries && i != j ==> entries[i] != entries[j]
  }

  /** No entry has a sequence number that has yet to be given. */
  ghost predicate Numbered(entries: map<string, ActivityEntry>, objects: set<ActivityEntry>, sequence: nat)
    requires Mapped(entries, objects)
    reads objects
  {
    forall id :: id in entries && entries[id].selected.Some? ==> entries[id].selected.value.sequence <= sequence
  }

  ghost predicate NoneAfter(entries: map<string, ActivityEntry>, objects: set<ActivityEntry>, now: Time)
    requires Mapped(entries, objects)
    reads objects
  {
    forall id :: id in entries && entries[id].selected.Some? ==> entries[id].selected.value.at <= now
  }

  /** No account was selected later. */
  ghost predicate IsLatest(entries: map<string, ActivityEntry>, objects: set<ActivityEntry>, id: string)
    requires Mapped(entries, objects)
    reads objects
  {
    && id in entries && entries[id].selected.Some?
    && forall other :: other in entries && entries[other].selected.Some? ==>
         !Later(entries[other].selected.value, entries[id].selected.value)
  }

  /** Every other account was selected earlier. */
  ghost predicate IsOnlyLatest(entries: map<string, ActivityEntry>, objects: set<ActivityEntry>, id: string)
    requires Mapped(entries, objects)
    reads objects
  {
    && id in entries && entries[id].selected.Some?
    && forall other :: other in entries && other != id && entries[other].selected.Some? ==>
         Later(entries[id].selected.value, entries[other].selected.value)
  }

  function Moved(entries: map<string, ActivityEntry>, source: string, target: string): map<string, ActivityEntry> {
    var rest := entries - {source, target};
    if source in entries then rest[target := entries[source]] else rest
  }

  lemma MergedMapped(loaded: map<string, ActivityEntry>, entries: map<string, ActivityEntry>,
                     objects: set<ActivityEntry>,
                     before: set<ActivityEntry>, kept: set<string>)
    requires before <= objects && Mapped(loaded, objects - before) && Mapped(entries, before) && kept <= entries.Keys
    ensures Mapped(Merged(loaded, entries, kept), objects)
  {
    var merged := Merged(loaded, entries, kept);
    forall i, j | i in merged && j in merged && i != j ensures merged[i] != merged[j] {
      assert i in kept ==> merged[i] in before;
      assert i !in kept ==> merged[i] in objects - before;
      assert j in kept ==> merged[j] in before;
      assert j !in kept ==> merged[j] in objects - before;
    }
  }
}
