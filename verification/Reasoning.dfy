/**
 Effort-qualified model names (packages/contracts/src/reasoning.ts): which ids are
 advertised, and which of them resolve back to what they were advertised for.

 Names are qualified with the default codec, `<base>:<effort>`.
 */
module Reasoning {
  import opened Wrappers
  import opened Utf16

  const COLON: CodeUnit := 58

  datatype EffortOption = EffortOption(id: Text, name: Option<Text>, description: Option<Text>, aliases: seq<Text>)

  datatype Status = Supported | Unsupported | Unknown

  datatype Capabilities = Capabilities(status: Status, efforts: seq<EffortOption>)

  datatype Selection = Auto | Effort(effort: Text)

  datatype Descriptor = Descriptor(id: Text, name: Text, aliases: seq<Text>)

  datatype Entry = Entry(model: Text, clientModel: Text, reasoning: Option<Capabilities>)

  datatype Variant = Variant(id: Text, model: Text, selection: Selection, effort: Option<Descriptor>)

  datatype Resolution = Resolved(model: Text, clientModel: Text, selection: Selection) | UnknownModel | UnsupportedEffort

  // ---- The codec ----

  function Qualify(base: Text, effort: Text): Text {
    base + [COLON] + effort
  }

  function EffortToken(candidate: Text, base: Text): (token: Option<Text>)
    ensures token.Some? <==> Qualify(base, []) < candidate
    ensures token.Some? ==> candidate == Qualify(base, token.value) && token.value != []
  {
    var prefix := base + [COLON];
    if !(prefix <= candidate) then None
    else
      var token := candidate[|prefix|..];
      if |token| > 0 then Some(token) else None
  }

  // ---- Efforts ----

  /** The option that a requested effort stands for: the first with that id or alias. */
  function EffortFor(options: seq<EffortOption>, requested: Text): Option<Text> {
    if options == [] then None
    else if options[0].id == requested || requested in options[0].aliases then Some(options[0].id)
    else EffortFor(options[1..], requested)
  }

  method ResolveReasoningEffort(capabilities: Capabilities, requested: Text) returns (id: Option<Text>)
    ensures id == EffortFor(capabilities.efforts, requested)
  {
    var options := capabilities.efforts;
    for k := 0 to |options|
      invariant EffortFor(options[k..], requested) == EffortFor(options, requested)
    {
      assert options[k..][1..] == options[k + 1..];
      if options[k].id == requested || requested in options[k].aliases { return Some(options[k].id); }
    }
    return None;
  }

  function Unique(aliases: seq<Text>): seq<Text> {
    if aliases == [] then []
    else
      var (rest, last) := (Unique(aliases[..|aliases| - 1]), aliases[|aliases| - 1]);
      if last == [] || last in rest then rest else rest + [last]
  }

  function DescriptorOf(option: EffortOption): Descriptor {
    Descriptor(option.id, option.description.GetOr(option.name.GetOr(option.id)), Unique(option.aliases))
  }

  predicate HasId(descriptors: seq<Descriptor>, id: Text) {
    exists i :: 0 <= i < |descriptors| && descriptors[i].id == id
  }

  /** The options with a non-empty id, each id once. */
  function DescriptorsOf(options: seq<EffortOption>): seq<Descriptor> {
    if options == [] then []
    else
      var (rest, last) := (DescriptorsOf(options[..|options| - 1]), options[|options| - 1]);
      if last.id == [] || HasId(rest, last.id) then rest else rest + [DescriptorOf(last)]
  }

  function Descriptors(capabilities: Option<Capabilities>): seq<Descriptor> {
    if capabilities.Some? && capabilities.value.status.Supported? then DescriptorsOf(capabilities.value.efforts) else []
  }

  method UniqueAliases(aliases: seq<Text>) returns (r: seq<Text>)
    ensures r == Unique(aliases)
  {
    r := [];
    for k := 0 to |aliases|
      invariant r == Unique(aliases[..k])
    {
      assert aliases[..k + 1][..k] == aliases[..k];
      if |aliases[k]| > 0 && aliases[k] !in r { r := r + [aliases[k]]; }
    }
    assert aliases[..|aliases|] == aliases;
  }

  method ReasoningEffortDescriptors(capabilities: Option<Capabilities>) returns (descriptors: seq<Descriptor>)
    ensures descriptors == Descriptors(capabilities)
  {
    if capabilities.None? || !capabilities.value.status.Supported? { return []; }
    var options := capabilities.value.efforts;
    descriptors := [];
    var seen: set<Text> := {};
    for k := 0 to |options|
      invariant descriptors == DescriptorsOf(options[..k])
      invariant forall id :: id in seen <==> HasId(descriptors, id)
    {
      assert options[..k + 1][..k] == options[..k];
      var option := options[k];
      if |option.id| > 0 && option.id !in seen {
        seen := seen + {option.id};
        var aliases := UniqueAliases(option.aliases);
        ghost var before := descriptors;
        descriptors := descriptors + [Descriptor(option.id, option.description.GetOr(option.name.GetOr(option.id)), aliases)];
        assert forall i :: 0 <= i < |before| ==> descriptors[i] == before[i];
        assert descriptors[|before|].id == option.id;
      }
    }
    assert options[..|options|] == options;
  }

  ghost predicate HasOption(options: seq<EffortOption>, id: Text) {
    exists i :: 0 <= i < |options| && options[i].id == id
  }

  lemma OneMoreId(descriptors: seq<Descriptor>, d: Descriptor, id: Text)
    ensures HasId(descriptors + [d], id) <==> HasId(descriptors, id) || d.id == id
  {
    var all := descriptors + [d];
    assert all[|descriptors|] == d;
    assert forall i :: 0 <= i < |descriptors| ==> all[i] == descriptors[i];
  }

  lemma LastOption(options: seq<EffortOption>, id: Text)
    requires options != []
    ensures HasOption(options, id) <==> HasOption(options[..|options| - 1], id) || options[|options| - 1].id == id
  {
    var init := options[..|options| - 1];
    assert forall i :: 0 <= i < |init| ==> init[i] == options[i];
  }

  /** Which ids are advertised: the non-empty ids of the options, each once. */
  lemma {:induction false} DescriptorsAre(options: seq<EffortOption>)
    ensures forall id :: HasId(DescriptorsOf(options), id) <==> id != [] && HasOption(options, id)
    ensures forall i, j :: 0 <= i < j < |DescriptorsOf(options)| ==> DescriptorsOf(options)[i].id != DescriptorsOf(options)[j].id
    decreases |options|
  {
    if options != [] {
      var (init, last) := (options[..|options| - 1], options[|options| - 1]);
      DescriptorsAre(init);
      var rest := DescriptorsOf(init);
      forall id ensures HasId(DescriptorsOf(options), id) <==> id != [] && HasOption(options, id) {
        OneMoreId(rest, DescriptorOf(last), id);
        LastOption(options, id);
      }
    }
  }

  // ---- Advertising ----

  function VariantOf(entry: Entry, effort: Descriptor): Variant {
    Variant(Qualify(entry.clientModel, effort.id), entry.model, Effort(effort.id), Some(effort))
  }

  /** The base id and one id for each effort. */
  function Variants(entry: Entry): (variants: seq<Variant>)
  {
    var efforts := Descriptors(entry.reasoning);
    [Variant(entry.clientModel, entry.model, Auto, None)]
    + seq(|efforts|, i requires 0 <= i < |efforts| => VariantOf(entry, efforts[i]))
  }

  method EnumerateModelEffortVariants(entry: Entry) returns (variants: seq<Variant>)
    ensures variants == Variants(entry)
  {
    variants := [Variant(entry.clientModel, entry.model, Auto, None)];
    var efforts := ReasoningEffortDescriptors(entry.reasoning);
    for k := 0 to |efforts|
      invariant variants == Variants(entry)[..k + 1]
    {
      variants := variants + [VariantOf(entry, efforts[k])];
    }
  }

  // ---- Collisions ----

  /** What an id stands for. */
  function Owner(v: Variant): (Text, Selection) {
    (v.model, v.selection)
  }

  function AllVariants(entries: seq<Entry>): seq<Variant> {
    if entries == [] then [] else AllVariants(entries[..|entries| - 1]) + Variants(entries[|entries| - 1])
  }

  /** Two advertised variants share the id but stand for different things. */
  ghost predicate Collides(variants: seq<Variant>, id: Text) {
    exists one, other :: one != other && OwnedBy(variants, id, one) && OwnedBy(variants, id, other)
  }

  ghost predicate NoCollisions(entries: seq<Entry>) {
    forall id :: !Collides(AllVariants(entries), id)
  }

  /** What the loop keeps: the first owner of each id, and each id that has had another. */
  ghost predicate Seen(variants: seq<Variant>, owners: map<Text, (Text, Selection)>, collisions: seq<Text>) {
    && (forall i :: 0 <= i < |variants| ==> variants[i].id in owners)
    && (forall id :: id in owners ==> OwnedBy(variants, id, owners[id]))
    && (forall id :: id in collisions <==> Collides(variants, id))
    && (forall i, j :: 0 <= i < j < |collisions| ==> collisions[i] != collisions[j])
  }

  ghost predicate OwnedBy(variants: seq<Variant>, id: Text, owner: (Text, Selection)) {
    exists i :: 0 <= i < |variants| && variants[i].id == id && Owner(variants[i]) == owner
  }

  method SeeVariant(ghost before: seq<Variant>, v: Variant, owners: map<Text, (Text, Selection)>, collisions: seq<Text>)
    returns (owners': map<Text, (Text, Selection)>, collisions': seq<Text>)
    requires Seen(before, owners, collisions)
    ensures Seen(before + [v], owners', collisions')
  {
    owners', collisions' := owners, collisions;
    if v.id !in owners {
      owners' := owners[v.id := Owner(v)];
    } else if owners[v.id] != Owner(v) && v.id !in collisions {
      collisions' := collisions + [v.id];
    }
    OneMoreVariant(before, v, owners);
  }

  lemma OneMoreOwner(before: seq<Variant>, v: Variant, id: Text, owner: (Text, Selection))
    ensures OwnedBy(before + [v], id, owner) <==> OwnedBy(before, id, owner) || (id == v.id && owner == Owner(v))
  {
    var all := before + [v];
    assert all[|before|] == v;
    if OwnedBy(before, id, owner) {
      var i :| 0 <= i < |before| && before[i].id == id && Owner(before[i]) == owner;
      assert all[i] == before[i];
    }
  }

  lemma OneMoreVariant(before: seq<Variant>, v: Variant, owners: map<Text, (Text, Selection)>)
    requires forall i :: 0 <= i < |before| ==> before[i].id in owners
    requires forall id :: id in owners ==> OwnedBy(before, id, owners[id])
    ensures forall id :: Collides(before + [v], id) <==> Collides(before, id) || (id == v.id && v.id in owners && owners[v.id] != Owner(v))
    ensures forall id, owner :: OwnedBy(before + [v], id, owner) <==> OwnedBy(before, id, owner) || (id == v.id && owner == Owner(v))
  {
    forall id, owner ensures OwnedBy(before + [v], id, owner) <==> OwnedBy(before, id, owner) || (id == v.id && owner == Owner(v)) {
      OneMoreOwner(before, v, id, owner);
    }
    assert forall id, owner :: OwnedBy(before, id, owner) ==> id in owners;
    forall id ensures Collides(before + [v], id) <==> Collides(before, id) || (id == v.id && v.id in owners && owners[v.id] != Owner(v)) {
      CollidesWith(before, v, owners, id);
    }
  }

  lemma CollidesWith(before: seq<Variant>, v: Variant, owners: map<Text, (Text, Selection)>, id: Text)
    requires forall id, owner :: OwnedBy(before + [v], id, owner) <==> OwnedBy(before, id, owner) || (id == v.id && owner == Owner(v))
    requires forall id :: id in owners ==> OwnedBy(before, id, owners[id])
    requires forall id, owner :: OwnedBy(before, id, owner) ==> id in owners
    ensures Collides(before + [v], id) <==> Collides(before, id) || (id == v.id && v.id in owners && owners[v.id] != Owner(v))
  {
    hide OwnedBy;
    if Collides(before, id) {
      var one, other :| one != other && OwnedBy(before, id, one) && OwnedBy(before, id, other);
      assert OwnedBy(before + [v], id, one) && OwnedBy(before + [v], id, other);
    } else if id == v.id && v.id in owners && owners[v.id] != Owner(v) {
      assert OwnedBy(before + [v], id, owners[id]) && OwnedBy(before + [v], id, Owner(v));
    } else if Collides(before + [v], id) {
      var one, other :| one != other && OwnedBy(before + [v], id, one) && OwnedBy(before + [v], id, other);
      OnlyOwners(before, v, owners, id, one, other);
    }
  }

  /** Of two owners of an id one was there before; if both were, the id collided, and otherwise it collides now. */
  lemma OnlyOwners(before: seq<Variant>, v: Variant, owners: map<Text, (Text, Selection)>, id: Text,
                   one: (Text, Selection), other: (Text, Selection))
    requires one != other
    requires OwnedBy(before, id, one) || (id == v.id && one == Owner(v))
    requires OwnedBy(before, id, other) || (id == v.id && other == Owner(v))
    requires forall id :: id in owners ==> OwnedBy(before, id, owners[id])
    requires forall id, owner :: OwnedBy(before, id, owner) ==> id in owners
    ensures Collides(before, id) || (id == v.id && v.id in owners && owners[v.id] != Owner(v))
  {
    hide OwnedBy;
    var old' := if OwnedBy(before, id, one) then one else other;
    assert OwnedBy(before, id, old');
    assert OwnedBy(before, id, owners[id]);
  }

  lemma NothingSeen()
    ensures Seen([], map[], [])
  {}

  method SortedCollisions(entries: seq<Entry>, ghost owners: map<Text, (Text, Selection)>, collisions: seq<Text>)
    returns (ids: seq<Text>)
    requires Seen(AllVariants(entries), owners, collisions)
    ensures forall id :: id in ids <==> Collides(AllVariants(entries), id)
    ensures StrictlySorted(ids)
    ensures ids == [] <==> NoCollisions(entries)
  {
    SortSorts(collisions);
    ids := Sort(collisions);
    assert ids != [] ==> ids[0] in ids;
  }

  method ModelEffortVariantCollisions(entries: seq<Entry>) returns (ids: seq<Text>)
    ensures forall id :: id in ids <==> Collides(AllVariants(entries), id)
    ensures StrictlySorted(ids)
    ensures ids == [] <==> NoCollisions(entries)
  {
    hide Seen, Variants;
    var owners: map<Text, (Text, Selection)> := map[];
    var collisions: seq<Text> := [];
    NothingSeen();
    assert entries[..0] == [];
    for k := 0 to |entries|
      invariant Seen(AllVariants(entries[..k]), owners, collisions)
    {
      assert entries[..k + 1][..k] == entries[..k];
      var variants := EnumerateModelEffortVariants(entries[k]);
      ghost var before := AllVariants(entries[..k]);
      assert before + variants[..0] == before;
      for j := 0 to |variants|
        invariant Seen(before + variants[..j], owners, collisions)
      {
        owners, collisions := SeeVariant(before + variants[..j], variants[j], owners, collisions);
        assert before + variants[..j] + [variants[j]] == before + variants[..j + 1];
      }
      assert variants[..|variants|] == variants;
    }
    assert entries[..|entries|] == entries;
    ids := SortedCollisions(entries, owners, collisions);
  }

  // ---- Resolving ----

  predicate Names(entry: Entry, id: Text) {
    entry.model == id || entry.clientModel == id
  }

  /** The effort token of the id over the first of the entry's bases that it qualifies. */
  function Claim(entry: Entry, id: Text): Option<Text> {
    if EffortToken(id, entry.clientModel).Some? then EffortToken(id, entry.clientModel)
    else if entry.clientModel != entry.model then EffortToken(id, entry.model)
    else None
  }

  /** What an entry that claims the id makes of it. */
  function Answer(entry: Entry, id: Text): Resolution
    requires Claim(entry, id).Some?
  {
    if entry.reasoning.None? || !entry.reasoning.value.status.Supported? then UnsupportedEffort
    else
      var effort := EffortFor(entry.reasoning.value.efforts, Claim(entry, id).value);
      if effort.None? then UnsupportedEffort else Resolved(entry.model, entry.clientModel, Effort(effort.value))
  }

  function Weight(entry: Entry): nat {
    if |entry.clientModel| >= |entry.model| then |entry.clientModel| else |entry.model|
  }

  function InsertByWeight(entry: Entry, ordered: seq<Entry>): seq<Entry> {
    if ordered == [] || Weight(entry) >= Weight(ordered[0]) then [entry] + ordered
    else [ordered[0]] + InsertByWeight(entry, ordered[1..])
  }

  /** A stable sort, heaviest first. */
  function ByWeight(entries: seq<Entry>): seq<Entry> {
    if entries == [] then [] else InsertByWeight(entries[0], ByWeight(entries[1..]))
  }

  function FirstNamed(entries: seq<Entry>, id: Text): Option<Entry> {
    if entries == [] then None else if Names(entries[0], id) then Some(entries[0]) else FirstNamed(entries[1..], id)
  }

  function FirstClaim(entries: seq<Entry>, id: Text): Option<Entry> {
    if entries == [] then None else if Claim(entries[0], id).Some? then Some(entries[0]) else FirstClaim(entries[1..], id)
  }

  function Resolve(id: Text, entries: seq<Entry>): Resolution {
    if id == [] then UnknownModel
    else
      var named := FirstNamed(entries, id);
      if named.Some? then Resolved(named.value.model, named.value.clientModel, Auto)
      else
        var claim := FirstClaim(ByWeight(entries), id);
        if claim.Some? && Claim(claim.value, id).Some? then Answer(claim.value, id) else UnknownModel
  }

  lemma {:induction false} FirstClaimClaims(entries: seq<Entry>, id: Text)
    ensures var c := FirstClaim(entries, id); c.Some? ==> c.value in entries && Claim(c.value, id).Some?
    ensures FirstClaim(entries, id).None? ==> forall e :: e in entries ==> Claim(e, id).None?
    decreases |entries|
  {
    if entries != [] {
      FirstClaimClaims(entries[1..], id);
      assert entries == [entries[0]] + entries[1..];
    }
  }

  lemma {:induction false} FirstNamedNames(entries: seq<Entry>, id: Text)
    ensures var n := FirstNamed(entries, id); n.Some? ==> n.value in entries && Names(n.value, id)
    ensures FirstNamed(entries, id).None? ==> forall e :: e in entries ==> !Names(e, id)
    decreases |entries|
  {
    if entries != [] {
      FirstNamedNames(entries[1..], id);
      assert entries == [entries[0]] + entries[1..];
    }
  }

  method ResolveModelEffortVariant(requested: Text, entries: seq<Entry>) returns (r: Resolution)
    ensures r == Resolve(requested, entries)
  {
    if |requested| == 0 { return UnknownModel; }
    for k := 0 to |entries|
      invariant FirstNamed(entries[k..], requested) == FirstNamed(entries, requested)
    {
      assert entries[k..][1..] == entries[k + 1..];
      var entry := entries[k];
      if entry.model == requested || entry.clientModel == requested {
        return Resolved(entry.model, entry.clientModel, Auto);
      }
    }
    var ordered := ByWeight(entries);
    for k := 0 to |ordered|
      invariant FirstClaim(ordered[k..], requested) == FirstClaim(ordered, requested)
    {
      assert ordered[k..][1..] == ordered[k + 1..];
      var entry := ordered[k];
      var token := ClaimedToken(entry, requested);
      if token.Some? {
        r := TokenAnswer(entry, requested, token.value);
        return;
      }
    }
    return UnknownModel;
  }

  /** The inner loop, over the bases of one entry. */
  method ClaimedToken(entry: Entry, requested: Text) returns (token: Option<Text>)
    ensures token == Claim(entry, requested)
  {
    var bases := if entry.clientModel == entry.model then [entry.clientModel] else [entry.clientModel, entry.model];
    for b := 0 to |bases|
      invariant forall i :: 0 <= i < b ==> EffortToken(requested, bases[i]).None?
    {
      token := EffortToken(requested, bases[b]);
      assert b == 1 ==> EffortToken(requested, bases[0]).None?;
      if token.Some? { return; }
    }
    assert EffortToken(requested, bases[0]).None? && EffortToken(requested, bases[|bases| - 1]).None?;
    return None;
  }

  /** The resolution of a token against one entry. */
  method TokenAnswer(entry: Entry, requested: Text, token: Text) returns (r: Resolution)
    requires Claim(entry, requested) == Some(token)
    ensures r == Answer(entry, requested)
  {
    if entry.reasoning.None? || !entry.reasoning.value.status.Supported? { return UnsupportedEffort; }
    var effort := ResolveReasoningEffort(entry.reasoning.value, token);
    if effort.Some? { return Resolved(entry.model, entry.clientModel, Effort(effort.value)); }
    return UnsupportedEffort;
  }

  // ---- Which advertised ids resolve back ----

  /** The id resolves to the model and selection it is advertised for. */
  predicate Returns(entries: seq<Entry>, v: Variant) {
    var r := Resolve(v.id, entries);
    r.Resolved? && r.model == v.model && r.selection == v.selection
  }

  ghost predicate RoundTrips(entries: seq<Entry>) {
    forall e, v :: e in entries && v in Variants(e) ==> Returns(entries, v)
  }

  /** The same catalog, in some order. */
  ghost predicate Reordered(entries: seq<Entry>, order: seq<Entry>) {
    multiset(entries) == multiset(order)
  }

  /** Of the entries that claim the id, none is heavier. */
  ghost predicate Heaviest(entries: seq<Entry>, f: Entry, id: Text) {
    && f in entries && Claim(f, id).Some?
    && forall g :: g in entries && Claim(g, id).Some? ==> Weight(g) <= Weight(f)
  }

  ghost predicate AnswersFor(f: Entry, v: Variant) {
    var r := if Claim(f, v.id).Some? then Answer(f, v.id) else UnknownModel;
    r.Resolved? && r.model == v.model && r.selection == v.selection
  }

  /**
   What must hold of the id for every order: it is not empty; a base is named only
   by entries of its model; a qualified id is nobody's base, and the heaviest of the
   entries that claim it agree with what it is advertised for.
   */
  ghost predicate Settled(entries: seq<Entry>, v: Variant) {
    && v.id != []
    && (v.selection.Auto? ==> forall f :: f in entries && Names(f, v.id) ==> f.model == v.model)
    && (v.selection.Effort? ==>
          && (forall f :: f in entries ==> !Names(f, v.id))
          && forall f :: Heaviest(entries, f, v.id) ==> AnswersFor(f, v))
  }

  lemma {:induction false} InsertedByWeight(entry: Entry, ordered: seq<Entry>)
    ensures multiset(InsertByWeight(entry, ordered)) == multiset(ordered) + multiset{entry}
    decreases |ordered|
  {
    if ordered == [] || Weight(entry) >= Weight(ordered[0]) {
    } else {
      InsertedByWeight(entry, ordered[1..]);
      assert ordered == [ordered[0]] + ordered[1..];
    }
  }

  lemma {:induction false} ByWeightReorders(entries: seq<Entry>)
    ensures Reordered(entries, ByWeight(entries))
    decreases |entries|
  {
    if entries != [] {
      ByWeightReorders(entries[1..]);
      InsertedByWeight(entries[0], ByWeight(entries[1..]));
      assert entries == [entries[0]] + entries[1..];
    }
  }

  predicate Descending(ordered: seq<Entry>) {
    forall i, j :: 0 <= i < j < |ordered| ==> Weight(ordered[i]) >= Weight(ordered[j])
  }

  lemma {:induction false} InsertDescends(entry: Entry, ordered: seq<Entry>)
    requires Descending(ordered)
    ensures Descending(InsertByWeight(entry, ordered))
    decreases |ordered|
  {
    if ordered != [] && Weight(entry) < Weight(ordered[0]) {
      var rest := InsertByWeight(entry, ordered[1..]);
      InsertDescends(entry, ordered[1..]);
      InsertedByWeight(entry, ordered[1..]);
      forall j | 0 <= j < |rest| ensures Weight(ordered[0]) >= Weight(rest[j]) {
        assert rest[j] in multiset(rest);
        assert rest[j] == entry || rest[j] in ordered[1..];
      }
    }
  }

  lemma {:induction false} ByWeightDescends(entries: seq<Entry>)
    ensures Descending(ByWeight(entries))
    decreases |entries|
  {
    if entries != [] {
      ByWeightDescends(entries[1..]);
      InsertDescends(entries[0], ByWeight(entries[1..]));
    }
  }

  lemma {:induction false} FirstClaimIsHeaviest(ordered: seq<Entry>, id: Text)
    requires Descending(ordered) && FirstClaim(ordered, id).Some?
    ensures Heaviest(ordered, FirstClaim(ordered, id).value, id)
    decreases |ordered|
  {
    FirstClaimClaims(ordered, id);
    if Claim(ordered[0], id).None? {
      FirstClaimIsHeaviest(ordered[1..], id);
      assert ordered == [ordered[0]] + ordered[1..];
    }
  }

  /** An entry that is inserted before no heavier claim is the first claim. */
  lemma {:induction false} InsertedClaims(entry: Entry, ordered: seq<Entry>, id: Text)
    requires Claim(entry, id).Some?
    requires forall g :: g in ordered && Claim(g, id).Some? ==> Weight(g) <= Weight(entry)
    ensures FirstClaim(InsertByWeight(entry, ordered), id) == Some(entry)
    decreases |ordered|
  {
    if ordered != [] && Weight(entry) < Weight(ordered[0]) {
      assert ordered[0] in ordered;
      InsertedClaims(entry, ordered[1..], id);
    }
  }

  lemma SameMembers(entries: seq<Entry>, order: seq<Entry>)
    requires Reordered(entries, order)
    ensures forall e :: e in entries <==> e in order
  {
    assert forall e :: e in entries <==> e in multiset(entries);
    assert forall e :: e in order <==> e in multiset(order);
  }

  /** The entry that decides a qualified id is a heaviest claim. */
  lemma HeaviestDecides(entries: seq<Entry>, id: Text)
    requires id != [] && forall f :: f in entries ==> !Names(f, id)
    ensures (forall f :: f in entries ==> Claim(f, id).None?) ==> Resolve(id, entries) == UnknownModel
    ensures (exists f :: f in entries && Claim(f, id).Some?) ==>
              exists f :: Heaviest(entries, f, id) && Resolve(id, entries) == Answer(f, id)
  {
    var ordered := ByWeight(entries);
    FirstNamedNames(entries, id);
    ByWeightReorders(entries);
    ByWeightDescends(entries);
    SameMembers(entries, ordered);
    FirstClaimClaims(ordered, id);
    if FirstClaim(ordered, id).Some? {
      FirstClaimIsHeaviest(ordered, id);
      assert Heaviest(entries, FirstClaim(ordered, id).value, id);
    }
  }

  /** The first entry of the catalog decides an id that it names, and one that it claims with the greatest weight. */
  lemma FrontDecides(order: seq<Entry>, id: Text)
    requires order != [] && id != []
    ensures Names(order[0], id) ==> Resolve(id, order) == Resolved(order[0].model, order[0].clientModel, Auto)
    ensures Heaviest(order, order[0], id) && (forall f :: f in order ==> !Names(f, id)) ==> Resolve(id, order) == Answer(order[0], id)
  {
    if Heaviest(order, order[0], id) && forall f :: f in order ==> !Names(f, id) {
      var rest := ByWeight(order[1..]);
      FirstNamedNames(order, id);
      ByWeightReorders(order[1..]);
      SameMembers(order[1..], rest);
      InsertedClaims(order[0], rest, id);
    }
  }

  lemma ToFront(entries: seq<Entry>, f: Entry) returns (order: seq<Entry>)
    requires f in entries
    ensures Reordered(entries, order) && order != [] && order[0] == f
  {
    var i :| 0 <= i < |entries| && entries[i] == f;
    order := [f] + entries[..i] + entries[i + 1..];
    assert entries == entries[..i] + [f] + entries[i + 1..];
  }

  lemma SettledReturns(entries: seq<Entry>, order: seq<Entry>, e: Entry, v: Variant)
    requires Reordered(entries, order) && e in entries && v in Variants(e) && Settled(entries, v)
    ensures Returns(order, v)
  {
    SameMembers(entries, order);
    FirstNamedNames(order, v.id);
    VariantClaims(e, v);
    if v.selection.Effort? {
      HeaviestDecides(order, v.id);
      assert Claim(e, v.id).Some?;
      var f :| Heaviest(order, f, v.id) && Resolve(v.id, order) == Answer(f, v.id);
      assert Heaviest(entries, f, v.id);
    }
  }

  /** An entry names its base id and claims its qualified ids, with the efforts as tokens. */
  lemma VariantClaims(e: Entry, v: Variant)
    requires v in Variants(e)
    ensures v.model == e.model
    ensures v.selection.Auto? ==> v.id == e.clientModel && Names(e, v.id)
    ensures v.selection.Effort? ==> v.id == Qualify(e.clientModel, v.selection.effort) && Claim(e, v.id) == Some(v.selection.effort)
    ensures v.selection.Effort? ==> e.reasoning.Some? && e.reasoning.value.status.Supported? && HasOption(e.reasoning.value.efforts, v.selection.effort)
  {
    if v.selection.Effort? {
      var options := e.reasoning.value.efforts;
      DescriptorsAre(options);
      var efforts := Descriptors(e.reasoning);
      var i :| 0 <= i < |efforts| && v == VariantOf(e, efforts[i]);
      assert HasId(efforts, efforts[i].id);
      assert v.id[|e.clientModel| + 1..] == v.selection.effort;
    }
  }

  lemma ReturnsSettles(entries: seq<Entry>, e: Entry, v: Variant)
    requires e in entries && v in Variants(e)
    requires forall order :: Reordered(entries, order) ==> Returns(order, v)
    ensures Settled(entries, v)
  {
    assert Reordered(entries, entries);
    forall f | f in entries && Names(f, v.id) ensures f.model == v.model && v.selection.Auto? {
      var order := ToFront(entries, f);
      FrontDecides(order, v.id);
    }
    if v.selection.Effort? {
      forall f | Heaviest(entries, f, v.id) ensures AnswersFor(f, v) {
        var order := ToFront(entries, f);
        SameMembers(entries, order);
        FrontDecides(order, v.id);
        assert Heaviest(order, f, v.id);
      }
    }
  }

  ghost predicate AllSettled(entries: seq<Entry>) {
    forall e, v :: e in entries && v in Variants(e) ==> Settled(entries, v)
  }

  ghost predicate AlwaysRoundTrips(entries: seq<Entry>) {
    forall order :: Reordered(entries, order) ==> RoundTrips(order)
  }

  /** Main result: every advertised id resolves back, in every order of the catalog, if and only if every id is settled. */
  lemma RoundTripsInEveryOrder(entries: seq<Entry>)
    ensures AlwaysRoundTrips(entries) <==> AllSettled(entries)
  {
    hide Settled, Returns;
    if AllSettled(entries) {
      forall order | Reordered(entries, order) ensures RoundTrips(order) {
        SameMembers(entries, order);
        forall e, v | e in order && v in Variants(e) ensures Returns(order, v) {
          SettledReturns(entries, order, e, v);
        }
      }
    }
    if AlwaysRoundTrips(entries) {
      forall e, v | e in entries && v in Variants(e) ensures Settled(entries, v) {
        forall order | Reordered(entries, order) ensures Returns(order, v) {
          SameMembers(entries, order);
          assert RoundTrips(order);
        }
        ReturnsSettles(entries, e, v);
      }
    }
  }

  // ---- Conditions on the catalog alone ----

  /** The base is a proper part, up to a colon, of the other text. */
  predicate Extends(text: Text, base: Text) {
    Qualify(base, []) <= text
  }

  /**
   No entry is named by another's base, none has a base that is a qualified id, and
   no base of one extends a base of another by a colon.
   */
  ghost predicate Separate(entries: seq<Entry>) {
    && (forall e :: e in entries ==> e.clientModel != [])
    && (forall e, f :: e in entries && f in entries && Names(f, e.clientModel) ==> f == e)
    && (forall e, f, v :: e in entries && f in entries && v in Variants(e) && v.selection.Effort? ==> !Names(f, v.id))
    && (forall e, f :: e in entries && f in entries && e != f ==> Unrelated(e.clientModel, f.clientModel) && Unrelated(e.clientModel, f.model))
  }

  predicate Unrelated(base: Text, other: Text) {
    !Extends(base, other) && !Extends(other, base)
  }

  /** No alias of an option is the id of a later one. */
  predicate NoShadowing(entry: Entry) {
    entry.reasoning.Some? ==> forall i, j :: 0 <= i < j < |entry.reasoning.value.efforts| ==>
      entry.reasoning.value.efforts[j].id !in entry.reasoning.value.efforts[i].aliases
  }

  lemma {:induction false} EffortIsItself(options: seq<EffortOption>, id: Text)
    requires HasOption(options, id)
    requires forall i, j :: 0 <= i < j < |options| ==> options[j].id !in options[i].aliases
    ensures EffortFor(options, id) == Some(id)
    decreases |options|
  {
    if options[0].id != id {
      var k :| 0 <= k < |options| && options[k].id == id;
      assert options[1..][k - 1].id == id;
      EffortIsItself(options[1..], id);
    }
  }

  /** A base that a qualified id has as well is the id's own base or related to it. */
  lemma SharedPrefix(base: Text, effort: Text, other: Text)
    ensures EffortToken(Qualify(base, effort), other).Some? ==> base == other || !Unrelated(base, other)
  {
    var id := Qualify(base, effort);
    if EffortToken(id, other).Some? {
      assert other == id[..|other|] && id[|other|] == COLON && base == id[..|base|];
      if |other| < |base| {
        assert Qualify(other, []) == id[..|other| + 1];
      } else if |base| < |other| {
        assert Qualify(base, []) == id[..|base| + 1];
      }
    }
  }

  /** These conditions are enough. */
  lemma SeparateRoundTrips(entries: seq<Entry>)
    requires Separate(entries) && forall e :: e in entries ==> NoShadowing(e)
    ensures AlwaysRoundTrips(entries)
  {
    forall e, v | e in entries && v in Variants(e) ensures Settled(entries, v) {
      SeparateSettles(entries, e, v);
    }
    RoundTripsInEveryOrder(entries);
  }

  lemma OnlyOwnClaims(entries: seq<Entry>, e: Entry, f: Entry, effort: Text)
    requires Separate(entries) && e in entries && f in entries && f != e
    ensures Claim(f, Qualify(e.clientModel, effort)).None?
  {
    hide EffortToken, Unrelated, Qualify;
    SharedPrefix(e.clientModel, effort, f.clientModel);
    SharedPrefix(e.clientModel, effort, f.model);
    assert !Names(f, e.clientModel);
  }

  lemma SeparateSettles(entries: seq<Entry>, e: Entry, v: Variant)
    requires Separate(entries) && NoShadowing(e)
    requires e in entries && v in Variants(e)
    ensures Settled(entries, v)
  {
    hide Variants, EffortToken, Unrelated, Claim, Answer;
    VariantClaims(e, v);
    if v.selection.Effort? {
      EffortIsItself(e.reasoning.value.efforts, v.selection.effort);
      forall f | f in entries && f != e ensures Claim(f, v.id).None? {
        OnlyOwnClaims(entries, e, f, v.selection.effort);
      }
      assert AnswersFor(e, v) by { OwnAnswer(e, v); }
    }
  }

  lemma OwnAnswer(e: Entry, v: Variant)
    requires v.model == e.model && v.selection.Effort? && Claim(e, v.id) == Some(v.selection.effort)
    requires e.reasoning.Some? && e.reasoning.value.status.Supported?
    requires EffortFor(e.reasoning.value.efforts, v.selection.effort) == Some(v.selection.effort)
    ensures AnswersFor(e, v)
  {}

  /**
   A catalog without collisions need not round trip: entries are ordered by the
   longer of their two names, so an entry with a long served name can claim an id
   through a short base, before the entry that advertised it.
   */
  lemma NoCollisionsIsNotEnough()
    ensures exists entries :: NoCollisions(entries) && !RoundTrips(entries)
  {
    var entries := Example();
    NoCollision();
    NotReturned();
    VariantsOfExample();
    var v := Variants(entries[1])[1];
    assert !Returns(entries, v) by {
      assert v.id == [LETTER_A, COLON, LETTER_B, COLON, LETTER_B];
    }
    assert entries[1] in entries && v in Variants(entries[1]);
    assert NoCollisions(entries) && !RoundTrips(entries);
  }

  const LETTER_A: CodeUnit := 97
  const LETTER_B: CodeUnit := 98

  /** `a`, served under a longer name, and `a:b` with one effort `b`. */
  function Example(): seq<Entry> {
    var (a, b) := (LETTER_A, LETTER_B);
    var option := EffortOption([b], None, None, []);
    [Entry([a, a, a, a, a], [a], None), Entry([a, COLON, b], [a, COLON, b], Some(Capabilities(Supported, [option])))]
  }

  lemma VariantsOfExample()
    ensures |Variants(Example()[0])| == 1 && Variants(Example()[0])[0].id == [LETTER_A]
    ensures |Variants(Example()[1])| == 2
    ensures Variants(Example()[1])[0].id == [LETTER_A, COLON, LETTER_B]
    ensures Variants(Example()[1])[1].id == [LETTER_A, COLON, LETTER_B, COLON, LETTER_B]
    ensures Variants(Example()[1])[1].selection == Effort([LETTER_B])
  {
    var options := Example()[1].reasoning.value.efforts;
    assert options[..0] == [];
    assert DescriptorsOf(options[..0]) == [];
    assert DescriptorsOf(options) == [DescriptorOf(options[0])];
    assert Qualify([LETTER_A, COLON, LETTER_B], [LETTER_B]) == [LETTER_A, COLON, LETTER_B, COLON, LETTER_B];
  }

  lemma NoCollision()
    ensures NoCollisions(Example())
  {
    var entries := Example();
    VariantsOfExample();
    assert entries[..1] == [entries[0]] && entries[..1][..0] == [];
    assert AllVariants(entries[..1]) == [] + Variants(entries[0]);
    var all := AllVariants(entries);
    assert all == Variants(entries[0]) + Variants(entries[1]);
    assert all[0].id == [LETTER_A] && all[1].id == Variants(entries[1])[0].id && all[2].id == Variants(entries[1])[1].id;
    assert forall i, j :: 0 <= i < j < 3 ==> |all[i].id| < |all[j].id|;
    forall id, one, other | OwnedBy(all, id, one) && OwnedBy(all, id, other) ensures one == other {
      OneOwner(all, id, one, other);
    }
  }

  lemma OneOwner(variants: seq<Variant>, id: Text, one: (Text, Selection), other: (Text, Selection))
    requires forall i, j :: 0 <= i < j < |variants| ==> |variants[i].id| < |variants[j].id|
    requires OwnedBy(variants, id, one) && OwnedBy(variants, id, other)
    ensures one == other
  {
    var i :| 0 <= i < |variants| && variants[i].id == id && Owner(variants[i]) == one;
    var j :| 0 <= j < |variants| && variants[j].id == id && Owner(variants[j]) == other;
  }

  /** The first entry claims `a:b:b` for the effort `b:b`, which it does not have. */
  lemma NotReturned()
    ensures Resolve([LETTER_A, COLON, LETTER_B, COLON, LETTER_B], Example()) == UnsupportedEffort
  {
    var entries := Example();
    var id: Text := [LETTER_A, COLON, LETTER_B, COLON, LETTER_B];
    assert Claim(entries[0], id).Some? by {
      assert EffortToken(id, [LETTER_A]).Some? by { assert [LETTER_A] + [COLON] == id[..2]; }
    }
    FirstNamedNames(entries, id);
    var rest := ByWeight(entries[1..]);
    assert entries[1..] == [entries[1]];
    ByWeightReorders(entries[1..]);
    SameMembers(entries[1..], rest);
    InsertedClaims(entries[0], rest, id);
  }
}
