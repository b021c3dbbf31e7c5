/**
 Canonical JSON (packages/contracts/src/jcs.ts; RFC 8785): two values have the
 same text exactly when they mean the same JSON value.
 */
module Jcs {
  import opened Wrappers
  import opened Utf16
  import opened JcsText

  // ---- Values and their meaning ----

  /** A JavaScript value. An array item is None where the array has a hole; an object lists its own members in order. */
  datatype Value =
    | Null
    | Undefined
    | Bool(b: bool)
    | Num(x: Number)
    | Str(s: Text)
    | Array(items: seq<Option<Value>>)
    | Object(members: seq<Member>)
    | Other(typeName: string)

  datatype Member = Member(key: Text, value: Value)

  /** A JSON value, whose objects have no order. */
  datatype Json = JNull | JBool(b: bool) | JNumber(x: Number) | JString(s: Text) | JArray(items: seq<Json>) | JObject(members: map<Text, Json>)

  ghost predicate DistinctKeys(members: seq<Member>) {
    forall i, j :: 0 <= i < j < |members| ==> members[i].key != members[j].key
  }

  /** What every JavaScript value satisfies: numbers are doubles and member keys are distinct. */
  ghost predicate Valid(v: Value) {
    match v
    case Num(x) => ValidNumber(x)
    case Array(items) => forall i :: 0 <= i < |items| ==> items[i].None? || Valid(items[i].value)
    case Object(members) => DistinctKeys(members) && forall i :: 0 <= i < |members| ==> Valid(members[i].value)
    case _ => true
  }

  /** JSON can represent the value; undefined stands for null in an array and for nothing in an object. */
  ghost predicate Representable(v: Value) {
    match v
    case Null => true
    case Bool(_) => true
    case Str(_) => true
    case Num(x) => x.Zero? || x.Finite?
    case Array(items) => forall i :: 0 <= i < |items| ==> RepresentableItem(items[i])
    case Object(members) => forall i :: 0 <= i < |members| ==> members[i].value.Undefined? || Representable(members[i].value)
    case _ => false
  }

  ghost predicate RepresentableItem(item: Option<Value>) {
    item.None? || item.value.Undefined? || Representable(item.value)
  }

  /** No array in the value has a hole. */
  ghost predicate Dense(v: Value) {
    match v
    case Array(items) => forall i :: 0 <= i < |items| ==> items[i].Some? && Dense(items[i].value)
    case Object(members) => forall i :: 0 <= i < |members| ==> Dense(members[i].value)
    case _ => true
  }

  /** The JSON value that a JavaScript value stands for. */
  ghost function Meaning(v: Value): Json {
    match v
    case Bool(b) => JBool(b)
    case Num(x) => JNumber(if x.Zero? then Zero(false) else x)
    case Str(s) => JString(s)
    case Array(items) => JArray(MeaningOfItems(items))
    case Object(members) => JObject(MeaningOfMembers(members))
    case _ => JNull
  }

  ghost function MeaningOfItem(item: Option<Value>): Json {
    if item.None? then JNull else Meaning(item.value)
  }

  ghost function MeaningOfItems(items: seq<Option<Value>>): seq<Json> {
    if items == [] then [] else [MeaningOfItem(items[0])] + MeaningOfItems(items[1..])
  }

  ghost function MeaningOfMembers(members: seq<Member>): map<Text, Json> {
    if members == [] then map[]
    else
      var rest := MeaningOfMembers(members[1..]);
      if members[0].value.Undefined? then rest else rest[members[0].key := Meaning(members[0].value)]
  }

  // ---- Canonicalization ----

  const NON_FINITE := "non-finite numbers are not representable in JCS"

  function NotRepresentable(typeName: string): string {
    "type " + typeName + " is not representable in JCS"
  }

  function Join(parts: seq<Text>): Text {
    if parts == [] then []
    else if |parts| == 1 then parts[0]
    else parts[0] + [COMMA] + Join(parts[1..])
  }

  /** The keys whose value is defined. */
  function DefinedKeys(members: seq<Member>): seq<Text> {
    if members == [] then []
    else (if members[0].value.Undefined? then [] else [members[0].key]) + DefinedKeys(members[1..])
  }

  /** Where the object has the key. */
  function IndexOf(members: seq<Member>, key: Text): (i: nat)
    ensures i <= |members|
    ensures i < |members| ==> members[i].key == key
  {
    if members == [] then 0
    else if members[0].key == key then 0
    else 1 + IndexOf(members[1..], key)
  }

  function Canonicalize(v: Value): Result<Text>
    decreases v, 0
  {
    match v
    case Null => Ok(NULL)
    case Bool(b) => Ok(if b then TRUE else FALSE)
    case Num(x) =>
      if x.Zero? || x.Finite? then Ok(NumberTextOf(x)) else Err(NON_FINITE)
    case Str(s) => Ok(Quoted(s))
    case Array(items) =>
      var texts := CanonicalItems(items);
      if texts.Err? then Err(texts.message) else Ok([OPEN_BRACKET] + Join(texts.value) + [CLOSE_BRACKET])
    case Object(members) =>
      var texts := CanonicalMembers(members, Sort(DefinedKeys(members)));
      if texts.Err? then Err(texts.message) else Ok([OPEN_BRACE] + Join(texts.value) + [CLOSE_BRACE])
    case Undefined => Err(NotRepresentable("undefined"))
    case Other(typeName) => Err(NotRepresentable(typeName))
  }

  function NumberTextOf(x: Number): Text
    requires x.Zero? || x.Finite?
  {
    if ValidNumber(x) then NumberText(x) else []
  }

  /** `map` skips a hole, and `join` writes nothing for it. */
  function CanonicalItem(item: Option<Value>): Result<Text>
    decreases item
  {
    if item.None? then Ok([])
    else if item.value.Undefined? then Ok(NULL)
    else Canonicalize(item.value)
  }

  function CanonicalItems(items: seq<Option<Value>>): (r: Result<seq<Text>>)
    ensures r.Ok? ==> |r.value| == |items|
    decreases items
  {
    if items == [] then Ok([])
    else
      var first := CanonicalItem(items[0]);
      if first.Err? then Err(first.message)
      else
        var rest := CanonicalItems(items[1..]);
        if rest.Err? then rest else Ok([first.value] + rest.value)
  }

  function CanonicalMembers(members: seq<Member>, keys: seq<Text>): (r: Result<seq<Text>>)
    ensures r.Ok? ==> |r.value| == |keys|
    decreases members, |keys|
  {
    if keys == [] then Ok([])
    else
      var i := IndexOf(members, keys[0]);
      if i == |members| then Err("")
      else
        var first := Canonicalize(members[i].value);
        if first.Err? then Err(first.message)
        else
          var rest := CanonicalMembers(members, keys[1..]);
          if rest.Err? then rest else Ok([Quoted(keys[0]) + [COLON] + first.value] + rest.value)
  }

  /** The value of a key that the object has with a defined value. */
  predicate Has(members: seq<Member>, key: Text) {
    var i := IndexOf(members, key);
    i < |members| && !members[i].value.Undefined?
  }

  function At(members: seq<Member>, key: Text): Value
    requires Has(members, key)
  {
    members[IndexOf(members, key)].value
  }

  // ---- A JSON reader ----

  /** Reads one value of JSON text without insignificant whitespace; a later member replaces an earlier one with its key. */
  function ParseValue(t: Text): (r: Option<(Json, Text)>)
    ensures r.Some? ==> |r.value.1| < |t|
    decreases |t|, 0
  {
    if t == [] then None
    else if t[0] == NULL[0] then if NULL <= t then Some((JNull, t[4..])) else None
    else if t[0] == TRUE[0] then if TRUE <= t then Some((JBool(true), t[4..])) else None
    else if t[0] == FALSE[0] then if FALSE <= t then Some((JBool(false), t[5..])) else None
    else if t[0] == QUOTE then
      var s := ReadString(t[1..]);
      if s.None? then None else Some((JString(s.value.0), s.value.1))
    else if t[0] == OPEN_BRACKET then
      if |t| > 1 && t[1] == CLOSE_BRACKET then Some((JArray([]), t[2..]))
      else
        var items := ParseItems(t[1..]);
        if items.None? then None else Some((JArray(items.value.0), items.value.1))
    else if t[0] == OPEN_BRACE then
      if |t| > 1 && t[1] == CLOSE_BRACE then Some((JObject(map[]), t[2..]))
      else
        var members := ParseMembers(t[1..]);
        if members.None? then None else Some((JObject(members.value.0), members.value.1))
    else
      var x := ReadNumber(t);
      if x.None? then None else Some((JNumber(x.value.0), x.value.1))
  }

  function ParseItems(t: Text): (r: Option<(seq<Json>, Text)>)
    ensures r.Some? ==> |r.value.1| < |t|
    decreases |t|, 1
  {
    var first := ParseValue(t);
    if first.None? || first.value.1 == [] then None
    else
      var (j, after) := first.value;
      if after[0] == CLOSE_BRACKET then Some(([j], after[1..]))
      else if after[0] != COMMA then None
      else
        var rest := ParseItems(after[1..]);
        if rest.None? then None else Some(([j] + rest.value.0, rest.value.1))
  }

  /** One member: a key, a colon and a value. */
  function ParseMember(t: Text): (r: Option<(Text, Json, Text)>)
    ensures r.Some? ==> |r.value.2| < |t|
    decreases |t|, 1
  {
    if t == [] || t[0] != QUOTE then None
    else
      var key := ReadString(t[1..]);
      if key.None? || key.value.1 == [] || key.value.1[0] != COLON then None
      else
        var v := ParseValue(key.value.1[1..]);
        if v.None? then None else Some((key.value.0, v.value.0, v.value.1))
  }

  function ParseMembers(t: Text): (r: Option<(map<Text, Json>, Text)>)
    ensures r.Some? ==> |r.value.1| < |t|
    decreases |t|, 2
  {
    var first := ParseMember(t);
    if first.None? || first.value.2 == [] then None
    else
      var (key, j, after) := first.value;
      if after[0] == CLOSE_BRACE then Some((map[key := j], after[1..]))
      else if after[0] != COMMA then None
      else
        var rest := ParseMembers(after[1..]);
        if rest.None? then None else Some((map[key := j] + rest.value.0, rest.value.1))
  }

  // ---- Reading canonical text ----

  /** Reading gives the meaning and the rest; when something in the value is not dense, it fails or gives something else. */
  ghost predicate Reads<T(!new)>(r: Option<(T, Text)>, meaning: T, rest: Text, dense: bool) {
    && (dense ==> r == Some((meaning, rest)))
    && (!dense && r.Some? ==> r.value.1 == rest && r.value.0 != meaning)
  }

  predicate Starts(text: Text) {
    text != [] && text[0] != CLOSE_BRACKET && text[0] != CLOSE_BRACE && text[0] != COMMA
  }

  lemma TextStarts(v: Value)
    requires Valid(v) && Canonicalize(v).Ok?
    ensures Starts(Canonicalize(v).value)
  {
    if v.Num? && v.x.Finite? {
      MagnitudeStarts(v.x.digits, v.x.point);
    }
  }

  lemma NothingReads(t: Text)
    requires t != [] && !Starts(t)
    ensures ParseValue(t).None?
  {}

  lemma NumberReads(x: Number, rest: Text)
    requires (x.Zero? || x.Finite?) && ValidNumber(x)
    requires Delimited(rest)
    ensures ParseValue(NumberText(x) + rest) == Some((Meaning(Num(x)), rest))
  {
    hide ReadNumber, NumberText;
    NumberRoundTrip(x, rest);
    NumberStarts(x);
  }

  lemma NumberStarts(x: Number)
    requires (x.Zero? || x.Finite?) && ValidNumber(x)
    ensures NumberText(x) != [] && (IsDigit(NumberText(x)[0]) || NumberText(x)[0] == MINUS)
  {
    hide MagnitudeText;
    if x.Finite? { MagnitudeStarts(x.digits, x.point); }
  }

  lemma QuotedReads(s: Text, rest: Text)
    ensures ParseValue(Quoted(s) + rest) == Some((JString(s), rest))
    ensures ReadString((Quoted(s) + rest)[1..]) == Some((s, rest))
  {
    StringRoundTrip(s, rest);
    assert (Quoted(s) + rest)[1..] == Escaped(s) + [QUOTE] + rest;
  }

  ghost predicate DenseItems(items: seq<Option<Value>>) {
    forall i :: 0 <= i < |items| ==> items[i].Some? && Dense(items[i].value)
  }

  ghost predicate ValidItems(items: seq<Option<Value>>) {
    forall i :: 0 <= i < |items| ==> items[i].None? || Valid(items[i].value)
  }

  /**
   Main result: the canonical text of any value reads back as the meaning of the
   value, whatever follows it, if and only if no array in the value has a hole.
   */
  lemma {:induction false} ValueReads(v: Value, rest: Text)
    requires Valid(v) && Canonicalize(v).Ok?
    requires Delimited(rest)
    ensures Reads(ParseValue(Canonicalize(v).value + rest), Meaning(v), rest, Dense(v))
    decreases v, 0
  {
    var text := Canonicalize(v).value;
    match v
    case Null => assert (text + rest)[4..] == rest;
    case Bool(b) => assert (text + rest)[if b then 4 else 5..] == rest;
    case Num(x) => NumberReads(x, rest);
    case Str(s) => QuotedReads(s, rest);
    case Array(items) =>
      var texts := CanonicalItems(items).value;
      if items == [] {
        assert (text + rest)[2..] == rest;
      } else {
        ItemsRead(items, rest);
        ArrayReads(items, texts, rest);
      }
    case Object(members) =>
      var keys := Sort(DefinedKeys(members));
      DefinedKeysAre(members);
      SortSorts(DefinedKeys(members));
      MapIsMeaning(members, keys);
      if keys == [] {
        assert (text + rest)[2..] == rest;
      } else {
        MembersRead(members, keys, rest);
        ObjectReads(members, keys, rest);
      }
  }

  /** An item before a comma or a closing bracket; a hole leaves nothing to read. */
  lemma {:induction false} ItemReads(item: Option<Value>, after: Text)
    requires item.Some? ==> Valid(item.value)
    requires CanonicalItem(item).Ok?
    requires after != [] && Delimited(after)
    ensures Reads(ParseValue(CanonicalItem(item).value + after), MeaningOfItem(item), after, item.Some? && Dense(item.value))
    decreases item, 1
  {
    if item.None? {
      assert [] + after == after;
      NothingReads(after);
    } else if item.value.Undefined? {
      assert (NULL + after)[4..] == after;
    } else {
      ValueReads(item.value, after);
    }
  }

  lemma OneItem(t: Text, m: Json, rest: Text, d: bool)
    requires Reads(ParseValue(t), m, [CLOSE_BRACKET] + rest, d)
    ensures Reads(ParseItems(t), [m], rest, d)
  {
    hide ParseValue;
    assert ([CLOSE_BRACKET] + rest)[1..] == rest;
  }

  lemma MoreItems(t: Text, m: Json, u: Text, d: bool, ms: seq<Json>, rest: Text, ds: bool)
    requires Reads(ParseValue(t), m, [COMMA] + u, d)
    requires Reads(ParseItems(u), ms, rest, ds)
    ensures Reads(ParseItems(t), [m] + ms, rest, d && ds)
  {
    hide ParseValue;
    assert ([COMMA] + u)[1..] == u;
    var r, first, more := ParseItems(t), ParseValue(t), ParseItems(u);
    if r.Some? {
      assert r.value.0 == [first.value.0] + more.value.0;
      assert r.value.0[0] == first.value.0 && r.value.0[1..] == more.value.0;
      assert ([m] + ms)[0] == m && ([m] + ms)[1..] == ms;
    }
  }

  lemma SingleItem(items: seq<Option<Value>>)
    requires |items| == 1
    ensures MeaningOfItems(items) == [MeaningOfItem(items[0])]
    ensures DenseItems(items) <==> items[0].Some? && Dense(items[0].value)
  {
    hide Meaning, Dense;
    assert MeaningOfItems(items[1..]) == [];
    assert DenseItems(items) ==> items[0].Some? && Dense(items[0].value);
  }

  lemma {:induction false} ItemsRead(items: seq<Option<Value>>, rest: Text)
    requires items != [] && ValidItems(items) && CanonicalItems(items).Ok?
    ensures Reads(ParseItems(Join(CanonicalItems(items).value) + [CLOSE_BRACKET] + rest), MeaningOfItems(items), rest, DenseItems(items))
    decreases items
  {
    hide ParseValue, ParseItems, Reads, Meaning, Dense;
    var texts := CanonicalItems(items).value;
    if |items| == 1 {
      SingleItem(items);
      ItemReads(items[0], [CLOSE_BRACKET] + rest);
      assert texts[0] + ([CLOSE_BRACKET] + rest) == Join(texts) + [CLOSE_BRACKET] + rest;
      OneItem(Join(texts) + [CLOSE_BRACKET] + rest, MeaningOfItem(items[0]), rest, DenseItems(items));
    } else {
      var u := Join(texts[1..]) + [CLOSE_BRACKET] + rest;
      ItemReads(items[0], [COMMA] + u);
      assert texts[0] + ([COMMA] + u) == Join(texts) + [CLOSE_BRACKET] + rest;
      ItemsRead(items[1..], rest);
      MoreItems(Join(texts) + [CLOSE_BRACKET] + rest, MeaningOfItem(items[0]), u, items[0].Some? && Dense(items[0].value),
                MeaningOfItems(items[1..]), rest, DenseItems(items[1..]));
      assert items == [items[0]] + items[1..];
    }
  }

  lemma ArrayReads(items: seq<Option<Value>>, texts: seq<Text>, rest: Text)
    requires items != [] && ValidItems(items) && CanonicalItems(items) == Ok(texts)
    requires Reads(ParseItems(Join(texts) + [CLOSE_BRACKET] + rest), MeaningOfItems(items), rest, DenseItems(items))
    ensures Reads(ParseValue([OPEN_BRACKET] + Join(texts) + [CLOSE_BRACKET] + rest), Meaning(Array(items)), rest, Dense(Array(items)))
  {
    hide ParseItems;
    var t := [OPEN_BRACKET] + Join(texts) + [CLOSE_BRACKET] + rest;
    assert t[1..] == Join(texts) + [CLOSE_BRACKET] + rest;
    if items[0].Some? {
      ItemStarts(items[0]);
    } else if |items| == 1 {
      assert t[1] == CLOSE_BRACKET && t[2..] == rest;
      assert |MeaningOfItems(items)| == 1;
    }
  }

  lemma ItemStarts(item: Option<Value>)
    requires item.Some? && Valid(item.value) && CanonicalItem(item).Ok?
    ensures Starts(CanonicalItem(item).value)
  {
    if !item.value.Undefined? { TextStarts(item.value); }
  }

  // ---- Objects ----

  /** What the object holds under these keys. */
  ghost function Restricted(members: seq<Member>, keys: seq<Text>): map<Text, Json>
    requires forall k :: k in keys ==> Has(members, k)
  {
    map k | k in keys :: Meaning(At(members, k))
  }

  ghost predicate DenseAt(members: seq<Member>, keys: seq<Text>)
    requires forall k :: k in keys ==> Has(members, k)
  {
    forall k :: k in keys ==> Dense(At(members, k))
  }

  lemma {:induction false} DefinedKeysAre(members: seq<Member>)
    requires DistinctKeys(members)
    ensures forall k :: k in DefinedKeys(members) <==> Has(members, k)
    ensures forall k :: k in MeaningOfMembers(members) <==> Has(members, k)
    ensures forall k :: Has(members, k) ==> MeaningOfMembers(members)[k] == Meaning(At(members, k))
    ensures forall i, j :: 0 <= i < j < |DefinedKeys(members)| ==> DefinedKeys(members)[i] != DefinedKeys(members)[j]
    decreases |members|
  {
    if members != [] {
      var rest := members[1..];
      assert forall i :: 0 <= i < |rest| ==> rest[i] == members[i + 1];
      DefinedKeysAre(rest);
      forall k ensures k != members[0].key ==> IndexOf(members, k) == IndexOf(rest, k) + 1 {}
      IndexOfAbsent(rest, members[0].key);
      var head: seq<Text> := if members[0].value.Undefined? then [] else [members[0].key];
      assert DefinedKeys(members) == head + DefinedKeys(rest);
      assert members[0].key !in DefinedKeys(rest);
    }
  }

  lemma {:induction false} IndexOfAbsent(members: seq<Member>, key: Text)
    requires forall i :: 0 <= i < |members| ==> members[i].key != key
    ensures IndexOf(members, key) == |members|
    decreases |members|
  {
    if members != [] { IndexOfAbsent(members[1..], key); }
  }

  lemma {:induction false} IndexOfMember(members: seq<Member>, i: nat)
    requires DistinctKeys(members) && i < |members|
    ensures IndexOf(members, members[i].key) == i
    decreases |members|
  {
    if i > 0 { IndexOfMember(members[1..], i - 1); }
  }

  lemma MapIsMeaning(members: seq<Member>, keys: seq<Text>)
    requires DistinctKeys(members)
    requires forall k :: k in keys <==> Has(members, k)
    ensures Restricted(members, keys) == MeaningOfMembers(members)
    ensures DenseAt(members, keys) <==> Dense(Object(members))
  {
    DefinedKeysAre(members);
    forall i | 0 <= i < |members| && DenseAt(members, keys) ensures Dense(members[i].value) {
      IndexOfMember(members, i);
      if !members[i].value.Undefined? {
        assert members[i].key in keys;
      }
    }
  }

  ghost predicate ReadsMember(r: Option<(Text, Json, Text)>, key: Text, meaning: Json, after: Text, dense: bool) {
    && (dense ==> r == Some((key, meaning, after)))
    && (!dense && r.Some? ==> r.value.0 == key && r.value.2 == after && r.value.1 != meaning)
  }

  ghost predicate ReadsMembers(r: Option<(map<Text, Json>, Text)>, meaning: map<Text, Json>, rest: Text, dense: bool) {
    Reads(r, meaning, rest, dense) && (r.Some? ==> r.value.0.Keys == meaning.Keys)
  }

  lemma {:induction false} MemberReads(v: Value, key: Text, after: Text)
    requires Valid(v) && Canonicalize(v).Ok?
    requires Delimited(after)
    ensures ReadsMember(ParseMember(Quoted(key) + [COLON] + Canonicalize(v).value + after), key, Meaning(v), after, Dense(v))
    decreases v, 1
  {
    hide Dense, Meaning, Canonicalize, ParseValue, Quoted;
    var text := Canonicalize(v).value;
    var colon := [COLON] + text + after;
    ValueReads(v, after);
    QuotedReads(key, colon);
    QuotedStarts(key);
    assert Quoted(key) + [COLON] + text + after == Quoted(key) + colon;
    assert colon[1..] == text + after;
  }

  lemma QuotedStarts(key: Text)
    ensures Quoted(key) != [] && Quoted(key)[0] == QUOTE
  {}

  lemma OneMember(t: Text, key: Text, m: Json, rest: Text, d: bool)
    requires ReadsMember(ParseMember(t), key, m, [CLOSE_BRACE] + rest, d)
    ensures ReadsMembers(ParseMembers(t), map[key := m], rest, d)
  {
    hide ParseMember;
    assert ([CLOSE_BRACE] + rest)[1..] == rest;
    var r := ParseMembers(t);
    if r.Some? {
      assert r.value.0[key] == ParseMember(t).value.1;
    }
  }

  lemma MoreMembers(t: Text, key: Text, m: Json, u: Text, d: bool, ms: map<Text, Json>, rest: Text, ds: bool)
    requires ReadsMember(ParseMember(t), key, m, [COMMA] + u, d)
    requires ReadsMembers(ParseMembers(u), ms, rest, ds)
    requires key !in ms
    ensures ReadsMembers(ParseMembers(t), map[key := m] + ms, rest, d && ds)
  {
    hide ParseMember;
    assert ([COMMA] + u)[1..] == u;
    var r, first, more := ParseMembers(t), ParseMember(t), ParseMembers(u);
    if r.Some? {
      assert r.value.0 == map[key := first.value.1] + more.value.0;
      assert r.value.0[key] == first.value.1;
      assert more.value.0 == r.value.0 - {key};
      assert ms == (map[key := m] + ms) - {key};
    }
  }

  lemma {:induction false} MembersRead(members: seq<Member>, keys: seq<Text>, rest: Text)
    requires forall i :: 0 <= i < |members| ==> Valid(members[i].value)
    requires keys != [] && StrictlySorted(keys)
    requires forall k :: k in keys ==> Has(members, k)
    requires CanonicalMembers(members, keys).Ok?
    ensures ReadsMembers(ParseMembers(Join(CanonicalMembers(members, keys).value) + [CLOSE_BRACE] + rest),
                         Restricted(members, keys), rest, DenseAt(members, keys))
    decreases members, |keys|
  {
    hide ParseMember, ParseMembers, ReadsMember, ReadsMembers, Meaning, Dense, Canonicalize, Quoted;
    var texts := CanonicalMembers(members, keys).value;
    var (key, i) := (keys[0], IndexOf(members, keys[0]));
    var v := members[i].value;
    assert texts[0] == Quoted(key) + [COLON] + Canonicalize(v).value;
    if |keys| == 1 {
      MemberReads(v, key, [CLOSE_BRACE] + rest);
      assert texts[0] + ([CLOSE_BRACE] + rest) == Join(texts) + [CLOSE_BRACE] + rest;
      OneMember(Join(texts) + [CLOSE_BRACE] + rest, key, Meaning(v), rest, Dense(v));
      KeysSplit(members, keys);
      assert Restricted(members, keys[1..]) == map[];
      assert map[key := Meaning(v)] + map[] == map[key := Meaning(v)];
    } else {
      var u := Join(texts[1..]) + [CLOSE_BRACE] + rest;
      MemberReads(v, key, [COMMA] + u);
      assert texts[0] + ([COMMA] + u) == Join(texts) + [CLOSE_BRACE] + rest;
      MembersRead(members, keys[1..], rest);
      KeysSplit(members, keys);
      MoreMembers(Join(texts) + [CLOSE_BRACE] + rest, key, Meaning(v), u, Dense(v),
                  Restricted(members, keys[1..]), rest, DenseAt(members, keys[1..]));
    }
  }

  lemma KeysSplit(members: seq<Member>, keys: seq<Text>)
    requires keys != [] && StrictlySorted(keys)
    requires forall k :: k in keys ==> Has(members, k)
    ensures keys[0] !in keys[1..]
    ensures Restricted(members, keys) == map[keys[0] := Meaning(At(members, keys[0]))] + Restricted(members, keys[1..])
    ensures DenseAt(members, keys) <==> Dense(At(members, keys[0])) && DenseAt(members, keys[1..])
  {
    assert keys == [keys[0]] + keys[1..];
    LessIsTotal(keys[0], keys[0]);
  }

  lemma ObjectReads(members: seq<Member>, keys: seq<Text>, rest: Text)
    requires keys != [] && keys == Sort(DefinedKeys(members))
    requires CanonicalMembers(members, keys).Ok?
    requires var texts := CanonicalMembers(members, keys).value;
             ReadsMembers(ParseMembers(Join(texts) + [CLOSE_BRACE] + rest), MeaningOfMembers(members), rest, Dense(Object(members)))
    ensures Reads(ParseValue(Canonicalize(Object(members)).value + rest), Meaning(Object(members)), rest, Dense(Object(members)))
  {
    hide ParseMembers, Dense, Quoted;
    var texts := CanonicalMembers(members, keys).value;
    var t := [OPEN_BRACE] + Join(texts) + [CLOSE_BRACE] + rest;
    QuotedStarts(keys[0]);
    assert t[1..] == Join(texts) + [CLOSE_BRACE] + rest;
  }

  // ---- Same text, same value ----

  /** Canonicalization fails exactly for what JSON cannot represent. */
  lemma {:induction false} FailsOnUnrepresentable(v: Value)
    requires Valid(v)
    ensures Canonicalize(v).Ok? <==> Representable(v)
    decreases v
  {
    match v
    case Array(items) => ItemsFail(items);
    case Object(members) =>
      DefinedKeysAre(members);
      SortSorts(DefinedKeys(members));
      MembersFail(members, Sort(DefinedKeys(members)));
      forall i | 0 <= i < |members| && Canonicalize(v).Ok?
        ensures members[i].value.Undefined? || Representable(members[i].value) {
        IndexOfMember(members, i);
        assert !members[i].value.Undefined? ==> Has(members, members[i].key) && members[i].key in DefinedKeys(members);
        FailsOnUnrepresentable(members[i].value);
      }
      forall k | Has(members, k) ensures Canonicalize(At(members, k)).Ok? <==> Representable(At(members, k)) {
        FailsOnUnrepresentable(At(members, k));
      }
    case _ =>
  }

  lemma {:induction false} ItemFails(item: Option<Value>)
    requires item.Some? ==> Valid(item.value)
    ensures CanonicalItem(item).Ok? <==> RepresentableItem(item)
    decreases item
  {
    hide Canonicalize, Representable, Valid;
    if item.Some? { FailsOnUnrepresentable(item.value); }
  }

  lemma {:induction false} ItemsFail(items: seq<Option<Value>>)
    requires ValidItems(items)
    ensures CanonicalItems(items).Ok? <==> forall i :: 0 <= i < |items| ==> RepresentableItem(items[i])
    decreases items
  {
    hide Canonicalize, Representable, Valid;
    if items != [] {
      ItemFails(items[0]);
      ItemsFail(items[1..]);
      assert items == [items[0]] + items[1..];
    }
  }

  lemma {:induction false} MembersFail(members: seq<Member>, keys: seq<Text>)
    requires forall k :: k in keys ==> Has(members, k)
    ensures CanonicalMembers(members, keys).Ok? <==> forall k :: k in keys ==> Canonicalize(At(members, k)).Ok?
    decreases |keys|
  {
    hide Canonicalize;
    if keys != [] {
      MembersFail(members, keys[1..]);
      assert keys == [keys[0]] + keys[1..];
      assert keys[0] in keys;
      assert members[IndexOf(members, keys[0])].value == At(members, keys[0]);
    }
  }

  /** Two values with the same meaning have the same text: order, undefined members and the sign of zero do not matter. */
  lemma {:induction false} SameMeaningSameText(v: Value, w: Value)
    requires Valid(v) && Valid(w) && Dense(v) && Dense(w)
    requires Canonicalize(v).Ok? && Canonicalize(w).Ok?
    requires Meaning(v) == Meaning(w)
    ensures Canonicalize(v) == Canonicalize(w)
    decreases v
  {
    match v
    case Array(items) => ItemsSameText(items, w.items);
    case Object(members) =>
      var others := w.members;
      DefinedKeysAre(members);
      DefinedKeysAre(others);
      assert MeaningOfMembers(members) == MeaningOfMembers(others);
      var (keys, otherKeys) := (Sort(DefinedKeys(members)), Sort(DefinedKeys(others)));
      SortSorts(DefinedKeys(members));
      SortSorts(DefinedKeys(others));
      SortedIsUnique(keys, otherKeys);
      MembersFail(members, keys);
      MembersFail(others, keys);
      forall k | k in keys ensures Canonicalize(At(members, k)) == Canonicalize(At(others, k)) {
        SameMeaningSameText(At(members, k), At(others, k));
      }
      MembersSameText(members, others, keys);
    case _ =>
  }

  lemma {:induction false} ItemSameText(item: Option<Value>, other: Option<Value>)
    requires item.Some? && Valid(item.value) && Dense(item.value) && CanonicalItem(item).Ok?
    requires other.Some? && Valid(other.value) && Dense(other.value) && CanonicalItem(other).Ok?
    requires Meaning(item.value) == Meaning(other.value)
    ensures CanonicalItem(item) == CanonicalItem(other)
    decreases item
  {
    NullOnly(item.value);
    NullOnly(other.value);
    if !item.value.Undefined? && !other.value.Undefined? {
      SameMeaningSameText(item.value, other.value);
    }
  }

  lemma {:induction false} ItemsSameText(items: seq<Option<Value>>, others: seq<Option<Value>>)
    requires ValidItems(items) && ValidItems(others) && DenseItems(items) && DenseItems(others)
    requires CanonicalItems(items).Ok? && CanonicalItems(others).Ok?
    requires MeaningOfItems(items) == MeaningOfItems(others)
    ensures CanonicalItems(items) == CanonicalItems(others)
    decreases items
  {
    MeaningHasLength(items);
    MeaningHasLength(others);
    if items != [] {
      assert MeaningOfItems(items)[0] == MeaningOfItems(others)[0];
      assert MeaningOfItems(items)[1..] == MeaningOfItems(others)[1..];
      ItemSameText(items[0], others[0]);
      ItemsSameText(items[1..], others[1..]);
    }
  }

  lemma {:induction false} MeaningHasLength(items: seq<Option<Value>>)
    ensures |MeaningOfItems(items)| == |items|
    decreases |items|
  {
    if items != [] { MeaningHasLength(items[1..]); }
  }

  /** Only null and undefined mean null, among what can be an item. */
  lemma NullOnly(v: Value)
    requires v.Undefined? || Canonicalize(v).Ok?
    ensures Meaning(v) == JNull <==> v.Null? || v.Undefined?
  {}

  lemma {:induction false} MembersSameText(members: seq<Member>, others: seq<Member>, keys: seq<Text>)
    requires forall k :: k in keys ==> Has(members, k) && Has(others, k) && Canonicalize(At(members, k)) == Canonicalize(At(others, k))
    ensures CanonicalMembers(members, keys) == CanonicalMembers(others, keys)
    decreases |keys|
  {
    hide Canonicalize;
    if keys != [] {
      assert keys[0] in keys;
      MembersSameText(members, others, keys[1..]);
    }
  }

  /** Canonical text identifies the JSON value, for values without holes. */
  lemma Injective(v: Value, w: Value)
    requires Valid(v) && Valid(w) && Dense(v) && Dense(w)
    requires Canonicalize(v).Ok? && Canonicalize(w).Ok?
    ensures Canonicalize(v) == Canonicalize(w) <==> Meaning(v) == Meaning(w)
  {
    ValueReads(v, []);
    ValueReads(w, []);
    if Meaning(v) == Meaning(w) { SameMeaningSameText(v, w); }
  }

  /** The hypothesis is needed: an array with one hole has the text of the empty array. */
  lemma HolesCollide()
    ensures Canonicalize(Array([None])) == Canonicalize(Array([])) == Ok([OPEN_BRACKET, CLOSE_BRACKET])
    ensures Meaning(Array([None])) != Meaning(Array([]))
  {
    var hole: seq<Option<Value>> := [None];
    assert hole[1..] == [];
    assert CanonicalItems(hole[1..]) == Ok([]);
    assert CanonicalItems(hole).value == [[]];
    assert Join([[]]) == [];
    assert [OPEN_BRACKET] + [] + [CLOSE_BRACKET] == [OPEN_BRACKET, CLOSE_BRACKET];
    assert |MeaningOfItems(hole)| == 1;
  }
}
