/** JavaScript strings: sequences of UTF-16 code units, and their order. */
module Utf16 {
  type CodeUnit = x: int | 0 <= x < 0x10000

  type Text = seq<CodeUnit>

  // ---- Order ----

  /** By code units, as `Array.prototype.sort` compares strings. */
  predicate Less(a: Text, b: Text)
    decreases |a|
  {
    b != [] && (a == [] || a[0] < b[0] || (a[0] == b[0] && Less(a[1..], b[1..])))
  }

  function Insert(key: Text, sorted: seq<Text>): seq<Text> {
    if sorted == [] || Less(key, sorted[0]) then [key] + sorted
    else [sorted[0]] + Insert(key, sorted[1..])
  }

  function Sort(keys: seq<Text>): seq<Text> {
    if keys == [] then [] else Insert(keys[0], Sort(keys[1..]))
  }

  predicate StrictlySorted(keys: seq<Text>) {
    forall i, j :: 0 <= i < j < |keys| ==> Less(keys[i], keys[j])
  }

  lemma {:induction false} LessIsTotal(a: Text, b: Text)
    ensures !(Less(a, b) && Less(b, a))
    ensures Less(a, b) || Less(b, a) || a == b
    decreases |a|
  {
    if a != [] && b != [] && a[0] == b[0] {
      LessIsTotal(a[1..], b[1..]);
      assert a == [a[0]] + a[1..] && b == [b[0]] + b[1..];
    }
  }

  lemma {:induction false} LessIsTransitive(a: Text, b: Text, c: Text)
    requires Less(a, b) && Less(b, c)
    ensures Less(a, c)
    decreases |a|
  {
    if a != [] && a[0] == b[0] && b[0] == c[0] {
      LessIsTransitive(a[1..], b[1..], c[1..]);
    }
  }

  lemma {:induction false} InsertSorts(key: Text, sorted: seq<Text>)
    requires StrictlySorted(sorted) && key !in sorted
    ensures StrictlySorted(Insert(key, sorted))
    ensures forall k :: k in Insert(key, sorted) <==> k == key || k in sorted
    decreases |sorted|
  {
    if sorted != [] {
      LessIsTotal(key, sorted[0]);
      if Less(key, sorted[0]) {
        forall j | 0 <= j < |sorted| ensures Less(key, sorted[j]) {
          if j > 0 { LessIsTransitive(key, sorted[0], sorted[j]); }
        }
      } else {
        InsertSorts(key, sorted[1..]);
        var rest := Insert(key, sorted[1..]);
        forall j | 0 <= j < |rest| ensures Less(sorted[0], rest[j]) {
          assert rest[j] in rest;
        }
        assert sorted == [sorted[0]] + sorted[1..];
      }
    }
  }

  lemma {:induction false} SortSorts(keys: seq<Text>)
    requires forall i, j :: 0 <= i < j < |keys| ==> keys[i] != keys[j]
    ensures StrictlySorted(Sort(keys))
    ensures forall k :: k in Sort(keys) <==> k in keys
    decreases |keys|
  {
    if keys != [] {
      SortSorts(keys[1..]);
      InsertSorts(keys[0], Sort(keys[1..]));
      assert keys == [keys[0]] + keys[1..];
    }
  }

  lemma HasMember(keys: seq<Text>)
    requires keys != []
    ensures exists k :: k in keys
  {
    assert keys[0] in keys;
  }

  /** Only one sorted list has a given set of keys. */
  lemma {:induction false} SortedIsUnique(a: seq<Text>, b: seq<Text>)
    requires StrictlySorted(a) && StrictlySorted(b)
    requires forall k :: k in a <==> k in b
    ensures a == b
    decreases |a|
  {
    if a == [] {
      if b != [] { HasMember(b); }
    } else {
      assert a[0] in b;
      assert b[0] in a;
      LessIsTotal(a[0], b[0]);
      assert a[0] == b[0];
      forall k ensures k in a[1..] <==> k in b[1..] {
        LessIsTotal(a[0], a[0]);
        assert k in a <==> k == a[0] || k in a[1..];
        assert k in b <==> k == b[0] || k in b[1..];
      }
      SortedIsUnique(a[1..], b[1..]);
      assert a == [a[0]] + a[1..] && b == [b[0]] + b[1..];
    }
  }
}
