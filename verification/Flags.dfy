/**
 Flag typo suggestions (packages/cli-core/src/flags.ts): edit distance with one
 row of memory, and the nearest known flag.
 */
module Flags {
  import opened Wrappers
  import opened Utf16

  function Min(a: int, b: int): int {
    if a <= b then a else b
  }

  // ---- Edit distance ----

  /** The distance by its recurrence on the last letters. */
  ghost function Distance<T>(a: seq<T>, b: seq<T>): (d: nat)
    decreases |a| + |b|
  {
    if a == [] then |b|
    else if b == [] then |a|
    else
      var (p, q) := (a[..|a| - 1], b[..|b| - 1]);
      Min(Min(Distance(p, b) + 1, Distance(a, q) + 1), Distance(p, q) + if a[|a| - 1] == b[|b| - 1] then 0 else 1)
  }

  /** One edit: a stretch of at most one letter replaced by another such stretch. */
  ghost predicate Edit<T(!new)>(a: seq<T>, b: seq<T>) {
    exists u, old': seq<T>, new': seq<T>, v :: EditAt(a, b, u, old', new', v)
  }

  ghost predicate EditAt<T(!new)>(a: seq<T>, b: seq<T>, u: seq<T>, old': seq<T>, new': seq<T>, v: seq<T>) {
    a == u + old' + v && b == u + new' + v && |old'| <= 1 && |new'| <= 1
  }

  /** A chain of texts, each one edit away from the one before. */
  ghost predicate Script<T(!new)>(chain: seq<seq<T>>, a: seq<T>, b: seq<T>) {
    && chain != [] && chain[0] == a && chain[|chain| - 1] == b
    && forall i :: 0 < i < |chain| ==> Edit(chain[i - 1], chain[i])
  }

  lemma {:induction false} LengthBounds<T>(a: seq<T>, b: seq<T>)
    ensures |a| - |b| <= Distance(a, b)
    ensures |b| - |a| <= Distance(a, b)
    ensures Distance(a, b) <= |a| + |b|
    decreases |a| + |b|
  {
    if a != [] && b != [] {
      LengthBounds(a[..|a| - 1], b);
      LengthBounds(a, b[..|b| - 1]);
      LengthBounds(a[..|a| - 1], b[..|b| - 1]);
    }
  }

  lemma {:induction false} ZeroIffEqual<T>(a: seq<T>, b: seq<T>)
    ensures Distance(a, b) == 0 <==> a == b
    decreases |a| + |b|
  {
    if a != [] && b != [] {
      var (p, q) := (a[..|a| - 1], b[..|b| - 1]);
      ZeroIffEqual(p, q);
      assert a == p + [a[|a| - 1]] && b == q + [b[|b| - 1]];
    }
  }

  lemma {:induction false} Symmetric<T>(a: seq<T>, b: seq<T>)
    ensures Distance(a, b) == Distance(b, a)
    decreases |a| + |b|
  {
    if a != [] && b != [] {
      Symmetric(a[..|a| - 1], b);
      Symmetric(a, b[..|b| - 1]);
      Symmetric(a[..|a| - 1], b[..|b| - 1]);
    }
  }

  lemma {:induction false} Triangle<T>(a: seq<T>, b: seq<T>, c: seq<T>)
    ensures Distance(a, c) <= Distance(a, b) + Distance(b, c)
    decreases |a| + |b| + |c|
  {
    LengthBounds(a, b);
    LengthBounds(b, c);
    LengthBounds(a, c);
    if a != [] && b != [] && c != [] {
      var (p, q, r) := (a[..|a| - 1], b[..|b| - 1], c[..|c| - 1]);
      Triangle(p, b, c);
      Triangle(a, b, r);
      Triangle(a, q, c);
      Triangle(a, q, r);
      Triangle(p, q, c);
      Triangle(p, q, r);
    }
  }

  lemma {:induction false} SharedSuffix<T>(a: seq<T>, b: seq<T>, suffix: seq<T>)
    ensures Distance(a + suffix, b + suffix) <= Distance(a, b)
    decreases |suffix|
  {
    if suffix == [] {
      assert a + suffix == a && b + suffix == b;
    } else {
      var init := suffix[..|suffix| - 1];
      SharedSuffix(a, b, init);
      assert (a + suffix)[..|a + suffix| - 1] == a + init;
      assert (b + suffix)[..|b + suffix| - 1] == b + init;
    }
  }

  lemma EditCostsOne<T(!new)>(a: seq<T>, b: seq<T>)
    requires Edit(a, b)
    ensures Distance(a, b) <= 1
  {
    var u, old': seq<T>, new': seq<T>, v :| EditAt(a, b, u, old', new', v);
    SharedSuffix(u + old', u + new', v);
    assert old' == [] ==> u + old' == u;
    assert new' == [] ==> u + new' == u;
    assert |old'| == 1 ==> (u + old')[..|u + old'| - 1] == u;
    assert |new'| == 1 ==> (u + new')[..|u + new'| - 1] == u;
    ZeroIffEqual(u, u);
  }

  /** No script is shorter than the distance. */
  lemma {:induction false} ScriptIsLong<T(!new)>(chain: seq<seq<T>>, a: seq<T>, b: seq<T>)
    requires Script(chain, a, b)
    ensures Distance(a, b) <= |chain| - 1
    decreases |chain|
  {
    if |chain| == 1 {
      ZeroIffEqual(a, b);
    } else {
      var c := chain[|chain| - 2];
      ScriptIsLong(chain[..|chain| - 1], a, c);
      assert Edit(chain[|chain| - 2], chain[|chain| - 1]);
      EditCostsOne(c, b);
      Triangle(a, c, b);
    }
  }

  ghost function Suffixed<T>(chain: seq<seq<T>>, suffix: seq<T>): seq<seq<T>> {
    seq(|chain|, i requires 0 <= i < |chain| => chain[i] + suffix)
  }

  lemma SuffixedScript<T(!new)>(chain: seq<seq<T>>, a: seq<T>, b: seq<T>, suffix: seq<T>)
    requires Script(chain, a, b)
    ensures Script(Suffixed(chain, suffix), a + suffix, b + suffix)
  {
    var s := Suffixed(chain, suffix);
    forall i | 0 < i < |s| ensures Edit(s[i - 1], s[i]) {
      var u, old': seq<T>, new': seq<T>, v :| EditAt(chain[i - 1], chain[i], u, old', new', v);
      assert u + old' + v + suffix == u + old' + (v + suffix);
      assert u + new' + v + suffix == u + new' + (v + suffix);
      assert EditAt(s[i - 1], s[i], u, old', new', v + suffix);
    }
  }

  lemma Extended<T(!new)>(chain: seq<seq<T>>, a: seq<T>, b: seq<T>, c: seq<T>)
    requires Script(chain, a, b)
    requires Edit(b, c)
    ensures Script(chain + [c], a, c)
  {}

  /** One more edit at the end of a text. */
  lemma EditsAtEnd<T(!new)>(u: seq<T>, x: T, y: T)
    ensures Edit(u, u + [y])
    ensures Edit(u + [x], u)
    ensures Edit(u + [x], u + [y])
  {
    assert EditAt(u, u + [y], u, [], [y], []);
    assert EditAt(u + [x], u, u, [x], [], []);
    assert EditAt(u + [x], u + [y], u, [x], [y], []);
  }

  /** Some script is no longer than the distance. */
  lemma {:induction false} ShortestScript<T(!new)>(a: seq<T>, b: seq<T>) returns (chain: seq<seq<T>>)
    ensures Script(chain, a, b) && |chain| - 1 == Distance(a, b)
    decreases |a| + |b|
  {
    if a == [] && b == [] {
      chain := [a];
    } else if a == [] {
      var q := b[..|b| - 1];
      chain := ShortestScript(a, q);
      EditsAtEnd(q, b[|b| - 1], b[|b| - 1]);
      assert q + [b[|b| - 1]] == b;
      Extended(chain, a, q, b);
      chain := chain + [b];
    } else if b == [] {
      var p := a[..|a| - 1];
      chain := DropLast(a, b);
    } else {
      var (p, q) := (a[..|a| - 1], b[..|b| - 1]);
      var (x, y) := (a[|a| - 1], b[|b| - 1]);
      assert a == p + [x] && b == q + [y];
      if Distance(a, b) == Distance(p, b) + 1 {
        chain := DropLast(a, b);
      } else if Distance(a, b) == Distance(a, q) + 1 {
        chain := ShortestScript(a, q);
        EditsAtEnd(q, y, y);
        Extended(chain, a, q, b);
        chain := chain + [b];
      } else {
        chain := ShortestScript(p, q);
        SuffixedScript(chain, p, q, [x]);
        chain := Suffixed(chain, [x]);
        if x != y {
          EditsAtEnd(q, x, y);
          Extended(chain, a, q + [x], b);
          chain := chain + [b];
        }
      }
    }
  }

  lemma {:induction false} DropLast<T(!new)>(a: seq<T>, b: seq<T>) returns (chain: seq<seq<T>>)
    requires a != []
    ensures Script(chain, a, b) && |chain| - 1 == Distance(a[..|a| - 1], b) + 1
    decreases |a| + |b|, 0
  {
    var p := a[..|a| - 1];
    assert a == p + [a[|a| - 1]];
    var rest := ShortestScript(p, b);
    EditsAtEnd(p, a[|a| - 1], a[|a| - 1]);
    chain := [a] + rest;
    forall i | 0 < i < |chain| ensures Edit(chain[i - 1], chain[i]) {
      if i > 1 { assert Edit(rest[i - 2], rest[i - 1]); }
    }
  }

  /** Row `row` of the distance table, over the prefixes of `right`. */
  ghost predicate IsRow<T>(distance: seq<nat>, left: seq<T>, right: seq<T>, row: nat)
    requires row <= |left|
  {
    |distance| == |right| + 1 && forall k :: 0 <= k <= |right| ==> distance[k] == Distance(left[..row], right[..k])
  }

  /** The source's loops, which keep a single row of the table. */
  method Levenshtein<T(==)>(left: seq<T>, right: seq<T>) returns (d: nat)
    ensures d == Distance(left, right)
  {
    var distance := new nat[|right| + 1](i => i);
    assert forall k :: 0 <= k <= |right| ==> distance[..][k] == Distance(left[..0], right[..k]);
    for row := 1 to |left| + 1
      invariant IsRow(distance[..], left, right, row - 1)
    {
      NextRow(left, right, distance, row);
    }
    assert left[..|left|] == left && right[..|right|] == right;
    assert distance[..][|right|] == distance[|right|];
    return distance[|right|];
  }

  /** One turn of the outer loop, in place. */
  method NextRow<T(==)>(left: seq<T>, right: seq<T>, distance: array<nat>, row: nat)
    requires 0 < row <= |left|
    requires IsRow(distance[..], left, right, row - 1)
    modifies distance
    ensures IsRow(distance[..], left, right, row)
  {
    hide Distance;
    ghost var before := distance[..];
    var diagonal := distance[0];
    distance[0] := row;
    FirstColumn(left, right, row);
    for col := 1 to |right| + 1
      invariant diagonal == before[col - 1]
      invariant forall k :: 0 <= k < col ==> distance[k] == Distance(left[..row], right[..k])
      invariant forall k :: col <= k <= |right| ==> distance[k] == before[k]
    {
      var previous := distance[col];
      DistanceStep(left, right, row, col);
      distance[col] := Min(Min(previous + 1, distance[col - 1] + 1), diagonal + if left[row - 1] == right[col - 1] then 0 else 1);
      diagonal := previous;
    }
  }

  lemma FirstColumn<T>(left: seq<T>, right: seq<T>, row: nat)
    requires row <= |left|
    ensures Distance(left[..row], right[..0]) == row
  {}

  lemma DistanceStep<T>(left: seq<T>, right: seq<T>, row: nat, col: nat)
    requires 0 < row <= |left| && 0 < col <= |right|
    ensures Distance(left[..row], right[..col])
         == Min(Min(Distance(left[..row - 1], right[..col]) + 1, Distance(left[..row], right[..col - 1]) + 1),
                Distance(left[..row - 1], right[..col - 1]) + if left[row - 1] == right[col - 1] then 0 else 1)
  {
    assert left[..row][..row - 1] == left[..row - 1];
    assert right[..col][..col - 1] == right[..col - 1];
  }

  // ---- Suggestions ----

  const DASH: CodeUnit := 45
  const EQUALS: CodeUnit := 61

  datatype Typo = Typo(given: Text, suggestion: Text)

  /** The part of an argument before its first "=". */
  function Name(arg: Text): (name: Text)
    ensures name <= arg && EQUALS !in name
    ensures name == arg || arg[|name|] == EQUALS
    decreases |arg|
  {
    if arg == [] || arg[0] == EQUALS then []
    else
      var rest := Name(arg[1..]);
      assert |rest| < |arg[1..]| ==> arg[1..][|rest|] == arg[|rest| + 1];
      [arg[0]] + rest
  }

  function Threshold(name: Text): nat {
    if |name| >= 8 then 2 else 1
  }

  ghost predicate Nearer(known: seq<Text>, name: Text, i: nat, j: nat) {
    i < |known| && j < |known| && Distance(name, known[i]) < Distance(name, known[j])
  }

  /** Among the first `n` known flags the one at `i` is nearest to the name, and nearer than every one before it. */
  ghost predicate FirstNearestOf(known: seq<Text>, n: nat, name: Text, i: nat) {
    && i < n <= |known|
    && (forall j: nat :: j < i ==> Nearer(known, name, i, j))
    && (forall j: nat :: i < j < n ==> !Nearer(known, name, j, i))
  }

  ghost predicate FirstNearest(known: seq<Text>, name: Text, i: nat) {
    FirstNearestOf(known, |known|, name, i)
  }

  /** An argument that looks like a long flag but is not a known one. */
  predicate Suspect(known: seq<Text>, arg: Text) {
    [DASH, DASH] <= arg && |Name(arg)| >= 5 && Name(arg) !in known
  }

  /** The flag to suggest for the argument: the first of the nearest ones, if it is within the threshold. */
  ghost predicate Suggests(known: seq<Text>, arg: Text, flag: Text) {
    && Suspect(known, arg)
    && (exists i: nat :: FirstNearest(known, Name(arg), i) && known[i] == flag)
    && Distance(Name(arg), flag) <= Threshold(Name(arg))
  }

  lemma NearestIsLeast(known: seq<Text>, name: Text, i: nat, flag: Text)
    requires FirstNearest(known, name, i) && flag in known
    ensures Distance(name, known[i]) <= Distance(name, flag)
  {
    var j: nat :| j < |known| && known[j] == flag;
    var nearer := Nearer(known, name, j, i);
    var farther := Nearer(known, name, i, j);
  }

  lemma OneNearest(known: seq<Text>, name: Text, i: nat, j: nat)
    requires FirstNearest(known, name, i) && FirstNearest(known, name, j)
    ensures i == j
  {
    var iNearer, jNearer := Nearer(known, name, i, j), Nearer(known, name, j, i);
  }

  lemma OneSuggestion(known: seq<Text>, arg: Text, f: Text, g: Text)
    requires Suggests(known, arg, f) && Suggests(known, arg, g)
    ensures f == g
  {
    var i: nat :| FirstNearest(known, Name(arg), i) && known[i] == f;
    var j: nat :| FirstNearest(known, Name(arg), j) && known[j] == g;
    OneNearest(known, Name(arg), i, j);
  }

  ghost predicate Answered(known: seq<Text>, arg: Text, typos: seq<Typo>) {
    typos != [] && typos[0].given == Name(arg) && Suggests(known, arg, typos[0].suggestion)
  }

  /** The typos answer, in order, the arguments before a bare "--" that have a suggestion. */
  ghost predicate Answers(known: seq<Text>, args: seq<Text>, typos: seq<Typo>)
    decreases |args|
  {
    if args == [] || args[0] == [DASH, DASH] then typos == []
    else if Answered(known, args[0], typos) then
      Answers(known, args[1..], typos[1..])
    else NoSuggestion(known, args[0]) && Answers(known, args[1..], typos)
  }

  ghost predicate NoSuggestion(known: seq<Text>, arg: Text) {
    forall flag :: !Suggests(known, arg, flag)
  }

  ghost predicate IsBest(known: seq<Text>, n: nat, name: Text, i: nat, d: nat) {
    FirstNearestOf(known, n, name, i) && d == Distance(name, known[i])
  }

  lemma NewNearest(known: seq<Text>, k: nat, name: Text, best: Option<(nat, nat)>)
    requires k < |known|
    requires k == 0 <==> best.None?
    requires best.Some? ==> IsBest(known, k, name, best.value.0, best.value.1) && Distance(name, known[k]) < best.value.1
    ensures FirstNearestOf(known, k + 1, name, k)
  {
    forall j: nat | j < k ensures Nearer(known, name, k, j) {
      var nearer := Nearer(known, name, j, best.value.0);
      var farther := Nearer(known, name, best.value.0, j);
    }
  }

  /** The nearest known flag, by the source's loop. */
  method Nearest(known: seq<Text>, name: Text) returns (best: Option<(nat, nat)>)
    ensures known == [] <==> best.None?
    ensures best.Some? ==> IsBest(known, |known|, name, best.value.0, best.value.1)
  {
    best := None;
    for k := 0 to |known|
      invariant k == 0 <==> best.None?
      invariant best.Some? ==> IsBest(known, k, name, best.value.0, best.value.1)
    {
      var d := Levenshtein(name, known[k]);
      if best.None? || d < best.value.1 {
        NewNearest(known, k, name, best);
        best := Some((k, d));
      }
    }
  }

  /** The suggestion for one argument, by the source's body of the loop over arguments. */
  method Suggest(known: seq<Text>, arg: Text) returns (typo: Option<Typo>)
    ensures typo.Some? ==> typo.value.given == Name(arg) && Suggests(known, arg, typo.value.suggestion)
    ensures typo.None? ==> NoSuggestion(known, arg)
  {
    if !([DASH, DASH] <= arg) { return None; }
    var name := Name(arg);
    if |name| < 5 || name in known { return None; }
    var best := Nearest(known, name);
    var threshold := Threshold(name);
    if best.Some? && best.value.1 > 0 && best.value.1 <= threshold {
      return Some(Typo(name, known[best.value.0]));
    }
    NothingNear(known, arg, best);
    return None;
  }

  /** An unknown name is at a positive distance, so the source's guard against zero never decides. */
  lemma NothingNear(known: seq<Text>, arg: Text, best: Option<(nat, nat)>)
    requires Suspect(known, arg)
    requires known == [] <==> best.None?
    requires best.Some? ==> IsBest(known, |known|, Name(arg), best.value.0, best.value.1)
    ensures best.Some? ==> best.value.1 > 0
    ensures best.None? || best.value.1 > Threshold(Name(arg)) ==> NoSuggestion(known, arg)
  {
    if best.Some? {
      ZeroIffEqual(Name(arg), known[best.value.0]);
      forall flag | flag in known ensures best.value.1 <= Distance(Name(arg), flag) {
        NearestIsLeast(known, Name(arg), best.value.0, flag);
      }
    }
  }

  /** The arguments and flags determine the answer. */
  lemma {:induction false} OneAnswerOnly(known: seq<Text>, args: seq<Text>, typos: seq<Typo>, others: seq<Typo>)
    requires Answers(known, args, typos) && Answers(known, args, others)
    ensures typos == others
    decreases |args|
  {
    hide Suggests;
    if args != [] && args[0] != [DASH, DASH] {
      if Answered(known, args[0], typos) {
        OneSuggestion(known, args[0], typos[0].suggestion, others[0].suggestion);
        OneAnswerOnly(known, args[1..], typos[1..], others[1..]);
        assert typos == [typos[0]] + typos[1..] && others == [others[0]] + others[1..];
      } else {
        OneAnswerOnly(known, args[1..], typos, others);
      }
    }
  }

  lemma {:induction false} AnswersJoin(known: seq<Text>, args: seq<Text>, k: nat, typos: seq<Typo>, rest: seq<Typo>)
    requires k <= |args| && [DASH, DASH] !in args[..k]
    requires Answers(known, args[..k], typos) && Answers(known, args[k..], rest)
    ensures Answers(known, args, typos + rest)
    decreases k
  {
    hide Suggests, NoSuggestion;
    if k == 0 {
      assert args[k..] == args && typos + rest == rest;
    } else {
      assert args[..k][0] == args[0] && args[..k][1..] == args[1..][..k - 1] && args[1..][k - 1..] == args[k..];
      if Answered(known, args[0], typos) {
        AnswersJoin(known, args[1..], k - 1, typos[1..], rest);
        assert (typos + rest)[1..] == typos[1..] + rest;
      } else {
        AnswersJoin(known, args[1..], k - 1, typos, rest);
        NotAnswered(known, args[0], typos + rest);
      }
    }
  }

  lemma NotAnswered(known: seq<Text>, arg: Text, typos: seq<Typo>)
    requires NoSuggestion(known, arg)
    ensures !Answered(known, arg, typos)
  {}

  method FindFlagTypos(known: seq<Text>, args: seq<Text>) returns (typos: seq<Typo>)
    ensures Answers(known, args, typos)
  {
    hide Suggests, NoSuggestion;
    typos := [];
    for k := 0 to |args|
      invariant [DASH, DASH] !in args[..k]
      invariant Answers(known, args[..k], typos)
    {
      var arg := args[k];
      if arg == [DASH, DASH] {
        AnswersJoin(known, args, k, typos, []);
        assert typos + [] == typos;
        return;
      }
      var typo := Suggest(known, arg);
      var more := if typo.Some? then [typo.value] else [];
      OneAnswer(known, arg, more);
      var upTo := args[..k + 1];
      assert upTo[..k] == args[..k] && upTo[k..] == [arg];
      AnswersJoin(known, upTo, k, typos, more);
      typos := typos + more;
    }
    assert args[..|args|] == args;
  }

  lemma OneAnswer(known: seq<Text>, arg: Text, more: seq<Typo>)
    requires arg != [DASH, DASH]
    requires |more| <= 1
    requires more == [] ==> NoSuggestion(known, arg)
    requires more != [] ==> more[0].given == Name(arg) && Suggests(known, arg, more[0].suggestion)
    ensures Answers(known, [arg], more)
  {}
}
