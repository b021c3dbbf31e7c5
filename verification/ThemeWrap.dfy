/**
 Wrapping styled text (packages/cli-ui/src/theme.ts): every line stands alone, and
 shows what the paragraph shows under the same styles.

 Every visible unit is taken to be one column wide.
 */
module ThemeWrap {
  import opened Wrappers
  import opened Utf16

  const ESCAPE: CodeUnit := 27
  const NEWLINE: CodeUnit := 10
  const SPACE: CodeUnit := 32
  const SEMICOLON: CodeUnit := 59
  const BRACKET: CodeUnit := 91
  const LETTER_M: CodeUnit := 109

  // ---- Style sequences ----

  predicate IsParameter(u: CodeUnit) {
    48 <= u <= 57 || u == SEMICOLON
  }

  /** How many parameter units the text starts with. */
  function Parameters(t: Text): (n: nat)
    ensures n <= |t| && (forall i :: 0 <= i < n ==> IsParameter(t[i])) && (n < |t| ==> !IsParameter(t[n]))
  {
    if t == [] || !IsParameter(t[0]) then 0 else 1 + Parameters(t[1..])
  }

  /** The length of the style sequence at the start of the text. */
  function Match(t: Text): (n: Option<nat>)
    ensures n.Some? ==> 3 <= n.value <= |t| && t[0] == ESCAPE
  {
    if |t| < 2 || t[0] != ESCAPE || t[1] != BRACKET then None
    else
      var n := Parameters(t[2..]);
      if |t| > n + 2 && t[n + 2] == LETTER_M then Some(n + 3) else None
  }

  predicate IsBody(body: Text) {
    forall i :: 0 <= i < |body| ==> IsParameter(body[i])
  }

  function Sequence(body: Text): Text {
    [ESCAPE, BRACKET] + body + [LETTER_M]
  }

  /** The text without its style sequences. */
  function Strip(t: Text): Text
    decreases |t|
  {
    if t == [] then []
    else if Match(t).Some? then Strip(t[Match(t).value..])
    else [t[0]] + Strip(t[1..])
  }

  /** Every escape in the text starts a style sequence. */
  predicate Clean(t: Text)
    decreases |t|
  {
    t == [] || (if Match(t).Some? then Clean(t[Match(t).value..]) else t[0] != ESCAPE && Clean(t[1..]))
  }

  // ---- Styles ----

  function Dropped(active: seq<Text>, codes: seq<Text>): seq<Text> {
    if active == [] then []
    else (if Drops(active[0], codes) then [] else [active[0]]) + Dropped(active[1..], codes)
  }

  const C0: Text := [48]
  const C22: Text := [50, 50]
  const C23: Text := [50, 51]
  const C24: Text := [50, 52]
  const C38: Text := [51, 56]
  const C39: Text := [51, 57]
  /** 1 and 2: bold and dim. */
  const INTENSITY: seq<Text> := [[49], [50]]
  const ITALIC: seq<Text> := [[51]]
  const UNDERLINE: seq<Text> := [[52]]
  /** 31 to 36, 90 and 38: the foreground colours. */
  const FOREGROUND: seq<Text> := [[51, 49], [51, 50], [51, 51], [51, 52], [51, 53], [51, 54], [57, 48], C38]

  predicate Drops(code: Text, codes: seq<Text>) {
    code in codes || (C38 in codes && C38 + [SEMICOLON] <= code)
  }

  /** A body that opens a style, rather than closing some. */
  predicate Opens(body: Text) {
    body != [] && body != C0 && body != C22 && body != C23 && body != C24 && body != C39
  }

  /** The open codes after a style sequence. */
  function Applied(active: seq<Text>, body: Text): seq<Text> {
    if body == [] || body == C0 then []
    else if body == C22 then Dropped(active, INTENSITY)
    else if body == C23 then Dropped(active, ITALIC)
    else if body == C24 then Dropped(active, UNDERLINE)
    else if body == C39 then Dropped(active, FOREGROUND)
    else active + [body]
  }

  /** The open codes after a text. */
  function Final(t: Text, active: seq<Text>): seq<Text>
    decreases |t|
  {
    if t == [] then active
    else if Match(t).Some? then Final(t[Match(t).value..], Applied(active, t[2..Match(t).value - 1]))
    else Final(t[1..], active)
  }

  datatype Glyph = Glyph(unit: CodeUnit, codes: seq<Text>)

  /** What a terminal shows of the text: its visible units other than spaces, each under the codes open at it. */
  function Ink(t: Text, active: seq<Text>): seq<Glyph>
    decreases |t|
  {
    if t == [] then []
    else if Match(t).Some? then Ink(t[Match(t).value..], Applied(active, t[2..Match(t).value - 1]))
    else (if t[0] == SPACE then [] else [Glyph(t[0], active)]) + Ink(t[1..], active)
  }

  /** What the lines show, each from a reset terminal. */
  function InkOf(lines: seq<Text>): seq<Glyph> {
    if lines == [] then [] else Ink(lines[0], []) + InkOf(lines[1..])
  }

  // ---- Concatenation ----

  lemma MatchStays(a: Text, b: Text)
    requires a != [] && (Match(a).Some? || a[0] != ESCAPE)
    ensures Match(a + b) == Match(a)
  {
    if Match(a).Some? {
      ParametersStay(a[2..], b);
      assert (a + b)[2..] == a[2..] + b;
    }
  }

  lemma {:induction false} ParametersStay(a: Text, b: Text)
    requires Parameters(a) < |a|
    ensures Parameters(a + b) == Parameters(a)
    decreases |a|
  {
    if IsParameter(a[0]) {
      ParametersStay(a[1..], b);
      assert (a + b)[1..] == a[1..] + b;
    }
  }

  lemma {:induction false} ConcatenateStrip(a: Text, b: Text)
    requires Clean(a)
    ensures Strip(a + b) == Strip(a) + Strip(b)
    decreases |a|
  {
    hide Match;
    if a == [] {
      assert a + b == b;
    } else {
      MatchStays(a, b);
      if Match(a).Some? {
        var n := Match(a).value;
        assert (a + b)[n..] == a[n..] + b;
        ConcatenateStrip(a[n..], b);
      } else {
        assert (a + b)[1..] == a[1..] + b;
        ConcatenateStrip(a[1..], b);
      }
    }
  }

  lemma {:induction false} ConcatenateClean(a: Text, b: Text)
    requires Clean(a)
    ensures Clean(b) ==> Clean(a + b)
    decreases |a|
  {
    hide Match, Strip;
    if a == [] {
      assert a + b == b;
    } else {
      MatchStays(a, b);
      if Match(a).Some? {
        var n := Match(a).value;
        assert (a + b)[n..] == a[n..] + b;
        ConcatenateClean(a[n..], b);
      } else {
        assert (a + b)[1..] == a[1..] + b;
        ConcatenateClean(a[1..], b);
      }
    }
  }

  lemma {:induction false} ConcatenateFinal(a: Text, b: Text, active: seq<Text>)
    requires Clean(a)
    ensures Final(a + b, active) == Final(b, Final(a, active))
    decreases |a|
  {
    hide Match, Applied, Strip, Ink;
    if a == [] {
      assert a + b == b;
    } else {
      MatchStays(a, b);
      if Match(a).Some? {
        var n := Match(a).value;
        assert (a + b)[n..] == a[n..] + b;
        assert (a + b)[2..n - 1] == a[2..n - 1];
        ConcatenateFinal(a[n..], b, Applied(active, a[2..n - 1]));
      } else {
        assert (a + b)[1..] == a[1..] + b;
        ConcatenateFinal(a[1..], b, active);
      }
    }
  }

  lemma {:induction false} ConcatenateInk(a: Text, b: Text, active: seq<Text>)
    requires Clean(a)
    ensures Ink(a + b, active) == Ink(a, active) + Ink(b, Final(a, active))
    decreases |a|
  {
    hide Match, Applied, Strip;
    if a == [] {
      assert a + b == b;
    } else {
      MatchStays(a, b);
      if Match(a).Some? {
        var n := Match(a).value;
        assert (a + b)[n..] == a[n..] + b;
        assert (a + b)[2..n - 1] == a[2..n - 1];
        ConcatenateInk(a[n..], b, Applied(active, a[2..n - 1]));
      } else {
        assert (a + b)[1..] == a[1..] + b;
        ConcatenateInk(a[1..], b, active);
      }
    }
  }

  /** Clean text is read alone: what follows it does not change how it reads. */
  lemma Concatenate(a: Text, b: Text, active: seq<Text>)
    requires Clean(a)
    ensures Strip(a + b) == Strip(a) + Strip(b)
    ensures Final(a + b, active) == Final(b, Final(a, active))
    ensures Ink(a + b, active) == Ink(a, active) + Ink(b, Final(a, active))
    ensures Clean(b) ==> Clean(a + b)
  {
    hide *;
    ConcatenateStrip(a, b);
    ConcatenateClean(a, b);
    ConcatenateFinal(a, b, active);
    ConcatenateInk(a, b, active);
  }

  /** A style sequence shows nothing and applies its body. */
  lemma SequenceReads(body: Text, active: seq<Text>)
    requires IsBody(body)
    ensures Match(Sequence(body)) == Some(|body| + 3)
    ensures Clean(Sequence(body)) && Strip(Sequence(body)) == [] && Ink(Sequence(body), active) == []
    ensures Final(Sequence(body), active) == Applied(active, body)
  {
    var t := Sequence(body);
    assert t[2..] == body + [LETTER_M];
    AllParameters(body);
    assert t[|t|..] == [];
    assert t[2..|t| - 1] == body;
  }

  lemma {:induction false} AllParameters(body: Text)
    requires IsBody(body)
    ensures Parameters(body + [LETTER_M]) == |body|
    decreases |body|
  {
    if body != [] {
      AllParameters(body[1..]);
      assert (body + [LETTER_M])[1..] == body[1..] + [LETTER_M];
    }
  }

  lemma PlainUnit(u: CodeUnit, active: seq<Text>)
    requires u != ESCAPE
    ensures Clean([u]) && Strip([u]) == [u] && Final([u], active) == active
    ensures Ink([u], active) == if u == SPACE then [] else [Glyph(u, active)]
  {
    assert [u][1..] == [];
  }

  // ---- Reopening styles ----

  /** Codes that a style sequence can open. */
  predicate Open(active: seq<Text>) {
    forall i :: 0 <= i < |active| ==> Opens(active[i]) && IsBody(active[i])
  }

  function Reopened(active: seq<Text>): Text {
    if active == [] then [] else Sequence(active[0]) + Reopened(active[1..])
  }

  /** Reopening the codes on a reset terminal brings back exactly the list of open codes. */
  lemma {:induction false} ReopenRestores(before: seq<Text>, active: seq<Text>)
    requires Open(active)
    ensures Clean(Reopened(active)) && Strip(Reopened(active)) == []
    ensures Ink(Reopened(active), before) == []
    ensures Final(Reopened(active), before) == before + active
    decreases |active|
  {
    if active == [] {
      assert before + active == before;
    } else {
      hide Sequence, Clean, Strip, Ink, Final;
      SequenceReads(active[0], before);
      ReopenRestores(before + [active[0]], active[1..]);
      Concatenate(Sequence(active[0]), Reopened(active[1..]), before);
      OneMoreCode(before, active);
    }
  }

  lemma OneMoreCode(before: seq<Text>, active: seq<Text>)
    requires active != [] && Opens(active[0])
    ensures Applied(before, active[0]) == before + [active[0]]
    ensures before + [active[0]] + active[1..] == before + active
  {}

  lemma {:induction false} DropKeepsOpen(active: seq<Text>, codes: seq<Text>)
    requires Open(active)
    ensures Open(Dropped(active, codes))
    decreases |active|
  {
    if active != [] { DropKeepsOpen(active[1..], codes); }
  }

  lemma ApplyKeepsOpen(active: seq<Text>, body: Text)
    requires Open(active)
    requires IsBody(body)
    ensures Open(Applied(active, body))
  {
    DropKeepsOpen(active, INTENSITY);
    DropKeepsOpen(active, ITALIC);
    DropKeepsOpen(active, UNDERLINE);
    DropKeepsOpen(active, FOREGROUND);
  }

  lemma {:induction false} FinalIsOpen(t: Text, active: seq<Text>)
    requires Open(active)
    ensures Open(Final(t, active))
    decreases |t|
  {
    hide Open, Applied;
    if t != [] {
      if Match(t).Some? {
        var body := t[2..Match(t).value - 1];
        assert forall i :: 0 <= i < |body| ==> body[i] == t[2..][i];
        ApplyKeepsOpen(active, body);
        FinalIsOpen(t[Match(t).value..], Applied(active, body));
      } else {
        FinalIsOpen(t[1..], active);
      }
    }
  }

  // ---- Words ----

  /** The parts with more text before the first. */
  function Prepend(head: Text, parts: seq<Text>): (r: seq<Text>)
    requires parts != []
    ensures r != []
  {
    [head + parts[0]] + parts[1..]
  }

  /** `String.prototype.split` at a single unit. */
  function Split(t: Text, separator: CodeUnit): (parts: seq<Text>)
    ensures parts != []
    decreases |t|
  {
    if t == [] then [[]]
    else if t[0] == separator then [[]] + Split(t[1..], separator)
    else Prepend([t[0]], Split(t[1..], separator))
  }

  function Joined(parts: seq<Text>, separator: CodeUnit): Text {
    if parts == [] then []
    else if |parts| == 1 then parts[0]
    else parts[0] + [separator] + Joined(parts[1..], separator)
  }

  function StripAll(lines: seq<Text>): (r: seq<Text>)
    ensures |r| == |lines|
  {
    if lines == [] then [] else [Strip(lines[0])] + StripAll(lines[1..])
  }

  predicate AllClean(parts: seq<Text>) {
    forall i :: 0 <= i < |parts| ==> Clean(parts[i])
  }

  /** No part has a separator. */
  predicate Apart(parts: seq<Text>, separator: CodeUnit) {
    forall i :: 0 <= i < |parts| ==> separator !in parts[i]
  }

  lemma JoinedPrepend(head: Text, parts: seq<Text>, separator: CodeUnit)
    requires parts != []
    ensures Joined(Prepend(head, parts), separator) == head + Joined(parts, separator)
  {
    assert Prepend(head, parts)[1..] == parts[1..];
    if |parts| > 1 {
      assert (head + parts[0]) + [separator] + Joined(parts[1..], separator)
          == head + (parts[0] + [separator] + Joined(parts[1..], separator));
    }
  }

  lemma {:induction false} SplitJoins(t: Text, separator: CodeUnit)
    ensures Joined(Split(t, separator), separator) == t
    ensures Apart(Split(t, separator), separator)
    decreases |t|
  {
    if t != [] {
      var rest := Split(t[1..], separator);
      SplitJoins(t[1..], separator);
      if t[0] == separator {
        assert ([[]] + rest)[1..] == rest;
        assert [] + [separator] + t[1..] == t;
      } else {
        JoinedPrepend([t[0]], rest, separator);
        assert [t[0]] + t[1..] == t;
      }
    }
  }

  lemma PrependTwice(a: Text, b: Text, parts: seq<Text>)
    requires parts != []
    ensures Prepend(a, Prepend(b, parts)) == Prepend(a + b, parts)
  {
    assert a + (b + parts[0]) == (a + b) + parts[0];
  }

  lemma {:induction false} SplitAfter(head: Text, t: Text, separator: CodeUnit)
    requires separator !in head
    ensures Split(head + t, separator) == Prepend(head, Split(t, separator))
    decreases |head|
  {
    if head == [] {
      assert head + t == t;
      assert [] + Split(t, separator)[0] == Split(t, separator)[0];
    } else {
      SplitAfter(head[1..], t, separator);
      assert (head + t)[1..] == head[1..] + t;
      PrependTwice([head[0]], head[1..], Split(t, separator));
      assert [head[0]] + head[1..] == head;
    }
  }

  lemma StripPrepend(head: Text, parts: seq<Text>)
    requires parts != [] && Clean(head) && AllClean(parts)
    ensures AllClean(Prepend(head, parts))
    ensures StripAll(Prepend(head, parts)) == Prepend(Strip(head), StripAll(parts))
  {
    hide Clean, Strip;
    Concatenate(head, parts[0], []);
  }

  /** What splitting does to clean text. */
  ghost predicate SplitsClean(t: Text, separator: CodeUnit) {
    AllClean(Split(t, separator)) && StripAll(Split(t, separator)) == Split(Strip(t), separator)
  }

  lemma SplitCleanAfter(head: Text, t: Text, separator: CodeUnit)
    requires Clean(head) && separator !in head && separator !in Strip(head)
    requires SplitsClean(t, separator)
    ensures SplitsClean(head + t, separator)
  {
    hide Clean, Strip, AllClean, StripAll, Split;
    SplitAfter(head, t, separator);
    Concatenate(head, t, []);
    SplitAfter(Strip(head), Strip(t), separator);
    StripPrepend(head, Split(t, separator));
  }

  /** Separators are outside style sequences, so the parts of clean text are clean and stripping commutes with splitting. */
  lemma {:induction false} SplitClean(t: Text, separator: CodeUnit)
    requires separator == SPACE || separator == NEWLINE
    requires Clean(t)
    ensures SplitsClean(t, separator)
    decreases |t|
  {
    hide SplitsClean, Split, Strip;
    if t == [] {
      SplitCleanEmpty(separator);
    } else if Match(t).Some? {
      var n := Match(t).value;
      SplitClean(t[n..], separator);
      MatchAlone(t);
      SplitCleanAfter(t[..n], t[n..], separator);
      assert t == t[..n] + t[n..];
    } else {
      SplitClean(t[1..], separator);
      PlainUnit(t[0], []);
      if t[0] == separator {
        SplitCleanAt(t, separator);
      } else {
        SplitCleanAfter([t[0]], t[1..], separator);
        assert t == [t[0]] + t[1..];
      }
    }
  }

  lemma SplitCleanEmpty(separator: CodeUnit)
    ensures SplitsClean([], separator)
  {
    assert Split([], separator) == [[]] && Split(Strip([]), separator) == [[]];
  }

  lemma SplitCleanAt(t: Text, separator: CodeUnit)
    requires t != [] && t[0] == separator && separator != ESCAPE
    requires SplitsClean(t[1..], separator)
    ensures SplitsClean(t, separator)
  {
    var rest := Split(t[1..], separator);
    assert Strip(t) == [separator] + Strip(t[1..]);
    assert Strip(t)[1..] == Strip(t[1..]);
    assert ([[]] + rest)[1..] == rest;
    assert Strip([]) == [];
  }

  /** A match is a clean text of its own, which shows nothing. */
  lemma MatchAlone(t: Text)
    requires Match(t).Some?
    ensures var n := Match(t).value;
            && t[..n] == Sequence(t[2..n - 1]) && IsBody(t[2..n - 1])
            && Clean(t[..n]) && Strip(t[..n]) == [] && SPACE !in t[..n] && NEWLINE !in t[..n]
  {
    var n := Match(t).value;
    var body := t[2..n - 1];
    assert forall i :: 0 <= i < |body| ==> body[i] == t[2..][i];
    assert t[..n] == Sequence(body) by { assert t[2..][n - 3] == t[n - 1]; }
    SequenceReads(body, []);
    assert forall i :: 0 <= i < n ==> t[..n][i] == Sequence(body)[i];
  }

  // ---- Greedy wrapping of plain words ----

  /** Finished lines and the line that words are being added to. */
  datatype Layout = Layout(lines: seq<Text>, line: Text)

  /** A word on a fresh line, cut into whole lines while it is too long for one. */
  function Filled(lines: seq<Text>, word: Text, width: nat): Layout
    requires width > 0
    decreases |word|
  {
    if |word| <= width then Layout(lines, word) else Filled(lines + [word[..width]], word[width..], width)
  }

  function Placed(l: Layout, word: Text, width: nat): Layout
    requires width > 0
  {
    if l.line == [] then Filled(l.lines, word, width)
    else if |l.line| + 1 + |word| <= width then Layout(l.lines, l.line + [SPACE] + word)
    else Filled(l.lines + [l.line], word, width)
  }

  function PlainLayout(words: seq<Text>, width: nat): Layout
    requires width > 0
  {
    if words == [] then Layout([], []) else Placed(PlainLayout(words[..|words| - 1], width), words[|words| - 1], width)
  }

  function Finished(l: Layout): seq<Text> {
    if l.line == [] then l.lines else l.lines + [l.line]
  }

  /** The words of a line: what it has between spaces. */
  function Pieces(t: Text): seq<Text> {
    NonEmpty(Split(t, SPACE))
  }

  function NonEmpty(parts: seq<Text>): seq<Text> {
    if parts == [] then [] else (if parts[0] == [] then [] else [parts[0]]) + NonEmpty(parts[1..])
  }

  function PiecesOf(lines: seq<Text>): seq<Text> {
    if lines == [] then [] else PiecesOf(lines[..|lines| - 1]) + Pieces(lines[|lines| - 1])
  }

  /** A word as it may appear: whole if it fits a line, otherwise in pieces that fill lines. */
  function Chunks(word: Text, width: nat): seq<Text>
    requires width > 0
    decreases |word|
  {
    if word == [] then [] else if |word| <= width then [word] else [word[..width]] + Chunks(word[width..], width)
  }

  function AllChunks(words: seq<Text>, width: nat): seq<Text>
    requires width > 0
  {
    if words == [] then [] else AllChunks(words[..|words| - 1], width) + Chunks(words[|words| - 1], width)
  }

  function FirstPiece(t: Text): Text {
    if t == [] || t[0] == SPACE then [] else [t[0]] + FirstPiece(t[1..])
  }

  /** The next text would not have fitted on the line before it. */
  predicate Breaks(lines: seq<Text>, next: nat, width: nat) {
    lines == [] || |lines[|lines| - 1]| + 1 + next > width
  }

  /** Every line fits, holds something, and could not have taken the first word of the next. */
  predicate Tight(lines: seq<Text>, width: nat) {
    && (forall i :: 0 <= i < |lines| ==> 0 < |lines[i]| <= width)
    && (forall i :: 0 < i < |lines| ==> |lines[i - 1]| + 1 + |FirstPiece(lines[i])| > width)
  }

  /** The lines hold exactly the words, in order, none broken that fits a line, with no line broken early. */
  ghost predicate Greedy(lines: seq<Text>, words: seq<Text>, width: nat)
    requires width > 0
  {
    Tight(lines, width) && PiecesOf(lines) == AllChunks(words, width)
  }

  ghost predicate GreedySoFar(l: Layout, chunks: seq<Text>, width: nat) {
    && Tight(l.lines, width) && |l.line| <= width
    && Breaks(l.lines, |FirstPiece(l.line)|, width)
    && PiecesOf(l.lines) + Pieces(l.line) == chunks
  }

  lemma {:induction false} SplitAtSpace(a: Text, b: Text)
    ensures Split(a + [SPACE] + b, SPACE) == Split(a, SPACE) + Split(b, SPACE)
    decreases |a|
  {
    var t := a + [SPACE] + b;
    if a == [] {
      assert t[1..] == b;
    } else {
      hide Prepend;
      SplitAtSpace(a[1..], b);
      assert t[1..] == a[1..] + [SPACE] + b;
      PrependConcat([a[0]], Split(a[1..], SPACE), Split(b, SPACE));
    }
  }

  lemma PrependConcat(head: Text, a: seq<Text>, b: seq<Text>)
    requires a != []
    ensures Prepend(head, a + b) == Prepend(head, a) + b
    ensures [[]] + (a + b) == ([[]] + a) + b
  {}

  lemma {:induction false} NonEmptyConcat(a: seq<Text>, b: seq<Text>)
    ensures NonEmpty(a + b) == NonEmpty(a) + NonEmpty(b)
    decreases |a|
  {
    if a == [] {
      assert a + b == b;
    } else {
      NonEmptyConcat(a[1..], b);
      assert (a + b)[1..] == a[1..] + b;
      var head := if a[0] == [] then [] else [a[0]];
      assert head + (NonEmpty(a[1..]) + NonEmpty(b)) == (head + NonEmpty(a[1..])) + NonEmpty(b);
    }
  }

  lemma PiecesOfWord(word: Text)
    requires SPACE !in word
    ensures Pieces(word) == if word == [] then [] else [word]
  {
    SplitAfter(word, [], SPACE);
    assert word + [] == word;
    var parts := Split(word, SPACE);
    assert parts == [word];
    assert NonEmpty(parts[1..]) == [];
  }

  lemma {:induction false} FirstPieceIs(word: Text, more: Text)
    requires SPACE !in word
    ensures FirstPiece(word) == word
    ensures word != [] ==> FirstPiece(word + [SPACE] + more) == word
    decreases |word|
  {
    if word != [] {
      FirstPieceIs(word[1..], more);
      assert (word + [SPACE] + more)[1..] == word[1..] + [SPACE] + more;
      assert word[1..] == [] ==> ([SPACE] + more)[0] == SPACE;
    }
  }

  lemma {:induction false} FirstPieceStays(line: Text, more: Text)
    ensures FirstPiece(line + [SPACE] + more) == FirstPiece(line)
    decreases |line|
  {
    if line != [] {
      FirstPieceStays(line[1..], more);
      assert (line + [SPACE] + more)[1..] == line[1..] + [SPACE] + more;
    }
  }

  lemma OneMoreLine(lines: seq<Text>, line: Text, width: nat)
    requires Tight(lines, width) && Breaks(lines, |FirstPiece(line)|, width) && 0 < |line| <= width
    ensures Tight(lines + [line], width)
    ensures PiecesOf(lines + [line]) == PiecesOf(lines) + Pieces(line)
  {
    hide Pieces, FirstPiece;
    assert (lines + [line])[..|lines|] == lines;
  }

  /** A word after lines that it does not fit behind. */
  lemma {:induction false} FilledIsGreedy(lines: seq<Text>, word: Text, width: nat)
    requires width > 0 && SPACE !in word && Tight(lines, width)
    requires Breaks(lines, if |word| <= width then |word| else width, width)
    ensures GreedySoFar(Filled(lines, word, width), PiecesOf(lines) + Chunks(word, width), width)
    decreases |word|
  {
    hide Pieces, FirstPiece, PiecesOf, Tight;
    if |word| <= width {
      PiecesOfWord(word);
      FirstPieceIs(word, []);
    } else {
      var (chunk, rest) := (word[..width], word[width..]);
      PiecesOfWord(chunk);
      FirstPieceIs(chunk, []);
      var more := lines + [chunk];
      OneMoreLine(lines, chunk, width);
      FilledIsGreedy(more, rest, width);
      assert PiecesOf(lines) + [chunk] + Chunks(rest, width) == PiecesOf(lines) + ([chunk] + Chunks(rest, width));
    }
  }

  lemma PlacedIsGreedy(l: Layout, word: Text, chunks: seq<Text>, width: nat)
    requires width > 0 && SPACE !in word && GreedySoFar(l, chunks, width)
    ensures GreedySoFar(Placed(l, word, width), chunks + Chunks(word, width), width)
  {
    hide Pieces, FirstPiece, Filled;
    PiecesOfWord([]);
    FirstPieceIs([], []);
    if l.line == [] {
      FilledIsGreedy(l.lines, word, width);
      assert PiecesOf(l.lines) + [] == chunks;
    } else if |l.line| + 1 + |word| <= width {
      PiecesJoin(l.line, word);
      FirstPieceStays(l.line, word);
      PiecesOfWord(word);
      assert PiecesOf(l.lines) + (Pieces(l.line) + Pieces(word)) == chunks + Pieces(word);
    } else {
      OneMoreLine(l.lines, l.line, width);
      FilledIsGreedy(l.lines + [l.line], word, width);
    }
  }

  lemma PiecesJoin(line: Text, word: Text)
    ensures Pieces(line + [SPACE] + word) == Pieces(line) + Pieces(word)
  {
    SplitAtSpace(line, word);
    NonEmptyConcat(Split(line, SPACE), Split(word, SPACE));
  }

  lemma {:induction false} LayoutIsGreedy(words: seq<Text>, width: nat)
    requires width > 0 && Apart(words, SPACE)
    ensures GreedySoFar(PlainLayout(words, width), AllChunks(words, width), width)
    decreases |words|
  {
    if words == [] {
      PiecesOfWord([]);
    } else {
      hide GreedySoFar, Placed, Chunks;
      var init := words[..|words| - 1];
      LayoutIsGreedy(init, width);
      PlacedIsGreedy(PlainLayout(init, width), words[|words| - 1], AllChunks(init, width), width);
    }
  }

  /** Plain wrapping is greedy. */
  lemma WrapIsGreedy(words: seq<Text>, width: nat)
    requires width > 0 && Apart(words, SPACE)
    ensures Greedy(Finished(PlainLayout(words, width)), words, width)
  {
    hide Pieces, AllChunks, PlainLayout;
    LayoutIsGreedy(words, width);
    PiecesOfWord([]);
    var l := PlainLayout(words, width);
    if l.line != [] { OneMoreLine(l.lines, l.line, width); }
    assert PiecesOf(l.lines) + [] == PiecesOf(l.lines);
  }

  // ---- Wrapping styled text ----

  /** The bodies of the style sequences in a text, in order. */
  function Bodies(t: Text): (bodies: seq<Text>)
    decreases |t|
  {
    if t == [] then []
    else if Match(t).Some? then [t[2..Match(t).value - 1]] + Bodies(t[Match(t).value..])
    else Bodies(t[1..])
  }

  function AppliedAll(active: seq<Text>, bodies: seq<Text>): seq<Text>
    decreases |bodies|
  {
    if bodies == [] then active else AppliedAll(Applied(active, bodies[0]), bodies[1..])
  }

  lemma {:induction false} BodiesApply(t: Text, active: seq<Text>)
    ensures AppliedAll(active, Bodies(t)) == Final(t, active)
    decreases |t|
  {
    hide Match, Applied;
    if t != [] {
      if Match(t).Some? {
        var n := Match(t).value;
        assert Bodies(t)[0] == t[2..n - 1] && Bodies(t)[1..] == Bodies(t[n..]);
        BodiesApply(t[n..], Applied(active, t[2..n - 1]));
      } else {
        BodiesApply(t[1..], active);
      }
    }
  }

  /** Removes the codes in place, from the last to the first. */
  method Drop(active: seq<Text>, codes: seq<Text>) returns (kept: seq<Text>)
    ensures kept == Dropped(active, codes)
  {
    kept := active;
    var index := |active|;
    while index > 0
      invariant 0 <= index <= |active|
      invariant kept == active[..index] + Dropped(active[index..], codes)
    {
      index := index - 1;
      assert active[index..][1..] == active[index + 1..];
      if Drops(kept[index], codes) {
        kept := kept[..index] + kept[index + 1..];
      }
    }
  }

  /** `applySgr`. */
  method ApplySgr(active: seq<Text>, body: Text) returns (r: seq<Text>)
    ensures r == Applied(active, body)
  {
    if body == [] || body == C0 { r := []; }
    else if body == C22 { r := Drop(active, INTENSITY); }
    else if body == C23 { r := Drop(active, ITALIC); }
    else if body == C24 { r := Drop(active, UNDERLINE); }
    else if body == C39 { r := Drop(active, FOREGROUND); }
    else { r := active + [body]; }
  }

  /** A line with its styles closed, if any are open. */
  function Closed(line: Text, active: seq<Text>): Text {
    if |active| > 0 then line + Sequence(C0) else line
  }

  /** Every line leaves the terminal without open codes. */
  predicate AllReset(lines: seq<Text>) {
    forall i :: 0 <= i < |lines| ==> Final(lines[i], []) == []
  }

  /**
   The state of wrapping after the text `done`: what it shows is on the lines, its
   open codes are the line's open codes, and the visible text is laid out as plain
   text would be.
   */
  ghost predicate Laid(lines: seq<Text>, active: seq<Text>, line: Text, lineWidth: nat, done: Text, l: Layout) {
    && Clean(done) && Clean(line)
    && active == Final(done, []) == Final(line, [])
    && InkOf(lines) + Ink(line, []) == Ink(done, []) && AllReset(lines)
    && StripAll(lines) == l.lines && Strip(line) == l.line && lineWidth == |l.line|
  }

  lemma {:induction false} OneMoreInk(lines: seq<Text>, line: Text)
    ensures InkOf(lines + [line]) == InkOf(lines) + Ink(line, [])
    ensures StripAll(lines + [line]) == StripAll(lines) + [Strip(line)]
    decreases |lines|
  {
    hide Ink, Strip;
    if lines == [] {
      assert [line][1..] == [];
    } else {
      OneMoreInk(lines[1..], line);
      assert (lines + [line])[1..] == lines[1..] + [line];
      assert Ink(lines[0], []) + (InkOf(lines[1..]) + Ink(line, [])) == InkOf(lines) + Ink(line, []);
    }
  }

  lemma ClosedShows(line: Text, active: seq<Text>)
    requires Clean(line)
    ensures Ink(Closed(line, active), []) == Ink(line, []) && Strip(Closed(line, active)) == Strip(line)
    ensures active == Final(line, []) ==> Final(Closed(line, active), []) == []
  {
    hide Clean, Ink, Strip, Final, Sequence;
    SequenceReads(C0, Final(line, []));
    Concatenate(line, Sequence(C0), []);
  }

  lemma EmptyReads(active: seq<Text>)
    ensures Clean([]) && Strip([]) == [] && Ink([], active) == [] && Final([], active) == active
  {}

  lemma LaidEndLine(lines: seq<Text>, active: seq<Text>, line: Text, lineWidth: nat, done: Text, l: Layout)
    requires Laid(lines, active, line, lineWidth, done, l)
    ensures Laid(lines + [Closed(line, active)], active, Reopened(active), 0, done, Layout(l.lines + [l.line], []))
  {
    hide Clean, Ink, Strip, Final, Closed, InkOf, StripAll, Reopened;
    EmptyReads([]);
    assert Open([]);
    FinalIsOpen(done, []);
    ReopenRestores([], active);
    assert [] + active == active;
    ClosedShows(line, active);
    OneMoreInk(lines, Closed(line, active));
    assert Ink(done, []) + [] == Ink(done, []);
  }

  /** Text that goes both on the line and into what is done. */
  lemma LaidText(lines: seq<Text>, active: seq<Text>, line: Text, lineWidth: nat, done: Text, l: Layout, t: Text)
    requires Laid(lines, active, line, lineWidth, done, l) && Clean(t)
    ensures Laid(lines, Final(t, active), line + t, lineWidth + |Strip(t)|, done + t, l.(line := l.line + Strip(t)))
  {
    hide Clean, Ink, Strip, Final, InkOf, StripAll;
    Concatenate(line, t, []);
    Concatenate(done, t, []);
    assert InkOf(lines) + (Ink(line, []) + Ink(t, active)) == Ink(done, []) + Ink(t, active);
  }

  /** A space may stay behind at the end of a line. */
  lemma LaidSkipSpace(lines: seq<Text>, active: seq<Text>, line: Text, lineWidth: nat, done: Text, l: Layout)
    requires Laid(lines, active, line, lineWidth, done, l)
    ensures Laid(lines, active, line, lineWidth, done + [SPACE], l)
  {
    hide Clean, Ink, Strip, Final, InkOf, StripAll;
    PlainUnit(SPACE, active);
    Concatenate(done, [SPACE], []);
    assert Ink(done, []) + [] == Ink(done, []);
  }

  lemma LaidSpace(lines: seq<Text>, active: seq<Text>, line: Text, lineWidth: nat, done: Text, l: Layout)
    requires Laid(lines, active, line, lineWidth, done, l)
    ensures Laid(lines, active, line + [SPACE], lineWidth + 1, done + [SPACE], l.(line := l.line + [SPACE]))
  {
    hide Clean, Ink, Strip, Final, InkOf, StripAll;
    PlainUnit(SPACE, active);
    LaidText(lines, active, line, lineWidth, done, l, [SPACE]);
  }

  /** One paragraph being wrapped: the source's local variables. */
  class Wrapping {
    const width: nat
    var lines: seq<Text>
    var active: seq<Text>
    var line: Text
    var lineWidth: nat

    ghost predicate LaidOut(done: Text, l: Layout)
      reads this
    {
      width > 0 && Laid(lines, active, line, lineWidth, done, l) && lineWidth == |l.line|
    }

    constructor (width: nat)
      requires width > 0
      ensures this.width == width && LaidOut([], Layout([], []))
    {
      this.width := width;
      lines, active, line, lineWidth := [], [], [], 0;
    }

    method EndLine(ghost done: Text, ghost l: Layout)
      requires LaidOut(done, l)
      modifies this
      ensures LaidOut(done, Layout(l.lines + [l.line], []))
    {
      hide Laid;
      LaidEndLine(lines, active, line, lineWidth, done, l);
      lines := lines + [Closed(line, active)];
      line := Reopened(active);
      lineWidth := 0;
    }

    /** A word that fits a line, on a line that has room for it. */
    method AddWhole(word: Text, ghost done: Text, ghost l: Layout)
      requires Clean(word) && LaidOut(done, l)
      modifies this
      ensures LaidOut(done + word, l.(line := l.line + Strip(word)))
    {
      hide Laid;
      LaidText(lines, active, line, lineWidth, done, l, word);
      var bodies := Bodies(word);
      ghost var start := active;
      BodiesApply(word, start);
      for i := 0 to |bodies|
        invariant AppliedAll(active, bodies[i..]) == Final(word, start)
        invariant lines == old(lines) && line == old(line) && lineWidth == old(lineWidth)
      {
        assert bodies[i..][1..] == bodies[i + 1..];
        active := ApplySgr(active, bodies[i]);
      }
      line := line + word;
      lineWidth := lineWidth + |Strip(word)|;
    }

    /** A word wider than the line, split between units. */
    method AddSplit(word: Text, ghost done: Text, ghost l: Layout)
      requires Clean(word) && LaidOut(done, l) && l.line == []
      modifies this
      ensures LaidOut(done + word, Filled(l.lines, Strip(word), width))
    {
      hide Laid, Clean, Strip;
      var index := 0;
      ghost var now := l;
      assert word[..0] == [] && word[0..] == word && done + [] == done;
      assert [] + Strip(word) == Strip(word);
      while index < |word|
        invariant Midway(word, index, done, l, now)
      {
        ghost var soFar := done + word[..index];
        var escape := Match(word[index..]);
        if escape.Some? {
          AddSequence(word, index, escape.value, soFar, now);
          index := index + escape.value;
        } else {
          now := AddUnit(word, index, soFar, now);
          index := index + 1;
        }
        assert soFar + word[|soFar| - |done|..index] == done + word[..index];
      }
      assert word[..|word|] == word && word[|word|..] == [];
      EmptyReads([]);
      assert now.line + [] == now.line;
    }

    /** Splitting the word has reached `index`, and what is left of it will be laid out as in the whole. */
    ghost predicate Midway(word: Text, index: nat, done: Text, start: Layout, now: Layout)
      reads this
    {
      && index <= |word| && Clean(word[index..]) && LaidOut(done + word[..index], now) && |now.line| <= width
      && Filled(now.lines, now.line + Strip(word[index..]), width) == Filled(start.lines, Strip(word), width)
    }

    /** A style sequence at `index`. */
    method AddSequence(word: Text, index: nat, n: nat, ghost soFar: Text, ghost now: Layout)
      requires index < |word| && Match(word[index..]) == Some(n) && Clean(word[index..])
      requires LaidOut(soFar, now)
      modifies this
      ensures LaidOut(soFar + word[index..index + n], now)
      ensures Clean(word[index + n..]) && Strip(word[index + n..]) == Strip(word[index..])
    {
      hide Laid;
      var t := word[index..];
      assert word[index..index + n] == t[..n] && word[index + n..] == t[n..];
      MatchAlone(t);
      SequenceReads(t[2..n - 1], active);
      LaidText(lines, active, line, lineWidth, soFar, now, t[..n]);
      assert now.line + [] == now.line;
      active := ApplySgr(active, t[2..n - 1]);
      line := line + t[..n];
    }

    /** A visible unit at `index`, on the next line if this one is full. */
    method AddUnit(word: Text, index: nat, ghost soFar: Text, ghost now: Layout) returns (ghost next: Layout)
      requires index < |word| && Match(word[index..]).None? && Clean(word[index..])
      requires LaidOut(soFar, now) && |now.line| <= width
      modifies this
      ensures LaidOut(soFar + word[index..index + 1], next) && |next.line| <= width
      ensures Clean(word[index + 1..])
      ensures Filled(next.lines, next.line + Strip(word[index + 1..]), width) == Filled(now.lines, now.line + Strip(word[index..]), width)
    {
      hide Laid, Clean, Strip;
      var unit := word[index];
      ghost var rest := Strip(word[index + 1..]);
      UnitAhead(word[index..]);
      assert word[index..][1..] == word[index + 1..] && word[index..index + 1] == [unit];
      next := now;
      if lineWidth >= width {
        LineIsFull(now, [unit] + rest, width);
        EndLine(soFar, now);
        next := Layout(now.lines + [now.line], []);
        assert [] + ([unit] + rest) == [unit] + rest;
      }
      assert next.line + ([unit] + rest) == next.line + [unit] + rest;
      PlainUnit(unit, active);
      LaidText(lines, active, line, lineWidth, soFar, next, [unit]);
      next := next.(line := next.line + [unit]);
      line := line + [unit];
      lineWidth := lineWidth + 1;
    }

    /** One turn of the loop over words. All words but the first have a space before them. */
    method AddWord(word: Text, ghost done: Text, ghost separator: Text, ghost l: Layout)
      requires Clean(word) && LaidOut(done, l) && |l.line| <= width
      requires separator == [SPACE] || (separator == [] && l.line == [])
      modifies this
      ensures LaidOut(done + separator + word, Placed(l, Strip(word), width))
      ensures |Placed(l, Strip(word), width).line| <= width
    {
      hide Laid, Clean, Strip;
      var wordWidth := |Strip(word)|;
      ghost var before := done + separator;
      ghost var now := l;
      assert done + [] == done;
      if lineWidth > 0 {
        if lineWidth + 1 + wordWidth <= width {
          LaidSpace(lines, active, line, lineWidth, done, l);
          line := line + [SPACE];
          lineWidth := lineWidth + 1;
          now := l.(line := l.line + [SPACE]);
        } else {
          EndLine(done, l);
          now := Layout(l.lines + [l.line], []);
          LaidSkipSpace(lines, active, line, lineWidth, done, now);
        }
      } else {
        LaidSkipSpace(lines, active, line, lineWidth, done, now);
      }
      FilledFits(now.lines, Strip(word), width);
      if wordWidth <= width {
        AddWhole(word, before, now);
        assert [] + Strip(word) == Strip(word);
      } else {
        AddSplit(word, before, now);
      }
    }
  }

  lemma UnitAhead(t: Text)
    requires t != [] && Clean(t) && Match(t).None?
    ensures t[0] != ESCAPE && Clean(t[1..]) && Strip(t) == [t[0]] + Strip(t[1..])
  {}

  lemma LineIsFull(now: Layout, rest: Text, width: nat)
    requires width > 0 && |now.line| == width && rest != []
    ensures Filled(now.lines, now.line + rest, width) == Filled(now.lines + [now.line], rest, width)
  {
    assert (now.line + rest)[..width] == now.line && (now.line + rest)[width..] == rest;
  }

  lemma {:induction false} FilledFits(lines: seq<Text>, word: Text, width: nat)
    requires width > 0
    ensures |Filled(lines, word, width).line| <= width
    decreases |word|
  {
    if |word| > width { FilledFits(lines + [word[..width]], word[width..], width); }
  }

  lemma {:induction false} NothingShows(t: Text, active: seq<Text>)
    requires Strip(t) == []
    ensures Ink(t, active) == []
    decreases |t|
  {
    if t != [] && Match(t).Some? {
      NothingShows(t[Match(t).value..], Applied(active, t[2..Match(t).value - 1]));
    }
  }

  lemma {:induction false} StripAllAt(lines: seq<Text>, i: nat)
    requires i < |lines|
    ensures StripAll(lines)[i] == Strip(lines[i])
    decreases i
  {
    if i > 0 { StripAllAt(lines[1..], i - 1); }
  }

  /** The visible lines of a paragraph, in terms of its visible text alone. */
  function PlainWrap(visible: Text, width: nat): seq<Text>
    requires width > 0
  {
    if |visible| <= width then [visible] else Finished(PlainLayout(Split(visible, SPACE), width))
  }

  /**
   A block of lines for a paragraph: styles do not influence where lines break, and
   the lines, each from a reset terminal, show what the paragraph shows. They all
   close their styles exactly when the paragraph is wrapped or closes its own: a
   paragraph that fits is passed on as it is.
   */
  ghost predicate Wrapped(paragraph: Text, block: seq<Text>, width: nat)
    requires width > 0
  {
    && StripAll(block) == PlainWrap(Strip(paragraph), width) && InkOf(block) == Ink(paragraph, [])
    && (AllReset(block) <==> |Strip(paragraph)| > width || Final(paragraph, []) == [])
  }

  method WrapParagraph(paragraph: Text, width: nat) returns (block: seq<Text>)
    requires width > 0 && Clean(paragraph)
    ensures Wrapped(paragraph, block, width)
  {
    hide Clean, Strip, Ink, Split, PlainLayout, Laid;
    if |Strip(paragraph)| <= width {
      OneMoreInk([], paragraph);
      assert [] + [paragraph] == [paragraph];
      return [paragraph];
    }
    var words := Split(paragraph, SPACE);
    ghost var visible := Split(Strip(paragraph), SPACE);
    SplitClean(paragraph, SPACE);
    SplitJoins(paragraph, SPACE);
    var w := new Wrapping(width);
    ghost var done: Text := [];
    ghost var l := Layout([], []);
    LayoutStep(visible, 0, width);
    for k := 0 to |words|
      invariant w.width == width && w.LaidOut(done, l) && |l.line| <= width
      invariant l == PlainLayout(visible[..k], width)
      invariant k == 0 ==> done == [] && l.line == []
      invariant k < |words| ==> paragraph == done + (if k == 0 then [] else [SPACE]) + Joined(words[k..], SPACE)
      invariant k == |words| ==> paragraph == done
    {
      ghost var separator: Text := if k == 0 then [] else [SPACE];
      StripAllAt(words, k);
      w.AddWord(words[k], done, separator, l);
      LayoutStep(visible, k, width);
      NextWord(words, k, done + separator);
      done, l := done + separator + words[k], Placed(l, Strip(words[k]), width);
    }
    assert visible[..|words|] == visible;
    block := w.lines;
    LineShows(w.lines, w.active, w.line, w.lineWidth, paragraph, l);
    if |Strip(w.line)| > 0 {
      block := block + [Closed(w.line, w.active)];
    }
  }

  lemma LayoutStep(visible: seq<Text>, k: nat, width: nat)
    requires width > 0 && k <= |visible|
    ensures PlainLayout(visible[..0], width) == Layout([], [])
    ensures k < |visible| ==> PlainLayout(visible[..k + 1], width) == Placed(PlainLayout(visible[..k], width), visible[k], width)
  {
    if k < |visible| { assert visible[..k + 1][..k] == visible[..k]; }
  }

  lemma NextWord(words: seq<Text>, k: nat, before: Text)
    requires k < |words|
    ensures k + 1 == |words| ==> before + Joined(words[k..], SPACE) == before + words[k]
    ensures k + 1 < |words| ==> before + Joined(words[k..], SPACE) == before + words[k] + [SPACE] + Joined(words[k + 1..], SPACE)
  {
    assert words[k..][1..] == words[k + 1..];
    if k + 1 < |words| {
      assert before + (words[k] + [SPACE] + Joined(words[k + 1..], SPACE)) == before + words[k] + [SPACE] + Joined(words[k + 1..], SPACE);
    }
  }

  /** The last line is added unless it shows nothing. */
  lemma LineShows(lines: seq<Text>, active: seq<Text>, line: Text, lineWidth: nat, done: Text, l: Layout)
    requires Laid(lines, active, line, lineWidth, done, l)
    ensures Strip(line) == l.line
    ensures AllReset(lines) && AllReset(lines + [Closed(line, active)])
    ensures Strip(line) == [] ==> InkOf(lines) == Ink(done, []) && StripAll(lines) == Finished(l)
    ensures Strip(line) != [] ==>
              InkOf(lines + [Closed(line, active)]) == Ink(done, []) && StripAll(lines + [Closed(line, active)]) == Finished(l)
  {
    hide Clean, Ink, Strip, Final;
    if Strip(line) == [] { NothingShows(line, []); }
    assert InkOf(lines) + [] == InkOf(lines);
    ClosedShows(line, active);
    OneMoreInk(lines, Closed(line, active));
  }

  /** The lines are blocks for the paragraphs, in order. */
  ghost predicate WrapsAll(paragraphs: seq<Text>, lines: seq<Text>, width: nat)
    requires width > 0
    decreases |paragraphs|, 0
  {
    if paragraphs == [] then lines == []
    else exists k :: EndsWith(paragraphs, lines, k, width)
  }

  ghost predicate EndsWith(paragraphs: seq<Text>, lines: seq<Text>, k: int, width: nat)
    requires width > 0 && paragraphs != []
    decreases |paragraphs| - 1, 1
  {
    && 0 <= k <= |lines| && Wrapped(paragraphs[|paragraphs| - 1], lines[k..], width)
    && WrapsAll(paragraphs[..|paragraphs| - 1], lines[..k], width)
  }

  lemma NoBlocks(width: nat)
    requires width > 0
    ensures WrapsAll([], [], width)
  {}

  lemma OneMoreBlock(paragraphs: seq<Text>, k: nat, lines: seq<Text>, block: seq<Text>, width: nat)
    requires width > 0 && k < |paragraphs|
    requires WrapsAll(paragraphs[..k], lines, width) && Wrapped(paragraphs[k], block, width)
    ensures WrapsAll(paragraphs[..k + 1], lines + block, width)
  {
    hide Wrapped;
    var all := lines + block;
    assert all[..|lines|] == lines && all[|lines|..] == block;
    assert paragraphs[..k + 1][..k] == paragraphs[..k];
    assert EndsWith(paragraphs[..k + 1], all, |lines|, width);
  }

  /** `wrapAnsi`. */
  method WrapAnsi(text: Text, width: int) returns (lines: seq<Text>)
    requires Clean(text)
    ensures width <= 0 ==> lines == [text]
    ensures width > 0 ==> WrapsAll(Split(text, NEWLINE), lines, width)
  {
    hide Wrapped, WrapsAll, Clean, Split;
    if width <= 0 { return [text]; }
    lines := [];
    var paragraphs := Split(text, NEWLINE);
    SplitClean(text, NEWLINE);
    NoBlocks(width);
    assert paragraphs[..0] == [];
    for k := 0 to |paragraphs|
      invariant WrapsAll(paragraphs[..k], lines, width)
    {
      var block := WrapParagraph(paragraphs[k], width);
      OneMoreBlock(paragraphs, k, lines, block, width);
      lines := lines + block;
    }
    assert paragraphs[..|paragraphs|] == paragraphs;
  }

  /** What a block of lines is worth: it fits, it shows the paragraph, and its words are wrapped greedily. */
  lemma WrappedFits(paragraph: Text, block: seq<Text>, width: nat)
    requires width > 0 && Wrapped(paragraph, block, width)
    ensures forall i :: 0 <= i < |block| ==> |Strip(block[i])| <= width
    ensures InkOf(block) == Ink(paragraph, [])
    ensures |Strip(paragraph)| > width ==> Greedy(StripAll(block), Split(Strip(paragraph), SPACE), width)
  {
    var visible := Strip(paragraph);
    SplitJoins(visible, SPACE);
    WrapIsGreedy(Split(visible, SPACE), width);
    forall i | 0 <= i < |block| ensures |Strip(block[i])| <= width {
      StripAllAt(block, i);
    }
  }
}
