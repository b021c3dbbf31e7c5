/**
 Strings and numbers as canonical JSON writes them, with a reader for both
 (packages/contracts/src/jcs.ts; sections 3.2.2.2 and 3.2.2.3 of RFC 8785).
 */
module JcsText {
  import opened Wrappers
  import opened Utf16

  const QUOTE: CodeUnit := 34
  const PLUS: CodeUnit := 43
  const COMMA: CodeUnit := 44
  const MINUS: CodeUnit := 45
  const POINT: CodeUnit := 46
  const COLON: CodeUnit := 58
  const UPPER_E: CodeUnit := 69
  const OPEN_BRACKET: CodeUnit := 91
  const BACKSLASH: CodeUnit := 92
  const CLOSE_BRACKET: CodeUnit := 93
  const LOWER_E: CodeUnit := 101
  const LOWER_U: CodeUnit := 117
  const OPEN_BRACE: CodeUnit := 123
  const CLOSE_BRACE: CodeUnit := 125

  /** `null`, `true` and `false`. */
  const NULL: Text := [110, 117, 108, 108]
  const TRUE: Text := [116, 114, 117, 101]
  const FALSE: Text := [102, 97, 108, 115, 101]

  // ---- Strings ----

  predicate IsLead(u: CodeUnit) {
    0xD800 <= u <= 0xDBFF
  }

  predicate IsTrail(u: CodeUnit) {
    0xDC00 <= u <= 0xDFFF
  }

  /** The letter of a two-letter escape, if the unit has one. */
  function ShortEscape(u: CodeUnit): Option<CodeUnit> {
    match u
    case 8 => Some(98)
    case 9 => Some(116)
    case 10 => Some(110)
    case 12 => Some(102)
    case 13 => Some(114)
    case 34 => Some(34)
    case 92 => Some(92)
    case _ => None
  }

  function HexDigit(d: int): CodeUnit
    requires 0 <= d < 16
  {
    if d < 10 then 48 + d else 87 + d
  }

  /** Four hexadecimal digits, most significant first. */
  function HexDigits(n: CodeUnit): (hex: Text)
    ensures |hex| == 4
  {
    [HexDigit(n / 16 / 16 / 16), HexDigit(n / 16 / 16 % 16), HexDigit(n / 16 % 16), HexDigit(n % 16)]
  }

  function UnicodeEscape(u: CodeUnit): Text {
    [BACKSLASH, LOWER_U] + HexDigits(u)
  }

  /** `JSON.stringify` of a text, without the quotes: lone surrogates and control units are escaped. */
  function Escaped(s: Text): Text
    decreases |s|
  {
    if s == [] then []
    else if IsLead(s[0]) && |s| > 1 && IsTrail(s[1]) then s[..2] + Escaped(s[2..])
    else if IsLead(s[0]) || IsTrail(s[0]) then UnicodeEscape(s[0]) + Escaped(s[1..])
    else if ShortEscape(s[0]).Some? then [BACKSLASH, ShortEscape(s[0]).value] + Escaped(s[1..])
    else if s[0] < 0x20 then UnicodeEscape(s[0]) + Escaped(s[1..])
    else [s[0]] + Escaped(s[1..])
  }

  function Quoted(s: Text): Text {
    [QUOTE] + Escaped(s) + [QUOTE]
  }

  function HexValue(u: CodeUnit): (d: Option<int>)
    ensures d.Some? ==> 0 <= d.value < 16
  {
    if 48 <= u <= 57 then Some(u - 48)
    else if 97 <= u <= 102 then Some(u - 87)
    else if 65 <= u <= 70 then Some(u - 55)
    else None
  }

  function HexUnit(t: Text): (u: Option<CodeUnit>)
    requires |t| == 4
  {
    var (a, b, c, d) := (HexValue(t[0]), HexValue(t[1]), HexValue(t[2]), HexValue(t[3]));
    if a.None? || b.None? || c.None? || d.None? then None
    else Some(a.value * 4096 + b.value * 256 + c.value * 16 + d.value)
  }

  /** The unit that a two-letter escape stands for. */
  function Unescape(letter: CodeUnit): Option<CodeUnit> {
    match letter
    case 98 => Some(8)
    case 116 => Some(9)
    case 110 => Some(10)
    case 102 => Some(12)
    case 114 => Some(13)
    case 34 => Some(34)
    case 47 => Some(47)
    case 92 => Some(92)
    case _ => None
  }

  /** The first unit of a string's content and what follows it. */
  function ReadUnit(t: Text): (r: Option<(CodeUnit, Text)>)
    ensures r.Some? ==> |r.value.1| < |t|
  {
    if t == [] || t[0] < 0x20 || t[0] == QUOTE then None
    else if t[0] != BACKSLASH then Some((t[0], t[1..]))
    else if |t| < 2 then None
    else if t[1] != LOWER_U then
      if Unescape(t[1]).Some? then Some((Unescape(t[1]).value, t[2..])) else None
    else if |t| >= 6 && HexUnit(t[2..6]).Some? then Some((HexUnit(t[2..6]).value, t[6..]))
    else None
  }

  /** Reads a string from after its opening quote. */
  function ReadString(t: Text): (r: Option<(Text, Text)>)
    ensures r.Some? ==> |r.value.1| < |t|
    decreases |t|
  {
    if t != [] && t[0] == QUOTE then Some(([], t[1..]))
    else if ReadUnit(t).None? then None
    else
      var (u, after) := ReadUnit(t).value;
      var rest := ReadString(after);
      if rest.None? then None else Some(([u] + rest.value.0, rest.value.1))
  }

  lemma HexRoundTrip(d: int)
    requires 0 <= d < 16
    ensures HexValue(HexDigit(d)) == Some(d)
  {}

  lemma HexDigitsRoundTrip(n: CodeUnit)
    ensures HexUnit(HexDigits(n)) == Some(n)
  {
    hide HexDigit, HexValue;
    HexRoundTrip(n / 16 / 16 / 16);
    HexRoundTrip(n / 16 / 16 % 16);
    HexRoundTrip(n / 16 % 16);
    HexRoundTrip(n % 16);
  }

  lemma UnicodeEscapeReads(u: CodeUnit, rest: Text)
    ensures ReadUnit(UnicodeEscape(u) + rest) == Some((u, rest))
  {
    hide HexDigits, HexUnit;
    HexDigitsRoundTrip(u);
    FourHexDigits(u, HexDigits(u), rest);
  }

  lemma FourHexDigits(u: CodeUnit, hex: Text, rest: Text)
    requires |hex| == 4 && HexUnit(hex) == Some(u)
    ensures ReadUnit([BACKSLASH, LOWER_U] + hex + rest) == Some((u, rest))
  {
    hide HexUnit;
    var t := [BACKSLASH, LOWER_U] + hex + rest;
    assert t[2..6] == hex;
    assert t[6..] == rest;
  }

  /** Every text reads back from its quoted form, whatever follows. */
  lemma {:induction false} StringRoundTrip(s: Text, rest: Text)
    ensures ReadString(Escaped(s) + [QUOTE] + rest) == Some((s, rest))
    decreases |s|
  {
    hide ShortEscape, UnicodeEscape, ReadUnit;
    if s == [] {
      assert Escaped(s) + [QUOTE] + rest == [QUOTE] + rest;
    } else if IsLead(s[0]) && |s| > 1 && IsTrail(s[1]) {
      StringRoundTrip(s[2..], rest);
      PairReads(s[0], s[1], s[2..], Escaped(s[2..]) + [QUOTE] + rest, rest);
      assert s == [s[0], s[1]] + s[2..];
      assert Escaped(s) + [QUOTE] + rest == [s[0], s[1]] + (Escaped(s[2..]) + [QUOTE] + rest);
    } else {
      StringRoundTrip(s[1..], rest);
      var t := Escaped(s[1..]) + [QUOTE] + rest;
      var head := EscapedUnit(s);
      assert Escaped(s) + [QUOTE] + rest == head + t;
      OneMoreUnit(s[0], head + t, t, s[1..], rest);
      assert [s[0]] + s[1..] == s;
    }
  }

  lemma PairReads(lead: CodeUnit, trail: CodeUnit, s: Text, t: Text, rest: Text)
    requires IsLead(lead) && IsTrail(trail)
    requires ReadString(t) == Some((s, rest))
    ensures ReadString([lead, trail] + t) == Some(([lead, trail] + s, rest))
  {
    RawUnit(trail, t);
    RawUnit(lead, [trail] + t);
    OneMoreUnit(trail, [trail] + t, t, s, rest);
    OneMoreUnit(lead, [lead] + ([trail] + t), [trail] + t, [trail] + s, rest);
    assert [lead] + ([trail] + t) == [lead, trail] + t;
    assert [lead] + ([trail] + s) == [lead, trail] + s;
  }

  lemma RawUnit(u: CodeUnit, t: Text)
    requires u >= 0x20 && u != QUOTE && u != BACKSLASH
    ensures ReadUnit([u] + t) == Some((u, t))
  {}

  lemma OneMoreUnit(u: CodeUnit, t: Text, after: Text, s: Text, rest: Text)
    requires t != [] && ReadUnit(t) == Some((u, after)) && ReadString(after) == Some((s, rest))
    ensures ReadString(t) == Some(([u] + s, rest))
  {}

  /** How the first unit is written when it is not the lead of a pair. */
  lemma EscapedUnit(s: Text) returns (head: Text)
    requires s != [] && !(IsLead(s[0]) && |s| > 1 && IsTrail(s[1]))
    ensures Escaped(s) == head + Escaped(s[1..])
    ensures forall t :: ReadUnit(head + t) == Some((s[0], t))
  {
    if IsLead(s[0]) || IsTrail(s[0]) {
      head := UnicodeEscape(s[0]);
      forall t ensures ReadUnit(head + t) == Some((s[0], t)) { UnicodeEscapeReads(s[0], t); }
    } else if ShortEscape(s[0]).Some? {
      head := [BACKSLASH, ShortEscape(s[0]).value];
      forall t ensures ReadUnit(head + t) == Some((s[0], t)) { assert (head + t)[2..] == t; }
    } else if s[0] < 0x20 {
      head := UnicodeEscape(s[0]);
      forall t ensures ReadUnit(head + t) == Some((s[0], t)) { UnicodeEscapeReads(s[0], t); }
    } else {
      head := [s[0]];
      forall t ensures ReadUnit(head + t) == Some((s[0], t)) { RawUnit(s[0], t); }
    }
  }

  // ---- Numbers ----

  type Digit = d: int | 0 <= d < 10

  /**
   A double. A finite one stands for its shortest decimal that reads back as it:
   the digits after the point, times ten to the power `point`.
   */
  datatype Number =
    | NaN
    | Infinite(negative: bool)
    | Zero(negative: bool)
    | Finite(negative: bool, digits: seq<Digit>, point: int)

  /** A shortest decimal has no zeros at its ends. */
  predicate Shortest(digits: seq<Digit>) {
    digits != [] && digits[0] != 0 && digits[|digits| - 1] != 0
  }

  predicate ValidNumber(x: Number) {
    x.Finite? ==> Shortest(x.digits)
  }

  function Zeros(n: nat): seq<Digit> {
    seq(n, _ => 0)
  }

  function DigitUnit(d: Digit): CodeUnit {
    48 + d
  }

  function DigitText(digits: seq<Digit>): Text {
    seq(|digits|, i requires 0 <= i < |digits| => DigitUnit(digits[i]))
  }

  function Decimal(n: nat): (digits: seq<Digit>)
    ensures digits != []
  {
    if n < 10 then [n] else Decimal(n / 10) + [n % 10]
  }

  function ExponentText(e: int): Text {
    [LOWER_E] + if e < 0 then [MINUS] + DigitText(Decimal(-e)) else [PLUS] + DigitText(Decimal(e))
  }

  /** The ECMAScript form of a positive number, by the place of its point. */
  function MagnitudeText(digits: seq<Digit>, point: int): Text
    requires digits != []
  {
    var k := |digits|;
    if k <= point <= 21 then DigitText(digits + Zeros(point - k))
    else if 0 < point <= 21 then DigitText(digits[..point]) + [POINT] + DigitText(digits[point..])
    else if -6 < point <= 0 then DigitText([0]) + [POINT] + DigitText(Zeros(-point) + digits)
    else if k == 1 then DigitText(digits) + ExponentText(point - 1)
    else DigitText(digits[..1]) + [POINT] + DigitText(digits[1..]) + ExponentText(point - 1)
  }

  /** `JSON.stringify` of a finite number: the sign of zero is lost. */
  function NumberText(x: Number): Text
    requires x.Zero? || x.Finite?
    requires ValidNumber(x)
  {
    if x.Zero? then DigitText([0])
    else (if x.negative then [MINUS] else []) + MagnitudeText(x.digits, x.point)
  }

  predicate IsDigit(u: CodeUnit) {
    48 <= u <= 57
  }

  function ReadDigits(t: Text): (r: (seq<Digit>, Text))
    ensures |r.0| + |r.1| == |t|
    decreases |t|
  {
    if t == [] || !IsDigit(t[0]) then ([], t)
    else
      var rest := ReadDigits(t[1..]);
      ([t[0] - 48] + rest.0, rest.1)
  }

  function DecimalValue(digits: seq<Digit>): nat
    decreases |digits|
  {
    if digits == [] then 0 else DecimalValue(digits[..|digits| - 1]) * 10 + digits[|digits| - 1]
  }

  /** Reads an optional exponent. */
  function ReadExponent(t: Text): (r: Option<(int, Text)>)
    ensures r.Some? ==> |r.value.1| <= |t|
  {
    if t == [] || (t[0] != LOWER_E && t[0] != UPPER_E) then Some((0, t))
    else
      var signed := |t| > 1 && (t[1] == MINUS || t[1] == PLUS);
      var (digits, rest) := ReadDigits(if signed then t[2..] else t[1..]);
      if digits == [] then None
      else
        var e: int := DecimalValue(digits);
        Some((if signed && t[1] == MINUS then -e else e, rest))
  }

  /** Reads an optional fraction. */
  function ReadFraction(t: Text): (r: Option<(seq<Digit>, Text)>)
    ensures r.Some? ==> |r.value.1| <= |t|
  {
    if t == [] || t[0] != POINT then Some(([], t))
    else
      var (digits, rest) := ReadDigits(t[1..]);
      if digits == [] then None else Some((digits, rest))
  }

  /** The number with these digits, by removing the zeros at their ends. */
  function Trimmed(negative: bool, digits: seq<Digit>, point: int): Number
    decreases |digits|
  {
    if digits == [] then Zero(negative)
    else if digits[0] == 0 then Trimmed(negative, digits[1..], point - 1)
    else if digits[|digits| - 1] == 0 then Trimmed(negative, digits[..|digits| - 1], point)
    else Finite(negative, digits, point)
  }

  /** A JSON number without its sign: no zeros at the front, no bare point or exponent. */
  function ReadMagnitude(negative: bool, t: Text): (r: Option<(Number, Text)>)
    ensures r.Some? ==> |r.value.1| < |t|
  {
    var (whole, t1) := ReadDigits(t);
    if whole == [] || (|whole| > 1 && whole[0] == 0) then None
    else
      var fraction := ReadFraction(t1);
      if fraction.None? then None
      else
        var exponent := ReadExponent(fraction.value.1);
        if exponent.None? then None
        else Some((Trimmed(negative, whole + fraction.value.0, |whole| + exponent.value.0), exponent.value.1))
  }

  function ReadNumber(t: Text): (r: Option<(Number, Text)>)
    ensures r.Some? ==> |r.value.1| < |t|
  {
    if t != [] && t[0] == MINUS then ReadMagnitude(true, t[1..]) else ReadMagnitude(false, t)
  }

  /** What follows a value in JSON text: nothing, or a unit that cannot continue a number. */
  predicate Delimited(rest: Text) {
    rest == [] || rest[0] == COMMA || rest[0] == CLOSE_BRACKET || rest[0] == CLOSE_BRACE
  }

  lemma {:induction false} DigitsRead(digits: seq<Digit>, rest: Text)
    requires rest == [] || !IsDigit(rest[0])
    ensures ReadDigits(DigitText(digits) + rest) == (digits, rest)
    decreases |digits|
  {
    if digits == [] {
      assert DigitText(digits) + rest == rest;
    } else {
      DigitsRead(digits[1..], rest);
      assert (DigitText(digits) + rest)[1..] == DigitText(digits[1..]) + rest;
      assert [digits[0]] + digits[1..] == digits;
    }
  }

  lemma {:induction false} DecimalRoundTrip(n: nat)
    ensures DecimalValue(Decimal(n)) == n
    decreases n
  {
    if n >= 10 {
      DecimalRoundTrip(n / 10);
      assert Decimal(n)[..|Decimal(n)| - 1] == Decimal(n / 10);
    }
  }

  lemma ExponentReads(e: int, rest: Text)
    requires Delimited(rest)
    ensures ReadExponent(ExponentText(e) + rest) == Some((e, rest))
  {
    hide ReadDigits, Decimal, DecimalValue, DigitText;
    var digits := Decimal(if e < 0 then -e else e);
    DigitsRead(digits, rest);
    DecimalRoundTrip(if e < 0 then -e else e);
    assert (ExponentText(e) + rest)[2..] == DigitText(digits) + rest;
  }

  lemma {:induction false} TrimLeading(negative: bool, n: nat, digits: seq<Digit>, point: int)
    ensures Trimmed(negative, Zeros(n) + digits, point) == Trimmed(negative, digits, point - n)
    decreases n
  {
    if n == 0 {
      assert Zeros(n) + digits == digits;
    } else {
      TrimLeading(negative, n - 1, digits, point - 1);
      assert (Zeros(n) + digits)[1..] == Zeros(n - 1) + digits;
    }
  }

  lemma {:induction false} TrimTrailing(negative: bool, n: nat, digits: seq<Digit>, point: int)
    requires Shortest(digits)
    ensures Trimmed(negative, digits + Zeros(n), point) == Finite(negative, digits, point)
    decreases n
  {
    if n == 0 {
      assert digits + Zeros(n) == digits;
    } else {
      TrimTrailing(negative, n - 1, digits, point);
      var all := digits + Zeros(n);
      assert all[..|all| - 1] == digits + Zeros(n - 1);
    }
  }

  /** A magnitude made of a whole part, a fraction and an exponent reads as its digits. */
  lemma MagnitudeReads(negative: bool, whole: seq<Digit>, fraction: seq<Digit>, exponent: Text, e: int, rest: Text)
    requires |whole| == 1 || (|whole| > 1 && whole[0] != 0)
    requires (exponent == [] && e == 0) || exponent == ExponentText(e)
    requires Delimited(rest)
    ensures var point := if fraction == [] then [] else [POINT] + DigitText(fraction);
            ReadMagnitude(negative, DigitText(whole) + point + exponent + rest) == Some((Trimmed(negative, whole + fraction, |whole| + e), rest))
  {
    hide Trimmed, ReadFraction, ReadExponent, ReadDigits, DigitText;
    var tail := exponent + rest;
    var point := if fraction == [] then [] else [POINT] + DigitText(fraction);
    ExponentStarts(e);
    TailReads(exponent, e, rest);
    FractionReads(fraction, tail);
    DigitsRead(whole, point + tail);
    assert DigitText(whole) + point + exponent + rest == DigitText(whole) + (point + tail);
  }

  lemma TailReads(exponent: Text, e: int, rest: Text)
    requires (exponent == [] && e == 0) || exponent == ExponentText(e)
    requires Delimited(rest)
    ensures ReadExponent(exponent + rest) == Some((e, rest))
  {
    if exponent == [] {
      assert exponent + rest == rest;
    } else {
      ExponentReads(e, rest);
    }
  }

  lemma FractionReads(fraction: seq<Digit>, tail: Text)
    requires tail == [] || (!IsDigit(tail[0]) && tail[0] != POINT)
    ensures var point := if fraction == [] then [] else [POINT] + DigitText(fraction);
            ReadFraction(point + tail) == Some((fraction, tail))
  {
    hide ReadDigits;
    if fraction == [] {
      assert [] + tail == tail;
    } else {
      DigitsRead(fraction, tail);
      assert ([POINT] + DigitText(fraction) + tail)[1..] == DigitText(fraction) + tail;
    }
  }

  lemma ExponentStarts(e: int)
    ensures ExponentText(e) != [] && ExponentText(e)[0] == LOWER_E
  {}

  /** Every finite number reads back from its text, except that zero loses its sign. */
  lemma NumberRoundTrip(x: Number, rest: Text)
    requires x.Zero? || x.Finite?
    requires ValidNumber(x)
    requires Delimited(rest)
    ensures ReadNumber(NumberText(x) + rest) == Some((if x.Zero? then Zero(false) else x, rest))
  {
    hide ReadMagnitude, MagnitudeText;
    if x.Zero? {
      MagnitudeReads(false, [0], [], [], 0, rest);
      assert DigitText([0]) + [] + [] + rest == DigitText([0]) + rest;
    } else {
      var t := MagnitudeText(x.digits, x.point) + rest;
      MagnitudeRoundTrip(x.negative, x.digits, x.point, rest);
      MagnitudeStarts(x.digits, x.point);
      if x.negative {
        assert NumberText(x) + rest == [MINUS] + t;
        assert ([MINUS] + t)[1..] == t;
      } else {
        assert NumberText(x) + rest == t;
      }
    }
  }

  lemma MagnitudeStarts(digits: seq<Digit>, point: int)
    requires Shortest(digits)
    ensures MagnitudeText(digits, point) != [] && IsDigit(MagnitudeText(digits, point)[0])
  {}

  lemma MagnitudeRoundTrip(negative: bool, digits: seq<Digit>, point: int, rest: Text)
    requires Shortest(digits)
    requires Delimited(rest)
    ensures ReadMagnitude(negative, MagnitudeText(digits, point) + rest) == Some((Finite(negative, digits, point), rest))
  {
    hide ReadMagnitude, Trimmed, ExponentText, DigitText;
    var k := |digits|;
    var text := MagnitudeText(digits, point);
    TrimTrailing(negative, 0, digits, point);
    assert digits + Zeros(0) == digits;
    if k <= point <= 21 {
      MagnitudeReads(negative, digits + Zeros(point - k), [], [], 0, rest);
      TrimTrailing(negative, point - k, digits, point);
      assert DigitText(digits + Zeros(point - k)) + [] + [] + rest == text + rest;
      assert digits + Zeros(point - k) + [] == digits + Zeros(point - k);
    } else if 0 < point <= 21 {
      MagnitudeReads(negative, digits[..point], digits[point..], [], 0, rest);
      assert digits[..point] + digits[point..] == digits;
      assert DigitText(digits[..point]) + ([POINT] + DigitText(digits[point..])) + [] + rest == text + rest;
    } else if -6 < point <= 0 {
      var fraction := Zeros(-point) + digits;
      MagnitudeReads(negative, [0], fraction, [], 0, rest);
      TrimLeading(negative, 1 - point, digits, 1);
      assert [0] + fraction == Zeros(1 - point) + digits;
      assert DigitText([0]) + ([POINT] + DigitText(fraction)) + [] + rest == text + rest;
    } else if k == 1 {
      MagnitudeReads(negative, digits, [], ExponentText(point - 1), point - 1, rest);
      assert digits + [] == digits;
      assert DigitText(digits) + [] + ExponentText(point - 1) + rest == text + rest;
    } else {
      MagnitudeReads(negative, digits[..1], digits[1..], ExponentText(point - 1), point - 1, rest);
      assert digits[..1] + digits[1..] == digits;
      assert DigitText(digits[..1]) + ([POINT] + DigitText(digits[1..])) + ExponentText(point - 1) + rest == text + rest;
    }
  }
}
