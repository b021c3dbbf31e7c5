/**
 ECDSA signatures from DER to JOSE (apps/workload-identity/src/jwt.ts): sections
 8.1.3 and 8.3 of X.690, and section 3.4 of RFC 7518.
 */
module Jwt {
  import opened Octets
  import opened Wrappers

  // ---- Big-endian numbers ----

  function Power(n: nat): (p: nat)
    ensures p > 0
  {
    if n == 0 then 1 else 256 * Power(n - 1)
  }

  /** The unsigned value of the octets. */
  function Value(b: Bytes): nat {
    if b == [] then 0 else Value(b[..|b| - 1]) * 256 + b[|b| - 1]
  }

  /** The last `n` octets of the number. */
  function LastOctets(v: nat, n: nat): (b: Bytes)
    ensures |b| == n
  {
    if n == 0 then [] else LastOctets(v / 256, n - 1) + [v % 256]
  }

  function Zeros(n: nat): Bytes {
    seq(n, _ => 0)
  }

  lemma {:induction false} ValueBound(b: Bytes)
    ensures Value(b) < Power(|b|)
    ensures b != [] && b[0] != 0 ==> Value(b) >= Power(|b| - 1)
    decreases |b|
  {
    if b != [] {
      var init := b[..|b| - 1];
      ValueBound(init);
    }
  }

  lemma {:induction false} OctetsValue(v: nat, n: nat)
    requires v < Power(n)
    ensures Value(LastOctets(v, n)) == v
    decreases n
  {
    if n > 0 {
      OctetsValue(v / 256, n - 1);
      assert LastOctets(v, n)[..n - 1] == LastOctets(v / 256, n - 1);
    }
  }

  lemma {:induction false} ValueOctets(b: Bytes)
    ensures LastOctets(Value(b), |b|) == b
    decreases |b|
  {
    if b != [] {
      var init := b[..|b| - 1];
      ValueOctets(init);
      assert Value(b) / 256 == Value(init) && Value(b) % 256 == b[|b| - 1];
      assert b == init + [b[|b| - 1]];
    }
  }

  lemma {:induction false} LeadingZeros(n: nat, b: Bytes)
    ensures Value(Zeros(n) + b) == Value(b)
    decreases n + |b|
  {
    var all := Zeros(n) + b;
    if b != [] {
      LeadingZeros(n, b[..|b| - 1]);
      assert all[..|all| - 1] == Zeros(n) + b[..|b| - 1];
    } else if n > 0 {
      LeadingZeros(n - 1, []);
      assert all[..n - 1] == Zeros(n - 1) + [];
    }
  }

  // ---- DER ----

  function TwoOctets(high: int, low: int): int {
    high * 256 + low
  }

  /** The octets encode the length in the short form or in a long form of one or two octets, minimal or not. */
  predicate IsLength(octets: Bytes, length: int) {
    || (|octets| == 1 && octets[0] < 0x80 && length == octets[0])
    || (|octets| == 2 && octets[0] == 0x81 && length == octets[1])
    || (|octets| == 3 && octets[0] == 0x82 && length == TwoOctets(octets[1], octets[2]))
  }

  /** At `offset` the input has the tag, a length and that much content, up to `next`. */
  ghost predicate Element(input: Bytes, offset: nat, tag: Byte, content: Bytes, next: nat) {
    exists start: nat :: ElementAt(input, offset, tag, content, start, next)
  }

  ghost predicate ElementAt(input: Bytes, offset: nat, tag: Byte, content: Bytes, start: nat, next: nat) {
    && offset < start <= next <= |input| && input[offset] == tag
    && content == input[start..next] && IsLength(input[offset + 1..start], |content|)
  }

  /** A sequence of exactly two integers with these contents. */
  ghost predicate Signature(input: Bytes, r: Bytes, s: Bytes) {
    exists start: nat, middle: nat :: SignatureAt(input, r, s, start, middle)
  }

  ghost predicate SignatureAt(input: Bytes, r: Bytes, s: Bytes, start: nat, middle: nat) {
    && start <= |input| && ElementAt(input, 0, 0x30, input[start..], start, |input|)
    && Element(input, start, 0x02, r, middle) && Element(input, middle, 0x02, s, |input|)
  }

  /** What the program accepts as the content of an integer: octets, read as unsigned, of at most 256 bits. */
  predicate Fits(content: Bytes) {
    content != [] && Value(content) < Power(32)
  }

  method ReadDerLength(input: Bytes, offset: nat) returns (r: Result<(nat, nat)>)
    ensures r.Ok? ==> offset < r.value.1 <= |input| && IsLength(input[offset..r.value.1], r.value.0)
    ensures r.Err? ==> forall next: nat, length: nat :: offset <= next <= |input| ==> !IsLength(input[offset..next], length)
  {
    if offset >= |input| { return Err("truncated DER signature"); }
    var first := input[offset];
    if first < 0x80 { return Ok((first, offset + 1)); }
    var bytes := first - 0x80;
    if bytes == 0 || bytes > 2 { return Err("invalid DER signature length"); }
    var length: int := 0;
    for index := 0 to bytes
      invariant offset + index < |input|
      invariant length == Value(input[offset + 1..offset + 1 + index])
    {
      if offset + 1 + index >= |input| { return Err("truncated DER signature length"); }
      var part := input[offset + 1..offset + 1 + index + 1];
      assert part[..index] == input[offset + 1..offset + 1 + index];
      length := length * 256 + input[offset + 1 + index];
    }
    LengthValue(input[offset..offset + 1 + bytes]);
    assert input[offset..offset + 1 + bytes][1..] == input[offset + 1..offset + 1 + bytes];
    return Ok((length, offset + 1 + bytes));
  }

  lemma LengthValue(octets: Bytes)
    requires |octets| == 2 || |octets| == 3
    ensures |octets| == 2 ==> Value(octets[1..]) == octets[1]
    ensures |octets| == 3 ==> Value(octets[1..]) == TwoOctets(octets[1], octets[2])
  {
    var b := octets[1..];
    assert b[..1][..0] == [];
    assert Value(b[..0]) == 0 && Value(b[..1]) == b[0];
    assert |b| == 1 ==> b[..1] == b;
  }

  /** At one place the input has at most one length. */
  lemma OneLength(input: Bytes, offset: nat, a: nat, length: int, b: nat, other: int)
    requires offset <= a <= |input| && offset <= b <= |input|
    requires IsLength(input[offset..a], length) && IsLength(input[offset..b], other)
    ensures a == b && length == other
  {
    var x, y := input[offset..a], input[offset..b];
    assert x[0] == input[offset] == y[0];
  }

  /** So it has at most one element there. */
  lemma OneElement(input: Bytes, offset: nat, tag: Byte, start: nat, length: int, content: Bytes, next: nat)
    requires offset + 1 <= start <= |input| && IsLength(input[offset + 1..start], length)
    requires Element(input, offset, tag, content, next)
    ensures next == start + length && next <= |input| && content == input[start..next]
  {
    var s: nat :| ElementAt(input, offset, tag, content, s, next);
    OneLength(input, offset + 1, start, length, s, |content|);
  }

  lemma {:induction false} PowerGrows(m: nat, n: nat)
    requires m <= n
    ensures Power(m) <= Power(n)
    decreases n
  {
    if m < n { PowerGrows(m, n - 1); }
  }

  /** An integer of at most 256 bits at `offset`, without its leading zeros. */
  ghost predicate IntegerAt(input: Bytes, offset: nat, value: Bytes, next: nat) {
    exists content :: IntegerContent(input, offset, value, content, next)
  }

  ghost predicate IntegerContent(input: Bytes, offset: nat, value: Bytes, content: Bytes, next: nat) {
    Element(input, offset, 0x02, content, next) && Fits(content) && Value(content) == Value(value)
  }

  ghost predicate NoInteger(input: Bytes, offset: nat) {
    forall content, next: nat :: Element(input, offset, 0x02, content, next) ==> !Fits(content)
  }

  method ReadDerInteger(input: Bytes, offset: nat) returns (r: Result<(Bytes, nat)>)
    ensures r.Ok? ==> IntegerAt(input, offset, r.value.0, r.value.1) && 0 < |r.value.0| <= 32 && r.value.1 <= |input|
    ensures r.Ok? && |r.value.0| > 1 ==> r.value.0[0] != 0
    ensures r.Err? ==> NoInteger(input, offset)
  {
    hide IsLength, Fits;
    if offset >= |input| || input[offset] != 0x02 { return Err("invalid DER signature integer"); }
    var decoded := ReadDerLength(input, offset + 1);
    if decoded.Err? { return Err(decoded.message); }
    var (length, start) := decoded.value;
    var end := start + length;
    if end > |input| || length == 0 {
      WrongLength(input, offset, start, length);
      return Err("truncated DER signature integer");
    }
    var content := input[start..end];
    var value := Stripped(content);
    StrippedFits(content, value);
    assert ElementAt(input, offset, 0x02, content, start, end);
    if |value| > 32 {
      TooWide(input, offset, start, length);
      return Err("DER signature integer exceeds P-256 width");
    }
    assert IntegerContent(input, offset, value, content, end);
    return Ok((value, end));
  }

  lemma WrongLength(input: Bytes, offset: nat, start: nat, length: nat)
    requires offset + 1 <= start <= |input| && IsLength(input[offset + 1..start], length)
    requires start + length > |input| || length == 0
    ensures NoInteger(input, offset)
  {
    forall content, next: nat | Element(input, offset, 0x02, content, next) ensures !Fits(content) {
      OneElement(input, offset, 0x02, start, length, content, next);
    }
  }

  lemma TooWide(input: Bytes, offset: nat, start: nat, length: nat)
    requires offset + 1 <= start <= |input| && IsLength(input[offset + 1..start], length)
    requires start + length <= |input| && !Fits(input[start..start + length])
    ensures NoInteger(input, offset)
  {
    forall content, next: nat | Element(input, offset, 0x02, content, next) ensures !Fits(content) {
      OneElement(input, offset, 0x02, start, length, content, next);
    }
  }

  lemma StrippedFits(content: Bytes, value: Bytes)
    requires content != [] && value != [] && Value(content) == Value(value)
    requires |value| > 1 ==> value[0] != 0
    ensures Fits(content) <==> |value| <= 32
  {
    hide Power, Value;
    ValueBound(value);
    if |value| <= 32 { PowerGrows(|value|, 32); } else { PowerGrows(32, |value| - 1); }
  }

  method Stripped(content: Bytes) returns (value: Bytes)
    requires content != []
    ensures 0 < |value| <= |content| && content == Zeros(|content| - |value|) + value
    ensures |value| > 1 ==> value[0] != 0
    ensures Value(value) == Value(content)
  {
    value := content;
    while |value| > 1 && value[0] == 0
      invariant 0 < |value| <= |content| && content == Zeros(|content| - |value|) + value
    {
      value := value[1..];
    }
    LeadingZeros(|content| - |value|, value);
  }

  // ---- DER to JOSE ----

  /** The two integers as 32 octets each. */
  function Jose(r: nat, s: nat): Bytes {
    LastOctets(r, 32) + LastOctets(s, 32)
  }

  /** The input is a signature of two integers of at most 256 bits, and the result holds their values. */
  ghost predicate Converts(der: Bytes, result: Bytes) {
    exists r, s :: ConvertsWith(der, r, s, result)
  }

  ghost predicate ConvertsWith(der: Bytes, r: Bytes, s: Bytes, result: Bytes) {
    Signature(der, r, s) && Fits(r) && Fits(s) && result == Jose(Value(r), Value(s))
  }

  /** The input is no signature of two integers of at most 256 bits. */
  ghost predicate Unfit(der: Bytes) {
    forall r, s :: Signature(der, r, s) ==> !Fits(r) || !Fits(s)
  }

  lemma SameElement(input: Bytes, offset: nat, tag: Byte, content: Bytes, next: nat, other: Bytes, otherNext: nat)
    requires Element(input, offset, tag, content, next) && Element(input, offset, tag, other, otherNext)
    ensures content == other && next == otherNext
  {
    var s: nat :| ElementAt(input, offset, tag, content, s, next);
    OneElement(input, offset, tag, s, |content|, other, otherNext);
  }

  /** What an input with a sequence of the right size must have in it to be a signature. */
  lemma SignatureInside(der: Bytes, start: nat, length: nat, r: Bytes, s: Bytes) returns (middle: nat)
    requires 1 <= start <= |der| && IsLength(der[1..start], length) && Signature(der, r, s)
    ensures start + length == |der|
    ensures Element(der, start, 0x02, r, middle) && Element(der, middle, 0x02, s, |der|)
  {
    hide IsLength;
    var begin: nat, m: nat :| SignatureAt(der, r, s, begin, m);
    OneLength(der, 1, start, length, begin, |der[begin..]|);
    middle := m;
  }

  lemma UnfitSize(der: Bytes, start: nat, length: nat)
    requires 1 <= start <= |der| && IsLength(der[1..start], length)
    ensures start + length != |der| ==> Unfit(der)
  {
    hide IsLength, Fits;
    forall r, s | Signature(der, r, s) ensures start + length == |der| {
      var middle := SignatureInside(der, start, length, r, s);
    }
  }

  lemma UnfitFirst(der: Bytes, start: nat, length: nat)
    requires 1 <= start <= |der| && IsLength(der[1..start], length) && NoInteger(der, start)
    ensures Unfit(der)
  {
    hide IsLength, Fits;
    forall r, s | Signature(der, r, s) ensures !Fits(r) {
      var middle := SignatureInside(der, start, length, r, s);
    }
  }

  lemma UnfitSecond(der: Bytes, start: nat, length: nat, value: Bytes, middle: nat)
    requires 1 <= start <= |der| && IsLength(der[1..start], length)
    requires IntegerAt(der, start, value, middle) && NoInteger(der, middle)
    ensures Unfit(der)
  {
    hide IsLength, Fits, Element;
    var content :| IntegerContent(der, start, value, content, middle);
    forall r, s | Signature(der, r, s) ensures !Fits(s) {
      var m := SignatureInside(der, start, length, r, s);
      SameElement(der, start, 0x02, content, middle, r, m);
    }
  }

  lemma UnfitRest(der: Bytes, start: nat, length: nat, value: Bytes, middle: nat, other: Bytes, end: nat)
    requires 1 <= start <= |der| && IsLength(der[1..start], length)
    requires IntegerAt(der, start, value, middle) && IntegerAt(der, middle, other, end)
    ensures end != |der| ==> Unfit(der)
  {
    hide IsLength, Fits, Element;
    var content :| IntegerContent(der, start, value, content, middle);
    var second :| IntegerContent(der, middle, other, second, end);
    forall r, s | Signature(der, r, s) ensures end == |der| {
      var m := SignatureInside(der, start, length, r, s);
      SameElement(der, start, 0x02, content, middle, r, m);
      SameElement(der, middle, 0x02, second, end, s, |der|);
    }
  }

  lemma Padded(value: Bytes, n: nat)
    requires |value| <= n
    ensures Zeros(n - |value|) + value == LastOctets(Value(value), n)
  {
    LeadingZeros(n - |value|, value);
    ValueOctets(Zeros(n - |value|) + value);
  }

  lemma Accepted(der: Bytes, start: nat, value: Bytes, middle: nat, other: Bytes, result: Bytes)
    requires 1 <= start <= |der| && der[0] == 0x30 && IsLength(der[1..start], |der| - start)
    requires IntegerAt(der, start, value, middle) && IntegerAt(der, middle, other, |der|)
    requires |value| <= 32 && |other| <= 32
    requires result == (Zeros(32 - |value|) + value) + (Zeros(32 - |other|) + other)
    ensures Converts(der, result)
  {
    hide IsLength, Fits, Element, LastOctets, Value, Zeros;
    var r :| IntegerContent(der, start, value, r, middle);
    var s :| IntegerContent(der, middle, other, s, |der|);
    Padded(value, 32);
    Padded(other, 32);
    assert ElementAt(der, 0, 0x30, der[start..], start, |der|);
    assert SignatureAt(der, r, s, start, middle);
    assert ConvertsWith(der, r, s, result);
  }

  /**
   Accepts exactly the sequences of two integers of at most 256 bits, read as
   unsigned, and gives their values.
   */
  method DerToJoseEs256(der: Bytes) returns (result: Result<Bytes>)
    ensures result.Ok? ==> Converts(der, result.value)
    ensures result.Err? ==> Unfit(der)
  {
    hide IsLength, Fits, NoInteger, IntegerAt, Converts;
    if |der| == 0 || der[0] != 0x30 { return Err("invalid DER signature sequence"); }
    var sequence := ReadDerLength(der, 1);
    if sequence.Err? { return Err(sequence.message); }
    var (length, start) := sequence.value;
    if start + length != |der| {
      UnfitSize(der, start, length);
      return Err("invalid DER signature size");
    }
    var r := ReadDerInteger(der, start);
    if r.Err? {
      UnfitFirst(der, start, length);
      return Err(r.message);
    }
    var s := ReadDerInteger(der, r.value.1);
    if s.Err? {
      UnfitSecond(der, start, length, r.value.0, r.value.1);
      return Err(s.message);
    }
    if s.value.1 != |der| {
      UnfitRest(der, start, length, r.value.0, r.value.1, s.value.0, s.value.1);
      return Err("unexpected DER signature content");
    }
    var joined := Assemble(r.value.0, s.value.0);
    Accepted(der, start, r.value.0, r.value.1, s.value.0, joined);
    return Ok(joined);
  }

  method Assemble(r: Bytes, s: Bytes) returns (result: Bytes)
    requires |r| <= 32 && |s| <= 32
    ensures result == (Zeros(32 - |r|) + r) + (Zeros(32 - |s|) + s)
  {
    var buffer := new Byte[64](_ => 0);
    Copy(buffer, r, 32 - |r|);
    Copy(buffer, s, 64 - |s|);
    return buffer[..];
  }

  /** `Buffer.copy`. */
  method Copy(buffer: array<Byte>, source: Bytes, at: nat)
    requires at + |source| <= buffer.Length
    modifies buffer
    ensures buffer[..] == old(buffer[..at]) + source + old(buffer[at + |source|..])
  {
    for i := 0 to |source|
      invariant buffer[..] == old(buffer[..at]) + source[..i] + old(buffer[at + i..])
    {
      buffer[at + i] := source[i];
    }
  }

  // ---- The standard encoding ----

  function Minimal(v: nat): (b: Bytes)
    ensures b != []
  {
    if v < 256 then [v] else Minimal(v / 256) + [v % 256]
  }

  /** A non-negative integer in two's complement, in as few octets as possible. */
  function IntegerOctets(v: nat): Bytes {
    if Minimal(v)[0] >= 0x80 then [0] + Minimal(v) else Minimal(v)
  }

  function Encoded(tag: Byte, content: Bytes): Bytes
    requires |content| < 0x80
  {
    [tag, |content|] + content
  }

  lemma {:induction false} MinimalIs(v: nat, n: nat)
    requires v < Power(n) && n > 0
    ensures Value(Minimal(v)) == v && |Minimal(v)| <= n
    decreases v
  {
    if v < 256 {
      assert Minimal(v)[..0] == [];
    } else {
      MinimalIs(v / 256, n - 1);
      assert Minimal(v)[..|Minimal(v)| - 1] == Minimal(v / 256);
    }
  }

  lemma IntegerOctetsFit(v: nat)
    requires v < Power(32)
    ensures |IntegerOctets(v)| <= 33 && Fits(IntegerOctets(v)) && Value(IntegerOctets(v)) == v
  {
    hide Power, Minimal, Value;
    MinimalIs(v, 32);
    LeadingZeros(1, Minimal(v));
    assert Zeros(1) == [0];
  }

  /** The DER encoding of a signature. */
  function EncodeSignature(r: nat, s: nat): Bytes
    requires |IntegerOctets(r)| <= 33 && |IntegerOctets(s)| <= 33
  {
    Encoded(0x30, Encoded(0x02, IntegerOctets(r)) + Encoded(0x02, IntegerOctets(s)))
  }

  lemma EncodedElement(before: Bytes, tag: Byte, content: Bytes, after: Bytes)
    requires |content| < 0x80
    ensures var all := before + Encoded(tag, content) + after;
            ElementAt(all, |before|, tag, content, |before| + 2, |before| + 2 + |content|)
  {
    var all := before + Encoded(tag, content) + after;
    assert all[|before| + 1..|before| + 2] == [|content|];
    assert all[|before| + 2..|before| + 2 + |content|] == content;
  }

  /** The round trip for all numbers below two to the power 256, whatever converts the encoding. */
  lemma RoundTrip(r: nat, s: nat, result: Bytes)
    requires r < Power(32) && s < Power(32)
    ensures |IntegerOctets(r)| <= 33 && |IntegerOctets(s)| <= 33
    ensures !Unfit(EncodeSignature(r, s))
    ensures Converts(EncodeSignature(r, s), result) ==> result == Jose(r, s) && |result| == 64
    ensures Value(Jose(r, s)[..32]) == r && Value(Jose(r, s)[32..]) == s
  {
    hide IsLength, Fits, IntegerOctets;
    IntegerOctetsFit(r);
    IntegerOctetsFit(s);
    OctetsValue(r, 32);
    OctetsValue(s, 32);
    assert Jose(r, s)[..32] == LastOctets(r, 32) && Jose(r, s)[32..] == LastOctets(s, 32);
    var der, cr, cs := EncodeSignature(r, s), IntegerOctets(r), IntegerOctets(s);
    var middle := SignatureEncoded(cr, cs);
    assert Signature(der, cr, cs);
    if Converts(der, result) {
      var a, b :| ConvertsWith(der, a, b, result);
      OneSignature(der, cr, cs, a, b);
    }
  }

  lemma OneSignature(der: Bytes, r: Bytes, s: Bytes, a: Bytes, b: Bytes)
    requires Signature(der, r, s) && Signature(der, a, b)
    ensures r == a && s == b
  {
    hide IsLength;
    var start: nat, middle: nat :| SignatureAt(der, r, s, start, middle);
    var m := SignatureInside(der, start, |der| - start, a, b);
    SameElement(der, start, 0x02, r, middle, a, m);
    SameElement(der, middle, 0x02, s, |der|, b, |der|);
  }

  lemma SignatureEncoded(r: Bytes, s: Bytes) returns (middle: nat)
    requires |r| <= 33 && |s| <= 33
    ensures SignatureAt(Encoded(0x30, Encoded(0x02, r) + Encoded(0x02, s)), r, s, 2, middle)
  {
    hide IsLength, Encoded;
    var first, second := Encoded(0x02, r), Encoded(0x02, s);
    EncodedParts(0x02, r);
    EncodedParts(0x02, s);
    EncodedParts(0x30, first + second);
    var der := Encoded(0x30, first + second);
    assert [] + der + [] == der;
    EncodedElement([], 0x30, first + second, []);
    assert der == der[..2] + first + second;
    EncodedElement(der[..2], 0x02, r, second);
    assert der == der[..2] + first + second + [];
    EncodedElement(der[..2] + first, 0x02, s, []);
    middle := 2 + |first|;
  }

  lemma EncodedParts(tag: Byte, content: Bytes)
    requires |content| < 0x80
    ensures |Encoded(tag, content)| == |content| + 2
    ensures Encoded(tag, content) == Encoded(tag, content)[..2] + content
  {}
}
