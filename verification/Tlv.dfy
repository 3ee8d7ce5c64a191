/** The type-length-value format of NDN packets: variable-size numbers, non-negative integers,
    elements, and the encoder that writes them back to front. */
module Tlv {
  import opened Protocol

  newtype byte = x: int | 0 <= x < 256

  type Bytes = seq<byte>

  const MAX_TYPE := 0xFFFF_FFFF
  const MAX_NUMBER := 0xFFFF_FFFF_FFFF_FFFF

  // ----- Numbers -------------------------------------------------------------------------------

  /** The `k` low-order bytes of `n`, most significant first. */
  function BigEndian(n: nat, k: nat): (b: Bytes)
    ensures |b| == k
    decreases k
  {
    if k == 0 then [] else BigEndian(n / 256, k - 1) + [(n % 256) as byte]
  }

  function FromBigEndian(b: Bytes): nat {
    if b == [] then 0 else FromBigEndian(b[..|b| - 1]) * 256 + b[|b| - 1] as nat
  }

  function Pow256(k: nat): nat {
    if k == 0 then 1 else 256 * Pow256(k - 1)
  }

  lemma {:induction false} BigEndianRoundTrip(n: nat, k: nat)
    requires n < Pow256(k)
    ensures FromBigEndian(BigEndian(n, k)) == n
    decreases k
  {
    if k > 0 {
      BigEndianRoundTrip(n / 256, k - 1);
      assert BigEndian(n, k)[..k - 1] == BigEndian(n / 256, k - 1);
    }
  }

  lemma Widths()
    ensures Pow256(1) == 0x100 && Pow256(2) == 0x1_0000 && Pow256(4) == 0x1_0000_0000
    ensures Pow256(8) == 0x1_0000_0000_0000_0000
  {
    assert Pow256(3) == 256 * Pow256(2) && Pow256(5) == 256 * Pow256(4);
    assert Pow256(6) == 256 * Pow256(5) && Pow256(7) == 256 * Pow256(6);
  }

  /** The number format of types and lengths: 1, 3, 5 or 9 bytes. */
  function VarNumber(n: nat): Bytes {
    if n < 253 then [n as byte]
    else if n <= 0xFFFF then [253] + BigEndian(n, 2)
    else if n <= 0xFFFF_FFFF then [254] + BigEndian(n, 4)
    else [255] + BigEndian(n, 8)
  }

  function ReadVarNumber(b: Bytes): Option<(nat, Bytes)> {
    if b == [] then Nothing
    else if b[0] < 253 then Just((b[0] as nat, b[1..]))
    else
      var k := if b[0] == 253 then 2 else if b[0] == 254 then 4 else 8;
      if |b| < 1 + k then Nothing else Just((FromBigEndian(b[1..1 + k]), b[1 + k..]))
  }

  lemma VarNumberRoundTrip(n: nat, rest: Bytes)
    requires n <= MAX_NUMBER
    ensures ReadVarNumber(VarNumber(n) + rest) == Just((n, rest))
  {
    Widths();
    if n >= 253 {
      var k := if n <= 0xFFFF then 2 else if n <= 0xFFFF_FFFF then 4 else 8;
      BigEndianRoundTrip(n, k);
      var b := VarNumber(n) + rest;
      assert b[1..1 + k] == BigEndian(n, k) && b[1 + k..] == rest;
    } else {
      assert (VarNumber(n) + rest)[1..] == rest;
    }
  }

  /** The value format of integers: 1, 2, 4 or 8 bytes. */
  function NonNegative(n: nat): Bytes {
    if n <= 0xFF then BigEndian(n, 1)
    else if n <= 0xFFFF then BigEndian(n, 2)
    else if n <= 0xFFFF_FFFF then BigEndian(n, 4)
    else BigEndian(n, 8)
  }

  function ReadNonNegative(value: Bytes): Option<nat> {
    if |value| in {1, 2, 4, 8} then Just(FromBigEndian(value)) else Nothing
  }

  lemma NonNegativeRoundTrip(n: nat)
    requires n <= MAX_NUMBER
    ensures ReadNonNegative(NonNegative(n)) == Just(n)
  {
    Widths();
    BigEndianRoundTrip(n, |NonNegative(n)|);
  }

  /** The first byte of a number is its most significant one. */
  lemma {:induction false} BigEndianLeads(a: byte, rest: Bytes)
    ensures FromBigEndian([a] + rest) == a as nat * Pow256(|rest|) + FromBigEndian(rest)
  {
    if rest == [] {
      assert [a] + rest == [a] && [a][..0] == [];
    } else {
      var init := rest[..|rest| - 1];
      BigEndianLeads(a, init);
      assert ([a] + rest)[..|rest|] == [a] + init;
      assert (a as nat * Pow256(|init|)) * 256 == a as nat * Pow256(|rest|) by {
        PowerStep(a as nat, |init|);
      }
    }
  }

  lemma PowerStep(a: nat, k: nat)
    ensures (a * Pow256(k)) * 256 == a * Pow256(k + 1)
  {
  }

  /** The widths and markers of both number formats: a type or length is one byte below 253, and
      otherwise a marker and two, four or eight bytes; an integer has the least of one, two, four
      and eight bytes. */
  lemma NumberFormat(n: nat)
    requires n <= MAX_NUMBER
    ensures if n < 253 then VarNumber(n) == [n as byte]
            else |VarNumber(n)| == (if n <= 0xFFFF then 3 else if n <= 0xFFFF_FFFF then 5 else 9)
                 && VarNumber(n)[0] == (if n <= 0xFFFF then 253 else if n <= 0xFFFF_FFFF then 254 else 255)
                 && FromBigEndian(VarNumber(n)[1..]) == n
    ensures |NonNegative(n)| == (if n <= 0xFF then 1 else if n <= 0xFFFF then 2 else if n <= 0xFFFF_FFFF then 4 else 8)
    ensures FromBigEndian(NonNegative(n)) == n
  {
    Widths();
    if n >= 253 {
      var k := if n <= 0xFFFF then 2 else if n <= 0xFFFF_FFFF then 4 else 8;
      BigEndianRoundTrip(n, k);
      assert VarNumber(n)[1..] == BigEndian(n, k);
    }
    BigEndianRoundTrip(n, |NonNegative(n)|);
  }

  // ----- Elements ------------------------------------------------------------------------------

  datatype Element = Element(typ: nat, value: Bytes)

  function Block(typ: nat, value: Bytes): Bytes {
    VarNumber(typ) + VarNumber(|value|) + value
  }

  function ReadElement(b: Bytes): Option<(Element, Bytes)> {
    match ReadVarNumber(b)
    case Nothing => Nothing
    case Just((typ, b1)) =>
      if typ > MAX_TYPE then Nothing
      else match ReadVarNumber(b1)
        case Nothing => Nothing
        case Just((length, b2)) =>
          if length > |b2| then Nothing else Just((Element(typ, b2[..length]), b2[length..]))
  }

  lemma ReadShortens(b: Bytes)
    ensures ReadElement(b).Just? ==> |ReadElement(b).value.1| < |b|
  {
  }

  /** The sub-elements of a value. */
  function ParseElements(b: Bytes): Option<seq<Element>>
    decreases |b|
  {
    if b == [] then Just([])
    else
      ReadShortens(b);
      match ReadElement(b)
      case Nothing => Nothing
      case Just((e, rest)) =>
        match ParseElements(rest)
        case Nothing => Nothing
        case Just(es) => Just([e] + es)
  }

  lemma BlockRoundTrip(typ: nat, value: Bytes, rest: Bytes)
    requires typ <= MAX_TYPE && |value| <= MAX_NUMBER
    ensures ReadElement(Block(typ, value) + rest) == Just((Element(typ, value), rest))
  {
    var tail := value + rest;
    assert Block(typ, value) + rest == VarNumber(typ) + (VarNumber(|value|) + tail);
    VarNumberRoundTrip(typ, VarNumber(|value|) + tail);
    VarNumberRoundTrip(|value|, tail);
    assert tail[..|value|] == value && tail[|value|..] == rest;
  }

  /** Parsing takes a block off the front. */
  lemma ParseBlock(typ: nat, value: Bytes, rest: Bytes, es: seq<Element>)
    requires typ <= MAX_TYPE && |value| <= MAX_NUMBER
    requires ParseElements(rest) == Just(es)
    ensures ParseElements(Block(typ, value) + rest) == Just([Element(typ, value)] + es)
  {
    BlockRoundTrip(typ, value, rest);
  }

  /** The blocks of these elements one after the other. */
  function Blocks(es: seq<Element>): Bytes {
    if es == [] then [] else Block(es[0].typ, es[0].value) + Blocks(es[1..])
  }

  /** Parsing consecutive blocks recovers the elements: every length field encloses exactly its
      own value, whatever the width it is written in. */
  lemma {:induction false} BlocksParse(es: seq<Element>)
    requires forall e | e in es :: e.typ <= MAX_TYPE
    requires |Blocks(es)| <= MAX_NUMBER
    ensures ParseElements(Blocks(es)) == Just(es)
  {
    if es != [] {
      BlocksParse(es[1..]);
      ParseBlock(es[0].typ, es[0].value, Blocks(es[1..]), es[1..]);
      assert es == [es[0]] + es[1..];
    }
  }

  function Written(e: Element): Bytes {
    Block(e.typ, e.value)
  }

  lemma BlocksAppend(es: seq<Element>, e: Element)
    ensures Blocks(es + [e]) == Blocks(es) + Written(e)
  {
    if es == [] {
      assert es + [e] == [e] && [e][1..] == [];
    } else {
      assert (es + [e])[1..] == es[1..] + [e];
      BlocksAppend(es[1..], e);
    }
  }

  lemma FourBlocks(a: Element, b: Element, c: Element, d: Element)
    ensures Blocks([a, b, c, d]) == Written(a) + Written(b) + Written(c) + Written(d)
  {
    BlocksAppend([], a);
    BlocksAppend([a], b);
    BlocksAppend([a, b], c);
    BlocksAppend([a, b, c], d);
    assert [] + [a] == [a] && [a] + [b] == [a, b] && [a, b] + [c] == [a, b, c] && [a, b, c] + [d] == [a, b, c, d];
  }

  // ----- Text ----------------------------------------------------------------------------------

  predicate IsOctets(s: string) {
    forall c | c in s :: c as int < 256
  }

  function ToBytes(s: string): Bytes {
    seq(|s|, i requires 0 <= i < |s| => (s[i] as int % 256) as byte)
  }

  function ToText(b: Bytes): string {
    seq(|b|, i requires 0 <= i < |b| => b[i] as char)
  }

  lemma TextRoundTrip(s: string)
    requires IsOctets(s)
    ensures ToText(ToBytes(s)) == s
  {
    forall i | 0 <= i < |s|
      ensures ToText(ToBytes(s))[i] == s[i]
    {
      assert s[i] in s;
    }
  }

  // ----- The encoder ---------------------------------------------------------------------------

  /** The buffer after prepending: the estimator measures without writing. */
  function Prepended(writing: bool, bytes: Bytes, buffer: Bytes): Bytes {
    if writing then bytes + buffer else buffer
  }

  /** Prepending twice is prepending the concatenation. */
  lemma PrependedTwice(writing: bool, a: Bytes, b: Bytes, buffer: Bytes)
    ensures Prepended(writing, a, Prepended(writing, b, buffer)) == Prepended(writing, a + b, buffer)
  {
    assert a + (b + buffer) == a + b + buffer;
  }

  /** One encoder for both passes: the estimator (`writing` is false) and the buffer. */
  class EncodingImpl {
    const writing: bool
    var buffer: Bytes

    constructor (writing: bool)
      ensures this.writing == writing && buffer == []
    {
      this.writing := writing;
      buffer := [];
    }

    method PrependByteArray(bytes: Bytes) returns (size: nat)
      modifies this
      ensures size == |bytes| && buffer == Prepended(writing, bytes, old(buffer))
    {
      if writing {
        buffer := bytes + buffer;
      }
      size := |bytes|;
    }

    /** A marker byte followed by a fixed-width number. */
    method PrependMarked(marker: byte, n: nat, width: nat) returns (size: nat)
      modifies this
      ensures size == 1 + width && buffer == Prepended(writing, [marker] + BigEndian(n, width), old(buffer))
    {
      ghost var before := buffer;
      var numberSize := PrependByteArray(BigEndian(n, width));
      var markerSize := PrependByteArray([marker]);
      size := numberSize + markerSize;
      assert writing ==> buffer == [marker] + BigEndian(n, width) + before;
    }

    method PrependVarNumber(n: nat) returns (size: nat)
      modifies this
      ensures size == |VarNumber(n)| && buffer == Prepended(writing, VarNumber(n), old(buffer))
    {
      if n < 253 {
        size := PrependByteArray([n as byte]);
      } else if n <= 0xFFFF {
        size := PrependMarked(253, n, 2);
      } else if n <= 0xFFFF_FFFF {
        size := PrependMarked(254, n, 4);
      } else {
        size := PrependMarked(255, n, 8);
      }
    }

    method PrependNonNegativeInteger(n: nat) returns (size: nat)
      modifies this
      ensures size == |NonNegative(n)| && buffer == Prepended(writing, NonNegative(n), old(buffer))
    {
      if n <= 0xFF {
        size := PrependByteArray(BigEndian(n, 1));
      } else if n <= 0xFFFF {
        size := PrependByteArray(BigEndian(n, 2));
      } else if n <= 0xFFFF_FFFF {
        size := PrependByteArray(BigEndian(n, 4));
      } else {
        size := PrependByteArray(BigEndian(n, 8));
      }
    }

    /** The length and type in front of a value just written; `size` is the total. */
    method PrependHeader(typ: nat, ghost value: Bytes, length: nat, ghost before: Bytes) returns (size: nat)
      requires length == |value| && buffer == Prepended(writing, value, before)
      modifies this
      ensures size == |Block(typ, value)| && buffer == Prepended(writing, Block(typ, value), before)
    {
      var lengthSize := PrependVarNumber(length);
      var typeSize := PrependVarNumber(typ);
      size := length + lengthSize + typeSize;
      assert writing ==> buffer == VarNumber(typ) + (VarNumber(|value|) + (value + before));
    }

    method PrependByteArrayBlock(typ: nat, value: Bytes) returns (size: nat)
      modifies this
      ensures size == |Block(typ, value)| && buffer == Prepended(writing, Block(typ, value), old(buffer))
    {
      var length := PrependByteArray(value);
      size := PrependHeader(typ, value, length, old(buffer));
    }

    method PrependNonNegativeIntegerBlock(typ: nat, n: nat) returns (size: nat)
      modifies this
      ensures size == |Block(typ, NonNegative(n))|
      ensures buffer == Prepended(writing, Block(typ, NonNegative(n)), old(buffer))
    {
      var length := PrependNonNegativeInteger(n);
      size := PrependHeader(typ, NonNegative(n), length, old(buffer));
    }
  }
}
