/** The repository's own vectors for the encoder, as equalities of octets. */
module Vectors {
  import opened Octets
  import opened Cbor
  import CborExact
  import CborDecode
  import Utf8

  lemma Integers()
    ensures Encode(Int(0)) == Ok([0]) && Encode(Int(23)) == Ok([23]) && Encode(Int(24)) == Ok([24, 24])
    ensures Encode(Int(255)) == Ok([24, 255]) && Encode(Int(256)) == Ok([25, 1, 0])
    ensures Encode(Int(0x1_0000)) == Ok([26, 0, 1, 0, 0])
    ensures Encode(Int(-1)) == Ok([32]) && Encode(Int(-49)) == Ok([56, 48])
  {
    TwoOctets(256, 1, 0);
    TwoOctets(1, 0, 1);
    assert BigEndian(0x100, 3) == BigEndian(1, 2) + [0] == [0, 1, 0];
    assert BigEndian(0x1_0000, 4) == BigEndian(0x100, 3) + [0] == [0, 1, 0, 0];
    assert [25] + [1, 0] == [25, 1, 0] && [26] + [0, 1, 0, 0] == [26, 0, 1, 0, 0];
  }

  lemma TwoOctets(n: nat, high: byte, low: byte)
    requires n == 256 * high + low
    ensures BigEndian(n, 2) == [high, low]
  {
    assert BigEndian(high, 1) == [] + [high];
  }

  /** Of the hand-made inputs a strict decoder refuses: a long head, an indefinite length, a float. */
  lemma Refused()
    ensures CborDecode.Decode([0x18, 0x00], 4) == CborDecode.Fail(CborDecode.NonCanonical)
    ensures CborDecode.Decode([0x9F, 0x00, 0xFF], 4) == CborDecode.Fail(CborDecode.NonCanonical)
    ensures CborDecode.Decode([0xF9, 0x3E, 0x00], 4) == CborDecode.Fail(CborDecode.NonCanonical)
  {
    assert [0x18, 0x00][1..] == [0x00] && FromBigEndian([0x00]) == 0;
    HeadRefused(24, [0x00]);
    BadHead(0x18, [0x00], 4);
    HeadRefused(31, [0x00, 0xFF]);
    BadHead(0x9F, [0x00, 0xFF], 4);
    MajorSeven(0xF9, [0x3E, 0x00], 4);
  }

  lemma HeadRefused(ai: nat, b: Bytes)
    requires 28 <= ai < 32 || (ai == 24 && |b| >= 1 && b[0] < 24)
    ensures CborDecode.ReadArgument(ai, b) == CborDecode.Fail(CborDecode.NonCanonical)
  {
    if ai == 24 { assert FromBigEndian(b[..1]) == 256 * FromBigEndian(b[..1][..0]) + b[0]; }
  }

  lemma BadHead(first: byte, b: Bytes, maxDepth: nat)
    requires maxDepth >= 1 && CborDecode.ReadArgument(first % 32, b) == CborDecode.Fail(CborDecode.NonCanonical)
    ensures CborDecode.Decode([first] + b, maxDepth) == CborDecode.Fail(CborDecode.NonCanonical)
  {
    hide CborDecode.ReadArgument, CborDecode.DecodeBody;
    assert ([first] + b)[1..] == b;
  }

  lemma MajorSeven(first: byte, b: Bytes, maxDepth: nat)
    requires maxDepth >= 1 && first / 32 == 7
    ensures CborDecode.Decode([first] + b, maxDepth) == CborDecode.Fail(CborDecode.NonCanonical)
  {
    hide CborDecode.ReadArgument;
    assert ([first] + b)[1..] == b && ([first] + b)[0] == first;
    var head := CborDecode.ReadArgument(first % 32, b);
    if head.Fail? {
      ArgumentOnlyNonCanonical(first % 32, b);
      BadHead(first, b, maxDepth);
    } else {
      assert CborDecode.DecodeBody(7, head.value, head.rest, 1, maxDepth) == CborDecode.Fail(CborDecode.NonCanonical);
    }
  }

  lemma ArgumentOnlyNonCanonical(ai: nat, b: Bytes)
    requires CborDecode.ReadArgument(ai, b).Fail?
    ensures CborDecode.ReadArgument(ai, b) == CborDecode.Fail(CborDecode.NonCanonical)
  {}

  /** {1: 7, 2: 8}, written either way round. */
  lemma KeysInOrder()
    ensures Encode(Map([Pair(Int(1), Int(7)), Pair(Int(2), Int(8))])) == Ok([0xA2, 1, 7, 2, 8])
    ensures Encode(Map([Pair(Int(2), Int(8)), Pair(Int(1), Int(7))])) == Ok([0xA2, 1, 7, 2, 8])
  {
    var p, q := Pair(Int(1), Int(7)), Pair(Int(2), Int(8));
    assert EncodePair(p) == Ok(([1], [7])) && EncodePair(q) == Ok(([2], [8]));
    CborExact.TwoKeyMap(p, q);
    assert [0xA2] + [1] + [7] + [2] + [8] == [0xA2, 1, 7, 2, 8];
  }

  /** The body of the nested vector: {1: "world", 2: 42}. */
  lemma NestedBody()
    ensures Encode(Map([Pair(Int(1), Tstr([0x77, 0x6F, 0x72, 0x6C, 0x64])), Pair(Int(2), Int(42))]))
            == Ok([0xA2, 0x01, 0x65, 0x77, 0x6F, 0x72, 0x6C, 0x64, 0x02, 0x18, 0x2A])
  {
    var world: Bytes := [0x77, 0x6F, 0x72, 0x6C, 0x64];
    ShortText(world);
    var p, q := Pair(Int(1), Tstr(world)), Pair(Int(2), Int(42));
    NestedPairs(world);
    hide Encode, EncodePair;
    CborExact.TwoKeyMap(p, q);
    assert [0xA2] + [0x01] + ([0x65] + world) + [0x02] + [0x18, 0x2A]
           == [0xA2, 0x01, 0x65, 0x77, 0x6F, 0x72, 0x6C, 0x64, 0x02, 0x18, 0x2A];
  }

  lemma ShortText(s: Bytes)
    requires |s| < 24 && forall i :: 0 <= i < |s| ==> s[i] < 0x80
    ensures Encode(Tstr(s)) == Ok([0x60 + |s|] + s)
  {
    hide Utf8Valid;
    Utf8.Ascii(s);
  }

  lemma NestedPairs(world: Bytes)
    requires Encode(Tstr(world)) == Ok([0x65] + world)
    ensures EncodePair(Pair(Int(1), Tstr(world))) == Ok(([0x01], [0x65] + world))
    ensures EncodePair(Pair(Int(2), Int(42))) == Ok(([0x02], [0x18, 0x2A])) && Less([0x01], [0x02])
  {
    hide Utf8Valid;
    assert Encode(Int(1)) == Ok([0x01]) && Encode(Int(2)) == Ok([0x02]) && Encode(Int(42)) == Ok([0x18, 0x2A]);
  }

  /** The least integer a strict decoder accepts is -2^63, though the encoder emits lower ones. */
  lemma NegativeLimit()
    ensures var least := Encode(Int(-0x8000_0000_0000_0000)); var below := Encode(Int(-0x8000_0000_0000_0001));
            && least.Ok? && CborDecode.Decode(least.value, 1).Done?
            && below.Ok?
            && CborDecode.Decode(below.value, |below.value| + 1) == CborDecode.Fail(CborDecode.NonCanonical)
  {
    hide CborDecode.Decode, Encode;
    CborExact.EncodesExactly(Int(-0x8000_0000_0000_0000));
    CborExact.EncodesExactly(Int(-0x8000_0000_0000_0001));
    CborDecode.DecodeComplete(Int(-0x8000_0000_0000_0000), 1);
    var below := Encode(Int(-0x8000_0000_0000_0001)).value;
    CborExact.RefusalNamed(Int(-0x8000_0000_0000_0001), 1, |below| + 1);
  }

  /** Keys out of order and keys repeated are refused, whatever the limit allows. */
  lemma RefusedMaps(maxDepth: nat)
    requires maxDepth >= 2
    ensures CborDecode.Decode([0xA2, 2, 0, 1, 0], maxDepth) == CborDecode.Fail(CborDecode.NonCanonical)
    ensures CborDecode.Decode([0xA2, 1, 0, 1, 1], maxDepth) == CborDecode.Fail(CborDecode.NonCanonical)
  {
    SecondKey(2, 0, 1, 0, maxDepth);
    SecondKey(1, 0, 1, 1, maxDepth);
  }

  lemma SecondKey(k: byte, v: byte, l: byte, w: byte, maxDepth: nat)
    requires maxDepth >= 2 && k < 24 && v < 24 && l < 24 && w < 24 && l <= k
    ensures CborDecode.Decode([0xA2, k, v, l, w], maxDepth) == CborDecode.Fail(CborDecode.NonCanonical)
  {
    var b: Bytes := [k, v, l, w];
    assert [0xA2, k, v, l, w][1..] == b && b[1..] == [v, l, w] && b[1..][1..] == [l, w] && b[1..][1..][1..] == [w];
    SmallItem(b, maxDepth);
    SmallItem(b[1..], maxDepth);
    SmallItem(b[1..][1..], maxDepth);
    assert b[..1] == [k] && [l, w][..1] == [l];
    assert !Less([k], [l]);
    hide CborDecode.DecodeItem;
    assert CborDecode.DecodePairs(1, [l, w], Some([k]), 2, maxDepth) == CborDecode.Fail(CborDecode.NonCanonical);
    assert CborDecode.DecodePairs(2, b, None, 2, maxDepth) == CborDecode.Fail(CborDecode.NonCanonical);
    WholeMap(b, maxDepth);
  }

  lemma SmallItem(b: Bytes, maxDepth: nat)
    requires b != [] && b[0] < 24 && maxDepth >= 2
    ensures CborDecode.DecodeItem(b, 2, maxDepth) == CborDecode.Done(Int(b[0]), b[1..])
  {}

  lemma WholeMap(b: Bytes, maxDepth: nat)
    requires |b| == 4 && maxDepth >= 1
    requires CborDecode.DecodePairs(2, b, None, 2, maxDepth) == CborDecode.Fail(CborDecode.NonCanonical)
    ensures CborDecode.Decode([0xA2] + b, maxDepth) == CborDecode.Fail(CborDecode.NonCanonical)
  {
    assert ([0xA2] + b)[1..] == b;
    assert CborDecode.ReadArgument(2, b) == CborDecode.Done(2, b);
    assert CborDecode.DecodeBody(5, 2, b, 1, maxDepth) == CborDecode.Fail(CborDecode.NonCanonical);
  }
}
