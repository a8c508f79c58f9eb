/**
  The wire format shared by wxDataOutputStream and wxDataInputStream:
  bytes, the fixed-width unsigned integer types, and the two byte orders
  in which a multi-byte integer can be laid out.

  Little-endian puts the least significant byte first, big-endian the most
  significant byte first. Both layouts are defined here independently (each
  by its own recursion) and the lemmas below prove that one is the reversal
  of the other, that each decodes back to the value it encodes, and that a
  byte sequence is determined by the value it decodes to.
 */
module ByteOrder {

  /** The fixed-width unsigned integer types of the stream interface. */
  type U8 = x: nat | x < 0x100
  type U16 = x: nat | x < 0x1_0000
  type U32 = x: nat | x < 0x1_0000_0000
  type U64 = x: nat | x < 0x1_0000_0000_0000_0000

  /** One octet of a binary stream: the same range as an unsigned 8-bit integer. */
  type Byte = U8

  /** 256 to the power n: the number of distinct values n bytes can hold. */
  function Pow256(n: nat): (p: nat)
    ensures p > 0
  {
    if n == 0 then 1 else 256 * Pow256(n - 1)
  }

  /** The reversal of a sequence, characterised position by position. */
  function Reverse<T>(s: seq<T>): (r: seq<T>)
    ensures |r| == |s|
    ensures forall i :: 0 <= i < |s| ==> r[i] == s[|s| - 1 - i]
  {
    if |s| == 0 then [] else Reverse(s[1..]) + [s[0]]
  }

  /** The `width` low-order bytes of `v`, least significant first. */
  function LeBytes(v: nat, width: nat): (bs: seq<Byte>)
    ensures |bs| == width
  {
    if width == 0 then [] else [v % 256] + LeBytes(v / 256, width - 1)
  }

  /** The `width` low-order bytes of `v`, most significant first. */
  function BeBytes(v: nat, width: nat): (bs: seq<Byte>)
    ensures |bs| == width
  {
    if width == 0 then [] else BeBytes(v / 256, width - 1) + [v % 256]
  }

  /** The value of a little-endian byte sequence; it always fits its width. */
  function LeValue(bs: seq<Byte>): (v: nat)
    ensures v < Pow256(|bs|)
  {
    if |bs| == 0 then 0 else bs[0] + 256 * LeValue(bs[1..])
  }

  /** The value of a big-endian byte sequence; it always fits its width. */
  function BeValue(bs: seq<Byte>): (v: nat)
    ensures v < Pow256(|bs|)
  {
    if |bs| == 0 then 0 else 256 * BeValue(bs[..|bs| - 1]) + bs[|bs| - 1]
  }

  /** The bytes of `v` in the order selected by the `bigEndian` flag. */
  function Encode(v: nat, width: nat, bigEndian: bool): (bs: seq<Byte>)
    ensures |bs| == width
  {
    if bigEndian then BeBytes(v, width) else LeBytes(v, width)
  }

  /** The value of `bs` read in the order selected by the `bigEndian` flag. */
  function Decode(bs: seq<Byte>, bigEndian: bool): (v: nat)
    ensures v < Pow256(|bs|)
  {
    if bigEndian then BeValue(bs) else LeValue(bs)
  }

  /** The concatenation of the encodings of `vs`, one after another. */
  function EncodeAll(vs: seq<nat>, width: nat, bigEndian: bool): (bs: seq<Byte>)
    ensures |bs| == width * |vs|
  {
    if |vs| == 0 then [] else Encode(vs[0], width, bigEndian) + EncodeAll(vs[1..], width, bigEndian)
  }

  /** A string's length prefix is an unsigned 32-bit integer. */
  const PrefixWidth: nat := 4

  /** Every element of `vs` fits in `width` bytes. */
  predicate AllFit(vs: seq<nat>, width: nat)
  {
    forall i :: 0 <= i < |vs| ==> vs[i] < Pow256(width)
  }

  // ---------------------------------------------------------------------
  // Round trips of a single value

  lemma {:induction false} LeRoundTrip(v: nat, width: nat)
    requires v < Pow256(width)
    ensures LeValue(LeBytes(v, width)) == v
  {
    if width > 0 {
      LeRoundTrip(v / 256, width - 1);
      assert LeBytes(v, width)[1..] == LeBytes(v / 256, width - 1);
    }
  }

  lemma {:induction false} BeRoundTrip(v: nat, width: nat)
    requires v < Pow256(width)
    ensures BeValue(BeBytes(v, width)) == v
  {
    if width > 0 {
      BeRoundTrip(v / 256, width - 1);
      var bs := BeBytes(v, width);
      assert bs[..|bs| - 1] == BeBytes(v / 256, width - 1);
    }
  }

  /** Decoding the encoding of a value that fits its width gives the value back. */
  lemma DecodeEncode(v: nat, width: nat, bigEndian: bool)
    requires v < Pow256(width)
    ensures Decode(Encode(v, width, bigEndian), bigEndian) == v
  {
    if bigEndian { BeRoundTrip(v, width); } else { LeRoundTrip(v, width); }
  }

  lemma {:induction false} LeInjective(bs: seq<Byte>)
    ensures LeBytes(LeValue(bs), |bs|) == bs
  {
    if |bs| > 0 {
      LeInjective(bs[1..]);
      assert [bs[0]] + bs[1..] == bs;
    }
  }

  lemma {:induction false} BeInjective(bs: seq<Byte>)
    ensures BeBytes(BeValue(bs), |bs|) == bs
  {
    if |bs| > 0 {
      var init := bs[..|bs| - 1];
      BeInjective(init);
      assert init + [bs[|bs| - 1]] == bs;
    }
  }

  /** A byte sequence is the encoding of the value it decodes to. */
  lemma EncodeDecode(bs: seq<Byte>, bigEndian: bool)
    ensures Encode(Decode(bs, bigEndian), |bs|, bigEndian) == bs
  {
    if bigEndian { BeInjective(bs); } else { LeInjective(bs); }
  }

  /** Two values that fit the width have the same encoding only if they are equal. */
  lemma EncodeInjective(v: nat, u: nat, width: nat, bigEndian: bool)
    requires v < Pow256(width) && u < Pow256(width)
    requires Encode(v, width, bigEndian) == Encode(u, width, bigEndian)
    ensures v == u
  {
    DecodeEncode(v, width, bigEndian);
    DecodeEncode(u, width, bigEndian);
  }

  // ---------------------------------------------------------------------
  // The two byte orders are reversals of each other

  lemma {:induction false} BeBytesIsReversedLeBytes(v: nat, width: nat)
    ensures BeBytes(v, width) == Reverse(LeBytes(v, width))
  {
    if width > 0 {
      BeBytesIsReversedLeBytes(v / 256, width - 1);
      var le := LeBytes(v, width);
      assert le[1..] == LeBytes(v / 256, width - 1);
    }
  }

  lemma ReverseInvolutive<T>(s: seq<T>)
    ensures Reverse(Reverse(s)) == s
  {
  }

  lemma {:induction false} BeValueIsReversedLeValue(bs: seq<Byte>)
    ensures BeValue(bs) == LeValue(Reverse(bs))
  {
    if |bs| > 0 {
      var init := bs[..|bs| - 1];
      BeValueIsReversedLeValue(init);
      var r := Reverse(bs);
      assert r[1..] == Reverse(init);
    }
  }

  /**
    Big-endian bytes are the little-endian bytes reversed, and reading
    big-endian is reading little-endian after reversing.
   */
  lemma OrdersAreReversals(v: nat, width: nat, bs: seq<Byte>)
    ensures Encode(v, width, true) == Reverse(Encode(v, width, false))
    ensures Decode(bs, true) == Decode(Reverse(bs), false)
  {
    BeBytesIsReversedLeBytes(v, width);
    BeValueIsReversedLeValue(bs);
  }

  /** A single byte is laid out the same way in both orders. */
  lemma SingleByteOrderIndependent(v: U8)
    ensures Encode(v, 1, true) == Encode(v, 1, false) == [v]
  {
  }

  /**
    Order sensitivity: bytes written little-endian and read back big-endian
    give the original value exactly when the little-endian encoding is a
    palindrome; the same holds the other way round.
   */
  lemma {:induction false} OrderSensitivity(v: nat, width: nat, bigEndian: bool)
    requires v < Pow256(width)
    ensures var bs := Encode(v, width, bigEndian);
            Decode(bs, !bigEndian) == v <==> Reverse(bs) == bs
  {
    var bs := Encode(v, width, bigEndian);
    var rev := Reverse(bs);
    BeBytesIsReversedLeBytes(v, width);
    BeValueIsReversedLeValue(bs);
    BeValueIsReversedLeValue(rev);
    ReverseInvolutive(bs);
    DecodeEncode(v, width, bigEndian);
    // Reading with the other order is reading `rev` with this order.
    assert Decode(bs, !bigEndian) == Decode(rev, bigEndian);
    if Decode(rev, bigEndian) == v {
      EncodeDecode(rev, bigEndian);
    }
  }

  // ---------------------------------------------------------------------
  // Concatenated encodings

  /**
    Field `i` of `bs` when `bs` is read as consecutive fields of `width`
    bytes each; empty when the field would run past the end of `bs`.
   */
  function Chunk(bs: seq<Byte>, width: nat, i: nat): seq<Byte>
  {
    var k := width * i;
    if k + width <= |bs| then bs[k..k + width] else []
  }

  /** Past a leading field, fields are counted from one less. */
  lemma ChunkShift(head: seq<Byte>, tail: seq<Byte>, width: nat, i: nat)
    requires |head| == width && i > 0
    ensures Chunk(head + tail, width, i) == Chunk(tail, width, i - 1)
  {
    SpanSplit(width, i);
    var k := width * (i - 1);
    if k + width <= |tail| {
      assert (head + tail)[width + k..width + k + width] == tail[k..k + width];
    }
  }

  lemma {:induction false} EncodeAllElement(vs: seq<nat>, width: nat, bigEndian: bool, i: nat)
    requires i < |vs|
    ensures Chunk(EncodeAll(vs, width, bigEndian), width, i) == Encode(vs[i], width, bigEndian)
  {
    var head := Encode(vs[0], width, bigEndian);
    var tail := EncodeAll(vs[1..], width, bigEndian);
    assert EncodeAll(vs, width, bigEndian) == head + tail;
    if i == 0 {
      assert (head + tail)[0..width] == head;
    } else {
      EncodeAllElement(vs[1..], width, bigEndian, i - 1);
      ChunkShift(head, tail, width, i);
    }
  }

  /** `count` fields of `width` bytes are one field followed by `count - 1` more. */
  lemma SpanSplit(width: nat, count: nat)
    requires count > 0
    ensures 0 <= width * (count - 1)
    ensures width * count == width + width * (count - 1)
  {
  }

  /** A slice splits at any point inside it. */
  lemma SliceSplit(s: seq<Byte>, lo: nat, mid: nat, hi: nat)
    requires lo <= mid <= hi <= |s|
    ensures s[lo..hi] == s[lo..mid] + s[mid..hi]
  {
  }

  /** A sequence that extends `a` is `a` followed by the rest. */
  lemma PrefixSplit(a: seq<Byte>, b: seq<Byte>, tail: seq<Byte>)
    requires |a| <= |b| && b[..|a|] == a
    ensures a + (b[|a|..] + tail) == b + tail
  {
    assert b == a + b[|a|..];
  }

  /** Field `i` of a concatenated encoding is the encoding of element `i`. */
  lemma EncodeAllElements(vs: seq<nat>, width: nat, bigEndian: bool)
    ensures forall i :: 0 <= i < |vs| ==> Chunk(EncodeAll(vs, width, bigEndian), width, i) == Encode(vs[i], width, bigEndian)
  {
    forall i | 0 <= i < |vs|
      ensures Chunk(EncodeAll(vs, width, bigEndian), width, i) == Encode(vs[i], width, bigEndian)
    {
      EncodeAllElement(vs, width, bigEndian, i);
    }
  }

  /** One-byte fields are the bytes themselves: a run of them encodes to itself. */
  lemma {:induction false} EncodeAllBytes(vs: seq<nat>, bigEndian: bool)
    requires AllFit(vs, 1)
    ensures EncodeAll(vs, 1, bigEndian) == vs
  {
    if |vs| > 0 {
      assert AllFit(vs[1..], 1) by {
        forall i | 0 <= i < |vs| - 1 ensures vs[1..][i] < Pow256(1) {
          assert vs[1..][i] == vs[i + 1];
        }
      }
      EncodeAllBytes(vs[1..], bigEndian);
      SingleByteOrderIndependent(vs[0]);
      assert vs == [vs[0]] + vs[1..];
    }
  }

  /** Values that fit the width are determined by their concatenated encoding. */
  lemma {:induction false} EncodeAllInjective(vs: seq<nat>, us: seq<nat>, width: nat, bigEndian: bool)
    requires |vs| == |us|
    requires AllFit(vs, width) && AllFit(us, width)
    requires EncodeAll(vs, width, bigEndian) == EncodeAll(us, width, bigEndian)
    ensures vs == us
  {
    if |vs| > 0 {
      var ev := EncodeAll(vs, width, bigEndian);
      var eu := EncodeAll(us, width, bigEndian);
      assert ev[..width] == Encode(vs[0], width, bigEndian);
      assert eu[..width] == Encode(us[0], width, bigEndian);
      EncodeInjective(vs[0], us[0], width, bigEndian);
      assert ev[width..] == EncodeAll(vs[1..], width, bigEndian);
      assert eu[width..] == EncodeAll(us[1..], width, bigEndian);
      EncodeAllInjective(vs[1..], us[1..], width, bigEndian);
      assert vs == [vs[0]] + vs[1..];
      assert us == [us[0]] + us[1..];
    }
  }

  // ---------------------------------------------------------------------
  // Bit-exact examples

  /** The unsigned 32-bit value 1 is 01 00 00 00 little-endian and 00 00 00 01 big-endian. */
  lemma ExampleOne32()
    ensures Encode(1, 4, false) == [1, 0, 0, 0]
    ensures Encode(1, 4, true) == [0, 0, 0, 1]
  {
  }

  /** The unsigned 32-bit value 5 is 05 00 00 00 little-endian. */
  lemma ExampleFive32()
    ensures Encode(5, 4, false) == [5, 0, 0, 0]
  {
  }

  /** 0x1234 written little-endian and read big-endian comes back as 0x3412. */
  lemma ExampleSwapped16()
    ensures Encode(0x1234, 2, false) == [0x34, 0x12]
    ensures Decode(Encode(0x1234, 2, false), true) == 0x3412
  {
  }
}
