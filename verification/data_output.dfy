/**
  wxDataOutputStream: writes fixed-width unsigned integers and
  length-prefixed strings to an output byte sink, in a selectable byte
  order that is little-endian unless changed.

  The sink is an append-only byte sequence; the stream is an immutable
  record of the sink and the byte-order flag, and every write returns the
  record with the encoded bytes appended.
 */
module DataOutput {
  import opened ByteOrder

  datatype DataOutputStream = DataOutputStream(sink: seq<Byte>, bigEndian: bool)

  /**
    `w'` is `w` with exactly `n` bytes appended: the bytes already in the
    sink are untouched and the byte order is unchanged.
   */
  predicate Appended(w: DataOutputStream, w': DataOutputStream, n: nat)
  {
    && w'.bigEndian == w.bigEndian
    && |w'.sink| == |w.sink| + n
    && w'.sink[..|w.sink|] == w.sink
  }

  /** The bytes `w'` has appended after `w`. */
  function Written(w: DataOutputStream, w': DataOutputStream): seq<Byte>
    requires |w.sink| <= |w'.sink|
  {
    w'.sink[|w.sink|..]
  }

  /** A data stream bound to a sink; it writes little-endian. */
  function Create(sink: seq<Byte>): (w: DataOutputStream)
    ensures w.sink == sink
    ensures !w.bigEndian
  {
    DataOutputStream(sink, false)
  }

  /** Selects big-endian (`beOrder`) or little-endian order for later writes. */
  function BigEndianOrdered(w: DataOutputStream, beOrder: bool): (w': DataOutputStream)
    ensures w'.bigEndian == beOrder
    ensures w'.sink == w.sink
  {
    w.(bigEndian := beOrder)
  }

  /** Appends `v` as `width` bytes in the stream's current order. */
  function WriteUInt(w: DataOutputStream, width: nat, v: nat): (w': DataOutputStream)
    requires v < Pow256(width)
    ensures Appended(w, w', width)
    ensures Decode(Written(w, w'), w.bigEndian) == v
  {
    DecodeEncode(v, width, w.bigEndian);
    w.(sink := w.sink + Encode(v, width, w.bigEndian))
  }

  function Write8(w: DataOutputStream, i8: U8): (w': DataOutputStream)
    ensures Appended(w, w', 1)
    ensures Written(w, w') == [i8]
  {
    WriteUInt(w, 1, i8)
  }

  function Write16(w: DataOutputStream, i16: U16): (w': DataOutputStream)
    ensures Appended(w, w', 2)
    ensures Decode(Written(w, w'), w.bigEndian) == i16
  {
    WriteUInt(w, 2, i16)
  }

  function Write32(w: DataOutputStream, i32: U32): (w': DataOutputStream)
    ensures Appended(w, w', 4)
    ensures Decode(Written(w, w'), w.bigEndian) == i32
  {
    WriteUInt(w, 4, i32)
  }

  function Write64(w: DataOutputStream, i64: U64): (w': DataOutputStream)
    ensures Appended(w, w', 8)
    ensures Decode(Written(w, w'), w.bigEndian) == i64
  {
    WriteUInt(w, 8, i64)
  }

  /**
    Appends the values one after another, each by a scalar write; the bytes
    appended are the concatenation of the scalar encodings.
   */
  function WriteUInts(w: DataOutputStream, width: nat, values: seq<nat>): (w': DataOutputStream)
    requires AllFit(values, width)
    ensures Appended(w, w', width * |values|)
    ensures Written(w, w') == EncodeAll(values, width, w.bigEndian)
    decreases |values|
  {
    if |values| == 0 then w
    else
      var w1 := WriteUInt(w, width, values[0]);
      var w2 := WriteUInts(w1, width, values[1..]);
      SpanSplit(width, |values|);
      AppendedTransitive(w, w1, w2, width, width * (|values| - 1));
      w2
  }

  /** Field `i` of an array write decodes to `values[i]`. */
  lemma ArrayElementsDecode(w: DataOutputStream, w': DataOutputStream, width: nat, values: seq<nat>)
    requires AllFit(values, width)
    requires |w.sink| <= |w'.sink|
    requires Written(w, w') == EncodeAll(values, width, w.bigEndian)
    ensures forall i :: 0 <= i < |values| ==> Decode(Chunk(Written(w, w'), width, i), w.bigEndian) == values[i]
  {
    forall i | 0 <= i < |values|
      ensures Decode(Chunk(Written(w, w'), width, i), w.bigEndian) == values[i]
    {
      EncodeAllElement(values, width, w.bigEndian, i);
      DecodeEncode(values[i], width, w.bigEndian);
    }
  }

  /** Writes the first `size` bytes of `buffer`. */
  function Write8Array(w: DataOutputStream, buffer: seq<U8>, size: nat): (w': DataOutputStream)
    requires size <= |buffer|
    ensures Appended(w, w', size)
    ensures Written(w, w') == buffer[..size]
  {
    var w' := WriteUInts(w, 1, buffer[..size]);
    EncodeAllBytes(buffer[..size], w.bigEndian);
    w'
  }

  /** Writes the first `size` elements of `buffer` as 16-bit integers. */
  function Write16Array(w: DataOutputStream, buffer: seq<U16>, size: nat): (w': DataOutputStream)
    requires size <= |buffer|
    ensures Appended(w, w', 2 * size)
    ensures forall i :: 0 <= i < size ==> Decode(Chunk(Written(w, w'), 2, i), w.bigEndian) == buffer[i]
  {
    var w' := WriteUInts(w, 2, buffer[..size]);
    ArrayElementsDecode(w, w', 2, buffer[..size]);
    w'
  }

  /** Writes the first `size` elements of `buffer` as 32-bit integers. */
  function Write32Array(w: DataOutputStream, buffer: seq<U32>, size: nat): (w': DataOutputStream)
    requires size <= |buffer|
    ensures Appended(w, w', 4 * size)
    ensures forall i :: 0 <= i < size ==> Decode(Chunk(Written(w, w'), 4, i), w.bigEndian) == buffer[i]
  {
    var w' := WriteUInts(w, 4, buffer[..size]);
    ArrayElementsDecode(w, w', 4, buffer[..size]);
    w'
  }

  /** Writes the first `size` elements of `buffer` as 64-bit integers. */
  function Write64Array(w: DataOutputStream, buffer: seq<U64>, size: nat): (w': DataOutputStream)
    requires size <= |buffer|
    ensures Appended(w, w', 8 * size)
    ensures forall i :: 0 <= i < size ==> Decode(Chunk(Written(w, w'), 8, i), w.bigEndian) == buffer[i]
  {
    var w' := WriteUInts(w, 8, buffer[..size]);
    ArrayElementsDecode(w, w', 8, buffer[..size]);
    w'
  }

  /**
    Writes the byte length of `s` as a 32-bit unsigned integer in the
    current order, then the bytes of `s`, with no terminating null. A
    length of 2^32 or more is truncated to its low 32 bits, as a `size_t`
    narrowed to `wxUint32` is.
   */
  function WriteString(w: DataOutputStream, s: seq<Byte>): (w': DataOutputStream)
    ensures Appended(w, w', PrefixWidth + |s|)
    ensures Decode(w'.sink[|w.sink|..|w.sink| + PrefixWidth], w.bigEndian) == |s| % 0x1_0000_0000
    ensures w'.sink[|w.sink| + PrefixWidth..] == s
  {
    var w1 := Write32(w, |s| % 0x1_0000_0000);
    w1.(sink := w1.sink + s)
  }

  /** Any sequence of writes only appends: earlier bytes are never modified. */
  lemma AppendedTransitive(w1: DataOutputStream, w2: DataOutputStream, w3: DataOutputStream, m: nat, n: nat)
    requires Appended(w1, w2, m) && Appended(w2, w3, n)
    ensures Appended(w1, w3, m + n)
    ensures Written(w1, w3) == Written(w1, w2) + Written(w2, w3)
  {
    assert w3.sink[..|w1.sink|] == w3.sink[..|w2.sink|][..|w1.sink|];
  }
}
