/**
  wxDataInputStream: reads fixed-width unsigned integers and
  length-prefixed strings from an input byte source, in a selectable byte
  order that is little-endian unless changed.

  The source is a byte sequence with a read position; the stream is an
  immutable record of both and the byte-order flag. A read that finds
  fewer bytes than it needs reports end of stream instead of a value.
  The underlying source hands over whatever bytes it still has, so such a
  read leaves the stream at the end of the source: bytes a failed read
  took are not given back.
 */
module DataInput {
  import opened ByteOrder

  datatype DataInputStream = DataInputStream(source: seq<Byte>, pos: nat, bigEndian: bool)
  {
    /** The position never passes the end of the source. */
    predicate Valid()
    {
      pos <= |source|
    }

    /** The number of bytes not read yet. */
    function Remaining(): nat
      requires Valid()
    {
      |source| - pos
    }
  }

  /**
    The outcome of a read: the value and the stream after it, or end of
    stream together with the stream as the failed read leaves it.
   */
  datatype ReadResult<T> = Read(value: T, next: DataInputStream) | EndOfStream(next: DataInputStream)

  /**
    `s'` is `s` advanced by exactly `n` bytes: the source contents and the
    byte order are unchanged.
   */
  predicate Advanced(s: DataInputStream, s': DataInputStream, n: nat)
  {
    && s'.source == s.source
    && s'.bigEndian == s.bigEndian
    && s'.pos == s.pos + n
    && s'.Valid()
  }

  /** `s` after a short read has taken every byte the source had left. */
  function Exhausted(s: DataInputStream): (s': DataInputStream)
    ensures s'.Valid() && s'.pos == |s.source|
    ensures s'.source == s.source && s'.bigEndian == s.bigEndian
  {
    s.(pos := |s.source|)
  }

  /** A data stream bound to a source at its first byte; it reads little-endian. */
  function Create(source: seq<Byte>): (s: DataInputStream)
    ensures s.Valid()
    ensures s.source == source && s.pos == 0
    ensures !s.bigEndian
  {
    DataInputStream(source, 0, false)
  }

  /** Selects big-endian (`beOrder`) or little-endian order for later reads. */
  function BigEndianOrdered(s: DataInputStream, beOrder: bool): (s': DataInputStream)
    ensures s'.bigEndian == beOrder
    ensures s'.source == s.source && s'.pos == s.pos
  {
    s.(bigEndian := beOrder)
  }

  /**
    Reads one `width`-byte unsigned integer in the current order: the value
    whose encoding is exactly the next `width` bytes.
   */
  function ReadUInt(s: DataInputStream, width: nat): (r: ReadResult<nat>)
    requires s.Valid()
    ensures r.Read? <==> width <= s.Remaining()
    ensures r.Read? ==>
      && Advanced(s, r.next, width)
      && r.value < Pow256(width)
      && Encode(r.value, width, s.bigEndian) == s.source[s.pos..s.pos + width]
    ensures r.EndOfStream? ==> r.next == Exhausted(s)
  {
    if s.Remaining() < width then EndOfStream(Exhausted(s))
    else
      var bytes := s.source[s.pos..s.pos + width];
      EncodeDecode(bytes, s.bigEndian);
      Read(Decode(bytes, s.bigEndian), s.(pos := s.pos + width))
  }

  function Read8(s: DataInputStream): (r: ReadResult<U8>)
    requires s.Valid()
    ensures r.Read? <==> 1 <= s.Remaining()
    ensures r.Read? ==> Advanced(s, r.next, 1) && r.value == s.source[s.pos]
    ensures r.EndOfStream? ==> r.next == Exhausted(s)
  {
    match ReadUInt(s, 1)
    case Read(v, next) => Read(v, next)
    case EndOfStream(next) => EndOfStream(next)
  }

  function Read16(s: DataInputStream): (r: ReadResult<U16>)
    requires s.Valid()
    ensures r.Read? <==> 2 <= s.Remaining()
    ensures r.Read? ==> Advanced(s, r.next, 2) && Encode(r.value, 2, s.bigEndian) == s.source[s.pos..s.pos + 2]
    ensures r.EndOfStream? ==> r.next == Exhausted(s)
  {
    match ReadUInt(s, 2)
    case Read(v, next) => Read(v, next)
    case EndOfStream(next) => EndOfStream(next)
  }

  function Read32(s: DataInputStream): (r: ReadResult<U32>)
    requires s.Valid()
    ensures r.Read? <==> 4 <= s.Remaining()
    ensures r.Read? ==> Advanced(s, r.next, 4) && Encode(r.value, 4, s.bigEndian) == s.source[s.pos..s.pos + 4]
    ensures r.EndOfStream? ==> r.next == Exhausted(s)
  {
    match ReadUInt(s, 4)
    case Read(v, next) => Read(v, next)
    case EndOfStream(next) => EndOfStream(next)
  }

  function Read64(s: DataInputStream): (r: ReadResult<U64>)
    requires s.Valid()
    ensures r.Read? <==> 8 <= s.Remaining()
    ensures r.Read? ==> Advanced(s, r.next, 8) && Encode(r.value, 8, s.bigEndian) == s.source[s.pos..s.pos + 8]
    ensures r.EndOfStream? ==> r.next == Exhausted(s)
  {
    match ReadUInt(s, 8)
    case Read(v, next) => Read(v, next)
    case EndOfStream(next) => EndOfStream(next)
  }

  /**
    Reads `size` values of `width` bytes one after another, each by a
    scalar read. When the source holds fewer than `width * size` bytes the
    read fails as a whole, returning no values, and the fields already
    decoded stay consumed along with the rest of the source.
   */
  function ReadUInts(s: DataInputStream, width: nat, size: nat): (r: ReadResult<seq<nat>>)
    requires s.Valid()
    ensures r.Read? <==> width * size <= s.Remaining()
    ensures r.Read? ==>
      && |r.value| == size
      && AllFit(r.value, width)
      && Advanced(s, r.next, width * size)
      && EncodeAll(r.value, width, s.bigEndian) == s.source[s.pos..s.pos + width * size]
    ensures r.EndOfStream? ==> r.next == Exhausted(s)
    decreases size
  {
    if size == 0 then Read([], s)
    else
      SpanSplit(width, size);
      match ReadUInt(s, width)
      case EndOfStream(next) => EndOfStream(next)
      case Read(v, s1) =>
        match ReadUInts(s1, width, size - 1)
        case EndOfStream(next) => EndOfStream(next)
        case Read(vs, s2) =>
          ReadUIntsStep(s, s1, s2, width, size, v, vs);
          Read([v] + vs, s2)
  }

  /** One scalar read followed by an array read is an array read one longer. */
  lemma ReadUIntsStep(s: DataInputStream, s1: DataInputStream, s2: DataInputStream,
                      width: nat, size: nat, v: nat, vs: seq<nat>)
    requires size > 0
    requires Advanced(s, s1, width) && v < Pow256(width)
    requires Encode(v, width, s.bigEndian) == s.source[s.pos..s.pos + width]
    requires |vs| == size - 1 && AllFit(vs, width)
    requires Advanced(s1, s2, width * (size - 1))
    requires EncodeAll(vs, width, s.bigEndian) == s1.source[s1.pos..s1.pos + width * (size - 1)]
    ensures width * size <= s.Remaining()
    ensures |[v] + vs| == size && AllFit([v] + vs, width)
    ensures Advanced(s, s2, width * size)
    ensures EncodeAll([v] + vs, width, s.bigEndian) == s.source[s.pos..s.pos + width * size]
  {
    SpanSplit(width, size);
    var values := [v] + vs;
    assert values[1..] == vs;
    assert EncodeAll(values, width, s.bigEndian) == Encode(v, width, s.bigEndian) + EncodeAll(vs, width, s.bigEndian);
    assert AllFit(values, width) by {
      forall i | 0 <= i < |values| ensures values[i] < Pow256(width) {
        if i > 0 { assert values[i] == vs[i - 1]; }
      }
    }
    SliceSplit(s.source, s.pos, s.pos + width, s.pos + width * size);
  }

  /** Field `i` of a successful array read encodes element `i` of the result. */
  lemma ArrayElementsEncode(s: DataInputStream, width: nat, size: nat, values: seq<nat>)
    requires s.Valid() && width * size <= s.Remaining()
    requires |values| == size
    requires EncodeAll(values, width, s.bigEndian) == s.source[s.pos..s.pos + width * size]
    ensures forall i :: 0 <= i < size ==>
      Encode(values[i], width, s.bigEndian) == Chunk(s.source[s.pos..s.pos + width * size], width, i)
  {
    EncodeAllElements(values, width, s.bigEndian);
  }

  /**
    Reads `size` bytes into the first `size` slots of `buffer`; the slots
    from `size` on are untouched.
   */
  function Read8Array(s: DataInputStream, buffer: seq<U8>, size: nat): (r: ReadResult<seq<U8>>)
    requires s.Valid() && size <= |buffer|
    ensures r.Read? <==> size <= s.Remaining()
    ensures r.Read? ==>
      && Advanced(s, r.next, size)
      && |r.value| == |buffer|
      && r.value[..size] == s.source[s.pos..s.pos + size]
      && r.value[size..] == buffer[size..]
    ensures r.EndOfStream? ==> r.next == Exhausted(s)
  {
    match ReadUInts(s, 1, size)
    case EndOfStream(next) => EndOfStream(next)
    case Read(vs, next) =>
      EncodeAllBytes(vs, s.bigEndian);
      var bytes: seq<U8> := vs;
      Filled(bytes, buffer, size);
      Read(bytes + buffer[size..], next)
  }

  /**
    Reads `size` 16-bit integers into the first `size` slots of `buffer`;
    the slots from `size` on are untouched.
   */
  function Read16Array(s: DataInputStream, buffer: seq<U16>, size: nat): (r: ReadResult<seq<U16>>)
    requires s.Valid() && size <= |buffer|
    ensures r.Read? <==> 2 * size <= s.Remaining()
    ensures r.Read? ==> Advanced(s, r.next, 2 * size) && |r.value| == |buffer|
    ensures r.Read? ==> forall i :: 0 <= i < size ==>
      Encode(r.value[i], 2, s.bigEndian) == Chunk(s.source[s.pos..s.pos + 2 * size], 2, i)
    ensures r.Read? ==> r.value[size..] == buffer[size..]
    ensures r.EndOfStream? ==> r.next == Exhausted(s)
  {
    match ReadUInts(s, 2, size)
    case EndOfStream(next) => EndOfStream(next)
    case Read(vs, next) =>
      ArrayElementsEncode(s, 2, size, vs);
      var values: seq<U16> := vs;
      Filled(values, buffer, size);
      Read(values + buffer[size..], next)
  }

  /**
    Reads `size` 32-bit integers into the first `size` slots of `buffer`;
    the slots from `size` on are untouched.
   */
  function Read32Array(s: DataInputStream, buffer: seq<U32>, size: nat): (r: ReadResult<seq<U32>>)
    requires s.Valid() && size <= |buffer|
    ensures r.Read? <==> 4 * size <= s.Remaining()
    ensures r.Read? ==> Advanced(s, r.next, 4 * size) && |r.value| == |buffer|
    ensures r.Read? ==> forall i :: 0 <= i < size ==>
      Encode(r.value[i], 4, s.bigEndian) == Chunk(s.source[s.pos..s.pos + 4 * size], 4, i)
    ensures r.Read? ==> r.value[size..] == buffer[size..]
    ensures r.EndOfStream? ==> r.next == Exhausted(s)
  {
    match ReadUInts(s, 4, size)
    case EndOfStream(next) => EndOfStream(next)
    case Read(vs, next) =>
      ArrayElementsEncode(s, 4, size, vs);
      var values: seq<U32> := vs;
      Filled(values, buffer, size);
      Read(values + buffer[size..], next)
  }

  /**
    Reads `size` 64-bit integers into the first `size` slots of `buffer`;
    the slots from `size` on are untouched.
   */
  function Read64Array(s: DataInputStream, buffer: seq<U64>, size: nat): (r: ReadResult<seq<U64>>)
    requires s.Valid() && size <= |buffer|
    ensures r.Read? <==> 8 * size <= s.Remaining()
    ensures r.Read? ==> Advanced(s, r.next, 8 * size) && |r.value| == |buffer|
    ensures r.Read? ==> forall i :: 0 <= i < size ==>
      Encode(r.value[i], 8, s.bigEndian) == Chunk(s.source[s.pos..s.pos + 8 * size], 8, i)
    ensures r.Read? ==> r.value[size..] == buffer[size..]
    ensures r.EndOfStream? ==> r.next == Exhausted(s)
  {
    match ReadUInts(s, 8, size)
    case EndOfStream(next) => EndOfStream(next)
    case Read(vs, next) =>
      ArrayElementsEncode(s, 8, size, vs);
      var values: seq<U64> := vs;
      Filled(values, buffer, size);
      Read(values + buffer[size..], next)
  }

  /** Writing `size` values over the front of `buffer` keeps them in front and the rest behind. */
  lemma Filled<T>(values: seq<T>, buffer: seq<T>, size: nat)
    requires |values| == size <= |buffer|
    ensures |values + buffer[size..]| == |buffer|
    ensures (values + buffer[size..])[..size] == values
    ensures forall i :: 0 <= i < size ==> (values + buffer[size..])[i] == values[i]
    ensures (values + buffer[size..])[size..] == buffer[size..]
  {
  }

  /**
    Reads a 32-bit length prefix in the current order, then exactly that
    many bytes. When either is incomplete the read fails and leaves the
    stream at the end of the source: in particular a prefix that was read
    in full stays consumed.
   */
  function ReadString(s: DataInputStream): (r: ReadResult<seq<Byte>>)
    requires s.Valid()
    ensures r.Read? <==>
      && PrefixWidth <= s.Remaining()
      && Decode(s.source[s.pos..s.pos + PrefixWidth], s.bigEndian) <= s.Remaining() - PrefixWidth
    ensures r.Read? ==>
      && Advanced(s, r.next, PrefixWidth + |r.value|)
      && Decode(s.source[s.pos..s.pos + PrefixWidth], s.bigEndian) == |r.value|
      && r.value == s.source[s.pos + PrefixWidth..s.pos + PrefixWidth + |r.value|]
    ensures r.EndOfStream? ==> r.next == Exhausted(s)
  {
    match Read32(s)
    case EndOfStream(next) => EndOfStream(next)
    case Read(length, s1) =>
      DecodeEncode(length, PrefixWidth, s.bigEndian);
      if s1.Remaining() < length then EndOfStream(Exhausted(s1))
      else Read(s1.source[s1.pos..s1.pos + length], s1.(pos := s1.pos + length))
  }

  /**
    A failed read gives nothing back. Every failed read leaves the stream
    `Exhausted`, and from there every later read of a non-empty field,
    array or string fails as well, leaving the stream where it is.
   */
  lemma NoRereadAfterFailure(s: DataInputStream, width: nat, count: nat)
    requires s.Valid() && width > 0
    ensures ReadUInt(Exhausted(s), width) == EndOfStream(Exhausted(s))
    ensures count > 0 ==> ReadUInts(Exhausted(s), width, count) == EndOfStream(Exhausted(s))
    ensures ReadString(Exhausted(s)) == EndOfStream(Exhausted(s))
  {
    if count > 0 {
      SpanSplit(width, count);
    }
  }
}
