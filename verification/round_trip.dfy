/**
  How wxDataOutputStream and wxDataInputStream fit together: whatever the
  writer appends, a reader positioned at the start of those bytes and
  using the same byte order reads back, whatever came before and whatever
  follows. Also the behaviour of a reader whose order does not match the
  writer's, and small bit-exact examples of the wire format.
 */
module RoundTrip {
  import opened ByteOrder
  import opened DataOutput
  import opened DataInput

  /** A reader over the writer's sink followed by `tail`, positioned at byte `pos`. */
  function ReaderAt(w: DataOutputStream, tail: seq<Byte>, pos: nat, bigEndian: bool): DataInputStream
  {
    DataInputStream(w.sink + tail, pos, bigEndian)
  }

  /** A scalar written in some order is read back in that order, consuming exactly its bytes. */
  lemma ScalarRoundTrip(w: DataOutputStream, width: nat, v: nat, tail: seq<Byte>)
    requires v < Pow256(width)
    ensures var w' := WriteUInt(w, width, v);
            var s := ReaderAt(w', tail, |w.sink|, w.bigEndian);
            ReadUInt(s, width) == Read(v, s.(pos := |w'.sink|))
  {
    var w' := WriteUInt(w, width, v);
    var s := ReaderAt(w', tail, |w.sink|, w.bigEndian);
    var r := ReadUInt(s, width);
    assert s.source[s.pos..s.pos + width] == Written(w, w');
    EncodeInjective(r.value, v, width, w.bigEndian);
  }

  lemma RoundTrip8(w: DataOutputStream, i8: U8, tail: seq<Byte>)
    ensures var w' := Write8(w, i8);
            var s := ReaderAt(w', tail, |w.sink|, w.bigEndian);
            Read8(s) == Read(i8, s.(pos := |w'.sink|))
  {
    ScalarRoundTrip(w, 1, i8, tail);
  }

  lemma RoundTrip16(w: DataOutputStream, i16: U16, tail: seq<Byte>)
    ensures var w' := Write16(w, i16);
            var s := ReaderAt(w', tail, |w.sink|, w.bigEndian);
            Read16(s) == Read(i16, s.(pos := |w'.sink|))
  {
    ScalarRoundTrip(w, 2, i16, tail);
  }

  lemma RoundTrip32(w: DataOutputStream, i32: U32, tail: seq<Byte>)
    ensures var w' := Write32(w, i32);
            var s := ReaderAt(w', tail, |w.sink|, w.bigEndian);
            Read32(s) == Read(i32, s.(pos := |w'.sink|))
  {
    ScalarRoundTrip(w, 4, i32, tail);
  }

  lemma RoundTrip64(w: DataOutputStream, i64: U64, tail: seq<Byte>)
    ensures var w' := Write64(w, i64);
            var s := ReaderAt(w', tail, |w.sink|, w.bigEndian);
            Read64(s) == Read(i64, s.(pos := |w'.sink|))
  {
    ScalarRoundTrip(w, 8, i64, tail);
  }

  /** Two values written one after the other are read back one after the other. */
  lemma SequentialRoundTrip(w: DataOutputStream, width1: nat, v1: nat, width2: nat, v2: nat, tail: seq<Byte>)
    requires v1 < Pow256(width1) && v2 < Pow256(width2)
    ensures var w1 := WriteUInt(w, width1, v1);
            var w2 := WriteUInt(w1, width2, v2);
            var s := ReaderAt(w2, tail, |w.sink|, w.bigEndian);
            && ReadUInt(s, width1) == Read(v1, s.(pos := |w1.sink|))
            && ReadUInt(s.(pos := |w1.sink|), width2) == Read(v2, s.(pos := |w2.sink|))
  {
    var w1 := WriteUInt(w, width1, v1);
    var w2 := WriteUInt(w1, width2, v2);
    var s := ReaderAt(w2, tail, |w.sink|, w.bigEndian);
    // The first value sees the second one as part of what follows it.
    var rest := Written(w1, w2) + tail;
    PrefixSplit(w1.sink, w2.sink, tail);
    assert ReaderAt(w1, rest, |w.sink|, w.bigEndian) == s;
    ScalarRoundTrip(w, width1, v1, rest);
    assert ReaderAt(w2, tail, |w1.sink|, w1.bigEndian) == s.(pos := |w1.sink|);
    ScalarRoundTrip(w1, width2, v2, tail);
  }

  /**
    A byte followed by a string, as in the stream interface's own example,
    is read back as that byte followed by that string.
   */
  lemma ByteThenStringRoundTrip(w: DataOutputStream, i8: U8, str: seq<Byte>, tail: seq<Byte>)
    requires |str| < 0x1_0000_0000
    ensures var w1 := Write8(w, i8);
            var w2 := WriteString(w1, str);
            var s := ReaderAt(w2, tail, |w.sink|, w.bigEndian);
            && Read8(s) == Read(i8, s.(pos := |w1.sink|))
            && ReadString(s.(pos := |w1.sink|)) == Read(str, s.(pos := |w2.sink|))
  {
    var w1 := Write8(w, i8);
    var w2 := WriteString(w1, str);
    var s := ReaderAt(w2, tail, |w.sink|, w.bigEndian);
    var rest := Written(w1, w2) + tail;
    PrefixSplit(w1.sink, w2.sink, tail);
    assert ReaderAt(w1, rest, |w.sink|, w.bigEndian) == s;
    RoundTrip8(w, i8, rest);
    assert ReaderAt(w2, tail, |w1.sink|, w1.bigEndian) == s.(pos := |w1.sink|);
    StringRoundTrip(w1, str, tail);
  }

  /** An array written in some order is read back in that order, element for element. */
  lemma ArrayRoundTrip(w: DataOutputStream, width: nat, values: seq<nat>, tail: seq<Byte>)
    requires AllFit(values, width)
    ensures var w' := WriteUInts(w, width, values);
            var s := ReaderAt(w', tail, |w.sink|, w.bigEndian);
            ReadUInts(s, width, |values|) == Read(values, s.(pos := |w'.sink|))
  {
    var w' := WriteUInts(w, width, values);
    var s := ReaderAt(w', tail, |w.sink|, w.bigEndian);
    var r := ReadUInts(s, width, |values|);
    assert s.source[s.pos..s.pos + width * |values|] == Written(w, w');
    EncodeAllInjective(r.value, values, width, w.bigEndian);
  }

  lemma RoundTrip8Array(w: DataOutputStream, buffer: seq<U8>, size: nat, into: seq<U8>, tail: seq<Byte>)
    requires size <= |buffer| && size <= |into|
    ensures var w' := Write8Array(w, buffer, size);
            var s := ReaderAt(w', tail, |w.sink|, w.bigEndian);
            Read8Array(s, into, size) == Read(buffer[..size] + into[size..], s.(pos := |w'.sink|))
  {
    ArrayRoundTrip(w, 1, buffer[..size], tail);
  }

  lemma RoundTrip16Array(w: DataOutputStream, buffer: seq<U16>, size: nat, into: seq<U16>, tail: seq<Byte>)
    requires size <= |buffer| && size <= |into|
    ensures var w' := Write16Array(w, buffer, size);
            var s := ReaderAt(w', tail, |w.sink|, w.bigEndian);
            Read16Array(s, into, size) == Read(buffer[..size] + into[size..], s.(pos := |w'.sink|))
  {
    ArrayRoundTrip(w, 2, buffer[..size], tail);
  }

  lemma RoundTrip32Array(w: DataOutputStream, buffer: seq<U32>, size: nat, into: seq<U32>, tail: seq<Byte>)
    requires size <= |buffer| && size <= |into|
    ensures var w' := Write32Array(w, buffer, size);
            var s := ReaderAt(w', tail, |w.sink|, w.bigEndian);
            Read32Array(s, into, size) == Read(buffer[..size] + into[size..], s.(pos := |w'.sink|))
  {
    ArrayRoundTrip(w, 4, buffer[..size], tail);
  }

  lemma RoundTrip64Array(w: DataOutputStream, buffer: seq<U64>, size: nat, into: seq<U64>, tail: seq<Byte>)
    requires size <= |buffer| && size <= |into|
    ensures var w' := Write64Array(w, buffer, size);
            var s := ReaderAt(w', tail, |w.sink|, w.bigEndian);
            Read64Array(s, into, size) == Read(buffer[..size] + into[size..], s.(pos := |w'.sink|))
  {
    ArrayRoundTrip(w, 8, buffer[..size], tail);
  }

  /**
    A string whose length fits the 32-bit prefix is read back exactly,
    consuming the prefix and its bytes and nothing more.
   */
  lemma StringRoundTrip(w: DataOutputStream, str: seq<Byte>, tail: seq<Byte>)
    requires |str| < 0x1_0000_0000
    ensures var w' := WriteString(w, str);
            var s := ReaderAt(w', tail, |w.sink|, w.bigEndian);
            ReadString(s) == Read(str, s.(pos := |w'.sink|))
  {
    var w' := WriteString(w, str);
    var s := ReaderAt(w', tail, |w.sink|, w.bigEndian);
    var n := |w.sink|;
    assert s.source[n..n + PrefixWidth] == w'.sink[n..n + PrefixWidth];
    assert Decode(s.source[n..n + PrefixWidth], w.bigEndian) == |str|;
    var r := ReadString(s);
    assert r.Read? && |r.value| == |str|;
    assert s.source[n + PrefixWidth..n + PrefixWidth + |str|] == str;
    assert r.next == s.(pos := |w'.sink|);
  }

  /**
    A reader whose order differs from the writer's still consumes the
    value's bytes, but gets the value back exactly when its encoding reads
    the same forwards and backwards.
   */
  lemma MismatchedOrder(w: DataOutputStream, width: nat, v: nat, tail: seq<Byte>)
    requires v < Pow256(width)
    ensures var w' := WriteUInt(w, width, v);
            var s := ReaderAt(w', tail, |w.sink|, !w.bigEndian);
            var r := ReadUInt(s, width);
            && r.Read? && r.next == s.(pos := |w'.sink|)
            && (r.value == v <==> Reverse(Written(w, w')) == Written(w, w'))
  {
    var w' := WriteUInt(w, width, v);
    var s := ReaderAt(w', tail, |w.sink|, !w.bigEndian);
    var r := ReadUInt(s, width);
    var bytes := Written(w, w');
    assert s.source[s.pos..s.pos + width] == bytes;
    DecodeEncode(r.value, width, !w.bigEndian);
    OrderSensitivity(v, width, w.bigEndian);
  }

  // ---------------------------------------------------------------------
  // Examples

  /** Fresh streams agree on little-endian: 1 is written as 01 00 00 00 and read back. */
  lemma FreshStreamsExample()
    ensures Write32(DataOutput.Create([]), 1).sink == [1, 0, 0, 0]
    ensures Read32(DataInput.Create([1, 0, 0, 0])) == Read(1, DataInputStream([1, 0, 0, 0], 4, false))
  {
    var w := DataOutput.Create([]);
    ExampleOne32();
    assert Write32(w, 1).sink == [1, 0, 0, 0];
    RoundTrip32(w, 1, []);
    assert ReaderAt(Write32(w, 1), [], 0, false) == DataInput.Create([1, 0, 0, 0]);
  }

  /** Big-endian data such as Java's streams produce is read back by a big-endian reader. */
  lemma BigEndianExample()
    ensures Write32(DataOutput.BigEndianOrdered(DataOutput.Create([]), true), 1).sink == [0, 0, 0, 1]
    ensures Read32(DataInput.BigEndianOrdered(DataInput.Create([0, 0, 0, 1]), true)).value == 1
  {
    var w := DataOutput.BigEndianOrdered(DataOutput.Create([]), true);
    ExampleOne32();
    assert Write32(w, 1).sink == [0, 0, 0, 1];
    RoundTrip32(w, 1, []);
    assert ReaderAt(Write32(w, 1), [], 0, true) == DataInput.BigEndianOrdered(DataInput.Create([0, 0, 0, 1]), true);
  }

  /** Three bytes are not enough for a 64-bit integer: no value is read and the three bytes are gone. */
  lemma EndOfStreamExample()
    ensures Read64(DataInput.Create([1, 2, 3])) == EndOfStream(DataInputStream([1, 2, 3], 3, false))
  {
  }

  /**
    Six bytes are not enough for two 32-bit integers: the array read fails,
    and the whole field it did decode is not there to be read again.
   */
  lemma PartialArrayExample()
    ensures var s := DataInput.Create([1, 2, 3, 4, 5, 6]);
            var r := Read32Array(s, [0, 0], 2);
            && r == EndOfStream(DataInputStream([1, 2, 3, 4, 5, 6], 6, false))
            && Read32(r.next).EndOfStream?
  {
  }

  /** "café" encoded as UTF-8 is five bytes, so its length prefix is 5, not 4. */
  lemma StringPrefixExample()
    ensures WriteString(DataOutput.Create([]), [0x63, 0x61, 0x66, 0xC3, 0xA9]).sink
         == [5, 0, 0, 0, 0x63, 0x61, 0x66, 0xC3, 0xA9]
  {
    var str: seq<Byte> := [0x63, 0x61, 0x66, 0xC3, 0xA9];
    var w0 := DataOutput.Create([]);
    assert |str| % 0x1_0000_0000 == 5;
    var w1 := Write32(w0, 5);
    ExampleFive32();
    assert w1.sink == [5, 0, 0, 0];
    assert WriteString(w0, str) == w1.(sink := w1.sink + str);
    assert w1.sink + str == [5, 0, 0, 0, 0x63, 0x61, 0x66, 0xC3, 0xA9];
  }
}
