# Portable binary data streams

A Dafny model of wxWidgets' portable binary data streams, as declared in
`interface/datstrm.h`: `wxDataOutputStream`, which writes fixed-width
unsigned integers and length-prefixed strings to an output stream, and
`wxDataInputStream`, which reads them back. Both sides use a selectable
byte order. Little-endian is the default on every architecture, and
big-endian is there for data exchanged with big-endian machines or Java
streams.

The model is functional:

- **ByteOrder** (`byte_order.dfy`) defines the wire format: bytes, the
  `wxUint8/16/32/64` value ranges, little-endian and big-endian layouts
  (each defined by its own recursion), and the concatenation of a run of
  encodings. It proves that each layout decodes back to the value it
  encodes, that a byte sequence is determined by its value, that
  big-endian is little-endian reversed, and when a value survives being
  read in the wrong order.
- **DataOutput** (`data_output.dfy`) models `wxDataOutputStream`. It is an
  immutable record of the sink (an append-only byte sequence) and the
  `bigEndian` flag. Every write returns the record with bytes appended.
- **DataInput** (`data_input.dfy`) models `wxDataInputStream`. It is a
  record of the source bytes, a read position and the `bigEndian` flag.
  Every read returns the value with the advanced stream, or
  `EndOfStream`.
- **RoundTrip** (`round_trip.dfy`) connects the two sides. It proves
  write-then-read round trips for every scalar width, every array form
  and strings, whatever precedes or follows in the stream. It also shows
  what a reader with the wrong byte order sees, and gives bit-exact
  examples.

Modelling decisions:

- The header says only that the string length is "a long integer"
  (`interface/datstrm.h:247`). The model fixes it as an unsigned 32-bit
  integer in the stream's current byte order (`ByteOrder.PrefixWidth`).
  `WriteString` narrows a length of 2^32 or more to its low 32 bits, as
  narrowing a `size_t` to `wxUint32` does. The string round trip is proved
  only for lengths that fit.
- Strings are byte sequences that are already encoded. This is the ANSI
  build's behaviour: the string is written exactly as it is represented in
  memory.
- The header says nothing about reading past the end of the source. The
  model reports `EndOfStream`, and never a truncated or zero value.
  - The underlying input stream hands over whatever bytes it still has, so
    a read that finds too few bytes leaves the stream at the end of the
    source (`DataInput.Exhausted`). Bytes a failed read took are never
    given back.
  - So an array read that fails partway keeps the fields it decoded
    consumed. A string read whose body is short keeps its prefix consumed.
  - Once a read has failed, every later read of a non-empty field fails
    too.
- The C++ write forms take a raw buffer and a count `size`. The model
  takes a sequence and `size`, and requires the sequence to hold at least
  `size` elements. The C++ caller has the same obligation.
- The C++ read forms fill the first `size` slots of a caller's buffer in
  place. The model takes the buffer's current contents as a sequence, with
  the same requirement on its length. It returns the buffer after the read:
  the first `size` slots hold the values read, and the slots from `size`
  on are untouched.

## Model

| member | source | states |
|---|---|---|
| ByteOrder.LeBytes | interface/datstrm.h:13-15 | the little-endian layout of a value is exactly width bytes; its content is pinned by DecodeEncode and BeBytesIsReversedLeBytes |
| ByteOrder.BeBytes | interface/datstrm.h:57-63 | the big-endian layout of a value is exactly width bytes; its content is pinned by DecodeEncode and BeBytesIsReversedLeBytes |
| ByteOrder.LeValue | interface/datstrm.h:129-131 | a little-endian byte sequence denotes a value below 256 to the power of its length |
| ByteOrder.BeValue | interface/datstrm.h:190-196 | a big-endian byte sequence denotes a value below 256 to the power of its length |
| ByteOrder.Encode | interface/datstrm.h:57-63 | the layout selected by the byte-order flag is exactly width bytes |
| ByteOrder.Decode | interface/datstrm.h:190-196 | reading with the selected order yields a value that fits the number of bytes read |
| ByteOrder.EncodeAll | interface/datstrm.h:66-98 | a run of values laid out back to back takes width times the count in bytes |
| ByteOrder.DecodeEncode | interface/datstrm.h:13-15 | in either byte order, decoding the bytes of a value that fits the width gives the value back |
| ByteOrder.EncodeDecode | interface/datstrm.h:129-131 | in either byte order, every byte sequence is the encoding of the value it decodes to, so reading loses nothing |
| ByteOrder.EncodeInjective | interface/datstrm.h:13-15 | two values that fit the width and have the same bytes in one order are equal |
| ByteOrder.BeBytesIsReversedLeBytes | interface/datstrm.h:57-63 | the most-significant-first layout of a value is exactly its least-significant-first layout reversed |
| ByteOrder.BeValueIsReversedLeValue | interface/datstrm.h:190-196 | reading big-endian gives the same value as reading the reversed bytes little-endian |
| ByteOrder.OrdersAreReversals | interface/datstrm.h:57-63 | the big-endian encoding is the reversal of the little-endian one, both when writing and when reading |
| ByteOrder.SingleByteOrderIndependent | interface/datstrm.h:92-98 | a single byte is laid out identically in both orders, as the byte itself |
| ByteOrder.OrderSensitivity | interface/datstrm.h:190-196 | bytes written in one order and read in the other give the original value if and only if the encoding is a palindrome |
| ByteOrder.EncodeAllElement | interface/datstrm.h:66-71 | field i of a run of consecutive encodings is the encoding of element i |
| ByteOrder.EncodeAllInjective | interface/datstrm.h:198-204 | values that fit the width are determined by their concatenated encoding |
| ByteOrder.ExampleOne32 | interface/datstrm.h:76-79 | the 32-bit value 1 is 01 00 00 00 little-endian and 00 00 00 01 big-endian |
| ByteOrder.ExampleFive32 | interface/datstrm.h:74-79 | the 32-bit value 5 is 05 00 00 00 little-endian |
| ByteOrder.ExampleSwapped16 | interface/datstrm.h:57-63 | 0x1234 written little-endian and read big-endian is 0x3412 |
| DataOutput.Create | interface/datstrm.h:13-15 | a new writer keeps its sink and uses little-endian order |
| DataOutput.BigEndianOrdered | interface/datstrm.h:57-63 | true selects big-endian and false little-endian for later writes, and the bytes already written are unchanged |
| DataOutput.WriteUInt | interface/datstrm.h:66-90 | a scalar write appends exactly width bytes, and they decode in the current order to the value |
| DataOutput.Write8 | interface/datstrm.h:92-97 | appends exactly one byte, the value itself, in either order |
| DataOutput.Write16 | interface/datstrm.h:66-70 | appends exactly 2 bytes that decode in the current order to the value, and nothing else changes |
| DataOutput.Write32 | interface/datstrm.h:74-79 | appends exactly 4 bytes that decode in the current order to the value, and nothing else changes |
| DataOutput.Write64 | interface/datstrm.h:83-88 | appends exactly 8 bytes that decode in the current order to the value, and nothing else changes |
| DataOutput.WriteUInts | interface/datstrm.h:66-98 | an array write made of scalar writes appends exactly the concatenation of the scalar encodings, width times the count in length |
| DataOutput.ArrayElementsDecode | interface/datstrm.h:66-98 | field i of an array write decodes to element i |
| DataOutput.Write8Array | interface/datstrm.h:92-98 | appends exactly the first size bytes of the buffer, in buffer order |
| DataOutput.Write16Array | interface/datstrm.h:66-71 | appends exactly 2 * size bytes, and field i decodes to buffer element i |
| DataOutput.Write32Array | interface/datstrm.h:74-80 | appends exactly 4 * size bytes, and field i decodes to buffer element i |
| DataOutput.Write64Array | interface/datstrm.h:83-89 | appends exactly 8 * size bytes, and field i decodes to buffer element i |
| DataOutput.WriteString | interface/datstrm.h:110-120 | appends a 4-byte prefix that decodes to the byte length (mod 2^32), then exactly the string's bytes, with no terminating null |
| DataOutput.AppendedTransitive | interface/datstrm.h:29-121 | a sequence of writes only appends, so earlier bytes are never modified and the bytes written compose |
| DataInput.Create | interface/datstrm.h:129-131 | a new reader starts at the first byte of its source and uses little-endian order |
| DataInput.BigEndianOrdered | interface/datstrm.h:190-196 | true selects big-endian and false little-endian for later reads, and the source and position are unchanged |
| DataInput.ReadUInt | interface/datstrm.h:198-234 | succeeds if and only if width bytes remain; then the value's encoding is exactly the next width bytes and the position advances by width; otherwise it reports end of stream and leaves the stream at the end of the source |
| DataInput.Read8 | interface/datstrm.h:228-232 | succeeds if and only if a byte remains, returns that byte and advances by one |
| DataInput.Read16 | interface/datstrm.h:198-203 | succeeds if and only if 2 bytes remain, returns the value whose current-order encoding is those bytes and advances by 2 |
| DataInput.Read32 | interface/datstrm.h:207-213 | succeeds if and only if 4 bytes remain, returns the value whose current-order encoding is those bytes and advances by 4 |
| DataInput.Read64 | interface/datstrm.h:217-223 | succeeds if and only if 8 bytes remain, returns the value whose current-order encoding is those bytes and advances by 8 |
| DataInput.ReadUInts | interface/datstrm.h:198-234 | succeeds if and only if width * size bytes remain; then it returns size values whose concatenated encoding is exactly those bytes; otherwise the fields it decoded are not given back and the stream is left at the end of the source |
| DataInput.Read8Array | interface/datstrm.h:228-233 | succeeds if and only if size bytes remain; then the first size slots of the buffer hold exactly those bytes and the slots from size on are untouched |
| DataInput.Read16Array | interface/datstrm.h:198-204 | succeeds if and only if 2 * size bytes remain; then buffer slot i is the value whose encoding is 2-byte field i, and the slots from size on are untouched |
| DataInput.Read32Array | interface/datstrm.h:207-214 | succeeds if and only if 4 * size bytes remain; then buffer slot i is the value whose encoding is 4-byte field i, and the slots from size on are untouched |
| DataInput.Read64Array | interface/datstrm.h:217-224 | succeeds if and only if 8 * size bytes remain; then buffer slot i is the value whose encoding is 8-byte field i, and the slots from size on are untouched |
| DataInput.ReadString | interface/datstrm.h:246-256 | succeeds if and only if the prefix and as many bytes as it declares remain; then it returns exactly those bytes and consumes prefix plus body; otherwise the stream is left at the end of the source, so a prefix read in full stays consumed |
| DataInput.NoRereadAfterFailure | interface/datstrm.h:198-256 | every failed read leaves the stream at the end of the source, and from there a scalar read of a non-empty field, an array read of a non-empty run and a string read all report end of stream |
| RoundTrip.ScalarRoundTrip | interface/datstrm.h:66-99 | a value written at any point of a stream is read back by a same-order reader at that point, consuming exactly its bytes |
| RoundTrip.RoundTrip8 | interface/datstrm.h:97 | Read8 returns what Write8 wrote and advances past it |
| RoundTrip.RoundTrip16 | interface/datstrm.h:203 | Read16 returns what Write16 wrote, in either order, and advances past it |
| RoundTrip.RoundTrip32 | interface/datstrm.h:213 | Read32 returns what Write32 wrote, in either order, and advances past it |
| RoundTrip.RoundTrip64 | interface/datstrm.h:223 | Read64 returns what Write64 wrote, in either order, and advances past it |
| RoundTrip.SequentialRoundTrip | interface/datstrm.h:66-90 | two scalar values of any widths written one after the other are read back one after the other |
| RoundTrip.ByteThenStringRoundTrip | interface/datstrm.h:145-157 | an 8-bit integer followed by a string is read back as that integer followed by that string |
| RoundTrip.ArrayRoundTrip | interface/datstrm.h:198-234 | an array read returns exactly the values an array write wrote |
| RoundTrip.RoundTrip8Array | interface/datstrm.h:233 | Read8Array puts the first size bytes that Write8Array wrote into the first size slots of the destination, leaves its other slots untouched and advances past them |
| RoundTrip.RoundTrip16Array | interface/datstrm.h:204 | Read16Array puts the first size elements that Write16Array wrote into the first size slots of the destination, leaves its other slots untouched and advances past them |
| RoundTrip.RoundTrip32Array | interface/datstrm.h:214 | Read32Array puts the first size elements that Write32Array wrote into the first size slots of the destination, leaves its other slots untouched and advances past them |
| RoundTrip.RoundTrip64Array | interface/datstrm.h:224 | Read64Array puts the first size elements that Write64Array wrote into the first size slots of the destination, leaves its other slots untouched and advances past them |
| RoundTrip.StringRoundTrip | interface/datstrm.h:246-256 | ReadString returns what WriteString wrote, for any byte string whose length fits the 32-bit prefix, when both sides use the same order |
| RoundTrip.MismatchedOrder | interface/datstrm.h:190-196 | a reader with the other byte order consumes the value's bytes, and gets the value if and only if its encoding is a palindrome |
| RoundTrip.FreshStreamsExample | interface/datstrm.h:13-15 | a fresh writer writes 1 as 01 00 00 00, and a fresh reader reads it back |
| RoundTrip.BigEndianExample | interface/datstrm.h:190-195 | big-endian bytes 00 00 00 01, as Java streams write them, are read as 1 by a big-endian reader |
| RoundTrip.EndOfStreamExample | interface/datstrm.h:223 | three bytes are not enough for Read64: it reports end of stream and the three bytes are gone |
| RoundTrip.PartialArrayExample | interface/datstrm.h:213-214 | six bytes are not enough for two 32-bit integers: the array read fails, and a following Read32 does not see the field it decoded |
| RoundTrip.StringPrefixExample | interface/datstrm.h:110-120 | the five UTF-8 bytes of "café" get the length prefix 5, not the character count 4 |

## Left out

- `WriteDouble` / `ReadDouble` (`interface/datstrm.h:101-107` and
  `236-243`) are not modelled because they involve IEEE-754 floating
  point. The header does not give a double's width or byte layout, so
  the model does not fix one.
- The `conv` charset converter of the Unicode build is not modelled,
  because it is a foreign transcoder. Strings are byte sequences that are
  already encoded. So UTF-8 validity and decode errors are outside the
  model.
- The underlying `wxOutputStream` and `wxInputStream` become a byte
  sequence, and a byte sequence with a position. Their own I/O errors,
  such as a refused write or a closed sink, are not modelled.
- The constructors' and destructors' lifetime and ownership rules are not
  modelled. They describe C++ object lifetime, not data.
- The iostream-style `<<` and `>>` operators are not modelled. They are
  sequential scalar calls with no semantics of their own.
- DataInput.Read16Array, DataInput.Read32Array, DataInput.Read64Array and
  DataInput.Read8Array: on failure the model returns no buffer. In C++
  the slots decoded before the source ran out hold their values, and the
  others have no defined contents.
- DataOutput.WriteString: for a string of 2^32 bytes or more, the length
  prefix is narrowed to 32 bits, so such a string does not round-trip.
  The header leaves the prefix width open.
