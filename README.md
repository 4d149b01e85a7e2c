# NBT primitive codec, modelled in Dafny

This project models the primitive reading and writing layer of an NBT (Named
Binary Tag) library. That layer is `src/raw.rs` and contains:

- the signed scalar writers and readers for `i8`, `i16`, `i32` and `i64`, in a
  byte order the caller chooses;
- the `i8`, `i32` and `i64` array writers and readers, each array preceded by
  an `i32` element count;
- the string writer and reader. A string is a `u16` byte-length prefix, then the
  string in Java's modified UTF-8 (section 4.4.7 of the Java Virtual Machine
  Specification, the CESU-8 form of Unicode Technical Report #26);
- `emit_next_header`, which reads a tag byte and then a name unless the tag is
  `0x00`, and `close_nbt`, which writes the single `0x00` that ends a compound.

The model has five modules:

- `Wire` (wire.dfy): octets, the byte-order datatype, the error kinds, and
  the two's-complement layouts of fixed-width integers, with their round trips.
  It also writes out the `as i32` and `as u16` truncations.
- `ModifiedUtf8` (mutf8.dfy): an encoder and a strict decoder for modified
  UTF-8, and the proof that decoding an encoding gives the string back.
- `Streams` (streams.dfy): the byte sink and byte source that stand in for
  `io::Write` and `io::Read`.
  - A `Sink` is a class with a capacity. It stores what fits and fails once a
    write goes past the capacity.
  - A `Source` is a class over a fixed byte sequence and a position. Its `Read`
    may deliver any non-zero number of bytes up to what is asked for and what
    is left, so every possible chunking is covered.
- `Format` (format.dfy): pure functions.
  - The wire layout of each writer: `EncodeInt`, `ArrayWire`, `StringWire`.
  - For the unread bytes of a source, what each reader returns and how many
    bytes it consumes: `ParseInt`, `ParseElements`, `ParseArray`, `ParseString`,
    `ParseHeader`.
  - The lemmas relating the two: round trips, layouts, byte counts, and the
    outcome of truncated input.
- `Raw` (raw.dfy): one method per function of `src/raw.rs`.
  - The array writers' `for` loop, the array readers' `0..len` loop and the
    string reader's fill loop are `while` loops with invariants.
  - Every writer is proved to leave the sink holding exactly its layout, cut
    at the capacity, and to report the right status.
  - Every reader is proved to return the matching `Parse*` function's result
    and to advance the source by exactly the bytes that function says it
    consumes.

Two truncations in the source are modelled as written, not corrected.
`value.len() as i32` (src/raw.rs:66) writes an array of 2^31 elements with the
count -2^31. `encoded.len() as u16` (src/raw.rs:100) writes a string of 65536
encoded bytes with the length 0. `ArrayCountWraps` and `LongStringMisread`
prove what a reader then makes of such output. The round-trip lemmas require
the length to fit its prefix.

## Model

| member | source | states |
|---|---|---|
| Wire.TwosComplement | src/raw.rs:21-46 | the bit pattern a signed value is written as is below 256^w, and a non-negative value is its own pattern |
| Wire.Signed | src/raw.rs:124-149 | the value read from a w-byte pattern is in the signed w-byte range, and is either the pattern or the pattern minus 256^w |
| Wire.EncodeInt | src/raw.rs:21-46 | a signed scalar of width w is written as exactly w bytes |
| Wire.DecodeInt | src/raw.rs:124-149 | the value read from w bytes fits the signed w-byte range |
| Wire.WrapI32 | src/raw.rs:66 | the `as i32` count is in the i32 range, equals the length below 2^31, and is congruent to it modulo 2^32 |
| Wire.WrapU16 | src/raw.rs:100 | the `as u16` length is below 2^16, equals the byte length when that fits, and is congruent to it modulo 2^16 |
| Wire.UnsignedBytes | src/raw.rs:100 | `write_u16` of the length prefix emits exactly 2 bytes in the given order; UnsignedRoundTrip reads it back |
| Wire.UnsignedValue | src/raw.rs:209 | `read_u16` of 2 bytes gives a value below 2^16; UnsignedBytesOfValue writes it back as the same bytes |
| Wire.UnsignedRoundTrip | src/raw.rs:209 | an unsigned prefix written in one byte order reads back as itself in that order |
| Wire.IntRoundTrip | src/raw.rs:21-46 | a signed scalar written in one order and read in the same order is the value written, for every width |
| Wire.IntEncodeDecode | src/raw.rs:124-149 | every w-byte pattern is read as a value that is written back as the same pattern, so reading loses nothing |
| Wire.ByteOrdersMirror | src/raw.rs:28-46 | big-endian output is little-endian output reversed |
| Wire.SingleByteOrderFree | src/raw.rs:21-25 | an `i8` is written the same in both orders, as the single byte of its bit pattern |
| Wire.SingleByteDecodeOrderFree | src/raw.rs:124-128 | a single byte reads as the same `i8` in both orders |
| Wire.BigEndianExamples | src/raw.rs:35-39 | big-endian `write_bare_int` writes 1 as 00 00 00 01 and -1 as FF FF FF FF |
| Wire.LittleEndianExamples | src/raw.rs:35-39 | little-endian `write_bare_int` writes 1 as 01 00 00 00 and -1 as FF FF FF FF |
| ModifiedUtf8.EncodeChar | src/raw.rs:99 | every character takes between 1 and 6 bytes |
| ModifiedUtf8.Encode | src/raw.rs:99 | a string of n characters takes between n and 6n bytes, and none exactly when it is empty |
| ModifiedUtf8.DecodeUnit | src/raw.rs:222 | a decoded code unit takes 1 to 3 of the available bytes and is below 0x10000 |
| ModifiedUtf8.DecodeChar | src/raw.rs:222 | a decoded character takes at least one and at most all of the available bytes |
| ModifiedUtf8.Decode | src/raw.rs:222 | a decoded string has at most as many characters as there are bytes; RoundTrip and EncodeOfDecode make it the exact inverse of Encode |
| ModifiedUtf8.DecodeCharOfEncoding | src/raw.rs:222 | the first character of an encoding decodes back, taking exactly its own bytes, whatever follows it |
| ModifiedUtf8.RoundTrip | src/raw.rs:222 | decoding the encoding of any string gives the string back |
| ModifiedUtf8.EncodeOfDecodeUnit | src/raw.rs:222 | the bytes a decoded code unit took are exactly the one-, two- or three-byte form the encoder gives that unit |
| ModifiedUtf8.EncodeOfDecodeChar | src/raw.rs:222 | the bytes a decoded character took are exactly that character's encoding |
| ModifiedUtf8.EncodeOfDecode | src/raw.rs:222 | whatever decodes is the encoding of the string it decodes to, so each string has exactly one modified UTF-8 form |
| ModifiedUtf8.DecodesExactly | src/raw.rs:222 | bytes decode to s exactly when they are the encoding of s |
| ModifiedUtf8.NoZeroByte | src/raw.rs:99 | no encoded string contains a zero byte, since the null character is written as C0 80 |
| ModifiedUtf8.AsciiPassesThrough | src/raw.rs:99 | characters 0x01 to 0x7F are written unchanged, one byte each |
| ModifiedUtf8.EncodeExamples | src/raw.rs:99 | "A" is 41, the null character is C0 80, and U+1F600 is its surrogate pair in six bytes |
| Streams.Clip | src/raw.rs:101 | a sink never holds more than its capacity, and keeps all that was written when it fits |
| Streams.WriteStatus | src/raw.rs:101 | a write succeeds exactly when the sink's contents still fit, and otherwise fails with IoError |
| Streams.AppendOnly | src/raw.rs:101 | a write keeps what the sink held and stores a prefix of the bytes written, as many as fit |
| Streams.ClipPast | src/raw.rs:66-69 | once a write has failed for lack of room, no later write changes the sink |
| Streams.WriteOverrun | src/raw.rs:100-101 | a write that overruns part-way leaves the sink as if everything had been written, and the whole write fails |
| Streams.Sink.WriteAll | src/raw.rs:101 | the sink gains the bytes that fit, and the status says whether they all did |
| Streams.Source.Read | src/raw.rs:216 | a read delivers some of the next bytes in order, advances the position by their number, and delivers none only when the buffer is full or the source is empty |
| Streams.Source.ReadExact | src/raw.rs:124-149 | a fixed-width read returns the next k bytes, or fails with IoError having consumed the rest of the source |
| Format.EncodeAll | src/raw.rs:67-69 | the elements the array writers' loop emits, in order; EncodeAllLength, EncodeAllAt and ElementsRoundTrip state its length, layout and read-back |
| Format.ArrayWire | src/raw.rs:63-93 | the array writers' output, the `as i32` count then the elements; ArrayLayout, ArrayRoundTrip and ArrayCountWraps state its layout and read-back |
| Format.DecodeText | src/raw.rs:222 | succeeds exactly when Decode accepts the bytes, gives at most one character per byte, and otherwise fails with DecodeError |
| Format.EncodeAllLength | src/raw.rs:67-69 | n elements of width w take exactly n*w bytes |
| Format.EncodeAllAt | src/raw.rs:67-69 | element i of an array is written at bytes i*w to (i+1)*w of the element block |
| Format.WriteStep | src/raw.rs:67-69 | after element i, the sink holds the first i+1 elements, and the rest of the block still to come completes it |
| Format.StringWire | src/raw.rs:96-102 | a string is written as 2 + (its encoded byte length) bytes |
| Format.HeaderWire | src/raw.rs:108-121 | a header is written as 3 + (the encoded name's length) bytes |
| Format.ParseInt | src/raw.rs:124-149 | a scalar read succeeds exactly when w bytes are left, and then consumes w bytes and returns a value of width w; otherwise it fails with IoError |
| Format.ParseElements | src/raw.rs:173-175 | reading n elements either returns n values, or fails with IoError having consumed the whole rest of the source |
| Format.ParseArray | src/raw.rs:166-203 | a successful array read returns as many elements as the 4-byte count says |
| Format.ParseText | src/raw.rs:213-222 | gathering len bytes fails with IncompleteNbtValue exactly when fewer than len are left, and otherwise consumes exactly len |
| Format.ParseString | src/raw.rs:206-224 | a string read fails with IoError exactly when its 2-byte prefix is cut short, and never consumes more than is left |
| Format.ParseHeader | src/raw.rs:108-121 | a header read returns the tag it read first; it fails with IoError exactly when there is no tag, or a non-zero tag has no complete name prefix after it; it never consumes more than is left |
| Format.ElementsLoopStep | src/raw.rs:173-175 | one more element read moves it from the bytes still to read to the elements pushed, and keeps the outcome of the whole loop |
| Format.ElementsLoopShort | src/raw.rs:174 | an element cut short ends the whole loop with that element's error, the source drained |
| Format.ElementsInRange | src/raw.rs:173-175 | every element read fits its width |
| Format.ArrayInRange | src/raw.rs:166-203 | every element of an array read fits its width |
| Format.ElementsRoundTrip | src/raw.rs:173-175 | an element block reads back as the elements written, in order, taking exactly its own bytes, whatever follows it |
| Format.ElementsConsumed | src/raw.rs:173-175 | reading n elements succeeds exactly when n*w bytes are left, and then consumes exactly n*w bytes |
| Format.ScalarRoundTrip | src/raw.rs:124-149 | a scalar reads back from its own bytes, consuming exactly w of them, whatever follows |
| Format.ArrayLayout | src/raw.rs:63-93 | an array is written as 4 + len*w bytes, the count first, then element i at bytes 4 + i*w to 4 + (i+1)*w |
| Format.ArrayRoundTrip | src/raw.rs:166-203 | an array with fewer than 2^31 elements reads back as itself, in order, consuming 4 + len*w bytes, whatever follows |
| Format.ArrayOutcome | src/raw.rs:166-203 | an array read succeeds exactly when the count is non-negative and count*w bytes follow it; a negative count is CapacityOverflow, and every other failure is IoError |
| Format.ArrayTruncated | src/raw.rs:170-175 | an array cut short anywhere, in its count or its elements, reads as IoError having consumed all it was given |
| Format.ArrayCountWraps | src/raw.rs:66 | an array of exactly 2^31 elements has its count written as -2^31, so reading it back fails at the count |
| Format.TextRoundTrip | src/raw.rs:213-223 | the encoded bytes of a string, their number known, are gathered and decoded back to the string |
| Format.StringRoundTrip | src/raw.rs:206-224 | a string whose encoding fits the u16 prefix reads back as itself, consuming 2 + its encoded length, whatever follows |
| Format.StringTruncated | src/raw.rs:209-217 | a string cut inside its bytes reads as IncompleteNbtValue with all input consumed; cut inside its prefix, it reads as IoError |
| Format.EmptyStringShortCircuit | src/raw.rs:209-211 | a zero length prefix reads as the empty string, consuming exactly the 2 prefix bytes and nothing after them |
| Format.LongStringMisread | src/raw.rs:100 | a string whose encoding is exactly 2^16 bytes gets the prefix 0, so it reads back as the empty string and its bytes are left unread |
| Format.StringExamples | src/raw.rs:96-102 | "A" in big-endian order is 00 01 41; the empty string is 00 00 in both orders |
| Format.TerminatorHeader | src/raw.rs:114-115 | a 0x00 tag is a whole header: the tag and an empty name, one byte consumed |
| Format.HeaderConsumes | src/raw.rs:116-119 | a non-terminator header whose name is all there consumes 1 + 2 + L bytes, L being the name's length prefix |
| Format.HeaderRoundTrip | src/raw.rs:108-121 | a non-zero tag followed by a name whose encoding fits the u16 prefix reads back as that tag and name, consuming 3 + the encoded length |
| Raw.CloseNbt | src/raw.rs:14-18 | the sink gains the single byte 0x00 and nothing else, and the write fails exactly when it has no room |
| Raw.WriteScalar | src/raw.rs:21-46 | the sink gains the w-byte layout of the value, and the status says whether all w bytes fit |
| Raw.WriteBareByte | src/raw.rs:21-25 | the sink gains the one byte that is the value's bit pattern |
| Raw.WriteBareShort | src/raw.rs:28-32 | the sink gains the 2-byte layout of the value in the given order |
| Raw.WriteBareInt | src/raw.rs:35-39 | the sink gains the 4-byte layout of the value in the given order |
| Raw.WriteBareLong | src/raw.rs:42-46 | the sink gains the 8-byte layout of the value in the given order |
| Raw.WriteElements | src/raw.rs:67-69 | the sink gains every element in order, stopping at the first failed write with the sink full |
| Raw.WriteBareArray | src/raw.rs:63-93 | the sink gains the truncated i32 count, then the elements; the status says whether they all fit |
| Raw.WriteBareByteArray | src/raw.rs:63-71 | the sink gains the array's layout, 4 + len bytes in all |
| Raw.WriteBareIntArray | src/raw.rs:74-82 | the sink gains the array's layout, 4 + 4*len bytes in all |
| Raw.WriteBareLongArray | src/raw.rs:85-93 | the sink gains the array's layout, 4 + 8*len bytes in all |
| Raw.WriteBareString | src/raw.rs:96-102 | the sink gains the truncated u16 encoded length, then the encoded bytes; the status says whether 2 + the encoded length fit |
| Raw.ReadScalar | src/raw.rs:124-149 | returns what ParseInt gives for the unread bytes and advances by what it consumes |
| Raw.ReadBareByte | src/raw.rs:124-128 | reads an `i8` the same in either order, as ParseInt of width 1 |
| Raw.ReadBareShort | src/raw.rs:131-135 | returns ParseInt of width 2 on the unread bytes and advances by what it consumes |
| Raw.ReadBareInt | src/raw.rs:138-142 | returns ParseInt of width 4 on the unread bytes and advances by what it consumes |
| Raw.ReadBareLong | src/raw.rs:145-149 | returns ParseInt of width 8 on the unread bytes and advances by what it consumes |
| Raw.ReadElement | src/raw.rs:174 | one pass of the read loop keeps the loop's outcome: the element is pushed, or its error is the whole loop's |
| Raw.ReadElements | src/raw.rs:173-175 | the loop returns ParseElements of the unread bytes and advances by what it consumes |
| Raw.ReadBareArray | src/raw.rs:166-203 | returns ParseArray of the unread bytes and advances by what it consumes |
| Raw.ReadBareByteArray | src/raw.rs:166-177 | returns ParseArray with width 1 and advances by what it consumes |
| Raw.ReadBareIntArray | src/raw.rs:180-191 | returns ParseArray with width 4 and advances by what it consumes |
| Raw.ReadBareLongArray | src/raw.rs:194-203 | returns ParseArray with width 8 and advances by what it consumes |
| Raw.ReadFill | src/raw.rs:213-220 | whatever the chunking of the reads, the buffer ends up holding the next len bytes in order, or the result is IncompleteNbtValue with the source drained |
| Raw.ReadText | src/raw.rs:213-223 | returns ParseText of the unread bytes: the next len bytes, decoded, or the error |
| Raw.ReadBareString | src/raw.rs:206-224 | returns ParseString of the unread bytes and advances by what it consumes, consuming nothing after a zero prefix |
| Raw.EmitNextHeader | src/raw.rs:108-121 | returns ParseHeader of the unread bytes and advances by what it consumes |

## Left out

- `write_bare_float`, `write_bare_double`, `read_bare_float` and `read_bare_double` (src/raw.rs:49-60, src/raw.rs:152-163) are not modelled: they are floating point.
- ModifiedUtf8.Decode: the `cesu8` crate is not part of this model. Its `from_java_cesu8` also accepts any valid standard UTF-8, raw 0x00 bytes and four-byte sequences included. This decoder accepts strict modified UTF-8 only, so on such inputs the model reports DecodeError where the original succeeds (for example the big-endian string bytes 00 01 00). The round trip is unaffected.
- The error module is not part of this model. `From` conversions and the kinds of `io::Error` collapse into the datatype `IoError | IncompleteNbtValue | DecodeError | CapacityOverflow`.
- Streams.Source.Read: blocking, `ErrorKind::Interrupted` and other hard read errors are not modelled. The source's only failure is running out of bytes.
- Streams.Sink.WriteAll: the sink is a buffer of fixed capacity. Every write failure is that buffer running out of room, and the bytes that fit stay written, as when writing into a fixed slice.
- Raw.ReadBareArray: a negative `i32` count fails with CapacityOverflow. The original casts it to a huge `usize` and panics in `Vec::with_capacity` (src/raw.rs:170-171). Memory exhaustion on a large positive count is not modelled.
- Format.ArrayRoundTrip: holds only for arrays of fewer than 2^31 elements, because the count is truncated by `as i32`. ArrayCountWraps shows the first length where it fails.
- Format.StringRoundTrip: holds only for encodings of fewer than 2^16 bytes, because the length is truncated by `as u16`. LongStringMisread shows the first length where it fails.
- Format.HeaderRoundTrip: holds only for names whose encoding is under 2^16 bytes, for the same reason.
- `usize` is unbounded here. No length reaches 2^64.
- Byte order is a parameter of each method, not a type parameter. The generic reader and writer types are the `Source` and `Sink` classes.
- Raw.ReadElements: the `for _ in 0..len` loop counts down the elements still to read instead of counting up.
