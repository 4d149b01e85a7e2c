/** Byte-level building blocks of the NBT wire format: octets, the byte-order
    policy, the error kinds, and the fixed-width two's-complement integer
    layouts that every scalar, array count and string length uses. */
module Wire {

  /** One octet on the wire. */
  type Byte = b: int | 0 <= b < 256

  /** The byte-order policy every multi-byte primitive is generic over. */
  datatype Endian = BigEndian | LittleEndian

  /** The failures the codec reports. */
  datatype Error =
    | IoError             // the sink or source failed, including end of data inside a fixed-width read
    | IncompleteNbtValue  // the source ended while a string's bytes were being collected
    | DecodeError         // a string's bytes are not modified UTF-8
    | CapacityOverflow    // a negative array count: the original panics when it allocates the buffer

  datatype Result<T> = Ok(value: T) | Err(error: Error)

  datatype Option<T> = None | Some(value: T)

  /** 256^w: the number of distinct w-byte patterns. */
  function Pow256(w: nat): (r: nat)
    ensures r >= 1
  {
    if w == 0 then 1 else 256 * Pow256(w - 1)
  }

  /** 2^(8w - 1): the bound of the signed w-byte range (0 for w = 0, which has no signed values). */
  function Half(w: nat): nat
  {
    if w == 0 then 0 else 128 * Pow256(w - 1)
  }

  /** v fits a signed two's-complement integer of w bytes. */
  predicate InRange(v: int, w: nat)
  {
    -(Half(w) as int) <= v < Half(w)
  }

  /** The widths of i8, i16, i32 and i64. */
  lemma Widths()
    ensures Half(1) == 0x80 && Pow256(1) == 0x100
    ensures Half(2) == 0x8000 && Pow256(2) == 0x1_0000
    ensures Half(4) == 0x8000_0000 && Pow256(4) == 0x1_0000_0000
    ensures Half(8) == 0x8000_0000_0000_0000 && Pow256(8) == 0x1_0000_0000_0000_0000
  {
  }

  /** The w low-order bytes of u, least significant first. */
  function LeBytes(u: nat, w: nat): (r: seq<Byte>)
    ensures |r| == w
  {
    if w == 0 then [] else [u % 256] + LeBytes(u / 256, w - 1)
  }

  /** The w low-order bytes of u, most significant first. */
  function BeBytes(u: nat, w: nat): (r: seq<Byte>)
    ensures |r| == w
  {
    if w == 0 then [] else BeBytes(u / 256, w - 1) + [u % 256]
  }

  /** The unsigned number whose little-endian bytes are bs. */
  function LeValue(bs: seq<Byte>): (u: nat)
    ensures u < Pow256(|bs|)
  {
    if bs == [] then 0 else bs[0] + 256 * LeValue(bs[1..])
  }

  /** The unsigned number whose big-endian bytes are bs. */
  function BeValue(bs: seq<Byte>): (u: nat)
    ensures u < Pow256(|bs|)
  {
    if bs == [] then 0 else 256 * BeValue(bs[..|bs| - 1]) + bs[|bs| - 1]
  }

  /** An unsigned w-byte integer laid out in the given byte order. */
  function UnsignedBytes(u: nat, w: nat, order: Endian): (r: seq<Byte>)
    ensures |r| == w
  {
    match order
    case BigEndian => BeBytes(u, w)
    case LittleEndian => LeBytes(u, w)
  }

  /** The unsigned integer that the bytes bs denote in the given byte order. */
  function UnsignedValue(bs: seq<Byte>, order: Endian): (u: nat)
    ensures u < Pow256(|bs|)
  {
    match order
    case BigEndian => BeValue(bs)
    case LittleEndian => LeValue(bs)
  }

  /** The w-byte two's-complement bit pattern of v, as an unsigned number. */
  function TwosComplement(v: int, w: nat): (u: nat)
    requires InRange(v, w)
    ensures u < Pow256(w)
    ensures v >= 0 ==> u == v
  {
    if v < 0 then v + Pow256(w) else v
  }

  /** The signed integer whose w-byte two's-complement bit pattern is u. */
  function Signed(u: nat, w: nat): (v: int)
    requires 1 <= w && u < Pow256(w)
    ensures InRange(v, w)
    ensures v == u || v == u - Pow256(w)
  {
    if u < Half(w) then u else u - Pow256(w)
  }

  /** The wire form of a signed w-byte integer (write_i8, write_i16, write_i32, write_i64). */
  function EncodeInt(v: int, w: nat, order: Endian): (r: seq<Byte>)
    requires InRange(v, w)
    ensures |r| == w
  {
    UnsignedBytes(TwosComplement(v, w), w, order)
  }

  /** The signed integer that |bs| bytes denote (read_i8, read_i16, read_i32, read_i64). */
  function DecodeInt(bs: seq<Byte>, order: Endian): (v: int)
    requires 1 <= |bs|
    ensures InRange(v, |bs|)
  {
    Signed(UnsignedValue(bs, order), |bs|)
  }

  /** Truncating a count to a signed 32-bit integer, as Rust's `as i32` does. */
  function WrapI32(n: nat): (v: int)
    ensures InRange(v, 4)
    ensures n < 0x8000_0000 ==> v == n
    ensures (v - n) % 0x1_0000_0000 == 0
  {
    Widths();
    Signed(n % 0x1_0000_0000, 4)
  }

  /** Truncating a length to an unsigned 16-bit integer, as Rust's `as u16` does. */
  function WrapU16(n: nat): (u: nat)
    ensures u < Pow256(2)
    ensures n < 0x1_0000 ==> u == n
    ensures (u - n) % 0x1_0000 == 0
  {
    Widths();
    n % 0x1_0000
  }

  lemma {:induction false} LeRoundTrip(u: nat, w: nat)
    requires u < Pow256(w)
    ensures LeValue(LeBytes(u, w)) == u
  {
    if w > 0 {
      LeRoundTrip(u / 256, w - 1);
      assert LeBytes(u, w)[1..] == LeBytes(u / 256, w - 1);
    }
  }

  lemma {:induction false} BeRoundTrip(u: nat, w: nat)
    requires u < Pow256(w)
    ensures BeValue(BeBytes(u, w)) == u
  {
    if w > 0 {
      BeRoundTrip(u / 256, w - 1);
      var bs := BeBytes(u, w);
      assert bs[..|bs| - 1] == BeBytes(u / 256, w - 1);
    }
  }

  lemma DivMod256(a: nat, b: nat)
    requires b < 256
    ensures (256 * a + b) % 256 == b && (256 * a + b) / 256 == a
  {
  }

  lemma {:induction false} LeBytesOfValue(bs: seq<Byte>)
    ensures LeBytes(LeValue(bs), |bs|) == bs
  {
    if bs != [] {
      DivMod256(LeValue(bs[1..]), bs[0]);
      LeBytesOfValue(bs[1..]);
    }
  }

  lemma {:induction false} BeBytesOfValue(bs: seq<Byte>)
    ensures BeBytes(BeValue(bs), |bs|) == bs
  {
    if bs != [] {
      var n := |bs| - 1;
      DivMod256(BeValue(bs[..n]), bs[n]);
      BeBytesOfValue(bs[..n]);
      assert bs == bs[..n] + [bs[n]];
    }
  }

  /** Reading an unsigned integer back from its own layout gives it back, in either order. */
  lemma UnsignedRoundTrip(u: nat, w: nat, order: Endian)
    requires u < Pow256(w)
    ensures UnsignedValue(UnsignedBytes(u, w, order), order) == u
  {
    match order
    case BigEndian => BeRoundTrip(u, w);
    case LittleEndian => LeRoundTrip(u, w);
  }

  /** Every w-byte pattern is the layout of the number it denotes: no pattern is left over. */
  lemma UnsignedBytesOfValue(bs: seq<Byte>, order: Endian)
    ensures UnsignedBytes(UnsignedValue(bs, order), |bs|, order) == bs
  {
    match order
    case BigEndian => BeBytesOfValue(bs);
    case LittleEndian => LeBytesOfValue(bs);
  }

  /** A signed scalar written in one order and read in the same order is the value written. */
  lemma IntRoundTrip(v: int, w: nat, order: Endian)
    requires InRange(v, w)
    ensures DecodeInt(EncodeInt(v, w, order), order) == v
  {
    UnsignedRoundTrip(TwosComplement(v, w), w, order);
  }

  /** Every w-byte pattern decodes to a value that is written back as that same pattern. */
  lemma IntEncodeDecode(bs: seq<Byte>, order: Endian)
    requires 1 <= |bs|
    ensures EncodeInt(DecodeInt(bs, order), |bs|, order) == bs
  {
    var u := UnsignedValue(bs, order);
    assert TwosComplement(Signed(u, |bs|), |bs|) == u;
    UnsignedBytesOfValue(bs, order);
  }

  /** The reversal of a byte sequence. */
  function Reverse(s: seq<Byte>): (r: seq<Byte>)
    ensures |r| == |s|
  {
    if s == [] then [] else Reverse(s[1..]) + [s[0]]
  }

  lemma {:induction false} BeIsReversedLe(u: nat, w: nat)
    ensures BeBytes(u, w) == Reverse(LeBytes(u, w))
  {
    if w > 0 {
      BeIsReversedLe(u / 256, w - 1);
      assert LeBytes(u, w)[1..] == LeBytes(u / 256, w - 1);
    }
  }

  /** Big-endian output is little-endian output with the bytes in the opposite order. */
  lemma ByteOrdersMirror(v: int, w: nat)
    requires InRange(v, w)
    ensures EncodeInt(v, w, BigEndian) == Reverse(EncodeInt(v, w, LittleEndian))
  {
    BeIsReversedLe(TwosComplement(v, w), w);
  }

  /** A single byte is laid out the same in both orders, which is why i8 takes no order parameter. */
  lemma SingleByteOrderFree(v: int)
    requires InRange(v, 1)
    ensures EncodeInt(v, 1, BigEndian) == EncodeInt(v, 1, LittleEndian) == [TwosComplement(v, 1)]
  {
  }

  /** A single byte reads as the same value in both orders. */
  lemma SingleByteDecodeOrderFree(bs: seq<Byte>)
    requires |bs| == 1
    ensures DecodeInt(bs, BigEndian) == DecodeInt(bs, LittleEndian)
  {
    assert bs[..0] == bs[1..] == [];
  }

  /** The i32 layouts of 1 and -1, most significant byte first. */
  lemma BigEndianExamples()
    ensures EncodeInt(1, 4, BigEndian) == [0x00, 0x00, 0x00, 0x01]
    ensures EncodeInt(-1, 4, BigEndian) == [0xFF, 0xFF, 0xFF, 0xFF]
  {
    Widths();
    assert TwosComplement(1, 4) == 1 && TwosComplement(-1, 4) == 0xFFFF_FFFF;
    assert BeBytes(0, 3) == BeBytes(0, 2) + [0] == BeBytes(0, 1) + [0, 0] == [0, 0, 0];
    assert BeBytes(0xFF_FFFF, 3) == BeBytes(0xFFFF, 2) + [0xFF] == BeBytes(0xFF, 1) + [0xFF, 0xFF];
  }

  /** The i32 layouts of 1 and -1, least significant byte first. */
  lemma LittleEndianExamples()
    ensures EncodeInt(1, 4, LittleEndian) == [0x01, 0x00, 0x00, 0x00]
    ensures EncodeInt(-1, 4, LittleEndian) == [0xFF, 0xFF, 0xFF, 0xFF]
  {
    Widths();
    assert TwosComplement(1, 4) == 1 && TwosComplement(-1, 4) == 0xFFFF_FFFF;
    assert LeBytes(0, 3) == [0] + LeBytes(0, 2) == [0, 0] + LeBytes(0, 1) == [0, 0, 0];
    assert LeBytes(0xFFFF_FFFF, 4) == [0xFF] + LeBytes(0xFF_FFFF, 3);
    assert LeBytes(0xFF_FFFF, 3) == [0xFF] + LeBytes(0xFFFF, 2) == [0xFF, 0xFF] + LeBytes(0xFF, 1);
  }
}
