/** Java's "modified UTF-8" (section 4.4.7 of the Java Virtual Machine
    Specification), the CESU-8 variant NBT stores its strings in. It differs
    from standard UTF-8 in two ways: the null character takes the two bytes
    C0 80, so an encoded string never holds a zero byte, and a character
    outside the Basic Multilingual Plane is written as its UTF-16 surrogate
    pair, each half in the three-byte form (six bytes in all). */
module ModifiedUtf8 {
  import opened Wire

  predicate IsHighSurrogate(u: int) { 0xD800 <= u < 0xDC00 }

  predicate IsLowSurrogate(u: int) { 0xDC00 <= u < 0xE000 }

  predicate IsContinuation(b: Byte) { 0x80 <= b < 0xC0 }

  /** The three-byte form of a UTF-16 code unit in 0x800 ..= 0xFFFF. */
  function ThreeBytes(u: int): (r: seq<Byte>)
    requires 0x800 <= u < 0x1_0000
    ensures |r| == 3
  {
    [0xE0 + u / 0x1000, 0x80 + (u / 0x40) % 0x40, 0x80 + u % 0x40]
  }

  /** The bytes of one character. */
  function EncodeChar(c: char): (r: seq<Byte>)
    ensures 1 <= |r| <= 6
  {
    var n := c as int;
    if n == 0 then [0xC0, 0x80]
    else if n < 0x80 then [n]
    else if n < 0x800 then [0xC0 + n / 0x40, 0x80 + n % 0x40]
    else if n < 0x1_0000 then ThreeBytes(n)
    else
      var m := n - 0x1_0000;
      ThreeBytes(0xD800 + m / 0x400) + ThreeBytes(0xDC00 + m % 0x400)
  }

  /** The modified UTF-8 bytes of a string (to_java_cesu8). */
  function Encode(s: string): (r: seq<Byte>)
    ensures |s| <= |r| <= 6 * |s|
    ensures s == [] <==> r == []
  {
    if s == [] then [] else EncodeChar(s[0]) + Encode(s[1..])
  }

  /** The UTF-16 code unit at the front of bs and the number of bytes it takes,
      or None when the front of bs is not a well-formed one-, two- or three-byte
      group (a raw zero byte, a stray continuation byte, a four-byte lead, an
      overlong form other than C0 80, or a group cut short). */
  function DecodeUnit(bs: seq<Byte>): (r: Option<(int, nat)>)
    ensures r.Some? ==> 1 <= r.value.1 <= |bs| && r.value.1 <= 3 && 0 <= r.value.0 < 0x1_0000
  {
    if |bs| == 0 then None
    else if 0x01 <= bs[0] < 0x80 then Some((bs[0], 1))
    else if 0xC0 <= bs[0] < 0xE0 then
      if |bs| >= 2 && IsContinuation(bs[1]) then
        var u := (bs[0] as int - 0xC0) * 0x40 + (bs[1] as int - 0x80);
        if u == 0 || u >= 0x80 then Some((u, 2)) else None
      else None
    else if 0xE0 <= bs[0] < 0xF0 then
      if |bs| >= 3 && IsContinuation(bs[1]) && IsContinuation(bs[2]) then
        var u := (bs[0] as int - 0xE0) * 0x1000 + (bs[1] as int - 0x80) * 0x40 + (bs[2] as int - 0x80);
        if u >= 0x800 then Some((u, 3)) else None
      else None
    else None
  }

  /** The character at the front of bs and the number of bytes it takes: a
      code unit that is not a surrogate, or a high surrogate followed by a low
      one. An unpaired surrogate is not a character and fails. */
  function DecodeChar(bs: seq<Byte>): (r: Option<(char, nat)>)
    ensures r.Some? ==> 1 <= r.value.1 <= |bs|
  {
    match DecodeUnit(bs)
    case None => None
    case Some((u, k)) =>
      if IsLowSurrogate(u) then None
      else if IsHighSurrogate(u) then
        match DecodeUnit(bs[k..])
        case None => None
        case Some((v, k2)) =>
          if IsLowSurrogate(v)
          then Some(((0x1_0000 + (u - 0xD800) * 0x400 + (v - 0xDC00)) as char, k + k2))
          else None
      else Some((u as char, k))
  }

  /** The string whose modified UTF-8 bytes are bs, or None when bs is not
      modified UTF-8 (from_java_cesu8). */
  function Decode(bs: seq<Byte>): (r: Option<string>)
    ensures r.Some? ==> |r.value| <= |bs|
    decreases |bs|
  {
    if bs == [] then Some([])
    else
      match DecodeChar(bs)
      case None => None
      case Some((c, k)) =>
        match Decode(bs[k..])
        case None => None
        case Some(s) => Some([c] + s)
  }

  lemma DecodeThreeBytes(u: int, rest: seq<Byte>)
    requires 0x800 <= u < 0x1_0000
    ensures DecodeUnit(ThreeBytes(u) + rest) == Some((u, 3))
  {
    var bs := ThreeBytes(u) + rest;
    assert u / 0x40 == (u / 0x1000) * 0x40 + (u / 0x40) % 0x40;
    assert u == (u / 0x40) * 0x40 + u % 0x40;
    assert (bs[0] as int - 0xE0) * 0x1000 + (bs[1] as int - 0x80) * 0x40 + (bs[2] as int - 0x80) == u;
  }

  /** The first character of an encoding decodes back, taking exactly its own bytes. */
  lemma DecodeCharOfEncoding(c: char, rest: seq<Byte>)
    ensures DecodeChar(EncodeChar(c) + rest) == Some((c, |EncodeChar(c)|))
  {
    var n := c as int;
    var bs := EncodeChar(c) + rest;
    if n == 0 {
    } else if n < 0x80 {
    } else if n < 0x800 {
      assert (bs[0] as int - 0xC0) * 0x40 + (bs[1] as int - 0x80) == n;
    } else if n < 0x1_0000 {
      DecodeThreeBytes(n, rest);
    } else {
      var m := n - 0x1_0000;
      var hi, lo := 0xD800 + m / 0x400, 0xDC00 + m % 0x400;
      assert bs == ThreeBytes(hi) + (ThreeBytes(lo) + rest);
      DecodeThreeBytes(hi, ThreeBytes(lo) + rest);
      assert bs[3..] == ThreeBytes(lo) + rest;
      DecodeThreeBytes(lo, rest);
      assert 0x1_0000 + (hi - 0xD800) * 0x400 + (lo - 0xDC00) == n;
    }
  }

  /** Decoding an encoded string gives the string back (the round trip NBT strings rely on). */
  lemma {:induction false} RoundTrip(s: string)
    ensures Decode(Encode(s)) == Some(s)
  {
    if s != [] {
      var e := EncodeChar(s[0]);
      DecodeCharOfEncoding(s[0], Encode(s[1..]));
      assert (e + Encode(s[1..]))[|e|..] == Encode(s[1..]);
      RoundTrip(s[1..]);
      assert [s[0]] + s[1..] == s;
    }
  }

  /** The bytes a decoded code unit took are the form the encoder gives that unit. */
  lemma EncodeOfDecodeUnit(bs: seq<Byte>)
    requires DecodeUnit(bs).Some?
    ensures var (u, k) := DecodeUnit(bs).value;
      (u == 0 ==> bs[..k] == [0xC0, 0x80]) &&
      (0 < u < 0x80 ==> bs[..k] == [u]) &&
      (0x80 <= u < 0x800 ==> bs[..k] == [0xC0 + u / 0x40, 0x80 + u % 0x40]) &&
      (0x800 <= u ==> bs[..k] == ThreeBytes(u))
  {
    var (u, k) := DecodeUnit(bs).value;
    if k == 2 {
      var b0, b1 := bs[0] as int, bs[1] as int;
      assert u == (b0 - 0xC0) * 0x40 + (b1 - 0x80);
      assert u / 0x40 == b0 - 0xC0 && u % 0x40 == b1 - 0x80;
    } else if k == 3 {
      var b0, b1, b2 := bs[0] as int, bs[1] as int, bs[2] as int;
      assert u == (b0 - 0xE0) * 0x1000 + (b1 - 0x80) * 0x40 + (b2 - 0x80);
      assert u / 0x40 == (b0 - 0xE0) * 0x40 + (b1 - 0x80) && u % 0x40 == b2 - 0x80;
      assert u / 0x1000 == b0 - 0xE0 && (u / 0x40) % 0x40 == b1 - 0x80;
    }
  }

  /** The bytes a decoded character took are that character's encoding. */
  lemma EncodeOfDecodeChar(bs: seq<Byte>)
    requires DecodeChar(bs).Some?
    ensures EncodeChar(DecodeChar(bs).value.0) == bs[..DecodeChar(bs).value.1]
  {
    var (u, k) := DecodeUnit(bs).value;
    EncodeOfDecodeUnit(bs);
    if IsHighSurrogate(u) {
      var (v, k2) := DecodeUnit(bs[k..]).value;
      EncodeOfDecodeUnit(bs[k..]);
      var n := 0x1_0000 + (u - 0xD800) * 0x400 + (v - 0xDC00);
      assert (n - 0x1_0000) / 0x400 == u - 0xD800 && (n - 0x1_0000) % 0x400 == v - 0xDC00;
      assert bs[..k + k2] == bs[..k] + bs[k..][..k2];
    }
  }

  /** One step of a successful decode: the first character, then the rest. */
  lemma DecodeStep(bs: seq<Byte>)
    requires bs != [] && Decode(bs).Some?
    ensures DecodeChar(bs).Some?
    ensures Decode(bs[DecodeChar(bs).value.1..]).Some?
    ensures Decode(bs).value == [DecodeChar(bs).value.0] + Decode(bs[DecodeChar(bs).value.1..]).value
  {
  }

  lemma EncodeCons(c: char, s: string)
    ensures Encode([c] + s) == EncodeChar(c) + Encode(s)
  {
    assert ([c] + s)[1..] == s;
  }

  lemma SplitAt(bs: seq<Byte>, k: nat)
    requires k <= |bs|
    ensures bs[..k] + bs[k..] == bs
  {
  }

  /** One step of EncodeOfDecode: if the rest re-encodes to itself, so does the whole. */
  lemma EncodeOfDecodeStep(bs: seq<Byte>, k: nat)
    requires bs != [] && Decode(bs).Some? && DecodeChar(bs).Some? && k == DecodeChar(bs).value.1
    requires Decode(bs[k..]).Some? && Encode(Decode(bs[k..]).value) == bs[k..]
    ensures Encode(Decode(bs).value) == bs
  {
    DecodeStep(bs);
    EncodeOfDecodeChar(bs);
    EncodeCons(DecodeChar(bs).value.0, Decode(bs[k..]).value);
    SplitAt(bs, k);
  }

  /** Whatever decodes is the encoding of what it decodes to: modified UTF-8
      has exactly one form per string. */
  lemma {:induction false} EncodeOfDecode(bs: seq<Byte>)
    ensures Decode(bs).Some? ==> Encode(Decode(bs).value) == bs
    decreases |bs|
  {
    if bs != [] && Decode(bs).Some? {
      DecodeStep(bs);
      var k := DecodeChar(bs).value.1;
      EncodeOfDecode(bs[k..]);
      EncodeOfDecodeStep(bs, k);
    }
  }

  /** A byte sequence decodes to s exactly when it is the encoding of s. */
  lemma DecodesExactly(bs: seq<Byte>, s: string)
    ensures Decode(bs) == Some(s) <==> bs == Encode(s)
  {
    RoundTrip(s);
    EncodeOfDecode(bs);
  }

  /** No encoded string contains a zero byte: the null character has its two-byte form. */
  lemma {:induction false} NoZeroByte(s: string)
    ensures forall i :: 0 <= i < |Encode(s)| ==> Encode(s)[i] != 0
  {
    if s != [] {
      NoZeroByte(s[1..]);
      var e := EncodeChar(s[0]);
      forall i | 0 <= i < |Encode(s)|
        ensures Encode(s)[i] != 0
      {
        if i >= |e| {
          assert Encode(s)[i] == Encode(s[1..])[i - |e|];
        }
      }
    }
  }

  /** Characters 1 ..= 0x7F pass through unchanged, one byte each. */
  lemma {:induction false} AsciiPassesThrough(s: string)
    requires forall i :: 0 <= i < |s| ==> 0 < s[i] as int < 0x80
    ensures Encode(s) == seq(|s|, i requires 0 <= i < |s| => s[i] as int)
  {
    if s != [] {
      AsciiPassesThrough(s[1..]);
    }
  }

  /** The null character and a character outside the Basic Multilingual Plane. */
  lemma EncodeExamples()
    ensures Encode("A") == [0x41]
    ensures Encode("\0") == [0xC0, 0x80]
    ensures Encode("\U{1F600}") == [0xED, 0xA0, 0xBD, 0xED, 0xB8, 0x80]
  {
  }
}
