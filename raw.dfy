/** The primitive NBT readers and writers (src/raw.rs), one method per
    function, each proved against the layout or reading function of module
    Format. Byte order is a parameter rather than a type parameter. */
module Raw {
  import opened Wire
  import opened ModifiedUtf8
  import opened Format
  import opened Streams

  /** close_nbt: writes the terminator byte 0x00 that closes a compound. */
  method CloseNbt(dst: Sink) returns (r: Result<()>)
    requires dst.Valid()
    modifies dst
    ensures dst.Valid()
    ensures dst.data == Clip(old(dst.data) + [0x00], dst.cap)
    ensures r == WriteStatus(|old(dst.data)| + 1, dst.cap)
  {
    r := dst.WriteAll([0x00]);
  }

  /** One signed scalar of w bytes, the body shared by the four scalar writers. */
  method WriteScalar(dst: Sink, value: int, w: nat, order: Endian) returns (r: Result<()>)
    requires dst.Valid() && InRange(value, w)
    modifies dst
    ensures dst.Valid()
    ensures dst.data == Clip(old(dst.data) + EncodeInt(value, w, order), dst.cap)
    ensures r == WriteStatus(|old(dst.data)| + w, dst.cap)
  {
    r := dst.WriteAll(EncodeInt(value, w, order));
  }

  /** write_bare_byte: one byte, the same in either order (see SingleByteOrderFree). */
  method WriteBareByte(dst: Sink, value: int) returns (r: Result<()>)
    requires dst.Valid() && InRange(value, 1)
    modifies dst
    ensures dst.Valid()
    ensures dst.data == Clip(old(dst.data) + [TwosComplement(value, 1)], dst.cap)
    ensures r == WriteStatus(|old(dst.data)| + 1, dst.cap)
  {
    r := WriteScalar(dst, value, 1, BigEndian);
  }

  /** write_bare_short. */
  method WriteBareShort(dst: Sink, value: int, order: Endian) returns (r: Result<()>)
    requires dst.Valid() && InRange(value, 2)
    modifies dst
    ensures dst.Valid()
    ensures dst.data == Clip(old(dst.data) + EncodeInt(value, 2, order), dst.cap)
    ensures r == WriteStatus(|old(dst.data)| + 2, dst.cap)
  {
    r := WriteScalar(dst, value, 2, order);
  }

  /** write_bare_int. */
  method WriteBareInt(dst: Sink, value: int, order: Endian) returns (r: Result<()>)
    requires dst.Valid() && InRange(value, 4)
    modifies dst
    ensures dst.Valid()
    ensures dst.data == Clip(old(dst.data) + EncodeInt(value, 4, order), dst.cap)
    ensures r == WriteStatus(|old(dst.data)| + 4, dst.cap)
  {
    r := WriteScalar(dst, value, 4, order);
  }

  /** write_bare_long. */
  method WriteBareLong(dst: Sink, value: int, order: Endian) returns (r: Result<()>)
    requires dst.Valid() && InRange(value, 8)
    modifies dst
    ensures dst.Valid()
    ensures dst.data == Clip(old(dst.data) + EncodeInt(value, 8, order), dst.cap)
    ensures r == WriteStatus(|old(dst.data)| + 8, dst.cap)
  {
    r := WriteScalar(dst, value, 8, order);
  }

  /** Each element in turn, stopping at the first failed write: the loop of
      the array writers. */
  method WriteElements(dst: Sink, value: seq<int>, w: nat, order: Endian) returns (r: Result<()>)
    requires dst.Valid() && AllInRange(value, w)
    modifies dst
    ensures dst.Valid()
    ensures dst.data == Clip(old(dst.data) + EncodeAll(value, w, order), dst.cap)
    ensures r == WriteStatus(|old(dst.data)| + |EncodeAll(value, w, order)|, dst.cap)
  {
    ghost var start := dst.data;
    r := Ok(());
    var i := 0;
    while i < |value|
      invariant 0 <= i <= |value|
      invariant dst.Valid() && r == Ok(())
      invariant dst.data == start + EncodeAll(value[..i], w, order)
    {
      var bytes := EncodeInt(value[i], w, order);
      WriteStep(start, value, i, w, order);
      ghost var written := start + EncodeAll(value[..i + 1], w, order);
      r := dst.WriteAll(bytes);
      if r.Err? {
        WriteOverrun(start, EncodeAll(value, w, order), written, EncodeAll(value[i + 1..], w, order), dst.cap);
        return;
      }
      i := i + 1;
    }
    assert value[..i] == value;
  }

  /** The count, then the elements: the body shared by the three array writers. */
  method WriteBareArray(dst: Sink, value: seq<int>, w: nat, order: Endian) returns (r: Result<()>)
    requires dst.Valid() && AllInRange(value, w)
    modifies dst
    ensures dst.Valid()
    ensures dst.data == Clip(old(dst.data) + ArrayWire(value, w, order), dst.cap)
    ensures r == WriteStatus(|old(dst.data)| + |ArrayWire(value, w, order)|, dst.cap)
  {
    Widths();
    ghost var start := dst.data;
    var count := EncodeInt(WrapI32(|value|), 4, order);
    assert start + ArrayWire(value, w, order) == (start + count) + EncodeAll(value, w, order);
    r := dst.WriteAll(count);
    if r.Err? {
      ClipPast(start + count, EncodeAll(value, w, order), dst.cap);
      return;
    }
    r := WriteElements(dst, value, w, order);
  }

  /** write_bare_byte_array. */
  method WriteBareByteArray(dst: Sink, value: seq<int>, order: Endian) returns (r: Result<()>)
    requires dst.Valid() && AllInRange(value, 1)
    modifies dst
    ensures dst.Valid()
    ensures dst.data == Clip(old(dst.data) + ArrayWire(value, 1, order), dst.cap)
    ensures r == WriteStatus(|old(dst.data)| + 4 + |value|, dst.cap)
  {
    EncodeAllLength(value, 1, order);
    r := WriteBareArray(dst, value, 1, order);
  }

  /** write_bare_int_array. */
  method WriteBareIntArray(dst: Sink, value: seq<int>, order: Endian) returns (r: Result<()>)
    requires dst.Valid() && AllInRange(value, 4)
    modifies dst
    ensures dst.Valid()
    ensures dst.data == Clip(old(dst.data) + ArrayWire(value, 4, order), dst.cap)
    ensures r == WriteStatus(|old(dst.data)| + 4 + 4 * |value|, dst.cap)
  {
    EncodeAllLength(value, 4, order);
    r := WriteBareArray(dst, value, 4, order);
  }

  /** write_bare_long_array. */
  method WriteBareLongArray(dst: Sink, value: seq<int>, order: Endian) returns (r: Result<()>)
    requires dst.Valid() && AllInRange(value, 8)
    modifies dst
    ensures dst.Valid()
    ensures dst.data == Clip(old(dst.data) + ArrayWire(value, 8, order), dst.cap)
    ensures r == WriteStatus(|old(dst.data)| + 4 + 8 * |value|, dst.cap)
  {
    EncodeAllLength(value, 8, order);
    r := WriteBareArray(dst, value, 8, order);
  }

  /** write_bare_string: the u16 byte length of the modified UTF-8 form, then that form. */
  method WriteBareString(dst: Sink, value: string, order: Endian) returns (r: Result<()>)
    requires dst.Valid()
    modifies dst
    ensures dst.Valid()
    ensures dst.data == Clip(old(dst.data) + StringWire(value, order), dst.cap)
    ensures r == WriteStatus(|old(dst.data)| + 2 + |Encode(value)|, dst.cap)
  {
    ghost var start := dst.data;
    var encoded := Encode(value);
    var prefix := UnsignedBytes(WrapU16(|encoded|), 2, order);
    assert start + StringWire(value, order) == (start + prefix) + encoded;
    r := dst.WriteAll(prefix);
    if r.Err? {
      ClipPast(start + prefix, encoded, dst.cap);
      return;
    }
    r := dst.WriteAll(encoded);
  }

  /** One signed scalar of w bytes, the body shared by the four scalar readers. */
  method ReadScalar(src: Source, w: nat, order: Endian) returns (r: Result<int>)
    requires src.Valid() && 1 <= w
    modifies src
    ensures src.Valid()
    ensures r == ParseInt(src.data[old(src.pos)..], w, order).result
    ensures src.pos == old(src.pos) + ParseInt(src.data[old(src.pos)..], w, order).consumed
  {
    ghost var rest := src.data[src.pos..];
    var bytes := src.ReadExact(w);
    if w <= |rest| {
      assert bytes.value == rest[..w];
    }
    match bytes {
      case Ok(bs) => r := Ok(DecodeInt(bs, order));
      case Err(e) => r := Err(e);
    }
  }

  /** read_bare_byte: one byte, read the same in either order. */
  method ReadBareByte(src: Source) returns (r: Result<int>)
    requires src.Valid()
    modifies src
    ensures src.Valid()
    ensures r == ParseInt(src.data[old(src.pos)..], 1, BigEndian).result
    ensures r == ParseInt(src.data[old(src.pos)..], 1, LittleEndian).result
    ensures src.pos == old(src.pos) + ParseInt(src.data[old(src.pos)..], 1, BigEndian).consumed
  {
    ghost var rest := src.data[src.pos..];
    r := ReadScalar(src, 1, BigEndian);
    if 1 <= |rest| {
      SingleByteDecodeOrderFree(rest[..1]);
    }
  }

  /** read_bare_short. */
  method ReadBareShort(src: Source, order: Endian) returns (r: Result<int>)
    requires src.Valid()
    modifies src
    ensures src.Valid()
    ensures r == ParseInt(src.data[old(src.pos)..], 2, order).result
    ensures src.pos == old(src.pos) + ParseInt(src.data[old(src.pos)..], 2, order).consumed
  {
    r := ReadScalar(src, 2, order);
  }

  /** read_bare_int. */
  method ReadBareInt(src: Source, order: Endian) returns (r: Result<int>)
    requires src.Valid()
    modifies src
    ensures src.Valid()
    ensures r == ParseInt(src.data[old(src.pos)..], 4, order).result
    ensures src.pos == old(src.pos) + ParseInt(src.data[old(src.pos)..], 4, order).consumed
  {
    r := ReadScalar(src, 4, order);
  }

  /** read_bare_long. */
  method ReadBareLong(src: Source, order: Endian) returns (r: Result<int>)
    requires src.Valid()
    modifies src
    ensures src.Valid()
    ensures r == ParseInt(src.data[old(src.pos)..], 8, order).result
    ensures src.pos == old(src.pos) + ParseInt(src.data[old(src.pos)..], 8, order).consumed
  {
    r := ReadScalar(src, 8, order);
  }

  /** One pass of the array readers' loop: the next element, pushed onto
      done. whole is what the loop as a whole reads, from start, and n the
      elements still to read. */
  method ReadElement(src: Source, w: nat, order: Endian, done: seq<int>, ghost whole: Step<seq<int>>, ghost start: nat, ghost n: nat)
    returns (r: Result<seq<int>>)
    requires src.Valid() && 1 <= w && 0 < n && start <= src.pos
    requires Resumes(whole, done, src.data[src.pos..], n, w, order, src.pos - start)
    modifies src
    ensures src.Valid() && start <= src.pos
    ensures r.Ok? ==> Resumes(whole, r.value, src.data[src.pos..], n - 1, w, order, src.pos - start)
    ensures r.Err? ==> whole == Step(Err(r.error), src.pos - start)
  {
    ghost var pos := src.pos;
    var element := ReadScalar(src, w, order);
    if element.Err? {
      ElementsLoopShort(whole, done, src.data, start, pos, n, w, order);
      return Err(element.error);
    }
    r := Ok(done + [element.value]);
    ElementsLoopStep(whole, done, src.data, start, pos, n, w, order, element.value, r.value, src.pos, n - 1);
  }

  /** len elements of width w pushed in the order read, stopping at the first
      failed read: the loop of the array readers. */
  method ReadElements(src: Source, len: nat, w: nat, order: Endian) returns (r: Result<seq<int>>)
    requires src.Valid() && 1 <= w
    modifies src
    ensures src.Valid()
    ensures r == ParseElements(src.data[old(src.pos)..], len, w, order).result
    ensures src.pos == old(src.pos) + ParseElements(src.data[old(src.pos)..], len, w, order).consumed
  {
    ghost var whole := ParseElements(src.data[src.pos..], len, w, order);
    ghost var start := src.pos;
    var buf: seq<int> := [];
    var remaining := len;
    AfterNothing(whole);
    while 0 < remaining
      invariant src.Valid() && start <= src.pos
      invariant Resumes(whole, buf, src.data[src.pos..], remaining, w, order, src.pos - start)
    {
      var next := ReadElement(src, w, order, buf, whole, start, remaining);
      if next.Err? {
        return Err(next.error);
      }
      buf := next.value;
      remaining := remaining - 1;
    }
    assert buf + [] == buf;
    r := Ok(buf);
  }

  /** The count, then the elements: the body shared by the three array readers. */
  method ReadBareArray(src: Source, w: nat, order: Endian) returns (r: Result<seq<int>>)
    requires src.Valid() && 1 <= w
    modifies src
    ensures src.Valid()
    ensures r == ParseArray(src.data[old(src.pos)..], w, order).result
    ensures src.pos == old(src.pos) + ParseArray(src.data[old(src.pos)..], w, order).consumed
  {
    ghost var rest := src.data[src.pos..];
    ghost var start := src.pos;
    var count := ReadScalar(src, 4, order);
    if count.Err? {
      return Err(count.error);
    }
    var len := count.value;
    if len < 0 {
      return Err(CapacityOverflow);
    }
    r := ReadElements(src, len, w, order);
    assert src.data[start + 4..] == rest[4..];
  }

  /** read_bare_byte_array. */
  method ReadBareByteArray(src: Source, order: Endian) returns (r: Result<seq<int>>)
    requires src.Valid()
    modifies src
    ensures src.Valid()
    ensures r == ParseArray(src.data[old(src.pos)..], 1, order).result
    ensures src.pos == old(src.pos) + ParseArray(src.data[old(src.pos)..], 1, order).consumed
  {
    r := ReadBareArray(src, 1, order);
  }

  /** read_bare_int_array. */
  method ReadBareIntArray(src: Source, order: Endian) returns (r: Result<seq<int>>)
    requires src.Valid()
    modifies src
    ensures src.Valid()
    ensures r == ParseArray(src.data[old(src.pos)..], 4, order).result
    ensures src.pos == old(src.pos) + ParseArray(src.data[old(src.pos)..], 4, order).consumed
  {
    r := ReadBareArray(src, 4, order);
  }

  /** read_bare_long_array. */
  method ReadBareLongArray(src: Source, order: Endian) returns (r: Result<seq<int>>)
    requires src.Valid()
    modifies src
    ensures src.Valid()
    ensures r == ParseArray(src.data[old(src.pos)..], 8, order).result
    ensures src.pos == old(src.pos) + ParseArray(src.data[old(src.pos)..], 8, order).consumed
  {
    r := ReadBareArray(src, 8, order);
  }

  /** The fill loop of read_bare_string: a buffer of len bytes, filled by as
      many reads as the source needs, failing when a read delivers nothing
      before it is full. Whatever the chunking, the outcome is the next len
      bytes, or IncompleteNbtValue with the source drained. */
  method ReadFill(src: Source, len: nat) returns (r: Result<seq<Byte>>)
    requires src.Valid()
    modifies src
    ensures src.Valid()
    ensures old(src.pos) + len <= |src.data| ==> r == Ok(src.data[old(src.pos)..old(src.pos) + len]) && src.pos == old(src.pos) + len
    ensures old(src.pos) + len > |src.data| ==> r == Err(IncompleteNbtValue) && src.pos == |src.data|
  {
    ghost var start := src.pos;
    var bytes := new Byte[len];
    var nRead := 0;
    while nRead < bytes.Length
      invariant 0 <= nRead <= bytes.Length == len
      invariant src.Valid() && src.pos == start + nRead
      invariant bytes[..nRead] == src.data[start..src.pos]
      decreases bytes.Length - nRead
    {
      ghost var before, pos := bytes[..nRead], src.pos;
      var n := src.Read(bytes, nRead);
      if n == 0 {
        return Err(IncompleteNbtValue);
      }
      assert bytes[..nRead + n] == before + bytes[nRead..nRead + n];
      assert src.data[start..src.pos] == src.data[start..pos] + src.data[pos..src.pos];
      nRead := nRead + n;
    }
    assert bytes[..] == bytes[..nRead];
    r := Ok(bytes[..]);
  }

  /** The rest of read_bare_string once the length is known and not 0: the
      bytes, gathered by the fill loop, then decoded. */
  method ReadText(src: Source, len: nat) returns (r: Result<string>)
    requires src.Valid()
    modifies src
    ensures src.Valid()
    ensures r == ParseText(src.data[old(src.pos)..], len).result
    ensures src.pos == old(src.pos) + ParseText(src.data[old(src.pos)..], len).consumed
  {
    ghost var rest := src.data[src.pos..];
    var bytes := ReadFill(src, len);
    if bytes.Err? {
      return Err(bytes.error);
    }
    assert bytes.value == rest[..len];
    r := DecodeText(bytes.value);
  }

  /** read_bare_string: the u16 length; nothing more when it is 0; otherwise
      that many bytes, decoded. */
  method ReadBareString(src: Source, order: Endian) returns (r: Result<string>)
    requires src.Valid()
    modifies src
    ensures src.Valid()
    ensures r == ParseString(src.data[old(src.pos)..], order).result
    ensures src.pos == old(src.pos) + ParseString(src.data[old(src.pos)..], order).consumed
  {
    ghost var rest := src.data[src.pos..];
    var prefix := src.ReadExact(2);
    if prefix.Err? {
      return Err(prefix.error);
    }
    assert prefix.value == rest[..2] && src.data[src.pos..] == rest[2..];
    var len := UnsignedValue(prefix.value, order);
    if len == 0 {
      return Ok("");
    }
    r := ReadText(src, len);
  }

  /** emit_next_header: the tag byte, then, unless it is 0x00, the name. */
  method EmitNextHeader(src: Source, order: Endian) returns (r: Result<(Byte, string)>)
    requires src.Valid()
    modifies src
    ensures src.Valid()
    ensures r == ParseHeader(src.data[old(src.pos)..], order).result
    ensures src.pos == old(src.pos) + ParseHeader(src.data[old(src.pos)..], order).consumed
  {
    ghost var rest := src.data[src.pos..];
    var tag := src.ReadExact(1);
    if tag.Err? {
      return Err(tag.error);
    }
    var t := tag.value[0];
    if t == 0 {
      return Ok((t, ""));
    }
    assert src.Rest() == rest[1..];
    var name := ReadBareString(src, order);
    match name {
      case Ok(text) => r := Ok((t, text));
      case Err(e) => r := Err(e);
    }
  }
}
