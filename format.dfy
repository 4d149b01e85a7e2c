/** The NBT wire layouts of arrays, strings and headers, and the reading
    functions that say, for the unread bytes of a source, what each reader
    returns and how many bytes it consumes. The lemmas here are the format's
    guarantees: what a writer emits, a reader recovers. */
module Format {
  import opened Wire
  import opened ModifiedUtf8

  /** What a reader returns, and how many bytes of the source it consumed. */
  datatype Step<T> = Step(result: Result<T>, consumed: nat)

  predicate AllInRange(vs: seq<int>, w: nat)
  {
    forall i :: 0 <= i < |vs| ==> InRange(vs[i], w)
  }

  /** The elements of an array, each at width w, in order. */
  function EncodeAll(vs: seq<int>, w: nat, order: Endian): (r: seq<Byte>)
    requires AllInRange(vs, w)
  {
    if vs == [] then [] else EncodeInt(vs[0], w, order) + EncodeAll(vs[1..], w, order)
  }

  lemma {:induction false} EncodeAllLength(vs: seq<int>, w: nat, order: Endian)
    requires AllInRange(vs, w)
    ensures |EncodeAll(vs, w, order)| == |vs| * w
  {
    if vs != [] {
      EncodeAllLength(vs[1..], w, order);
      MulSucc(|vs| - 1, w);
    }
  }

  /** What write_bare_{byte,int,long}_array emit: the element count as an i32
      (truncated, as `len() as i32` does), then the elements. */
  function ArrayWire(vs: seq<int>, w: nat, order: Endian): (r: seq<Byte>)
    requires AllInRange(vs, w)
  {
    EncodeInt(WrapI32(|vs|), 4, order) + EncodeAll(vs, w, order)
  }

  /** What write_bare_string emits: the encoded byte length as a u16
      (truncated, as `len() as u16` does), then the encoded bytes. */
  function StringWire(s: string, order: Endian): (r: seq<Byte>)
    ensures |r| == 2 + |Encode(s)|
  {
    UnsignedBytes(WrapU16(|Encode(s)|), 2, order) + Encode(s)
  }

  /** What a higher layer writes before a named value: its tag, then its name. */
  function HeaderWire(tag: Byte, name: string, order: Endian): (r: seq<Byte>)
    ensures |r| == 3 + |Encode(name)|
  {
    [tag] + StringWire(name, order)
  }

  /** read_bare_{byte,short,int,long} on the unread bytes rest. */
  function ParseInt(rest: seq<Byte>, w: nat, order: Endian): (s: Step<int>)
    requires 1 <= w
    ensures s.consumed <= |rest|
    ensures s.result.Ok? <==> w <= |rest|
    ensures s.result.Ok? ==> s.consumed == w && InRange(s.result.value, w)
    ensures s.result.Err? ==> s.result.error == IoError
  {
    if w <= |rest| then Step(Ok(DecodeInt(rest[..w], order)), w) else Step(Err(IoError), |rest|)
  }

  /** The outcome of a read that has already produced done, in k bytes, and
      then goes on as s. */
  function After(done: seq<int>, s: Step<seq<int>>, k: nat): Step<seq<int>>
  {
    match s.result
    case Ok(vs) => Step(Ok(done + vs), k + s.consumed)
    case Err(e) => Step(Err(e), k + s.consumed)
  }

  /** n elements of width w read one after another from the unread bytes
      rest, stopping at the first that is cut short (the loop of
      read_bare_{byte,int,long}_array). */
  function ParseElements(rest: seq<Byte>, n: nat, w: nat, order: Endian): (s: Step<seq<int>>)
    requires 1 <= w
    ensures s.consumed <= |rest|
    ensures s.result.Ok? ==> |s.result.value| == n
    ensures s.result.Err? ==> s.result.error == IoError && s.consumed == |rest|
  {
    if n == 0 then Step(Ok([]), 0)
    else
      var head := ParseInt(rest, w, order);
      match head.result
      case Err(e) => Step(Err(e), head.consumed)
      case Ok(v) => After([v], ParseElements(rest[w..], n - 1, w, order), w)
  }

  /** read_bare_{byte,int,long}_array on the unread bytes rest: the i32
      count, then that many elements of width w. */
  function ParseArray(rest: seq<Byte>, w: nat, order: Endian): (s: Step<seq<int>>)
    requires 1 <= w
    ensures s.consumed <= |rest|
    ensures s.result.Ok? ==> 4 <= |rest| && |s.result.value| == UnsignedValue(rest[..4], order)
  {
    var count := ParseInt(rest, 4, order);
    match count.result
    case Err(e) => Step(Err(e), count.consumed)
    case Ok(n) =>
      if n < 0 then Step(Err(CapacityOverflow), 4)
      else
        var elements := ParseElements(rest[4..], n, w, order);
        Step(elements.result, 4 + elements.consumed)
  }

  /** from_java_cesu8, its failure reported as a DecodeError. */
  function DecodeText(bs: seq<Byte>): (r: Result<string>)
    ensures r.Ok? <==> Decode(bs).Some?
    ensures r.Ok? ==> |r.value| <= |bs|
    ensures r.Err? ==> r.error == DecodeError
  {
    match Decode(bs)
    case Some(text) => Ok(text)
    case None => Err(DecodeError)
  }

  /** The bytes of a string once its length prefix has said len: the source
      ends too soon (IncompleteNbtValue), or the len bytes decode, or not. */
  function ParseText(rest: seq<Byte>, len: nat): (s: Step<string>)
    ensures s.consumed <= |rest|
    ensures s.result == Err(IncompleteNbtValue) <==> |rest| < len
    ensures len <= |rest| ==> s.consumed == len
  {
    if |rest| < len then Step(Err(IncompleteNbtValue), |rest|)
    else Step(DecodeText(rest[..len]), len)
  }

  /** read_bare_string on the unread bytes rest: the u16 length, then that
      many bytes decoded as modified UTF-8. */
  function ParseString(rest: seq<Byte>, order: Endian): (s: Step<string>)
    ensures s.consumed <= |rest|
    ensures s.result == Err(IoError) <==> |rest| < 2
  {
    if |rest| < 2 then Step(Err(IoError), |rest|)
    else
      var len := UnsignedValue(rest[..2], order);
      if len == 0 then Step(Ok(""), 2)
      else
        var text := ParseText(rest[2..], len);
        Step(text.result, 2 + text.consumed)
  }

  /** emit_next_header on the unread bytes rest: a tag byte, then a name
      unless the tag is the terminator 0x00. */
  function ParseHeader(rest: seq<Byte>, order: Endian): (s: Step<(Byte, string)>)
    ensures s.consumed <= |rest|
    ensures s.result.Ok? ==> 0 < |rest| && s.result.value.0 == rest[0]
    ensures s.result == Err(IoError) <==> |rest| == 0 || (rest[0] != 0 && |rest| < 3)
  {
    if |rest| == 0 then Step(Err(IoError), 0)
    else if rest[0] == 0 then Step(Ok((0, "")), 1)
    else
      var name := ParseString(rest[1..], order);
      var result := match name.result
        case Ok(text) => Ok((rest[0], text))
        case Err(e) => Err(e);
      Step(result, 1 + name.consumed)
  }

  lemma {:induction false} EncodeAllAppend(a: seq<int>, b: seq<int>, w: nat, order: Endian)
    requires AllInRange(a, w) && AllInRange(b, w)
    ensures AllInRange(a + b, w)
    ensures EncodeAll(a + b, w, order) == EncodeAll(a, w, order) + EncodeAll(b, w, order)
  {
    if a == [] {
      assert a + b == b;
    } else {
      assert (a + b)[0] == a[0] && (a + b)[1..] == a[1..] + b;
      EncodeAllAppend(a[1..], b, w, order);
    }
  }

  lemma MulSucc(n: nat, w: nat)
    ensures (n + 1) * w == n * w + w
  {
  }

  /** The element block of a sequence splits at any index. */
  lemma EncodeAllSplit(vs: seq<int>, i: nat, w: nat, order: Endian)
    requires AllInRange(vs, w) && i < |vs|
    ensures EncodeAll(vs[..i + 1], w, order) == EncodeAll(vs[..i], w, order) + EncodeInt(vs[i], w, order)
    ensures EncodeAll(vs, w, order) == EncodeAll(vs[..i + 1], w, order) + EncodeAll(vs[i + 1..], w, order)
  {
    assert vs[..i] + [vs[i]] == vs[..i + 1];
    EncodeAllAppend(vs[..i], [vs[i]], w, order);
    assert vs[..i + 1] + vs[i + 1..] == vs;
    EncodeAllAppend(vs[..i + 1], vs[i + 1..], w, order);
  }

  /** Writing the elements one at a time: the bytes after element i, and the
      bytes still to come. */
  lemma WriteStep(start: seq<Byte>, vs: seq<int>, i: nat, w: nat, order: Endian)
    requires AllInRange(vs, w) && i < |vs|
    ensures start + EncodeAll(vs[..i + 1], w, order) == start + EncodeAll(vs[..i], w, order) + EncodeInt(vs[i], w, order)
    ensures start + EncodeAll(vs, w, order) == start + EncodeAll(vs[..i + 1], w, order) + EncodeAll(vs[i + 1..], w, order)
  {
    EncodeAllSplit(vs, i, w, order);
    Assoc(start, EncodeAll(vs[..i], w, order), EncodeInt(vs[i], w, order));
    Assoc(start, EncodeAll(vs[..i + 1], w, order), EncodeAll(vs[i + 1..], w, order));
  }

  lemma Assoc(a: seq<Byte>, b: seq<Byte>, c: seq<Byte>)
    ensures a + (b + c) == a + b + c
  {
  }

  /** Element i of an array sits at bytes i*w ..< (i+1)*w of its element block. */
  lemma {:induction false} EncodeAllAt(vs: seq<int>, w: nat, order: Endian, i: nat)
    requires AllInRange(vs, w) && i < |vs|
    ensures |EncodeAll(vs, w, order)| == |vs| * w && (i + 1) * w <= |vs| * w
    ensures EncodeAll(vs, w, order)[i * w..(i + 1) * w] == EncodeInt(vs[i], w, order)
  {
    var e := EncodeAll(vs, w, order);
    var head := EncodeInt(vs[0], w, order);
    EncodeAllLength(vs, w, order);
    EncodeAllLength(vs[1..], w, order);
    if i > 0 {
      EncodeAllAt(vs[1..], w, order, i - 1);
      assert (i - 1) * w == i * w - w && i * w + w == (i + 1) * w;
      assert e[i * w..(i + 1) * w] == EncodeAll(vs[1..], w, order)[(i - 1) * w..i * w];
    } else {
      assert e[..w] == head;
    }
  }

  /** Two stretches of reading compose into one. */
  lemma AfterAfter(a: seq<int>, b: seq<int>, s: Step<seq<int>>, j: nat, k: nat)
    ensures After(a, After(b, s, k), j) == After(a + b, s, j + k)
  {
    if s.result.Ok? {
      assert a + (b + s.result.value) == (a + b) + s.result.value;
    }
  }

  /** Nothing read yet: the outcome is the rest's own. */
  lemma AfterNothing(s: Step<seq<int>>)
    ensures After([], s, 0) == s
  {
    if s.result.Ok? {
      assert [] + s.result.value == s.result.value;
    }
  }

  /** Reading from some start gives whole, once done has been read and the n
      elements still to read are parsed from rest, k bytes on from the start. */
  ghost predicate Resumes(whole: Step<seq<int>>, done: seq<int>, rest: seq<Byte>, n: nat, w: nat, order: Endian, k: nat)
    requires 1 <= w
  {
    whole == After(done, ParseElements(rest, n, w, order), k)
  }

  /** Reading one more element moves it from the bytes still to read to the
      elements already read. */
  lemma ElementsNext(done: seq<int>, rest: seq<Byte>, n: nat, w: nat, order: Endian, k: nat, v: int)
    requires 1 <= w && 0 < n && ParseInt(rest, w, order).result == Ok(v)
    ensures w <= |rest|
    ensures After(done, ParseElements(rest, n, w, order), k) == After(done + [v], ParseElements(rest[w..], n - 1, w, order), k + w)
  {
    AfterAfter(done, [v], ParseElements(rest[w..], n - 1, w, order), k, w);
  }

  /** The array readers' loop, one element further on: whole is what reading
      from start gives, done the elements read so far and pos where reading
      stands. */
  lemma ElementsLoopStep(whole: Step<seq<int>>, done: seq<int>, data: seq<Byte>, start: nat, pos: nat, n: nat, w: nat, order: Endian,
                         v: int, done': seq<int>, next: nat, m: nat)
    requires 1 <= w && start <= pos <= next <= |data| && n == m + 1
    requires ParseInt(data[pos..], w, order).result == Ok(v) && next == pos + ParseInt(data[pos..], w, order).consumed
    requires done' == done + [v]
    requires Resumes(whole, done, data[pos..], n, w, order, pos - start)
    ensures Resumes(whole, done', data[next..], m, w, order, next - start)
  {
    var rest := data[pos..];
    ElementsNext(done, rest, n, w, order, pos - start, v);
    assert rest[w..] == data[next..];
  }

  /** The array readers' loop, when the next element is cut short. */
  lemma ElementsLoopShort(whole: Step<seq<int>>, done: seq<int>, data: seq<Byte>, start: nat, pos: nat, n: nat, w: nat, order: Endian)
    requires 1 <= w && 0 < n && start <= pos <= |data|
    requires ParseInt(data[pos..], w, order).result.Err?
    requires Resumes(whole, done, data[pos..], n, w, order, pos - start)
    ensures whole == Step(Err(ParseInt(data[pos..], w, order).result.error), |data| - start)
  {
  }

  /** Every element read fits its width: an i8 array holds i8 values, and so on. */
  lemma {:induction false} ElementsInRange(rest: seq<Byte>, n: nat, w: nat, order: Endian)
    requires 1 <= w
    ensures ParseElements(rest, n, w, order).result.Ok? ==> AllInRange(ParseElements(rest, n, w, order).result.value, w)
  {
    if n > 0 && w <= |rest| {
      ElementsInRange(rest[w..], n - 1, w, order);
    }
  }

  lemma ArrayInRange(rest: seq<Byte>, w: nat, order: Endian)
    requires 1 <= w
    ensures ParseArray(rest, w, order).result.Ok? ==> AllInRange(ParseArray(rest, w, order).result.value, w)
  {
    if 4 <= |rest| && DecodeInt(rest[..4], order) >= 0 {
      ElementsInRange(rest[4..], DecodeInt(rest[..4], order), w, order);
    }
  }

  /** An element block reads back as the elements that were written, in
      order, taking exactly its own bytes, whatever follows it. */
  lemma {:induction false} ElementsRoundTrip(vs: seq<int>, w: nat, order: Endian, tail: seq<Byte>)
    requires 1 <= w && AllInRange(vs, w)
    ensures ParseElements(EncodeAll(vs, w, order) + tail, |vs|, w, order) == Step(Ok(vs), |EncodeAll(vs, w, order)|)
  {
    if vs != [] {
      var head := EncodeInt(vs[0], w, order);
      var rest := EncodeAll(vs[1..], w, order) + tail;
      var bs := EncodeAll(vs, w, order) + tail;
      assert bs == head + rest;
      ScalarRoundTrip(vs[0], w, order, rest);
      assert bs[w..] == rest;
      ElementsRoundTrip(vs[1..], w, order, tail);
      assert [vs[0]] + vs[1..] == vs;
    }
  }

  /** Reading n elements succeeds exactly when n * w bytes are there, and then
      takes exactly those bytes. */
  lemma {:induction false} ElementsConsumed(rest: seq<Byte>, n: nat, w: nat, order: Endian)
    requires 1 <= w
    ensures ParseElements(rest, n, w, order).result.Ok? <==> n * w <= |rest|
    ensures ParseElements(rest, n, w, order).result.Ok? ==> ParseElements(rest, n, w, order).consumed == n * w
  {
    if n > 0 {
      var m := (n - 1) * w;
      MulSucc(n - 1, w);
      assert n * w == m + w;
      if |rest| >= w {
        var inner := ParseElements(rest[w..], n - 1, w, order);
        ElementsConsumed(rest[w..], n - 1, w, order);
        assert ParseElements(rest, n, w, order) == After([DecodeInt(rest[..w], order)], inner, w);
        assert inner.result.Ok? <==> m <= |rest| - w;
      } else {
        assert m >= 0;
      }
    }
  }

  /** A scalar reads back from its own bytes, whatever follows it. */
  lemma ScalarRoundTrip(v: int, w: nat, order: Endian, tail: seq<Byte>)
    requires 1 <= w && InRange(v, w)
    ensures ParseInt(EncodeInt(v, w, order) + tail, w, order) == Step(Ok(v), w)
  {
    assert (EncodeInt(v, w, order) + tail)[..w] == EncodeInt(v, w, order);
    IntRoundTrip(v, w, order);
  }

  lemma SliceAfter(a: seq<Byte>, b: seq<Byte>, lo: nat, hi: nat)
    requires lo <= hi <= |b|
    ensures (a + b)[|a| + lo..|a| + hi] == b[lo..hi]
  {
  }

  /** Each element of an array follows the 4-byte count in order, at its scalar width. */
  lemma ArrayLayout(vs: seq<int>, w: nat, order: Endian, i: nat)
    requires AllInRange(vs, w) && i < |vs| && |vs| < 0x8000_0000
    ensures |ArrayWire(vs, w, order)| == 4 + |vs| * w && (i + 1) * w <= |vs| * w
    ensures ArrayWire(vs, w, order)[..4] == EncodeInt(|vs|, 4, order)
    ensures ArrayWire(vs, w, order)[4 + i * w..4 + (i + 1) * w] == EncodeInt(vs[i], w, order)
  {
    Widths();
    var count := EncodeInt(|vs|, 4, order);
    var elems := EncodeAll(vs, w, order);
    assert ArrayWire(vs, w, order) == count + elems;
    EncodeAllAt(vs, w, order, i);
    SliceAfter(count, elems, i * w, (i + 1) * w);
  }

  /** An array reads back from its own bytes, whatever follows it, when its
      length fits the i32 count. */
  lemma ArrayRoundTrip(vs: seq<int>, w: nat, order: Endian, tail: seq<Byte>)
    requires 1 <= w && AllInRange(vs, w) && |vs| < 0x8000_0000
    ensures ParseArray(ArrayWire(vs, w, order) + tail, w, order) == Step(Ok(vs), 4 + |vs| * w)
  {
    Widths();
    var count := EncodeInt(|vs|, 4, order);
    var elems := EncodeAll(vs, w, order);
    var rest := ArrayWire(vs, w, order) + tail;
    assert rest == count + elems + tail;
    assert rest[..4] == count;
    IntRoundTrip(|vs|, 4, order);
    assert rest[4..] == elems + tail;
    ElementsRoundTrip(vs, w, order, tail);
    EncodeAllLength(vs, w, order);
  }

  /** When an array read fails and how: a negative count is CapacityOverflow,
      any shortage of bytes is IoError, and it succeeds exactly when the count
      is non-negative and count * w bytes follow it. */
  lemma ArrayOutcome(rest: seq<Byte>, w: nat, order: Endian)
    requires 1 <= w
    ensures ParseArray(rest, w, order).result.Err? ==>
      ParseArray(rest, w, order).result.error == IoError || ParseArray(rest, w, order).result.error == CapacityOverflow
    ensures ParseArray(rest, w, order).result == Err(CapacityOverflow) <==> 4 <= |rest| && DecodeInt(rest[..4], order) < 0
    ensures ParseArray(rest, w, order).result.Ok? <==>
      4 <= |rest| && 0 <= DecodeInt(rest[..4], order) && 4 + DecodeInt(rest[..4], order) * w <= |rest|
  {
    if 4 <= |rest| && 0 <= DecodeInt(rest[..4], order) {
      ElementsConsumed(rest[4..], DecodeInt(rest[..4], order), w, order);
    }
  }

  /** An array cut short anywhere reads as IoError, having consumed all it was given. */
  lemma ArrayTruncated(vs: seq<int>, w: nat, order: Endian, k: nat)
    requires 1 <= w && AllInRange(vs, w) && |vs| < 0x8000_0000 && k < |ArrayWire(vs, w, order)|
    ensures ParseArray(ArrayWire(vs, w, order)[..k], w, order) == Step(Err(IoError), k)
  {
    var cut := ArrayWire(vs, w, order)[..k];
    if k >= 4 {
      Widths();
      var count := EncodeInt(|vs|, 4, order);
      assert cut[..4] == ArrayWire(vs, w, order)[..4] == count;
      IntRoundTrip(|vs|, 4, order);
      EncodeAllLength(vs, w, order);
      ElementsConsumed(cut[4..], |vs|, w, order);
    }
  }

  /** An array of 2^31 elements has its count written as -2^31, so reading it
      back fails at the count. */
  lemma ArrayCountWraps(vs: seq<int>, w: nat, order: Endian, tail: seq<Byte>)
    requires 1 <= w && AllInRange(vs, w) && |vs| == 0x8000_0000
    ensures ParseArray(ArrayWire(vs, w, order) + tail, w, order) == Step(Err(CapacityOverflow), 4)
  {
    Widths();
    var count := EncodeInt(WrapI32(|vs|), 4, order);
    var rest := ArrayWire(vs, w, order) + tail;
    assert WrapI32(|vs|) == -0x8000_0000;
    assert rest[..4] == count;
    IntRoundTrip(WrapI32(|vs|), 4, order);
  }

  /** The modified UTF-8 bytes of a string, their count known, read back as the string. */
  lemma TextRoundTrip(s: string, tail: seq<Byte>)
    ensures ParseText(Encode(s) + tail, |Encode(s)|) == Step(Ok(s), |Encode(s)|)
  {
    assert (Encode(s) + tail)[..|Encode(s)|] == Encode(s);
    RoundTrip(s);
  }

  /** A string reads back from its own bytes, whatever follows it, and takes
      exactly 2 + (its encoded length) bytes, when the encoding fits the u16 prefix. */
  lemma StringRoundTrip(s: string, order: Endian, tail: seq<Byte>)
    requires |Encode(s)| < 0x1_0000
    ensures ParseString(StringWire(s, order) + tail, order) == Step(Ok(s), 2 + |Encode(s)|)
  {
    var e := Encode(s);
    var prefix := UnsignedBytes(|e|, 2, order);
    var rest := StringWire(s, order) + tail;
    assert rest == prefix + (e + tail);
    assert rest[..2] == prefix && rest[2..] == e + tail;
    UnsignedRoundTrip(|e|, 2, order);
    if |e| > 0 {
      TextRoundTrip(s, tail);
    }
  }

  /** A string cut short inside its bytes reads as IncompleteNbtValue, having
      consumed all it was given; cut inside its length prefix, it is an IoError. */
  lemma StringTruncated(s: string, order: Endian, k: nat)
    requires |Encode(s)| < 0x1_0000 && k < |StringWire(s, order)|
    ensures k >= 2 ==> ParseString(StringWire(s, order)[..k], order) == Step(Err(IncompleteNbtValue), k)
    ensures k < 2 ==> ParseString(StringWire(s, order)[..k], order) == Step(Err(IoError), k)
  {
    Widths();
    var e := Encode(s);
    var wire := StringWire(s, order);
    if k >= 2 {
      assert wire[..k][..2] == wire[..2] == UnsignedBytes(|e|, 2, order);
      UnsignedRoundTrip(|e|, 2, order);
    }
  }

  /** A zero length prefix is the empty string: two bytes consumed, nothing after them looked at. */
  lemma EmptyStringShortCircuit(rest: seq<Byte>, order: Endian)
    requires |rest| >= 2 && rest[0] == 0 && rest[1] == 0
    ensures ParseString(rest, order) == Step(Ok(""), 2)
  {
    assert rest[..2] == [0, 0];
    assert [0, 0][1..] == [0] && [0, 0][..1] == [0];
    assert LeValue([0, 0]) == 0 && BeValue([0, 0]) == 0;
  }

  /** A string whose encoding is exactly 2^16 bytes gets the length prefix 0,
      so it reads back as the empty string and leaves its bytes unread. */
  lemma LongStringMisread(s: string, order: Endian, tail: seq<Byte>)
    requires |Encode(s)| == 0x1_0000
    ensures ParseString(StringWire(s, order) + tail, order) == Step(Ok(""), 2)
  {
    Widths();
    var rest := StringWire(s, order) + tail;
    assert rest[..2] == UnsignedBytes(0, 2, order);
    UnsignedRoundTrip(0, 2, order);
  }

  /** The string "A" in big-endian order, and the empty string in both orders. */
  lemma StringExamples()
    ensures StringWire("A", BigEndian) == [0x00, 0x01, 0x41]
    ensures StringWire("", BigEndian) == [0x00, 0x00]
    ensures StringWire("", LittleEndian) == [0x00, 0x00]
  {
    Widths();
  }

  /** The terminator tag is a whole header: one byte consumed, an empty name. */
  lemma TerminatorHeader(tail: seq<Byte>, order: Endian)
    ensures ParseHeader([0x00] + tail, order) == Step(Ok((0, "")), 1)
  {
  }

  /** A non-terminator header whose name is all there takes 1 + 2 + L bytes,
      L being the name's length prefix. */
  lemma HeaderConsumes(rest: seq<Byte>, order: Endian)
    requires |rest| >= 3 && rest[0] != 0
    requires |rest| >= 3 + UnsignedValue(rest[1..3], order)
    ensures ParseHeader(rest, order).consumed == 3 + UnsignedValue(rest[1..3], order)
  {
    assert rest[1..][..2] == rest[1..3];
  }

  /** A header (a non-zero tag, then the name as a string) reads back as that
      tag and name. */
  lemma HeaderRoundTrip(tag: Byte, name: string, order: Endian, tail: seq<Byte>)
    requires tag != 0 && |Encode(name)| < 0x1_0000
    ensures ParseHeader(HeaderWire(tag, name, order) + tail, order) == Step(Ok((tag, name)), 3 + |Encode(name)|)
  {
    var after := StringWire(name, order) + tail;
    var rest := HeaderWire(tag, name, order) + tail;
    assert rest == [tag] + after;
    assert rest[0] == tag && rest[1..] == after;
    StringRoundTrip(name, order, tail);
    var name' := ParseString(after, order);
    assert ParseHeader(rest, order) == Step(Ok((tag, name'.result.value)), 1 + name'.consumed);
  }
}
