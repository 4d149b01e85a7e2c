/** The byte sink and byte source the codec is generic over, modelled on
    sequences: a sink of bounded capacity (a writer into a fixed buffer, which
    stores what fits and then fails), and a source over a fixed byte sequence
    whose reads may deliver fewer bytes than asked for. */
module Streams {
  import opened Wire

  /** The first cap bytes of s, or all of s when it is shorter. */
  function Clip(s: seq<Byte>, cap: nat): (r: seq<Byte>)
    ensures |r| <= cap
    ensures |s| <= cap ==> r == s
  {
    if |s| <= cap then s else s[..cap]
  }

  /** The sink is append-only: a write keeps what the sink held, and stores
      a prefix of the bytes written, as many as fit. */
  lemma AppendOnly(s: seq<Byte>, t: seq<Byte>, cap: nat)
    requires |s| <= cap
    ensures s <= Clip(s + t, cap) <= s + t
    ensures |Clip(s + t, cap)| == if |s| + |t| <= cap then |s| + |t| else cap
  {
  }

  /** The status of a write that brings the sink to n bytes. */
  function WriteStatus(n: nat, cap: nat): (r: Result<()>)
    ensures r.Ok? <==> n <= cap
    ensures r.Err? ==> r.error == IoError
  {
    if n <= cap then Ok(()) else Err(IoError)
  }

  /** Once a write has overrun the capacity, nothing written after it changes the sink. */
  lemma ClipPast(s: seq<Byte>, t: seq<Byte>, cap: nat)
    requires |s| > cap
    ensures Clip(s, cap) == Clip(s + t, cap)
  {
    assert (s + t)[..cap] == s[..cap];
  }

  /** A write that overruns the capacity part-way through: the sink holds
      what it held when the overrun happened, and the write as a whole fails. */
  lemma WriteOverrun(start: seq<Byte>, bs: seq<Byte>, upTo: seq<Byte>, after: seq<Byte>, cap: nat)
    requires start + bs == upTo + after && |upTo| > cap
    ensures Clip(upTo, cap) == Clip(start + bs, cap)
    ensures WriteStatus(|start| + |bs|, cap) == Err(IoError)
  {
    ClipPast(upTo, after, cap);
  }

  /** A byte sink: everything written so far, and the most it can hold. */
  class Sink {
    var data: seq<Byte>
    const cap: nat

    ghost predicate Valid()
      reads this
    {
      |data| <= cap
    }

    constructor (cap: nat)
      ensures Valid() && data == [] && this.cap == cap
    {
      data := [];
      this.cap := cap;
    }

    /** Writes all of bs (io::Write::write_all): bytes past the capacity are
        dropped and the write fails. */
    method WriteAll(bs: seq<Byte>) returns (r: Result<()>)
      requires Valid()
      modifies this
      ensures Valid()
      ensures data == Clip(old(data) + bs, cap)
      ensures r == WriteStatus(|old(data)| + |bs|, cap)
    {
      r := WriteStatus(|data| + |bs|, cap);
      data := Clip(data + bs, cap);
    }
  }

  /** A byte source: the whole input and how much of it has been consumed. */
  class Source {
    const data: seq<Byte>
    var pos: nat

    ghost predicate Valid()
      reads this
    {
      pos <= |data|
    }

    /** The bytes not yet consumed. */
    function Rest(): (r: seq<Byte>)
      reads this
      requires Valid()
      ensures |r| == |data| - pos
    {
      data[pos..]
    }

    constructor (data: seq<Byte>)
      ensures Valid() && this.data == data && pos == 0
    {
      this.data := data;
      pos := 0;
    }

    /** One read into buf[from..] (io::Read::read): it may deliver any number
        of bytes up to what is asked for and what is left, and it delivers
        none only when nothing is asked for or nothing is left. */
    method Read(buf: array<Byte>, from: nat) returns (n: nat)
      requires Valid() && from <= buf.Length
      modifies this, buf
      ensures Valid()
      ensures n <= buf.Length - from && pos == old(pos) + n
      ensures n == 0 <==> from == buf.Length || old(pos) == |data|
      ensures buf[..from] == old(buf[..from]) && buf[from + n..] == old(buf[from + n..])
      ensures buf[from..from + n] == data[old(pos)..pos]
    {
      var most := if buf.Length - from < |data| - pos then buf.Length - from else |data| - pos;
      if most == 0 {
        n := 0;
      } else {
        n :| 0 < n <= most;
      }
      forall i | from <= i < from + n {
        buf[i] := data[pos + i - from];
      }
      pos := pos + n;
    }

    /** Reads exactly k bytes (io::Read::read_exact): when fewer are left, it
        consumes them all and fails. */
    method ReadExact(k: nat) returns (r: Result<seq<Byte>>)
      requires Valid()
      modifies this
      ensures Valid()
      ensures old(pos) + k <= |data| ==> r == Ok(data[old(pos)..old(pos) + k]) && pos == old(pos) + k
      ensures old(pos) + k > |data| ==> r == Err(IoError) && pos == |data|
    {
      if pos + k <= |data| {
        r := Ok(data[pos..pos + k]);
        pos := pos + k;
      } else {
        r := Err(IoError);
        pos := |data|;
      }
    }
  }
}
