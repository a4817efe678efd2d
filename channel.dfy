/**
 * The readers and writers the library is generic over (`T: Read`, `T: Write`),
 * modelled as finite byte streams. A `Source` may answer a `read` with fewer
 * bytes than asked for, as `Read::read` is allowed to; a `Sink` accepts every
 * byte it is given.
 */
module Channel {
  import opened Endian
  import opened Wrappers

  /** A positive bound on the bytes one `read` call delivers. */
  type Limit = n: nat | n > 0 witness 1

  function Min(a: nat, b: nat): nat
  {
    if a <= b then a else b
  }

  /** A `Read` implementation over the bytes `data`. */
  class Source {
    /** Everything the stream delivers before its end. */
    const data: seq<byte>
    /** How many bytes of `data` have been read. */
    var pos: nat
    /** The k-th of the next calls to `read` delivers at most `limits[k]` bytes; later calls are unlimited. */
    var limits: seq<Limit>

    predicate Valid()
      reads this
    {
      pos <= |data|
    }

    /** The bytes not read yet. */
    function Rest(): seq<byte>
      reads this
      requires Valid()
    {
      data[pos..]
    }

    /** The number of bytes the next `read` into `room` free bytes delivers. */
    function Grant(room: nat): (n: nat)
      reads this
      requires Valid()
      ensures n <= room && n <= |data| - pos
      ensures n == 0 <==> room == 0 || pos == |data|
    {
      var n := Min(room, |data| - pos);
      if limits == [] then n else Min(n, limits[0])
    }

    /** Every count this stream can still return is a multiple of 4 when the room asked for is. */
    predicate AlignedReads()
      reads this
      requires Valid()
    {
      (|data| - pos) % 4 == 0 && AlignedLimits(limits)
    }

    /** Under `AlignedReads`, a read into 4-aligned room returns a 4-aligned count and leaves aligned limits. */
    lemma AlignedGrant(room: nat)
      requires Valid() && AlignedReads() && room % 4 == 0
      ensures Grant(room) % 4 == 0 && (|data| - pos - Grant(room)) % 4 == 0
      ensures limits != [] ==> AlignedLimits(limits[1..])
    {
      if limits != [] {
        assert limits[0] as int % 4 == 0;
        forall k | 0 <= k < |limits| - 1
          ensures limits[1..][k] as int % 4 == 0
        {
          assert limits[1..][k] == limits[k + 1];
        }
      }
    }

    constructor (data: seq<byte>, limits: seq<Limit>)
      ensures Valid() && this.data == data && pos == 0 && this.limits == limits
    {
      this.data := data;
      pos := 0;
      this.limits := limits;
    }

    /** `Read::read` into `buf[from..]`: copies the next `Grant` bytes and returns how many. */
    method Read(buf: array<byte>, from: nat) returns (n: nat)
      requires Valid() && from <= buf.Length
      modifies this, buf
      ensures Valid()
      ensures n == old(Grant(buf.Length - from)) && pos == old(pos) + n
      ensures limits == if old(limits) == [] then [] else old(limits[1..])
      ensures buf[..] == old(buf[..from]) + data[old(pos)..pos] + old(buf[from + n..])
      ensures old(AlignedReads()) && (buf.Length - from) % 4 == 0 ==> AlignedReads() && n % 4 == 0
    {
      n := Grant(buf.Length - from);
      if AlignedReads() && (buf.Length - from) % 4 == 0 {
        AlignedGrant(buf.Length - from);
      }
      Deposit(buf, from, data[pos..pos + n]);
      pos := pos + n;
      if limits != [] {
        limits := limits[1..];
      }
    }

    /** One `read` of the `read_exact` loop, extending the filled prefix `buf[..filled]`. */
    method ReadMore(buf: array<byte>, filled: nat, ghost start: nat) returns (n: nat)
      requires Valid() && filled < buf.Length && pos == start + filled
      requires buf[..filled] == data[start..pos]
      modifies this, buf
      ensures Valid() && pos == old(pos) + n && filled + n <= buf.Length
      ensures buf[..filled + n] == data[start..pos]
      ensures n == 0 ==> pos == |data|
      ensures old(AlignedReads()) && (buf.Length - filled) % 4 == 0 ==> AlignedReads() && (buf.Length - filled - n) % 4 == 0
    {
      ghost var before := buf[..];
      n := Read(buf, filled);
      Filled(data, start, old(pos), pos, before, buf[..], filled, n);
    }

    /**
     * `Read::read_exact` with a buffer of `len` bytes: calls `Read` until the
     * buffer is full, and fails with `UnexpectedEof` when the stream ends first.
     */
    method ReadExact(len: nat) returns (r: Result<seq<byte>, IoError>)
      requires Valid()
      modifies this
      ensures Valid()
      ensures old(|Rest()|) >= len ==> r == Ok(old(Rest())[..len]) && pos == old(pos) + len
      ensures old(|Rest()|) < len ==> r == Err(UnexpectedEof) && pos == |data|
      ensures old(AlignedReads()) && len % 4 == 0 ==> AlignedReads()
    {
      var buf := new byte[len](_ => 0);
      var filled := 0;
      var eof := false;
      ghost var aligned := AlignedReads() && len % 4 == 0;
      while filled < len && !eof
        invariant Valid() && filled <= len == buf.Length
        invariant pos == old(pos) + filled
        invariant buf[..filled] == data[old(pos)..pos]
        invariant eof ==> filled < len && pos == |data|
        invariant aligned ==> AlignedReads() && (len - filled) % 4 == 0
        decreases len - filled, !eof
      {
        var n := ReadMore(buf, filled, old(pos));
        if n == 0 {
          eof := true;
        } else {
          filled := filled + n;
        }
      }
      if filled < len {
        r := Err(UnexpectedEof);
      } else {
        assert buf[..] == buf[..filled];
        assert data[old(pos)..pos] == old(Rest())[..len];
        r := Ok(buf[..]);
      }
    }
  }

  /** Every per-call bound in `ls` is a multiple of 4. */
  predicate AlignedLimits(ls: seq<Limit>)
  {
    forall k :: 0 <= k < |ls| ==> ls[k] as int % 4 == 0
  }

  /** One `read` of `read_exact` extends the filled prefix of the buffer by the bytes it copied. */
  lemma Filled(data: seq<byte>, start: nat, mid: nat, end: nat, before: seq<byte>, after: seq<byte>,
               filled: nat, n: nat)
    requires start <= mid && mid + n == end <= |data| && filled + n <= |before|
    requires before[..filled] == data[start..mid]
    requires after == before[..filled] + data[mid..end] + before[filled + n..]
    ensures after[..filled + n] == data[start..end]
  {
    assert data[start..end] == data[start..mid] + data[mid..end];
  }

  /** `<&mut [u8] as Write>::write` of bytes that fit: copies `data` into `buf` at `at`. */
  method Deposit(buf: array<byte>, at: nat, data: seq<byte>)
    requires at + |data| <= buf.Length
    modifies buf
    ensures buf[..] == old(buf[..at]) + data + old(buf[at + |data|..])
  {
    ghost var before := buf[..];
    forall k | 0 <= k < |data| {
      buf[at + k] := data[k];
    }
    assert buf[..] == before[..at] + data + before[at + |data|..];
  }

  /** A `Write` implementation that keeps every byte written to it. */
  class Sink {
    /** Everything written so far. */
    var data: seq<byte>
    /** How many bytes of `data` the last `flush` pushed through. */
    var flushed: nat

    constructor ()
      ensures data == [] && flushed == 0
    {
      data := [];
      flushed := 0;
    }

    /** `Write::write_all`. */
    method WriteAll(bytes: seq<byte>)
      modifies this
      ensures data == old(data) + bytes && flushed == old(flushed)
    {
      data := data + bytes;
    }

    /** `Write::flush`. */
    method Flush()
      modifies this
      ensures data == old(data) && flushed == |data|
    {
      flushed := |data|;
    }
  }
}
