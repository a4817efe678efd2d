/**
 * Buffered readers and writers that translate byte order on the fly
 * (src/stream.rs). A `Reader` refills its buffer from an inner reader and
 * converts each refill from its order to big-endian; a `Writer` collects
 * big-endian bytes and converts each full buffer to its order before passing
 * it on.
 *
 * `convert` is unwrapped on every refill and flush, so every refill count and
 * every flushed length must be a multiple of 4: the model requires this of its
 * callers, and keeps the capacity a multiple of 4.
 */
module Stream {
  import opened Endian
  import opened Wrappers
  import opened Convert
  import opened Channel

  /** A buffer size that keeps 4-byte groups whole. */
  type Capacity = n: nat | n % 4 == 0

  /** The default buffer size, 16 KiB, a multiple of 4 by its type. */
  const BUFFER_SIZE: Capacity := 1024 * 16

  /** Translates the data of `reader` from `endianness` into big-endian. */
  class Reader {
    const buffer: array<byte>
    const endianness: Endianness
    var idx: nat
    var length: nat
    const reader: Source
    /** The position of `reader` when this reader was made. */
    ghost const start: nat
    /** Every byte handed out so far. */
    ghost var delivered: seq<byte>

    /**
     * The bytes consumed from `reader`, converted to big-endian, are the bytes
     * handed out followed by the unread part of the buffer.
     */
    ghost predicate Valid()
      reads this, buffer, reader
    {
      reader.Valid() && start <= reader.pos && buffer.Length % 4 == 0
      && idx <= length <= buffer.Length
      && (reader.pos - start) % 4 == 0
      && Converted(endianness, Big, reader.data[start..reader.pos]) == delivered + buffer[idx..length]
    }

    /** `Reader::with_buffer_size`. */
    constructor WithBufferSize(reader: Source, endianness: Endianness, capacity: Capacity)
      requires reader.Valid()
      ensures Valid() && fresh(buffer) && buffer.Length == capacity
      ensures this.reader == reader && this.endianness == endianness && start == reader.pos
      ensures idx == 0 && length == 0 && delivered == []
    {
      buffer := new byte[capacity](_ => 0);
      this.endianness := endianness;
      idx := 0;
      length := 0;
      this.reader := reader;
      start := reader.pos;
      delivered := [];
    }

    /** `Reader::from`: a reader with the default buffer size. */
    static method From(reader: Source, endianness: Endianness) returns (r: Reader)
      requires reader.Valid()
      ensures fresh(r) && fresh(r.buffer) && r.Valid() && r.buffer.Length == BUFFER_SIZE
      ensures r.reader == reader && r.endianness == endianness && r.start == reader.pos
      ensures r.idx == 0 && r.length == 0 && r.delivered == []
    {
      r := new Reader.WithBufferSize(reader, endianness, BUFFER_SIZE);
    }

    /** `buf_read`: hands out the next `len` buffered bytes. */
    method BufRead(len: nat) returns (data: seq<byte>)
      requires Valid() && idx + len <= length
      modifies this
      ensures Valid() && data == old(buffer[idx..idx + len])
      ensures idx == old(idx) + len && length == old(length)
      ensures delivered == old(delivered) + data
    {
      data := buffer[idx..idx + len];
      assert buffer[idx..length] == data + buffer[idx + len..length];
      idx := idx + len;
      delivered := delivered + data;
    }

    /**
     * `refill`: reads into the whole buffer, converts the bytes read to
     * big-endian and resets the index. The count must be a multiple of 4.
     */
    method Refill() returns (n: nat)
      requires Valid() && idx == length
      requires reader.Grant(buffer.Length) % 4 == 0
      modifies this, buffer, reader
      ensures Valid() && idx == 0 && length == n && delivered == old(delivered)
      ensures n == old(reader.Grant(buffer.Length)) && reader.pos == old(reader.pos) + n
      ensures buffer[..n] == Converted(endianness, Big, old(reader.Rest())[..n])
      ensures old(reader.AlignedReads()) ==> reader.AlignedReads()
    {
      n := Fill();
      idx, length := 0, n;
      ExtendConverted(endianness, Big, reader.data, start, old(reader.pos), reader.pos, delivered,
                      old(reader.Rest())[..n]);
    }

    /** The inner read of `refill` and the conversion of the bytes it returned. */
    method Fill() returns (n: nat)
      requires reader.Valid() && buffer.Length % 4 == 0 && reader.Grant(buffer.Length) % 4 == 0
      modifies buffer, reader
      ensures reader.Valid() && n == old(reader.Grant(buffer.Length)) && reader.pos == old(reader.pos) + n
      ensures old(reader.Rest())[..n] == reader.data[old(reader.pos)..reader.pos]
      ensures buffer[..n] == Converted(endianness, Big, old(reader.Rest())[..n])
      ensures old(reader.AlignedReads()) ==> reader.AlignedReads()
    {
      n := reader.Read(buffer, 0);
      ghost var aligned := reader.AlignedReads();
      assert old(reader.AlignedReads()) ==> aligned;
      ghost var chunk := buffer[..n];
      assert chunk == reader.data[old(reader.pos)..reader.pos] == old(reader.Rest())[..n];
      var status := ConvertPrefix(buffer, n, endianness, Big);
      assert status.Ok?;
      assert reader.AlignedReads() == aligned;
    }

    /** `remaining`: how many converted bytes the buffer still holds. */
    function Remaining(): (r: nat)
      reads this
      requires idx <= length
      ensures idx + r == length
    {
      length - idx
    }

    /**
     * `Read::read` into the slice `buf[from..]`: fills it with the next converted
     * bytes, refilling as often as needed; a short count means the inner reader
     * has ended.
     */
    method Read(buf: array<byte>, from: nat) returns (written: nat)
      requires Valid() && reader.AlignedReads() && buf != buffer && from <= buf.Length
      modifies this, buffer, reader, buf
      ensures Valid() && reader.AlignedReads()
      ensures from + written <= buf.Length && delivered == old(delivered) + buf[from..from + written]
      ensures buf[..] == old(buf[..])[..from] + buf[from..from + written] + old(buf[..])[from + written..]
      ensures from + written < buf.Length ==> idx == length && (reader.pos == |reader.data| || buffer.Length == 0)
    {
      ghost var orig := buf[..];
      ghost var d0 := delivered;
      if Remaining() == 0 {
        var _ := Refill();
      }
      assert buf[..] == orig[..from] + delivered[|d0|..] + orig[from..];
      written := Drain(buf, orig, from, d0);
      Delivered(orig, from, written, d0, delivered, buf[..]);
    }

    /** The loop of `read`: hands out buffered bytes and refills until `buf[from..]` is full or the stream ends. */
    method Drain(buf: array<byte>, ghost orig: seq<byte>, from: nat, ghost d0: seq<byte>) returns (written: nat)
      requires Valid() && reader.AlignedReads() && buf != buffer && from <= buf.Length
      requires Handed(buf[..], orig, from, 0, d0)
      modifies this, buffer, reader, buf
      ensures Valid() && reader.AlignedReads()
      ensures from + written <= buf.Length && Handed(buf[..], orig, from, written, d0)
      ensures from + written < buf.Length ==> idx == length && (reader.pos == |reader.data| || buffer.Length == 0)
    {
      var len := buf.Length - from;
      written := 0;
      while true
        invariant Valid() && reader.AlignedReads()
        invariant written <= len && Handed(buf[..], orig, from, written, d0)
        decreases |reader.data| - reader.pos
      {
        var remaining := Remaining();
        if len - written <= remaining {
          Transfer(buf, orig, from, written, d0, len - written);
          written := len;
          break;
        } else {
          var n := Advance(buf, orig, from, written, d0, remaining);
          written := written + remaining;
          if n == 0 {
            break;
          }
        }
      }
    }

    /** A step of `read` that empties the buffer and refills it; returns the refill's count. */
    method Advance(buf: array<byte>, ghost orig: seq<byte>, from: nat, written: nat, ghost d0: seq<byte>,
                   k: nat) returns (n: nat)
      requires Valid() && reader.AlignedReads() && buf != buffer && idx + k == length
      requires from + written + k <= buf.Length && Handed(buf[..], orig, from, written, d0)
      modifies this, buffer, reader, buf
      ensures Valid() && reader.AlignedReads() && Handed(buf[..], orig, from, written + k, d0)
      ensures old(reader.pos) <= reader.pos && (n > 0 ==> old(reader.pos) < reader.pos)
      ensures n == 0 ==> idx == length && (reader.pos == |reader.data| || buffer.Length == 0)
    {
      Transfer(buf, orig, from, written, d0, k);
      n := Refill();
    }

    /**
     * `buf` is its original contents `orig` with the bytes handed out since
     * `delivered` was `d0` copied in at `from`.
     */
    ghost predicate Handed(buf: seq<byte>, orig: seq<byte>, from: nat, written: nat, d0: seq<byte>)
      reads this
    {
      from + written <= |orig| && |delivered| == |d0| + written && delivered[..|d0|] == d0
      && buf == orig[..from] + delivered[|d0|..] + orig[from + written..]
    }

    /** One step of `read`: `buf_read` of `k` bytes and their copy into `buf` (`buf.write(data)`). */
    method Transfer(buf: array<byte>, ghost orig: seq<byte>, from: nat, written: nat, ghost d0: seq<byte>, k: nat)
      requires Valid() && buf != buffer && idx + k <= length && from + written + k <= buf.Length
      requires Handed(buf[..], orig, from, written, d0)
      modifies this, buf
      ensures Valid() && idx == old(idx) + k && length == old(length)
      ensures Handed(buf[..], orig, from, written + k, d0)
    {
      ghost var got := delivered[|d0|..];
      var data := BufRead(k);
      Deposit(buf, from + written, data);
      DepositStep(orig, from, written, got, d0, delivered, data, buf[..]);
    }
  }

  /** One `Deposit` inside `Read`: the buffer keeps its shape around the bytes handed out so far. */
  lemma DepositStep(orig: seq<byte>, from: nat, written: nat, got: seq<byte>, d0: seq<byte>, d: seq<byte>,
                    data: seq<byte>, after: seq<byte>)
    requires from + written + |data| <= |orig| && |got| == written
    requires |d| == |d0| + written + |data| && d[..|d0|] == d0 && d == d0 + got + data
    requires after == (orig[..from] + got + orig[from + written..])[..from + written] + data
                      + (orig[..from] + got + orig[from + written..])[from + written + |data|..]
    ensures after == orig[..from] + d[|d0|..] + orig[from + written + |data|..]
  {
    assert d[|d0|..] == got + data;
  }

  /** The contract of `Read` from the shape of its buffer. */
  lemma Delivered(orig: seq<byte>, from: nat, written: nat, d0: seq<byte>, d: seq<byte>, after: seq<byte>)
    requires from + written <= |orig| && |d| == |d0| + written && d[..|d0|] == d0
    requires after == orig[..from] + d[|d0|..] + orig[from + written..]
    ensures d == d0 + after[from..from + written]
    ensures after == orig[..from] + after[from..from + written] + orig[from + written..]
  {
    assert d == d[..|d0|] + d[|d0|..];
  }

  /**
   * Converting one more 4-aligned read: the stream consumed up to `mid`
   * converts to `before`, so the stream up to `end` converts to `before` followed
   * by the converted chunk `data[mid..end]`.
   */
  lemma ExtendConverted(a: Endianness, b: Endianness, data: seq<byte>, start: nat, mid: nat, end: nat,
                        before: seq<byte>, chunk: seq<byte>)
    requires start <= mid <= end <= |data| && (mid - start) % 4 == 0
    requires Converted(a, b, data[start..mid]) == before && chunk == data[mid..end]
    ensures Converted(a, b, data[start..end]) == before + Converted(a, b, chunk)
  {
    assert data[start..end] == data[start..mid] + chunk;
    ConvertedAppend(a, b, data[start..mid], chunk);
  }

  /** Converting the bytes accepted so far in two 4-aligned parts: what was sent, then what was pending. */
  lemma AppendConverted(a: Endianness, b: Endianness, accepted: seq<byte>, sent: nat, pending: seq<byte>)
    requires sent <= |accepted| && sent % 4 == 0 && accepted[sent..] == pending
    ensures Converted(a, b, accepted[..sent]) + Converted(a, b, pending) == Converted(a, b, accepted)
  {
    assert accepted == accepted[..sent] + pending;
    ConvertedAppend(a, b, accepted[..sent], pending);
  }

  /** Translates big-endian data into `endianness` before it reaches `writer`. */
  class Writer {
    const buffer: array<byte>
    const endianness: Endianness
    var length: nat
    const writer: Sink
    /** What `writer` held when this writer was made. */
    ghost const base: seq<byte>
    /** Every byte accepted by `Write` so far. */
    ghost var accepted: seq<byte>

    /**
     * `writer` holds its initial contents followed by the accepted bytes, less
     * the ones still buffered, converted to `endianness`.
     */
    ghost predicate Valid()
      reads this, buffer, writer
    {
      0 < buffer.Length && buffer.Length % 4 == 0 && length <= buffer.Length
      && length <= |accepted| && (|accepted| - length) % 4 == 0
      && writer.data == base + Converted(Big, endianness, accepted[..|accepted| - length])
      && buffer[..length] == accepted[|accepted| - length..]
    }

    /** `Writer::with_buffer_size`; an empty buffer would make `write` loop forever. */
    constructor WithBufferSize(writer: Sink, endianness: Endianness, capacity: Capacity)
      requires capacity > 0
      ensures Valid() && fresh(buffer) && buffer.Length == capacity
      ensures this.writer == writer && this.endianness == endianness
      ensures base == writer.data && accepted == [] && length == 0
    {
      buffer := new byte[capacity](_ => 0);
      this.endianness := endianness;
      length := 0;
      this.writer := writer;
      base := writer.data;
      accepted := [];
    }

    /** `Writer::from`: a writer with the default buffer size. */
    static method From(writer: Sink, endianness: Endianness) returns (w: Writer)
      ensures fresh(w) && fresh(w.buffer) && w.Valid() && w.buffer.Length == BUFFER_SIZE
      ensures w.writer == writer && w.endianness == endianness
      ensures w.base == writer.data && w.accepted == [] && w.length == 0
    {
      w := new Writer.WithBufferSize(writer, endianness, BUFFER_SIZE);
    }

    /** `buf_write`: appends bytes that fit to the buffer. */
    method BufWrite(bytes: seq<byte>) returns (n: nat)
      requires Valid() && length + |bytes| <= buffer.Length
      modifies this, buffer
      ensures Valid() && n == |bytes| && length == old(length) + n
      ensures accepted == old(accepted) + bytes
    {
      Deposit(buffer, length, bytes);
      assert buffer[..length + |bytes|] == old(buffer[..length]) + bytes;
      length := length + |bytes|;
      accepted := accepted + bytes;
      assert accepted[..|accepted| - length] == old(accepted[..|accepted| - length]);
      n := |bytes|;
    }

    /**
     * `buf_flush`: converts the buffered bytes from big-endian to `endianness`,
     * writes them all and empties the buffer. The length must be a multiple of 4.
     */
    method BufFlush()
      requires Valid() && length % 4 == 0
      modifies this, buffer, writer
      ensures Valid() && length == 0 && accepted == old(accepted)
      ensures writer.data == base + Converted(Big, endianness, accepted)
      ensures writer.flushed == old(writer.flushed)
    {
      ghost var pending := buffer[..length];
      ghost var sent := |accepted| - length;
      var status := ConvertPrefix(buffer, length, Big, endianness);
      assert status.Ok?;
      var data := buffer[..length];
      assert data == Converted(Big, endianness, pending);
      writer.WriteAll(data);
      length := 0;
      AppendConverted(Big, endianness, accepted, sent, pending);
      assert writer.data == base + Converted(Big, endianness, accepted);
      assert accepted[..|accepted| - length] == accepted;
    }

    /** `remaining`: the free space in the buffer. */
    function Remaining(): (r: nat)
      reads this, buffer
      requires length <= buffer.Length
      ensures length + r == buffer.Length
    {
      buffer.Length - length
    }

    /** `Write::write`: accepts all of `buf`, flushing whenever the buffer fills. */
    method Write(buf: seq<byte>) returns (written: nat)
      requires Valid()
      modifies this, buffer, writer
      ensures Valid() && written == |buf| && accepted == old(accepted) + buf
      ensures writer.flushed == old(writer.flushed)
    {
      var idx := 0;
      written := 0;
      while true
        invariant Valid() && idx <= |buf| && written == idx
        invariant accepted == old(accepted) + buf[..idx]
        invariant writer.flushed == old(writer.flushed)
        decreases |buf| - idx, length
      {
        var remaining := Remaining();
        if remaining >= |buf| - idx {
          var wrote := BufWrite(buf[idx..]);
          written := written + wrote;
          assert buf[..idx] + buf[idx..] == buf;
          break;
        } else {
          var wrote := BufWrite(buf[idx..idx + remaining]);
          BufFlush();
          written := written + wrote;
          assert buf[..idx] + buf[idx..idx + remaining] == buf[..idx + remaining];
          idx := idx + remaining;
        }
      }
    }

    /**
     * `Write::flush`: empties the buffer, then flushes `writer`. The total
     * accepted must be a multiple of 4 for the last conversion to succeed.
     */
    method Flush()
      requires Valid() && |accepted| % 4 == 0
      modifies this, buffer, writer
      ensures Valid() && length == 0 && accepted == old(accepted)
      ensures writer.data == base + Converted(Big, endianness, accepted)
      ensures writer.flushed == |writer.data|
    {
      BufFlush();
      writer.Flush();
    }
  }
}
