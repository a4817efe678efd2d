/**
 * The older fixed-capacity order-translating reader and writer (src/io.rs),
 * which `Rom` reads and writes through. They work like the ones in `Stream`
 * but always have a 16 KiB buffer, and `buf_flush` converts from the writer's
 * order to big-endian, which is the same permutation as big-endian to that
 * order (`ConvertedSymmetric`).
 *
 * `Reader` also carries the two provided methods of `std::io::Read` that
 * `Rom` calls on it, `read_exact` and `read_to_end`.
 */
module Io {
  import opened Endian
  import opened Wrappers
  import opened Convert
  import opened Channel
  import Stream

  /** The fixed buffer size, 16 KiB, a multiple of 4 by its type. */
  const BUFFER_SIZE: Stream.Capacity := 1024 * 16

  /** Translates the data of `reader` from `endianness` into big-endian. */
  class Reader {
    const buffer: array<byte>
    const endianness: Endianness
    var idx: nat
    var length: nat
    const reader: Source
    /** The position of `reader` when this reader was made. */
    ghost const start: nat
    /** Every byte handed out so far. */
    ghost var delivered: seq<byte>

    /**
     * The bytes consumed from `reader`, converted to big-endian, are the bytes
     * handed out followed by the unread part of the buffer.
     */
    ghost predicate Valid()
      reads this, buffer, reader
    {
      reader.Valid() && start <= reader.pos && 0 < buffer.Length && buffer.Length % 4 == 0
      && idx <= length <= buffer.Length
      && (reader.pos - start) % 4 == 0
      && Converted(endianness, Big, reader.data[start..reader.pos]) == delivered + buffer[idx..length]
    }

    /** Everything this reader can hand out: the rest of the inner stream, converted to big-endian. */
    ghost function Whole(): seq<byte>
      requires start <= |reader.data|
    {
      Converted(endianness, Big, reader.data[start..])
    }

    /** What has been handed out, and what is buffered, is a prefix of `Whole`. */
    lemma DeliveredPrefix()
      requires Valid()
      ensures |delivered| + (length - idx) <= |Whole()|
      ensures Whole()[..|delivered|] == delivered
    {
      var consumed := reader.data[start..reader.pos];
      assert reader.data[start..] == consumed + reader.data[reader.pos..];
      ConvertedAppend(endianness, Big, consumed, reader.data[reader.pos..]);
      assert Whole()[..|consumed|] == delivered + buffer[idx..length];
    }

    /** `Reader::from`. */
    constructor From(reader: Source, endianness: Endianness)
      requires reader.Valid()
      ensures Valid() && fresh(buffer) && buffer.Length == BUFFER_SIZE
      ensures this.reader == reader && this.endianness == endianness && start == reader.pos
      ensures idx == 0 && length == 0 && delivered == []
    {
      buffer := new byte[BUFFER_SIZE](_ => 0);
      this.endianness := endianness;
      idx := 0;
      length := 0;
      this.reader := reader;
      start := reader.pos;
      delivered := [];
    }

    /** `buf_read`: hands out the next `len` buffered bytes. */
    method BufRead(len: nat) returns (data: seq<byte>)
      requires Valid() && idx + len <= length
      modifies this
      ensures Valid() && data == old(buffer[idx..idx + len])
      ensures idx == old(idx) + len && length == old(length)
      ensures delivered == old(delivered) + data
    {
      data := buffer[idx..idx + len];
      assert buffer[idx..length] == data + buffer[idx + len..length];
      idx := idx + len;
      delivered := delivered + data;
    }

    /**
     * `refill`: reads into the whole buffer, converts the bytes read to
     * big-endian and resets the index. The count must be a multiple of 4.
     */
    method Refill() returns (n: nat)
      requires Valid() && idx == length
      requires reader.Grant(buffer.Length) % 4 == 0
      modifies this, buffer, reader
      ensures Valid() && idx == 0 && length == n && delivered == old(delivered)
      ensures n == old(reader.Grant(buffer.Length)) && reader.pos == old(reader.pos) + n
      ensures buffer[..n] == Converted(endianness, Big, old(reader.Rest())[..n])
      ensures old(reader.AlignedReads()) ==> reader.AlignedReads()
    {
      n := Fill();
      idx, length := 0, n;
      Stream.ExtendConverted(endianness, Big, reader.data, start, old(reader.pos), reader.pos, delivered,
                             old(reader.Rest())[..n]);
    }

    /** The inner read of `refill` and the conversion of the bytes it returned. */
    method Fill() returns (n: nat)
      requires reader.Valid() && buffer.Length % 4 == 0 && reader.Grant(buffer.Length) % 4 == 0
      modifies buffer, reader
      ensures reader.Valid() && n == old(reader.Grant(buffer.Length)) && reader.pos == old(reader.pos) + n
      ensures old(reader.Rest())[..n] == reader.data[old(reader.pos)..reader.pos]
      ensures buffer[..n] == Converted(endianness, Big, old(reader.Rest())[..n])
      ensures old(reader.AlignedReads()) ==> reader.AlignedReads()
    {
      n := reader.Read(buffer, 0);
      ghost var aligned := reader.AlignedReads();
      assert old(reader.AlignedReads()) ==> aligned;
      ghost var chunk := buffer[..n];
      assert chunk == reader.data[old(reader.pos)..reader.pos] == old(reader.Rest())[..n];
      var status := ConvertPrefix(buffer, n, endianness, Big);
      assert status.Ok?;
      assert reader.AlignedReads() == aligned;
    }

    /** `remaining`: how many converted bytes the buffer still holds. */
    function Remaining(): (r: nat)
      reads this
      requires idx <= length
      ensures idx + r == length
    {
      length - idx
    }

    /** The `Remaining` buffered bytes are the next converted bytes of the stream after those handed out. */
    lemma RemainingBuffered()
      requires Valid()
      ensures |delivered| + Remaining() <= |Whole()|
      ensures Whole()[|delivered|..|delivered| + Remaining()] == buffer[idx..length]
    {
      var consumed := reader.data[start..reader.pos];
      assert reader.data[start..] == consumed + reader.data[reader.pos..];
      ConvertedAppend(endianness, Big, consumed, reader.data[reader.pos..]);
      assert Whole()[..|consumed|] == delivered + buffer[idx..length];
    }

    /**
     * `Read::read` into the slice `buf[from..]`: fills it with the next converted
     * bytes, refilling as often as needed. The count is short only when the
     * inner reader has ended, and then everything has been handed out.
     */
    method Read(buf: array<byte>, from: nat) returns (written: nat)
      requires Valid() && reader.AlignedReads() && buf != buffer && from <= buf.Length
      modifies this, buffer, reader, buf
      ensures Valid() && reader.AlignedReads()
      ensures from + written <= buf.Length && delivered == old(delivered) + buf[from..from + written]
      ensures buf[..] == old(buf[..])[..from] + buf[from..from + written] + old(buf[..])[from + written..]
      ensures from + written < buf.Length ==> idx == length && delivered == Whole()
    {
      ghost var orig := buf[..];
      ghost var d0 := delivered;
      if Remaining() == 0 {
        var _ := Refill();
      }
      assert buf[..] == orig[..from] + delivered[|d0|..] + orig[from..];
      written := Drain(buf, orig, from, d0);
      Stream.Delivered(orig, from, written, d0, delivered, buf[..]);
      if from + written < buf.Length {
        assert reader.data[start..reader.pos] == reader.data[start..];
      }
    }

    /** The loop of `read`: hands out buffered bytes and refills until `buf[from..]` is full or the stream ends. */
    method Drain(buf: array<byte>, ghost orig: seq<byte>, from: nat, ghost d0: seq<byte>) returns (written: nat)
      requires Valid() && reader.AlignedReads() && buf != buffer && from <= buf.Length
      requires Handed(buf[..], orig, from, 0, d0)
      modifies this, buffer, reader, buf
      ensures Valid() && reader.AlignedReads()
      ensures from + written <= buf.Length && Handed(buf[..], orig, from, written, d0)
      ensures from + written < buf.Length ==> idx == length && reader.pos == |reader.data|
    {
      var len := buf.Length - from;
      written := 0;
      while true
        invariant Valid() && reader.AlignedReads()
        invariant written <= len && Handed(buf[..], orig, from, written, d0)
        decreases |reader.data| - reader.pos
      {
        var remaining := Remaining();
        if len - written <= remaining {
          Transfer(buf, orig, from, written, d0, len - written);
          written := len;
          break;
        } else {
          var n := Advance(buf, orig, from, written, d0, remaining);
          written := written + remaining;
          if n == 0 {
            break;
          }
        }
      }
    }

    /** A step of `read` that empties the buffer and refills it; returns the refill's count. */
    method Advance(buf: array<byte>, ghost orig: seq<byte>, from: nat, written: nat, ghost d0: seq<byte>,
                   k: nat) returns (n: nat)
      requires Valid() && reader.AlignedReads() && buf != buffer && idx + k == length
      requires from + written + k <= buf.Length && Handed(buf[..], orig, from, written, d0)
      modifies this, buffer, reader, buf
      ensures Valid() && reader.AlignedReads() && Handed(buf[..], orig, from, written + k, d0)
      ensures old(reader.pos) <= reader.pos && (n > 0 ==> old(reader.pos) < reader.pos)
      ensures n == 0 ==> idx == length && reader.pos == |reader.data|
    {
      Transfer(buf, orig, from, written, d0, k);
      n := Refill();
    }

    /**
     * `buf` is its original contents `orig` with the bytes handed out since
     * `delivered` was `d0` copied in at `from`.
     */
    ghost predicate Handed(buf: seq<byte>, orig: seq<byte>, from: nat, written: nat, d0: seq<byte>)
      reads this
    {
      from + written <= |orig| && |delivered| == |d0| + written && delivered[..|d0|] == d0
      && buf == orig[..from] + delivered[|d0|..] + orig[from + written..]
    }

    /** One step of `read`: `buf_read` of `k` bytes and their copy into `buf` (`buf.write(data)`). */
    method Transfer(buf: array<byte>, ghost orig: seq<byte>, from: nat, written: nat, ghost d0: seq<byte>, k: nat)
      requires Valid() && buf != buffer && idx + k <= length && from + written + k <= buf.Length
      requires Handed(buf[..], orig, from, written, d0)
      modifies this, buf
      ensures Valid() && idx == old(idx) + k && length == old(length)
      ensures Handed(buf[..], orig, from, written + k, d0)
    {
      ghost var got := delivered[|d0|..];
      var data := BufRead(k);
      Deposit(buf, from + written, data);
      Stream.DepositStep(orig, from, written, got, d0, delivered, data, buf[..]);
    }

    /**
     * `Read::read_exact` into a buffer of `len` bytes: calls `Read` until the
     * buffer is full; fails with `UnexpectedEof` exactly when fewer than `len`
     * bytes were left to hand out.
     */
    method ReadExact(len: nat) returns (r: Result<seq<byte>, IoError>)
      requires Valid() && reader.AlignedReads()
      modifies this, buffer, reader
      ensures Valid() && reader.AlignedReads()
      ensures old(|delivered|) + len <= |Whole()| ==> r == Ok(Whole()[old(|delivered|)..old(|delivered|) + len])
      ensures old(|delivered|) + len > |Whole()| ==> r == Err(UnexpectedEof)
      ensures r.Ok? ==> delivered == old(delivered) + r.value
      ensures r.Err? ==> delivered == Whole()
    {
      var buf := new byte[len](_ => 0);
      var filled := 0;
      var eof := false;
      while filled < len && !eof
        invariant Valid() && reader.AlignedReads() && filled <= len
        invariant delivered == old(delivered) + buf[..filled]
        invariant eof ==> filled < len && delivered == Whole()
        decreases len - filled, !eof
      {
        ghost var before := buf[..];
        var n := Read(buf, filled);
        assert buf[..filled] == before[..filled];
        if n == 0 {
          eof := true;
        } else {
          assert buf[..filled + n] == buf[..filled] + buf[filled..filled + n];
          filled := filled + n;
        }
      }
      DeliveredPrefix();
      if filled < len {
        r := Err(UnexpectedEof);
      } else {
        assert buf[..] == buf[..filled];
        r := Ok(buf[..]);
      }
    }

    /**
     * `Read::read_to_end`: reads until `Read` returns 0 and returns the bytes
     * read, which are everything left to hand out.
     */
    method ReadToEnd() returns (bytes: seq<byte>)
      requires Valid() && reader.AlignedReads()
      modifies this, buffer, reader
      ensures Valid() && reader.AlignedReads()
      ensures delivered == old(delivered) + bytes && delivered == Whole()
    {
      var probe := new byte[BUFFER_SIZE](_ => 0);
      bytes := [];
      DeliveredPrefix();
      while true
        invariant Valid() && reader.AlignedReads() && |delivered| <= |Whole()|
        invariant delivered == old(delivered) + bytes
        decreases |Whole()| - |delivered|
      {
        var chunk := ReadChunk(probe);
        if chunk == [] {
          break;
        }
        bytes := bytes + chunk;
      }
    }

    /** One `read` of `read_to_end` into the spare room `probe`; an empty chunk means the end. */
    method ReadChunk(probe: array<byte>) returns (chunk: seq<byte>)
      requires Valid() && reader.AlignedReads() && probe != buffer && 0 < probe.Length
      modifies this, buffer, reader, probe
      ensures Valid() && reader.AlignedReads()
      ensures delivered == old(delivered) + chunk && |delivered| <= |Whole()|
      ensures chunk == [] ==> delivered == Whole()
    {
      var n := Read(probe, 0);
      chunk := probe[..n];
      DeliveredPrefix();
    }
  }

  /** Translates big-endian data into `endianness` before it reaches `writer`. */
  class Writer {
    const buffer: array<byte>
    const endianness: Endianness
    var length: nat
    const writer: Sink
    /** What `writer` held when this writer was made. */
    ghost const base: seq<byte>
    /** Every byte accepted by `Write` so far. */
    ghost var accepted: seq<byte>

    /**
     * The buffer has the fixed size, and `writer` holds its initial contents
     * followed by the accepted bytes, less the ones still buffered, converted
     * to `endianness`.
     */
    ghost predicate Valid()
      reads this, buffer, writer
    {
      buffer.Length == BUFFER_SIZE && length <= buffer.Length
      && length <= |accepted| && (|accepted| - length) % 4 == 0
      && writer.data == base + Converted(Big, endianness, accepted[..|accepted| - length])
      && buffer[..length] == accepted[|accepted| - length..]
    }

    /** `Writer::from`. */
    constructor From(writer: Sink, endianness: Endianness)
      ensures Valid() && fresh(buffer)
      ensures this.writer == writer && this.endianness == endianness
      ensures base == writer.data && accepted == [] && length == 0
    {
      buffer := new byte[BUFFER_SIZE](_ => 0);
      this.endianness := endianness;
      length := 0;
      this.writer := writer;
      base := writer.data;
      accepted := [];
    }

    /** `buf_write`: appends bytes that fit to the buffer. */
    method BufWrite(bytes: seq<byte>) returns (n: nat)
      requires Valid() && length + |bytes| <= buffer.Length
      modifies this, buffer
      ensures Valid() && n == |bytes| && length == old(length) + n
      ensures accepted == old(accepted) + bytes
    {
      Deposit(buffer, length, bytes);
      assert buffer[..length + |bytes|] == old(buffer[..length]) + bytes;
      length := length + |bytes|;
      accepted := accepted + bytes;
      assert accepted[..|accepted| - length] == old(accepted[..|accepted| - length]);
      n := |bytes|;
    }

    /**
     * `buf_flush`: converts the buffered bytes from `endianness` to big-endian,
     * writes them all and empties the buffer. The length must be a multiple of 4.
     */
    method BufFlush()
      requires Valid() && length % 4 == 0
      modifies this, buffer, writer
      ensures Valid() && length == 0 && accepted == old(accepted)
      ensures writer.data == base + Converted(Big, endianness, accepted)
      ensures writer.flushed == old(writer.flushed)
    {
      ghost var pending := buffer[..length];
      ghost var sent := |accepted| - length;
      var status := ConvertPrefix(buffer, length, endianness, Big);
      assert status.Ok?;
      var data := buffer[..length];
      ConvertedSymmetric(endianness, Big, pending);
      assert data == Converted(Big, endianness, pending);
      writer.WriteAll(data);
      length := 0;
      Stream.AppendConverted(Big, endianness, accepted, sent, pending);
      assert writer.data == base + Converted(Big, endianness, accepted);
      assert accepted[..|accepted| - length] == accepted;
    }

    /** `remaining`: the free space in the buffer. */
    function Remaining(): (r: nat)
      reads this, buffer
      requires length <= buffer.Length
      ensures length + r == buffer.Length
    {
      buffer.Length - length
    }

    /** `Write::write`: accepts all of `buf`, flushing whenever the buffer fills. */
    method Write(buf: seq<byte>) returns (written: nat)
      requires Valid()
      modifies this, buffer, writer
      ensures Valid() && written == |buf| && accepted == old(accepted) + buf
      ensures writer.flushed == old(writer.flushed)
    {
      var idx := 0;
      written := 0;
      while true
        invariant Valid() && idx <= |buf| && written == idx
        invariant accepted == old(accepted) + buf[..idx]
        invariant writer.flushed == old(writer.flushed)
        decreases |buf| - idx, length
      {
        var remaining := Remaining();
        if remaining >= |buf| - idx {
          var wrote := BufWrite(buf[idx..]);
          written := written + wrote;
          assert buf[..idx] + buf[idx..] == buf;
          break;
        } else {
          var wrote := BufWrite(buf[idx..idx + remaining]);
          BufFlush();
          written := written + wrote;
          assert buf[..idx] + buf[idx..idx + remaining] == buf[..idx + remaining];
          idx := idx + remaining;
        }
      }
    }

    /**
     * `Write::flush`: empties the buffer, then flushes `writer`. The total
     * accepted must be a multiple of 4 for the last conversion to succeed.
     */
    method Flush()
      requires Valid() && |accepted| % 4 == 0
      modifies this, buffer, writer
      ensures Valid() && length == 0 && accepted == old(accepted)
      ensures writer.data == base + Converted(Big, endianness, accepted)
      ensures writer.flushed == |writer.data|
    {
      BufFlush();
      writer.Flush();
    }
  }
}
