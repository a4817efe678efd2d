/**
 * A whole ROM (src/rom.rs): its parsed header, its boot loader, the full image
 * and the byte order the image was read in. `Rom` reads an image through an
 * order-translating `Io.Reader`, writes one back through an `Io.Writer`, and
 * checks and corrects the two header checksums.
 */
module Rom {
  import opened Endian
  import opened Wrappers
  import opened Convert
  import opened Channel
  import Header
  import Ipl3
  import Io

  /** The header and the boot loader together; the program data starts at this offset. */
  const HEAD_SIZE: nat := Header.HEADER_SIZE + Ipl3.IPL_SIZE

  datatype RomError =
    | IOError(io: IoError)
    | HeaderError(header: Header.Error)
    | UnsupportedEndianness(order: Endianness)

  /** `header` with its checksum pair replaced by `crcs`: what `correct_crc` writes. */
  function Corrected(header: Header.Header, crcs: (word, word)): (h: Header.Header)
    ensures Header.Crcs(h) == crcs
    ensures Header.Crcs(header) == crcs ==> h == header
  {
    header.(crc1 := crcs.0, crc2 := crcs.1)
  }

  /** Converting the first `k` bytes, `k` a multiple of 4, is the first `k` bytes of the conversion. */
  lemma ConvertedTake(a: Endianness, b: Endianness, s: seq<byte>, k: nat)
    requires k <= |s| && k % 4 == 0
    ensures Converted(a, b, s)[..k] == Converted(a, b, s[..k])
  {
    assert s == s[..k] + s[k..];
    ConvertedAppend(a, b, s[..k], s[k..]);
  }

  class Rom {
    var header: Header.Header
    const ipl3: Ipl3.IPL3
    /** The full image, header and boot loader included. */
    const image: array<byte>
    /** The byte order of the file the ROM came from. */
    const order: Endianness

    /** `Rom::from`. */
    constructor From(header: Header.Header, ipl3: Ipl3.IPL3, image: array<byte>, order: Endianness)
      ensures this.header == header && this.ipl3 == ipl3 && this.image == image && this.order == order
    {
      this.header := header;
      this.ipl3 := ipl3;
      this.image := image;
      this.order := order;
    }

    /** `len`: the size of the whole image. */
    function Len(): (n: nat)
      ensures n == image.Length
    {
      image.Length
    }

    /** The checksum pair of the program data after the header and the boot loader, with no file system. */
    ghost function Computed(): (word, word)
      reads image
      requires image.Length >= HEAD_SIZE
    {
      Ipl3.Checksums(ipl3, image[HEAD_SIZE..], [])
    }

    /** The header's stored checksums are the computed ones. */
    ghost predicate CrcMatches()
      reads this, image
      requires image.Length >= HEAD_SIZE
    {
      Header.Crcs(header) == Computed()
    }

    /** `check_crc`: whether the stored pair is the computed pair, and the computed pair. */
    method CheckCrc() returns (result: bool, computed: (word, word))
      requires image.Length >= HEAD_SIZE
      ensures computed == Ipl3.Checksums(ipl3, image[HEAD_SIZE..], [])
      ensures result <==> Header.Crcs(header) == computed
    {
      var calc1, calc2 := Ipl3.ComputeCrcs(ipl3, image[HEAD_SIZE..], []);
      computed := (calc1, calc2);
      result := Header.Crcs(header) == computed;
    }

    /**
     * `correct_crc`: reports whether the stored pair was already correct, and
     * otherwise stores the computed pair. Afterwards the pair always matches.
     */
    method CorrectCrc() returns (result: bool)
      requires image.Length >= HEAD_SIZE
      modifies this
      ensures result == old(CrcMatches()) && CrcMatches()
      ensures header == Corrected(old(header), Computed())
      ensures result ==> header == old(header)
    {
      var computed: (word, word);
      result, computed := CheckCrc();
      if !result {
        header := header.(crc1 := computed.0, crc2 := computed.1);
      }
    }

    /**
     * `Rom::from_image`: parses the header and the boot loader from the start
     * of an image that must already be big-endian, and keeps the image as it is.
     */
    static method FromImage(image: array<byte>, crc32: seq<byte> -> word) returns (r: Result<Rom, RomError>)
      requires image.Length >= HEAD_SIZE
      ensures Header.Ordered(image[..HEAD_SIZE]).Err? ==>
        r == Err(HeaderError(Header.Ordered(image[..HEAD_SIZE]).error))
      ensures Header.Ordered(image[..HEAD_SIZE]).Ok? && Header.Ordered(image[..HEAD_SIZE]).value.1 != Big ==>
        r == Err(UnsupportedEndianness(Header.Ordered(image[..HEAD_SIZE]).value.1))
      ensures Header.Ordered(image[..HEAD_SIZE]).Ok? && Header.Ordered(image[..HEAD_SIZE]).value.1 == Big ==>
        r.Ok? && Header.Ordered(image[..HEAD_SIZE]) == Ok((r.value.header, Big))
      ensures r.Ok? ==> fresh(r.value) && r.value.image == image && r.value.order == Big
      ensures r.Ok? ==> r.value.ipl3 == Ipl3.Read(image[Header.HEADER_SIZE..HEAD_SIZE], crc32).value
    {
      ghost var head := image[..HEAD_SIZE];
      var src := new Source(image[..HEAD_SIZE], []);
      var ordered := Header.ReadOrdered(src);
      if ordered.Err? {
        return Err(HeaderError(ordered.error));
      }
      var (header, order) := ordered.value;
      if order != Big {
        return Err(UnsupportedEndianness(order));
      }
      assert src.Rest() == head[Header.HEADER_SIZE..];
      BootOfHead(head);
      assert head[Header.HEADER_SIZE..HEAD_SIZE] == image[Header.HEADER_SIZE..HEAD_SIZE];
      // The head holds the whole boot loader, so this read cannot fail.
      var bytes := src.ReadExact(Ipl3.IPL_SIZE);
      assert bytes == Ok(image[Header.HEADER_SIZE..HEAD_SIZE]);
      var ipl3 := Ipl3.Read(bytes.value, crc32);
      var rom := new Rom.From(header, ipl3.value, image, order);
      return Ok(rom);
    }

    /** `Rom::read`: `ReadWithBody` that also reads the program data. */
    static method Read(src: Source, crc32: seq<byte> -> word) returns (r: Result<Rom, Header.Error>)
      requires src.Valid() && src.AlignedReads()
      modifies src
      ensures var input := old(src.Rest());
        r.Ok? ==> Header.Ordered(input) == Ok((r.value.header, r.value.order))
                  && |input| >= HEAD_SIZE && r.value.image[..] == Converted(r.value.order, Big, input)
      ensures var input := old(src.Rest()); r.Err? <==> Header.Ordered(input).Err? || |input| < HEAD_SIZE
    {
      r := ReadWithBody(src, true, crc32);
    }

    /**
     * `Rom::read_with_body`: reads the header and learns the byte order from
     * it, then reads the boot loader, and the rest of the stream when `readBody`
     * is set, through a reader that converts that order to big-endian. The image
     * is the whole input read, converted to big-endian.
     */
    static method ReadWithBody(src: Source, readBody: bool, crc32: seq<byte> -> word)
      returns (r: Result<Rom, Header.Error>)
      requires src.Valid() && src.AlignedReads()
      modifies src
      ensures var input := old(src.Rest());
        Header.Ordered(input).Err? ==> r == Err(Header.Ordered(input).error)
      ensures var input := old(src.Rest());
        Header.Ordered(input).Ok? && |input| < HEAD_SIZE ==> r == Err(Header.IOError(UnexpectedEof))
      ensures var input := old(src.Rest());
        r.Ok? <==> Header.Ordered(input).Ok? && |input| >= HEAD_SIZE
      ensures var input := old(src.Rest());
        r.Ok? ==> Header.Ordered(input) == Ok((r.value.header, r.value.order))
      ensures var input := old(src.Rest());
        r.Ok? ==> fresh(r.value) && fresh(r.value.image)
                  && r.value.image[..] == Converted(r.value.order, Big, if readBody then input else input[..HEAD_SIZE])
      ensures var input := old(src.Rest());
        r.Ok? ==> r.value.ipl3 == Ipl3.Read(Converted(r.value.order, Big, input[Header.HEADER_SIZE..HEAD_SIZE]), crc32).value
    {
      ghost var input := src.Rest();
      Header.OrderedParses(input);
      var ordered := Header.ReadOrdered(src);
      if ordered.Err? {
        return Err(ordered.error);
      }
      var (header, order) := ordered.value;
      assert src.Rest() == input[Header.HEADER_SIZE..];
      r := ReadBody(src, header, order, readBody, crc32);
      if r.Ok? {
        BootOfHead(input);
        if readBody {
          FullImage(order, input, Header.Write(header));
        } else {
          HeadImage(order, input, Header.Write(header));
        }
      }
    }

    /**
     * The part of `read_with_body` after the header: reads the boot loader, and
     * the rest of `src` when `readBody` is set, through a reader converting
     * `order` to big-endian, and assembles the ROM.
     */
    static method ReadBody(src: Source, header: Header.Header, order: Endianness, readBody: bool,
                           crc32: seq<byte> -> word)
      returns (r: Result<Rom, Header.Error>)
      requires src.Valid() && src.AlignedReads()
      modifies src
      ensures var rest := old(src.Rest()); r.Err? <==> |rest| < Ipl3.IPL_SIZE
      ensures r.Err? ==> r.error == Header.IOError(UnexpectedEof)
      ensures var rest := old(src.Rest());
        r.Ok? ==> fresh(r.value) && fresh(r.value.image)
                  && r.value.header == header && r.value.order == order
                  && r.value.image[..] == Header.Write(header)
                                          + Converted(order, Big, if readBody then rest else rest[..Ipl3.IPL_SIZE])
      ensures var rest := old(src.Rest());
        r.Ok? ==> r.value.ipl3 == Ipl3.Read(Converted(order, Big, rest[..Ipl3.IPL_SIZE]), crc32).value
    {
      ghost var rest := src.Rest();
      var reader := new Io.Reader.From(src, order);
      ghost var whole := reader.Whole();
      assert whole == Converted(order, Big, rest);
      var ipl3 := ReadIpl3(reader, crc32);
      if ipl3.Err? {
        return Err(Header.IOError(ipl3.error));
      }
      var image := ReadImage(reader, header, ipl3.value, readBody);
      Assembled(order, rest, whole, Header.Write(header), Ipl3.GetIpl(ipl3.value), readBody, image[..]);
      var rom := new Rom.From(header, ipl3.value, image, order);
      return Ok(rom);
    }

    /** `IPL3::read` through the translating reader: `read_exact` of the boot loader's 4032 bytes. */
    static method ReadIpl3(reader: Io.Reader, crc32: seq<byte> -> word) returns (r: Result<Ipl3.IPL3, IoError>)
      requires reader.Valid() && reader.reader.AlignedReads() && reader.delivered == []
      modifies reader, reader.buffer, reader.reader
      ensures reader.Valid() && reader.reader.AlignedReads()
      ensures r.Err? <==> |reader.Whole()| < Ipl3.IPL_SIZE
      ensures r.Err? ==> r.error == UnexpectedEof
      ensures r.Ok? ==> r == Ipl3.Read(reader.Whole()[..Ipl3.IPL_SIZE], crc32)
                        && reader.delivered == Ipl3.GetIpl(r.value)
      ensures r.Ok? ==> Ipl3.GetIpl(r.value) == reader.Whole()[..Ipl3.IPL_SIZE]
    {
      var bytes := reader.ReadExact(Ipl3.IPL_SIZE);
      if bytes.Err? {
        return Err(bytes.error);
      }
      r := Ipl3.Read(bytes.value, crc32);
    }

    /**
     * The image `read_with_body` assembles: the header's bytes, the boot
     * loader's bytes, and everything left in `reader` when `readBody` is set.
     */
    static method ReadImage(reader: Io.Reader, header: Header.Header, ipl3: Ipl3.IPL3, readBody: bool)
      returns (image: array<byte>)
      requires reader.Valid() && reader.reader.AlignedReads() && reader.delivered == Ipl3.GetIpl(ipl3)
      modifies reader, reader.buffer, reader.reader
      ensures fresh(image)
      ensures |reader.Whole()| >= Ipl3.IPL_SIZE
      ensures image[..] == Header.Write(header) + Ipl3.GetIpl(ipl3)
                           + (if readBody then reader.Whole()[Ipl3.IPL_SIZE..] else [])
    {
      reader.DeliveredPrefix();
      var bytes := Header.Write(header) + Ipl3.GetIpl(ipl3);
      if readBody {
        var body := reader.ReadToEnd();
        bytes := bytes + body;
      }
      image := new byte[|bytes|](i requires 0 <= i < |bytes| => bytes[i]);
      assert image[..] == bytes;
    }

    /**
     * `Rom::write`: sends the header, the boot loader and the program data
     * through a writer that converts big-endian to `endianness`, or to the ROM's
     * own order when none is given, then flushes; returns the bytes written.
     */
    method Write(sink: Sink, endianness: Option<Endianness>) returns (written: nat)
      requires image.Length >= HEAD_SIZE && image.Length % 4 == 0
      modifies sink
      ensures written == image.Length
      ensures sink.data == old(sink.data) + Converted(Big, if endianness.Some? then endianness.value else order,
                                                      Header.Write(header) + Ipl3.GetIpl(ipl3) + image[HEAD_SIZE..])
      ensures sink.flushed == |sink.data|
    {
      var target := if endianness.Some? then endianness.value else order;
      written := Emit(sink, target, Header.Write(header), Ipl3.GetIpl(ipl3), image[HEAD_SIZE..]);
    }
  }

  /**
   * The body of `Rom::write` once the order is chosen: the three `write` calls
   * (header, boot loader, program data) through a fresh `Io.Writer`, then `flush`.
   */
  method Emit(sink: Sink, target: Endianness, head: seq<byte>, boot: seq<byte>, body: seq<byte>)
    returns (written: nat)
    requires |head + boot + body| % 4 == 0
    modifies sink
    ensures written == |head| + |boot| + |body|
    ensures sink.data == old(sink.data) + Converted(Big, target, head + boot + body)
    ensures sink.flushed == |sink.data|
  {
    var writer := new Io.Writer.From(sink, target);
    written := WriteParts(writer, head, boot, body);
    writer.Flush();
  }

  /** The three `write` calls of `Rom::write` into a fresh writer. */
  method WriteParts(writer: Io.Writer, head: seq<byte>, boot: seq<byte>, body: seq<byte>) returns (written: nat)
    requires writer.Valid() && writer.accepted == []
    modifies writer, writer.buffer, writer.writer
    ensures writer.Valid() && written == |head| + |boot| + |body|
    ensures writer.accepted == head + boot + body
  {
    written := writer.Write(head);
    ghost var first := writer.accepted;
    var wrote := writer.Write(boot);
    written := written + wrote;
    ghost var second := writer.accepted;
    wrote := writer.Write(body);
    written := written + wrote;
    Pieces(first, second, writer.accepted, head, boot, body);
  }

  /** What three `write` calls into a fresh writer have accepted. */
  lemma Pieces(first: seq<byte>, second: seq<byte>, third: seq<byte>, a: seq<byte>, b: seq<byte>, c: seq<byte>)
    requires first == [] + a && second == first + b && third == second + c
    ensures third == a + b + c
  {
    assert first == a;
  }

  /** The boot loader's bytes, taken from what follows the header. */
  lemma BootOfHead(input: seq<byte>)
    requires |input| >= HEAD_SIZE
    ensures input[Header.HEADER_SIZE..][..Ipl3.IPL_SIZE] == input[Header.HEADER_SIZE..HEAD_SIZE]
  {
  }

  /** The image of a ROM read without its body: the converted head of the input. */
  lemma HeadImage(order: Endianness, input: seq<byte>, head: seq<byte>)
    requires |input| >= HEAD_SIZE
    requires head == Converted(order, Big, input[..Header.HEADER_SIZE])
    ensures head + Converted(order, Big, input[Header.HEADER_SIZE..][..Ipl3.IPL_SIZE])
            == Converted(order, Big, input[..HEAD_SIZE])
  {
    assert input[Header.HEADER_SIZE..][..Ipl3.IPL_SIZE] == input[Header.HEADER_SIZE..HEAD_SIZE];
    assert input[..HEAD_SIZE] == input[..Header.HEADER_SIZE] + input[Header.HEADER_SIZE..HEAD_SIZE];
    ConvertedAppend(order, Big, input[..Header.HEADER_SIZE], input[Header.HEADER_SIZE..HEAD_SIZE]);
  }

  /** The bytes `ReadImage` assembles are the header followed by the converted rest of the input. */
  lemma Assembled(order: Endianness, rest: seq<byte>, whole: seq<byte>, head: seq<byte>, ipl: seq<byte>,
                  readBody: bool, got: seq<byte>)
    requires whole == Converted(order, Big, rest) && |whole| >= Ipl3.IPL_SIZE
    requires ipl == whole[..Ipl3.IPL_SIZE]
    requires got == head + ipl + (if readBody then whole[Ipl3.IPL_SIZE..] else [])
    ensures ipl == Converted(order, Big, rest[..Ipl3.IPL_SIZE])
    ensures got == head + Converted(order, Big, if readBody then rest else rest[..Ipl3.IPL_SIZE])
  {
    BootSlice(order, rest, whole);
    if !readBody {
      assert got == head + ipl;
    }
  }

  /** The boot loader and body read through the converting reader are the converted rest of the input. */
  lemma BootSlice(order: Endianness, rest: seq<byte>, whole: seq<byte>)
    requires whole == Converted(order, Big, rest) && |whole| >= Ipl3.IPL_SIZE
    ensures whole[..Ipl3.IPL_SIZE] == Converted(order, Big, rest[..Ipl3.IPL_SIZE])
    ensures whole[..Ipl3.IPL_SIZE] + whole[Ipl3.IPL_SIZE..] == whole
  {
    ConvertedTake(order, Big, rest, Ipl3.IPL_SIZE);
  }

  /** The image of a ROM read with its body: the whole input, converted. */
  lemma FullImage(order: Endianness, input: seq<byte>, head: seq<byte>)
    requires |input| >= Header.HEADER_SIZE
    requires head == Converted(order, Big, input[..Header.HEADER_SIZE])
    ensures head + Converted(order, Big, input[Header.HEADER_SIZE..]) == Converted(order, Big, input)
  {
    assert input == input[..Header.HEADER_SIZE] + input[Header.HEADER_SIZE..];
    ConvertedAppend(order, Big, input[..Header.HEADER_SIZE], input[Header.HEADER_SIZE..]);
  }
}
