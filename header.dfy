/**
 * The 64-byte ROM header (src/header.rs): the magic word that tells the byte
 * order of the file, and the fixed big-endian layout of the remaining fields.
 */
module Header {
  import opened Endian
  import opened Wrappers
  import opened Convert
  import opened Ipl3
  import opened Channel

  const HEADER_SIZE: nat := 0x40

  /** The magic word of a ROM stored in each order, read as a big-endian `u32`. */
  const MAGIC_BIG: word := 0x8037_1240
  const MAGIC_LITTLE: word := 0x4012_3780
  const MAGIC_MIXED: word := 0x3780_4012

  datatype Error = IOError(io: IoError) | UnknownByteOrder(value: word)

  /** The first four header bytes: the magic number, which doubles as the PI timing registers. */
  type Magic = s: seq<byte> | |s| == 4 witness [0, 0, 0, 0]
  /** The region identifier. */
  type Media = s: seq<byte> | |s| == 4 witness [0, 0, 0, 0]
  type Reserved1 = s: seq<byte> | |s| == 8 witness seq(8, _ => 0)
  type Name = s: seq<byte> | |s| == 20 witness seq(20, _ => 0)
  type Reserved2 = s: seq<byte> | |s| == 7 witness seq(7, _ => 0)

  // ---------------------------------------------------------------------------
  // The magic number.
  // ---------------------------------------------------------------------------

  /** `Magic::to_u32`. */
  function ToU32(m: Magic): word
  {
    ReadU32(m, 0)
  }

  /** `Magic::new`: the magic of a big-endian ROM. */
  function MagicNew(): (m: Magic)
    ensures ToU32(m) == MAGIC_BIG
    ensures InferByteOrder(m) == Ok(Big)
  {
    [128, 55, 18, 64]
  }

  /** `PI_BSD_DOM1_LAT_REG`. */
  function DeviceLatency(m: Magic): byte
  {
    m[0]
  }

  /** `PI_BSD_DOM1_PGS_REG`. */
  function DevicePageSize(m: Magic): byte
  {
    m[2]
  }

  /** `PI_BSD_DOM1_PWD_REG`. */
  function DeviceRwPulseWidth(m: Magic): byte
  {
    m[1]
  }

  /** `PI_BSD_DOM1_RLS_REG`. */
  function DeviceRwReleaseDuration(m: Magic): byte
  {
    m[3]
  }

  /**
   * The magic is the four PI registers in the order latency, pulse width, page
   * size, release duration, and its word value packs them most significant first.
   */
  lemma PiRegisters(m: Magic)
    ensures m == [DeviceLatency(m), DeviceRwPulseWidth(m), DevicePageSize(m), DeviceRwReleaseDuration(m)]
    ensures ToU32(m) == DeviceLatency(m) as int * 0x100_0000 + DeviceRwPulseWidth(m) as int * 0x1_0000
                        + DevicePageSize(m) as int * 0x100 + DeviceRwReleaseDuration(m) as int
  {
  }

  /** `Magic::infer_byte_order`: the order named by the first four bytes read as a big-endian word. */
  function InferByteOrder(data: seq<byte>): (r: Result<Endianness, Error>)
    requires |data| >= 4
    ensures r == Ok(Big) <==> ReadU32(data, 0) == MAGIC_BIG
    ensures r == Ok(Little) <==> ReadU32(data, 0) == MAGIC_LITTLE
    ensures r == Ok(Mixed) <==> ReadU32(data, 0) == MAGIC_MIXED
    ensures r.Err? ==> r.error == UnknownByteOrder(ReadU32(data, 0))
  {
    var value := ReadU32(data, 0);
    if value == MAGIC_BIG then Ok(Big)
    else if value == MAGIC_LITTLE then Ok(Little)
    else if value == MAGIC_MIXED then Ok(Mixed)
    else Err(UnknownByteOrder(value))
  }

  /** The canonical magic, stored in any order, is recognised as that order. */
  lemma MagicOrder(o: Endianness, rest: seq<byte>)
    ensures InferByteOrder(Encode(o, MagicNew() + rest)) == Ok(o)
  {
    var c := MagicNew() + rest;
    assert c[..4] == MagicNew();
    var e := Encode(o, c);
    assert e[..4] == LayoutGroup(o, MagicNew());
    assert ReadU32(e, 0) == ReadU32(e[..4], 0);
  }

  /** The Big-to-Little and Big-to-Mixed swaps turn the canonical magic into the other two constants. */
  lemma SwappedMagic()
    ensures ToU32(Apply(BigLittle, MagicNew())) == MAGIC_LITTLE
    ensures ToU32(Apply(BigMixed, MagicNew())) == MAGIC_MIXED
    ensures ToU32(Apply(LittleMixed, Apply(BigLittle, MagicNew()))) == MAGIC_MIXED
  {
    var m := MagicNew();
    assert m[..4] == m && m[4..] == [];
    assert Apply(BigLittle, m) == SwapGroup(BigLittle, m);
    assert Apply(BigMixed, m) == SwapGroup(BigMixed, m);
    var l := Apply(BigLittle, m);
    assert l[..4] == l && l[4..] == [];
    assert Apply(LittleMixed, l) == SwapGroup(LittleMixed, l);
  }

  // ---------------------------------------------------------------------------
  // The header fields and their 64-byte layout.
  // ---------------------------------------------------------------------------

  datatype Header = Header(
    magic: Magic,
    clockRate: word,
    entryPoint: word,
    release: word,
    crc1: word,
    crc2: word,
    reserved1: Reserved1,
    name: Name,
    reserved2: Reserved2,
    media: Media,
    reserved3: byte)

  /** `Header::default()`: every field zero. */
  function Default(): Header
  {
    Header([0, 0, 0, 0], 0, 0, 0, 0, 0, seq(8, _ => 0), seq(20, _ => 0), seq(7, _ => 0), [0, 0, 0, 0], 0)
  }

  /** `Header::crcs`. */
  function Crcs(h: Header): (word, word)
  {
    (h.crc1, h.crc2)
  }

  /** The bytes `Header::write` emits: the fields in declared order, words big-endian. */
  function Write(h: Header): (r: seq<byte>)
    ensures |r| == HEADER_SIZE
  {
    h.magic + U32Bytes(h.clockRate) + U32Bytes(h.entryPoint) + U32Bytes(h.release)
      + U32Bytes(h.crc1) + U32Bytes(h.crc2) + h.reserved1 + h.name + h.reserved2 + h.media + [h.reserved3]
  }

  /** `Header::read`: the fields from the first 64 bytes, failing when fewer are available. */
  function Read(input: seq<byte>): (r: Result<Header, IoError>)
    ensures r.Err? <==> |input| < HEADER_SIZE
  {
    if |input| < HEADER_SIZE then Err(UnexpectedEof)
    else
      Ok(Header(input[0..4], ReadU32(input, 4), ReadU32(input, 8), ReadU32(input, 12),
                ReadU32(input, 16), ReadU32(input, 20), input[24..32], input[32..52],
                input[52..59], input[59..63], input[63]))
  }

  /** Reading what was written gives back the header, whatever follows it. */
  lemma ReadWrite(h: Header, rest: seq<byte>)
    ensures Read(Write(h) + rest) == Ok(h)
  {
    var s := Write(h) + rest;
    assert s[0..4] == h.magic;
    U32At(s, 4, h.clockRate);
    U32At(s, 8, h.entryPoint);
    U32At(s, 12, h.release);
    U32At(s, 16, h.crc1);
    U32At(s, 20, h.crc2);
    assert s[24..32] == h.reserved1;
    assert s[32..52] == h.name;
    assert s[52..59] == h.reserved2;
    assert s[59..63] == h.media;
  }

  lemma U32At(s: seq<byte>, off: nat, w: word)
    requires off + 4 <= |s| && s[off..off + 4] == U32Bytes(w)
    ensures ReadU32(s, off) == w
  {
    ReadWriteU32(w);
    ReadU32Local(s, off, U32Bytes(w), 0);
  }

  /** Writing what was read reproduces the 64 bytes read. */
  lemma WriteRead(s: seq<byte>)
    requires |s| >= HEADER_SIZE
    ensures Write(Read(s).value) == s[..HEADER_SIZE]
  {
    WriteReadU32(s, 4);
    WriteReadU32(s, 8);
    WriteReadU32(s, 12);
    WriteReadU32(s, 16);
    WriteReadU32(s, 20);
    assert s[..HEADER_SIZE] == s[0..4] + s[4..8] + s[8..12] + s[12..16] + s[16..20] + s[20..24]
      + s[24..32] + s[32..52] + s[52..59] + s[59..63] + [s[63]];
  }

  // ---------------------------------------------------------------------------
  // Reading a header stored in any order.
  // ---------------------------------------------------------------------------

  /**
   * What `Header::read_ordered` returns for a stream holding `input`: the order
   * named by the magic, and the header parsed from the first 64 bytes once they
   * are converted to big-endian.
   */
  function Ordered(input: seq<byte>): Result<(Header, Endianness), Error>
  {
    if |input| < HEADER_SIZE then Err(IOError(UnexpectedEof))
    else
      match InferByteOrder(input[..HEADER_SIZE])
      case Err(e) => Err(e)
      case Ok(order) => Ok((Read(Converted(order, Big, input[..HEADER_SIZE])).value, order))
  }

  /**
   * `Ordered` fails exactly on a short stream or an unknown magic, and otherwise
   * the header it returns serialises back to the 64 bytes converted to big-endian.
   */
  lemma OrderedParses(input: seq<byte>)
    ensures Ordered(input).Err? <==> |input| < HEADER_SIZE || InferByteOrder(input[..HEADER_SIZE]).Err?
    ensures |input| < HEADER_SIZE ==> Ordered(input) == Err(IOError(UnexpectedEof))
    ensures |input| >= HEADER_SIZE && InferByteOrder(input[..HEADER_SIZE]).Err? ==>
      Ordered(input) == Err(InferByteOrder(input[..HEADER_SIZE]).error)
    ensures Ordered(input).Ok? ==>
      Ordered(input).value.1 == InferByteOrder(input[..HEADER_SIZE]).value
      && Write(Ordered(input).value.0) == Converted(Ordered(input).value.1, Big, input[..HEADER_SIZE])
  {
    if |input| >= HEADER_SIZE && InferByteOrder(input[..HEADER_SIZE]).Ok? {
      WriteRead(Converted(InferByteOrder(input[..HEADER_SIZE]).value, Big, input[..HEADER_SIZE]));
    }
  }

  /** A header with the canonical magic, stored in any order, reads back as itself and that order. */
  lemma OrderedRoundTrip(h: Header, o: Endianness, rest: seq<byte>)
    requires h.magic == MagicNew()
    ensures Ordered(Encode(o, Write(h)) + rest) == Ok((h, o))
  {
    var w := Write(h);
    var e := Encode(o, w);
    var input := e + rest;
    assert input[..HEADER_SIZE] == e;
    assert w == MagicNew() + w[4..];
    MagicOrder(o, w[4..]);
    ConvertedReencodes(o, Big, w);
    EncodeBig(w);
    ReadWrite(h, []);
    assert w + [] == w;
  }

  /**
   * `Header::read_ordered`: `read_exact` of 64 bytes, the order from the magic,
   * the buffer converted to big-endian in place, then `Header::read` from it.
   */
  method ReadOrdered(src: Source) returns (r: Result<(Header, Endianness), Error>)
    requires src.Valid()
    modifies src
    ensures src.Valid() && r == Ordered(old(src.Rest()))
    ensures old(|src.Rest()|) >= HEADER_SIZE ==> src.pos == old(src.pos) + HEADER_SIZE
    ensures old(src.AlignedReads()) ==> src.AlignedReads()
  {
    ghost var input := src.Rest();
    var read := src.ReadExact(HEADER_SIZE);
    if read.Err? {
      return Err(IOError(read.error));
    }
    var buf := new byte[HEADER_SIZE](i requires 0 <= i < HEADER_SIZE => read.value[i]);
    assert buf[..] == input[..HEADER_SIZE];
    var order :- InferByteOrder(buf[..]);
    assert buf[..HEADER_SIZE] == input[..HEADER_SIZE];
    var status := ConvertPrefix(buf, HEADER_SIZE, order, Big);
    assert status.Ok? && buf[..] == buf[..HEADER_SIZE];
    var header := Read(buf[..]);
    assert buf[..] == Converted(order, Big, input[..HEADER_SIZE]);
    r := Ok((header.value, order));
  }

  // ---------------------------------------------------------------------------
  // A fresh header.
  // ---------------------------------------------------------------------------

  /**
   * `Header::new`: the canonical magic, clock rate 15, the entry point offset for
   * the boot loader, release 0, the checksums of `program` and `fs`, and the
   * first 20 bytes of `name` and 4 bytes of `media`.
   */
  method New(entryPoint: word, name: seq<byte>, media: seq<byte>, program: seq<byte>, fs: seq<byte>, ipl3: IPL3)
    returns (header: Header)
    requires |name| >= 20 && |media| >= 4
    requires entryPoint + OffsetAmount(ipl3) < U32_LIMIT
    ensures InferByteOrder(header.magic) == Ok(Big) && header.magic == MagicNew()
    ensures header.clockRate == 15 && header.release == 0
    ensures header.entryPoint == Offset(ipl3, entryPoint)
    ensures Crcs(header) == Checksums(ipl3, program, fs)
    ensures header.name == name[..20] && header.media == media[..4]
    ensures header.reserved1 == Default().reserved1 && header.reserved2 == Default().reserved2
    ensures header.reserved3 == 0
  {
    header := Default();
    var crc1, crc2 := ComputeCrcs(ipl3, program, fs);
    var nameBytes := name[..20];
    header := header.(magic := MagicNew());
    header := header.(clockRate := 15);
    header := header.(entryPoint := Offset(ipl3, entryPoint));
    header := header.(release := 0);
    header := header.(crc1 := crc1);
    header := header.(crc2 := crc2);
    header := header.(name := nameBytes);
    header := header.(media := media[..4]);
  }
}
