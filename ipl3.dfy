/**
 * The second-stage boot loader (IPL3) and the checksum engine (src/ipl3.rs).
 *
 * `Checksums` is the specification: a left fold of `Step` over the 262144
 * big-endian words of the padded program, from a per-variant seed, finished by
 * a per-variant combination. `ComputeCrcs` is the loop of the source, with six
 * wrapping accumulators and the cycling table iterator, proved to compute it.
 */
module Ipl3 {
  import opened Endian
  import opened Wrappers
  import opened Word32

  const IPL_SIZE: nat := 0x0fc0
  const PROGRAM_SIZE: nat := 1024 * 1024
  /** Number of 32-bit words the checksum reads. */
  const WORD_COUNT: nat := PROGRAM_SIZE / 4

  /** `[u8; IPL_SIZE]`. */
  type Image = s: seq<byte> | |s| == IPL_SIZE witness seq(IPL_SIZE, _ => 0)

  /** The known boot loaders, each carrying its own 4032-byte image. */
  datatype IPL3 =
    | Cic6101(bin: Image)
    | Cic6102(bin: Image)
    | Cic6103(bin: Image)
    | Cic6105(bin: Image)
    | Cic6106(bin: Image)
    | Cic7102(bin: Image)
    | Unknown(bin: Image)

  /** The CRC-32 values that identify the known boot loaders. */
  const CRC_6101: word := 0x6170_a4a1
  const CRC_6102: word := 0x90bb_6cb5
  const CRC_6103: word := 0x0b05_0ee0
  const CRC_6105: word := 0x98bc_2c86
  const CRC_6106: word := 0xacc8_580a
  const CRC_7102: word := 0x009e_9ea3

  /** The match on the CRC-32 of the image in `IPL3::read`. */
  function Identify(crc: word, ipl: Image): (r: IPL3)
    ensures GetIpl(r) == ipl
    ensures r.Cic6101? <==> crc == CRC_6101
    ensures r.Cic6102? <==> crc == CRC_6102
    ensures r.Cic6103? <==> crc == CRC_6103
    ensures r.Cic6105? <==> crc == CRC_6105
    ensures r.Cic6106? <==> crc == CRC_6106
    ensures r.Cic7102? <==> crc == CRC_7102
    ensures r.Unknown? <==> crc !in {CRC_6101, CRC_6102, CRC_6103, CRC_6105, CRC_6106, CRC_7102}
  {
    match crc
    case 0x6170_a4a1 => Cic6101(ipl)
    case 0x90bb_6cb5 => Cic6102(ipl)
    case 0x0b05_0ee0 => Cic6103(ipl)
    case 0x98bc_2c86 => Cic6105(ipl)
    case 0xacc8_580a => Cic6106(ipl)
    case 0x009e_9ea3 => Cic7102(ipl)
    case _ => Unknown(ipl)
  }

  /**
   * `IPL3::read`: `read_exact` of 4032 bytes from what the reader delivers, then
   * identification by the CRC-32 of those bytes. The CRC-32 (`crc32fast`) is a
   * parameter.
   */
  function Read(input: seq<byte>, crc32: seq<byte> -> word): (r: Result<IPL3, IoError>)
    ensures r.Err? <==> |input| < IPL_SIZE
    ensures r.Err? ==> r.error == UnexpectedEof
    ensures r.Ok? ==> GetIpl(r.value) == input[..IPL_SIZE]
    ensures r.Ok? ==> r.value == Identify(crc32(input[..IPL_SIZE]), input[..IPL_SIZE])
  {
    if |input| < IPL_SIZE then Err(UnexpectedEof)
    else
      var ipl: Image := input[..IPL_SIZE];
      Ok(Identify(crc32(ipl), ipl))
  }

  /** `get_ipl`. */
  function GetIpl(ipl: IPL3): Image
  {
    match ipl
    case Cic6101(bin) => bin
    case Cic6102(bin) => bin
    case Cic6103(bin) => bin
    case Cic6105(bin) => bin
    case Cic6106(bin) => bin
    case Cic7102(bin) => bin
    case Unknown(bin) => bin
  }

  // ---------------------------------------------------------------------------
  // The word stream.
  // ---------------------------------------------------------------------------

  /** `(2 - (len & 1)) & 1`: one padding byte exactly when the program length is odd. */
  function PaddingLength(len: nat): (r: nat)
    ensures r <= 1 && (len + r) % 2 == 0
    ensures r == 1 <==> len % 2 == 1
  {
    (2 - len % 2) % 2
  }

  /**
   * The byte iterator of `compute_crcs`: program, padding, file system, then
   * zeros, taken to exactly 1 MiB.
   */
  function Padded(program: seq<byte>, fs: seq<byte>): (r: seq<byte>)
    ensures |r| == PROGRAM_SIZE
    ensures forall i :: 0 <= i < |program| && i < PROGRAM_SIZE ==> r[i] == program[i]
    ensures |program| % 2 == 1 && |program| < PROGRAM_SIZE ==> r[|program|] == 0
    ensures var p := |program| + PaddingLength(|program|);
      forall i :: p <= i < PROGRAM_SIZE && i < p + |fs| ==> r[i] == fs[i - p]
    ensures var p := |program| + PaddingLength(|program|);
      forall i :: p + |fs| <= i < PROGRAM_SIZE ==> r[i] == 0
  {
    var joined := program + seq(PaddingLength(|program|), _ => 0) + fs;
    if |joined| >= PROGRAM_SIZE then joined[..PROGRAM_SIZE]
    else joined + seq(PROGRAM_SIZE - |joined|, _ => 0)
  }

  /** The 262144 big-endian words of a 1 MiB byte stream, in `chunks(4)` order. */
  function WordsOf(data: seq<byte>): (r: seq<word>)
    requires |data| == PROGRAM_SIZE
    ensures |r| == WORD_COUNT
    ensures forall i :: 0 <= i < WORD_COUNT ==> r[i] == ReadU32(data, 4 * i)
  {
    seq(WORD_COUNT, i requires 0 <= i < WORD_COUNT => ReadU32(data, 4 * i))
  }

  /** The words of the padded program. */
  function Words(program: seq<byte>, fs: seq<byte>): (r: seq<word>)
    ensures |r| == WORD_COUNT
  {
    WordsOf(Padded(program, fs))
  }

  // ---------------------------------------------------------------------------
  // The specification of the checksum.
  // ---------------------------------------------------------------------------

  datatype Accumulators = Accumulators(acc1: word, acc2: word, acc3: word, acc4: word, acc5: word, acc6: word)

  /** The 64 words that NUS-IPL3-6105 mixes into accumulator 6. */
  type Table = t: seq<word> | |t| == 64 witness seq(64, _ => 0)

  /** Initial value of all six accumulators. */
  function Seed(ipl: IPL3): word
  {
    match ipl
    case Cic6103(_) => 0xa388_6759
    case Cic6105(_) => 0xdf26_f436
    case Cic6106(_) => 0x1fea_617a
    case _ => 0xf8ca_4ddc
  }

  /** Word `j` of the 64-word table hidden in the image: image word `452 + j`. */
  function TableWord(ipl: IPL3, j: nat): word
    requires j < 64
  {
    ReadU32(GetIpl(ipl), (452 + j) * 4)
  }

  /**
   * What accumulator 6 mixes in: the hidden table for NUS-IPL3-6105 (`Some`),
   * accumulator 4 for every other loader (`None`).
   */
  function MixTable(ipl: IPL3): (r: Option<Table>)
    ensures r.Some? <==> ipl.Cic6105?
    ensures r.Some? ==> forall j :: 0 <= j < 64 ==> r.value[j] == TableWord(ipl, j)
  {
    if ipl.Cic6105? then Some(seq(64, j requires 0 <= j < 64 => TableWord(ipl, j))) else None
  }

  /** `current.rotate_left(current & 0x1f)`: a word rotated left by its own low five bits. */
  function Rotated(current: word): word
  {
    RotateLeft(current, Low5(current))
  }

  /** One iteration of the accumulator loop, on the word at position `index`. */
  function Step(table: Option<Table>, a: Accumulators, current: word, index: nat): Accumulators
  {
    var rotated := Rotated(current);
    var acc1 := WrappingAdd(a.acc1, current);
    var acc2 := if acc1 < current then WrappingAdd(a.acc2, 1) else a.acc2;
    var acc3 := Xor(a.acc3, current);
    var acc4 := WrappingAdd(a.acc4, rotated);
    var acc5 := if a.acc5 > current then Xor(a.acc5, rotated) else Xor(a.acc5, Xor(acc1, current));
    var acc6 := if table.Some? then WrappingAdd(a.acc6, Xor(current, table.value[index % 64]))
                else WrappingAdd(a.acc6, Xor(current, acc4));
    Accumulators(acc1, acc2, acc3, acc4, acc5, acc6)
  }

  /** The accumulators after the first `n` words, all six started at `seed`. */
  function Fold(seed: word, table: Option<Table>, words: seq<word>, n: nat): Accumulators
    requires n <= |words|
    decreases n
  {
    if n == 0 then Accumulators(seed, seed, seed, seed, seed, seed)
    else Step(table, Fold(seed, table, words, n - 1), words[n - 1], n - 1)
  }

  /** The final pair of checksum words. */
  function Combine(ipl: IPL3, a: Accumulators): (word, word)
  {
    match ipl
    case Cic6103(_) =>
      (WrappingAdd(Xor(a.acc1, a.acc2), a.acc3), WrappingAdd(Xor(a.acc4, a.acc5), a.acc6))
    case Cic6106(_) =>
      (WrappingAdd(WrappingMul(a.acc1, a.acc2), a.acc3), WrappingAdd(WrappingMul(a.acc4, a.acc5), a.acc6))
    case _ =>
      (Xor(Xor(a.acc1, a.acc2), a.acc3), Xor(Xor(a.acc4, a.acc5), a.acc6))
  }

  /**
   * NUS-IPL3-6106's pair is `acc1 * acc2 + acc3` and `acc4 * acc5 + acc6`
   * computed exactly and reduced modulo 2^32 once, although `Wrapping`
   * reduces after the product as well.
   */
  lemma Combine6106(bin: Image, a: Accumulators)
    ensures Combine(Cic6106(bin), a) == ((a.acc1 * a.acc2 + a.acc3) % U32_LIMIT, (a.acc4 * a.acc5 + a.acc6) % U32_LIMIT)
  {
    MulAddWraps(a.acc1, a.acc2, a.acc3);
    MulAddWraps(a.acc4, a.acc5, a.acc6);
  }

  /** The accumulators after all 262144 words of the padded program. */
  function Accumulated(ipl: IPL3, program: seq<byte>, fs: seq<byte>): Accumulators
  {
    Fold(Seed(ipl), MixTable(ipl), Words(program, fs), WORD_COUNT)
  }

  /** What `compute_crcs(program, fs)` returns for boot loader `ipl`. */
  function Checksums(ipl: IPL3, program: seq<byte>, fs: seq<byte>): (word, word)
  {
    Combine(ipl, Accumulated(ipl, program, fs))
  }

  // ---------------------------------------------------------------------------
  // The loop.
  // ---------------------------------------------------------------------------

  /** `compute_crcs`: pad the program, run the accumulators, combine them. */
  method ComputeCrcs(ipl: IPL3, program: seq<byte>, fs: seq<byte>) returns (crc1: word, crc2: word)
    ensures (crc1, crc2) == Checksums(ipl, program, fs)
  {
    var words := Words(program, fs);
    var acc := Accumulate(Seed(ipl), MixTable(ipl), words);
    var crcs := Combine(ipl, acc);
    crc1, crc2 := crcs.0, crcs.1;
  }

  /** The accumulator loop of `compute_crcs`, one word of the stream at a time. */
  method Accumulate(seed: word, table: Option<Table>, words: seq<word>) returns (acc: Accumulators)
    requires |words| == WORD_COUNT
    ensures acc == Fold(seed, table, words, WORD_COUNT)
  {
    acc := Accumulators(seed, seed, seed, seed, seed, seed);
    var i := 0;
    while i < WORD_COUNT
      invariant 0 <= i <= WORD_COUNT
      invariant Fold(seed, table, words, i) == acc
    {
      acc := Round(table, acc, words[i], i);
      i := i + 1;
    }
  }

  /**
   * One pass of the loop body: the six accumulators advanced, in the source's
   * order, by the word `current` read at position `index`.
   */
  method Round(table: Option<Table>, a: Accumulators, current: word, index: nat) returns (r: Accumulators)
    ensures r == Step(table, a, current, index)
  {
    var acc1, acc2, acc3, acc4, acc5, acc6 := a.acc1, a.acc2, a.acc3, a.acc4, a.acc5, a.acc6;
    var rotated := RotateLeft(current, Low5(current));
    acc1 := WrappingAdd(acc1, current);
    acc2 := if acc1 < current then WrappingAdd(acc2, 1) else acc2;
    acc3 := Xor(acc3, current);
    acc4 := WrappingAdd(acc4, rotated);
    acc5 := if acc5 > current then Xor(acc5, rotated) else Xor(acc5, Xor(acc1, current));
    if table.Some? {
      // `ipl.next()` on the cycled table yields word `index mod 64`.
      var currentIpl := table.value[index % 64];
      acc6 := WrappingAdd(acc6, Xor(current, currentIpl));
    } else {
      acc6 := WrappingAdd(acc6, Xor(current, acc4));
    }
    r := Accumulators(acc1, acc2, acc3, acc4, acc5, acc6);
  }

  // ---------------------------------------------------------------------------
  // What the accumulators compute.
  // ---------------------------------------------------------------------------

  /** The sum of the first `n` words, without wrap-around. */
  function Sum(words: seq<word>, n: nat): (r: nat)
    requires n <= |words|
    ensures r <= n * (U32_LIMIT - 1)
    decreases n
  {
    if n == 0 then 0 else Sum(words, n - 1) + words[n - 1]
  }

  /** How many of the first `n` words have bit `i` set. */
  function BitCount(words: seq<word>, n: nat, i: nat): (r: nat)
    requires n <= |words|
    ensures r <= n
    decreases n
  {
    if n == 0 then 0 else BitCount(words, n - 1, i) + Bit(words[n - 1], i)
  }

  /** Adding a word to `x` carries out of the low 32 bits exactly when the low part overflows. */
  lemma AddSplit(x: nat, w: word)
    ensures (x + w) % U32_LIMIT == (x % U32_LIMIT + w) % U32_LIMIT
    ensures (x + w) / U32_LIMIT == x / U32_LIMIT + (if x % U32_LIMIT + w >= U32_LIMIT then 1 else 0)
  {
    var q, r := x / U32_LIMIT, x % U32_LIMIT;
    if r + w >= U32_LIMIT {
      DivMod32(x + w, q + 1, r + w - U32_LIMIT);
      DivMod32(r + w, 1, r + w - U32_LIMIT);
    } else {
      DivMod32(x + w, q, r + w);
      DivMod32(r + w, 0, r + w);
    }
  }

  /**
   * Accumulators 1 and 2 together hold the running sum of the seed and the
   * words: accumulator 1 its low 32 bits, accumulator 2 the seed plus the number
   * of times the sum passed a multiple of 2^32, itself modulo 2^32.
   */
  lemma {:induction false} SumAccumulators(seed: word, table: Option<Table>, words: seq<word>, n: nat)
    requires n <= |words|
    ensures SumInvariant(seed, Sum(words, n), Fold(seed, table, words, n))
    decreases n
  {
    if n == 0 {
      DivMod32(seed, 0, seed);
      DivMod32(seed + seed, (seed + seed) / U32_LIMIT, (seed + seed) % U32_LIMIT);
    } else {
      SumAccumulators(seed, table, words, n - 1);
      SumStep(seed, Sum(words, n - 1), table, Fold(seed, table, words, n - 1), words[n - 1], n - 1);
    }
  }

  /** Accumulators 1 and 2 as the low word and the carry count of `seed + x`. */
  predicate SumInvariant(seed: word, x: nat, a: Accumulators)
  {
    a.acc1 == (seed + x) % U32_LIMIT && a.acc2 == (seed + (seed + x) / U32_LIMIT) % U32_LIMIT
  }

  /** One step keeps `SumInvariant`, with the word added to the running sum. */
  lemma SumStep(seed: word, x: nat, table: Option<Table>, a: Accumulators, w: word, index: nat)
    requires SumInvariant(seed, x, a)
    ensures SumInvariant(seed, x + w, Step(table, a, w, index))
  {
    CarryStep(seed, x, w, a.acc1, a.acc2);
  }

  /** The arithmetic of one step of accumulators 1 and 2 on the running sum `seed + x`. */
  lemma CarryStep(seed: word, x: nat, w: word, a1: word, a2: word)
    requires a1 == (seed + x) % U32_LIMIT && a2 == (seed + (seed + x) / U32_LIMIT) % U32_LIMIT
    ensures WrappingAdd(a1, w) == (seed + x + w) % U32_LIMIT
    ensures (if WrappingAdd(a1, w) < w then WrappingAdd(a2, 1) else a2)
      == (seed + (seed + x + w) / U32_LIMIT) % U32_LIMIT
  {
    AddSplit(seed + x, w);
    AddCarry(a1, w);
    var carry := if a1 + w >= U32_LIMIT then 1 else 0;
    AddSplit(seed + (seed + x) / U32_LIMIT, carry);
  }

  /** One step of accumulator 2: it grows by one exactly when accumulator 1 overflows. */
  lemma StepCarry(table: Option<Table>, a: Accumulators, current: word, index: nat)
    ensures Step(table, a, current, index).acc2 ==
      if a.acc1 + current >= U32_LIMIT then WrappingAdd(a.acc2, 1) else a.acc2
  {
    AddCarry(a.acc1, current);
  }

  /** The seed and the first `n` words combined by exclusive or. */
  function XorAll(seed: word, words: seq<word>, n: nat): word
    requires n <= |words|
    decreases n
  {
    if n == 0 then seed else Xor(XorAll(seed, words, n - 1), words[n - 1])
  }

  /** Every bit of `XorAll` is the parity of that bit over the seed and the words. */
  lemma {:induction false} XorAllBit(seed: word, words: seq<word>, n: nat, i: nat)
    requires n <= |words|
    ensures Bit(XorAll(seed, words, n), i) == (Bit(seed, i) + BitCount(words, n, i)) % 2
    decreases n
  {
    if n > 0 {
      XorAllBit(seed, words, n - 1, i);
      XorBit(XorAll(seed, words, n - 1), words[n - 1], i);
      ParityStep(Bit(seed, i), BitCount(words, n - 1, i), Bit(XorAll(seed, words, n - 1), i), Bit(words[n - 1], i));
    }
  }

  lemma ParityStep(s: nat, c: nat, b: nat, w: nat)
    requires b == (s + c) % 2
    ensures (b + w) % 2 == (s + (c + w)) % 2
  {
  }

  /** Accumulator 3 is the exclusive or of the seed and every word read. */
  lemma {:induction false} XorAccumulator(seed: word, table: Option<Table>, words: seq<word>, n: nat)
    requires n <= |words|
    ensures Fold(seed, table, words, n).acc3 == XorAll(seed, words, n)
    decreases n
  {
    if n > 0 {
      XorAccumulator(seed, table, words, n - 1);
      Acc3Step(table, Fold(seed, table, words, n - 1), words[n - 1], n - 1);
    }
  }

  lemma Acc3Step(table: Option<Table>, a: Accumulators, w: word, index: nat)
    ensures Step(table, a, w, index).acc3 == Xor(a.acc3, w)
  {
  }

  /** Hence every bit of accumulator 3 is the parity of that bit over the seed and the words. */
  lemma ParityAccumulator(seed: word, table: Option<Table>, words: seq<word>, n: nat, i: nat)
    requires n <= |words|
    ensures Bit(Fold(seed, table, words, n).acc3, i) == (Bit(seed, i) + BitCount(words, n, i)) % 2
  {
    XorAccumulator(seed, table, words, n);
    XorAllBit(seed, words, n, i);
  }

  /** `a` and `b` agree on accumulators 1 to 5. */
  predicate SameLow(a: Accumulators, b: Accumulators)
  {
    a.acc1 == b.acc1 && a.acc2 == b.acc2 && a.acc3 == b.acc3 && a.acc4 == b.acc4 && a.acc5 == b.acc5
  }

  /** Accumulators 1 to 5 never read the table: only accumulator 6 tells NUS-IPL3-6105 apart. */
  lemma {:induction false} TableOnlyInAcc6(seed: word, t1: Option<Table>, t2: Option<Table>, words: seq<word>, n: nat)
    requires n <= |words|
    ensures SameLow(Fold(seed, t1, words, n), Fold(seed, t2, words, n))
    decreases n
  {
    if n > 0 {
      TableOnlyInAcc6(seed, t1, t2, words, n - 1);
      LowStep(t1, t2, Fold(seed, t1, words, n - 1), Fold(seed, t2, words, n - 1), words[n - 1], n - 1);
    }
  }

  /** One step keeps accumulators 1 to 5 in agreement, whatever the tables. */
  lemma LowStep(t1: Option<Table>, t2: Option<Table>, a: Accumulators, b: Accumulators, w: word, index: nat)
    requires SameLow(a, b)
    ensures SameLow(Step(t1, a, w, index), Step(t2, b, w, index))
  {
  }

  /** The boot loaders whose checksum takes the default seed, accumulator 6 rule and combination. */
  predicate DefaultLoader(ipl: IPL3)
  {
    ipl.Cic6101? || ipl.Cic6102? || ipl.Cic7102? || ipl.Unknown?
  }

  /** NUS-IPL3-6101, 6102, 7102 and unknown loaders compute the same checksums, whatever their images. */
  lemma DefaultLoadersAgree(x: IPL3, y: IPL3, program: seq<byte>, fs: seq<byte>)
    requires DefaultLoader(x) && DefaultLoader(y)
    ensures Checksums(x, program, fs) == Checksums(y, program, fs)
  {
  }

  /** Two boot loaders of the same kind, whatever their images. */
  predicate SameKind(x: IPL3, y: IPL3)
  {
    && x.Cic6101? == y.Cic6101? && x.Cic6102? == y.Cic6102? && x.Cic6103? == y.Cic6103?
    && x.Cic6105? == y.Cic6105? && x.Cic6106? == y.Cic6106? && x.Cic7102? == y.Cic7102?
  }

  /**
   * The checksums depend on the image only for NUS-IPL3-6105, and then only on
   * the table's 256 bytes, image offsets 1808 to 2063.
   */
  lemma TableRegionOnly(x: IPL3, y: IPL3, program: seq<byte>, fs: seq<byte>)
    requires SameKind(x, y)
    requires x.Cic6105? ==> GetIpl(x)[1808..2064] == GetIpl(y)[1808..2064]
    ensures Checksums(x, program, fs) == Checksums(y, program, fs)
  {
    if x.Cic6105? {
      forall j | 0 <= j < 64
        ensures TableWord(x, j) == TableWord(y, j)
      {
        ReadSlice(GetIpl(x), 1808, 2064, (452 + j) * 4);
        ReadSlice(GetIpl(y), 1808, 2064, (452 + j) * 4);
      }
      assert MixTable(x).value == MixTable(y).value;
    }
  }

  /** A word read inside a slice is the word read at the same place in the whole. */
  lemma ReadSlice(s: seq<byte>, lo: nat, hi: nat, k: nat)
    requires lo <= k && k + 4 <= hi <= |s|
    ensures ReadU32(s, k) == ReadU32(s[lo..hi], k - lo)
  {
    var t := s[lo..hi];
    assert t[k - lo] == s[k] && t[k - lo + 1] == s[k + 1];
    assert t[k - lo + 2] == s[k + 2] && t[k - lo + 3] == s[k + 3];
  }

  // ---------------------------------------------------------------------------
  // Entry-point offset.
  // ---------------------------------------------------------------------------

  /** How far the boot loader moves the entry point. */
  function OffsetAmount(ipl: IPL3): word
  {
    match ipl
    case Cic6103(_) => 0x0010_0000
    case Cic6106(_) => 0x0020_0000
    case _ => 0
  }

  /**
   * `offset`: the entry point moved by the loader's relocation. The source adds
   * with `u32` `+`, which a debug build refuses to overflow, so callers must
   * keep the sum within 32 bits.
   */
  function Offset(ipl: IPL3, entryPoint: word): (r: word)
    requires entryPoint + OffsetAmount(ipl) < U32_LIMIT
    ensures r - entryPoint == OffsetAmount(ipl)
    ensures ipl.Cic6103? ==> r == entryPoint + 0x0010_0000
    ensures ipl.Cic6106? ==> r == entryPoint + 0x0020_0000
    ensures !ipl.Cic6103? && !ipl.Cic6106? ==> r == entryPoint
  {
    entryPoint + OffsetAmount(ipl)
  }

  /** The offsets the source's tests expect for entry point 0x8000_0400. */
  lemma OffsetExamples(bin: Image)
    ensures Offset(Cic6101(bin), 0x8000_0400) == 0x8000_0400
    ensures Offset(Cic6102(bin), 0x8000_0400) == 0x8000_0400
    ensures Offset(Cic6103(bin), 0x8000_0400) == 0x8010_0400
    ensures Offset(Cic6105(bin), 0x8000_0400) == 0x8000_0400
    ensures Offset(Cic6106(bin), 0x8000_0400) == 0x8020_0400
    ensures Offset(Cic7102(bin), 0x8000_0400) == 0x8000_0400
  {
  }
}
