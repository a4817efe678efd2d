# n64rom in Dafny

A model of the core of `n64rom`, a Rust library that reads, converts and
repairs Nintendo 64 ROM images, together with proofs about that model.

A ROM image may be stored in one of three byte orders:

- big-endian (the native order);
- little-endian (each 32-bit word reversed);
- "mixed" (each 16-bit half byte-swapped).

The model covers six parts of the library:

- **Byte-order conversion** (`Convert`, `RomConvert`). These are the in-place swaps of 4-byte groups, the per-order converters and `convert`'s alignment check. Proved about them:
  - each swap undoes itself;
  - converting A to B is the same permutation as B to A;
  - A to B followed by B to C is A to C;
  - conversion agrees with an independent description of how a big-endian word is laid out in each order.
- **The older swap module** (`Bytes`). Its "little-endian" swap is modelled as written: a rotation by one byte.
- **The boot loader and its checksum** (`Ipl3`, `Word32`):
  - identification of the known boot loaders by their CRC-32;
  - the padded 1 MiB word stream;
  - a fold specification of the six-accumulator checksum, with the imperative loop proved equal to it;
  - what the accumulators compute: a carry-counting sum, a per-bit parity, and the table that only one loader reads;
  - the entry-point offset.
- **The 64-byte header** (`Header`):
  - classification of the magic word;
  - the big-endian field codec, with both round trips;
  - `read_ordered`, which converts the header to big-endian before parsing it;
  - `Header::new`.
- **The buffered order-translating reader and writer** (`Stream` from `src/stream.rs`, `Io` from `src/io.rs`). These are classes whose methods update `buffer`, `idx` and `length`. Proved about them:
  - the bytes a reader delivers are always a prefix of the underlying stream converted to big-endian;
  - what the writer's sink receives is everything written, converted to the target order.
- **The ROM aggregate** (`Rom`):
  - checking and correcting the two header checksums;
  - building a ROM from a big-endian image;
  - reading a ROM through a translating reader;
  - writing it back through a translating writer.

Readers and writers are modelled by `Channel.Source` and `Channel.Sink`, which are finite byte streams:

- A `Source` answers each `read` with at most a scheduled number of bytes.
- Short reads are therefore part of the model.
- A `Sink` keeps every byte written to it.

Four behaviours of the code are easy to miss. The model follows the code:

- Only NUS-IPL3-6103 combines its accumulators as `(a1 ^ a2) + a3` (`src/ipl3.rs:181`).
- `convert_rom` converts the image but does not update the recorded byte order (`src/convert.rs:142-145`). `RomConvert.ConvertRom` states that the order stays as it was.
- `src/rom.rs` calls `Header::read` expecting a `(header, order)` pair. That is the behaviour of `Header::read_ordered` (`src/header.rs:220-231`), and the model uses it.
- `src/rom.rs:135` calls `header.to_vec()`, which `src/header.rs` does not define. The model reads it as the 64 bytes `Header::write` produces (`Header.Write`), so `Rom.Rom.ReadImage` and `Rom.Assembled` start the image with `Header.Write(header)`.

## Model

| member | source | states |
|---|---|---|
| Convert.SwapBigLittle | src/convert.rs:22-25 | the group at `off` has bytes 0/3 and 1/2 exchanged; the rest of the array is unchanged |
| Convert.SwapBigMixed | src/convert.rs:28-31 | the group at `off` has bytes 0/1 and 2/3 exchanged; the rest of the array is unchanged |
| Convert.SwapLittleMixed | src/convert.rs:34-37 | the group at `off` has bytes 0/2 and 1/3 exchanged; the rest of the array is unchanged |
| Convert.ApplyInvolution | src/convert.rs:22-37 | applying any of the three swaps twice gives the data back |
| Convert.ComposeBigLittleBigMixed | src/convert.rs:21-37 | the Big-Little swap followed by the Big-Mixed swap is the Little-Mixed swap (the three swaps form a Klein four-group) |
| Convert.ConvertedSymmetric | src/convert.rs:52-113 | converting A to B performs the same permutation as B to A; no swap is chosen exactly when A = B |
| Convert.ConvertedRoundTrip | src/convert.rs:52-113 | converting A to B and then B to A restores the data |
| Convert.GroupTransitive | src/convert.rs:116-122 | on one group, A to B then B to C is A to C |
| Convert.ConvertedTransitive | src/convert.rs:116-122 | for every triple of orders, converting A to B then B to C is converting A to C |
| Convert.ConvertedReencodes | src/convert.rs:21-37 | data stored in order A and converted to B is the same data stored in order B, checked against an independent per-order word layout |
| Convert.EncodeBig | src/convert.rs:53-55 | the big-endian layout is the identity |
| Convert.ConvertedUnfold | src/convert.rs:58-60 | conversion of data of at least 4 bytes is the first group converted, followed by the rest converted |
| Convert.ConvertedAppend | src/convert.rs:58-60 | converting an aligned prefix followed by more data converts the two pieces separately |
| Convert.ConvertedGroup | src/convert.rs:58-60 | group `g` of the result depends only on group `g` of the input, through that group's swap |
| Convert.ApplyAppend | src/convert.rs:58-60 | applying a swap to an aligned prefix followed by more data applies it to each piece |
| Convert.SwapGroups | src/convert.rs:58-60 | the `chunks_exact_mut(4)` loop over `buf[..len]` leaves `buf[..len]` swapped group by group and `buf[len..]` unchanged |
| Convert.ConvertFromBig | src/convert.rs:52-70 | `BigEndianConverter` through `convert_with`: the prefix becomes its conversion to `target`; the status is `AlreadyConverted` exactly when `target` is Big |
| Convert.ConvertFromLittle | src/convert.rs:74-92 | the same for `LittleEndianConverter` |
| Convert.ConvertFromMixed | src/convert.rs:96-114 | the same for `MixedEndianConverter` |
| Convert.ConvertPrefix | src/convert.rs:125-138 | a length that is not a multiple of 4 gives `AlignmentError(len)` and leaves the buffer untouched; otherwise the prefix becomes its conversion; `Complete` is returned exactly when the length is aligned and the orders differ |
| RomConvert.ConvertRom | src/convert.rs:142-145 | the image becomes its conversion from the ROM's order to `target`, or stays unchanged with `AlignmentError` when its length is not a multiple of 4; the header does not change |
| Bytes.SwapBigEndian | src/bytes.rs:12-16 | the buffer is unchanged |
| Bytes.SwapLittleEndian | src/bytes.rs:21-33 | on a 4-aligned buffer, each group ends up rotated left by one byte |
| Bytes.RotateUpdate | src/bytes.rs:26-31 | the four writes of one iteration, through the temporary, rotate that group and touch nothing else |
| Bytes.SwapMixed | src/bytes.rs:39-49 | on an even-length buffer, each adjacent byte pair ends up exchanged |
| Bytes.PairUpdate | src/bytes.rs:44-47 | the two writes of one iteration exchange that pair and touch nothing else |
| Bytes.SwapBytes | src/bytes.rs:1-3 | `swap_bytes::<T>` leaves the buffer as `T`'s permutation of it |
| Bytes.RotatedTwice | src/bytes.rs:24-32 | two rotations are the Little-Mixed swap of `convert` |
| Bytes.RotatedFourTimes | src/bytes.rs:24-32 | four rotations give the data back |
| Bytes.RotatedNotInvolution | src/bytes.rs:24-32 | the rotation is not its own inverse |
| Bytes.RotatedMagicUnknown | src/bytes.rs:24-32 | the rotation turns the canonical magic into 0x37124080, which no order claims, while the Big-Little swap turns it into 40 12 37 80 |
| Bytes.PairSwappedInvolution | src/bytes.rs:42-48 | the pair exchange undoes itself |
| Bytes.PairSwappedIsBigMixed | src/bytes.rs:42-48 | on 4-aligned data the pair exchange is the Big-Mixed swap of `convert` |
| Ipl3.Identify | src/ipl3.rs:64-72 | each of the six known CRC-32 values selects its named variant, and every other value selects `Unknown`; the variant carries the image |
| Ipl3.Read | src/ipl3.rs:56-75 | fails with end of file exactly when fewer than 4032 bytes are available; otherwise it keeps exactly the first 4032 bytes and identifies them by their CRC-32 |
| Ipl3.PaddingLength | src/ipl3.rs:106 | one padding byte exactly when the program length is odd |
| Ipl3.Padded | src/ipl3.rs:106-113 | exactly 1 MiB: the program bytes, then a zero byte if the length is odd, then the file system bytes, then zeros |
| Ipl3.WordsOf | src/ipl3.rs:115 | 262144 words; word `i` is the big-endian word at byte `4 i` |
| Ipl3.MixTable | src/ipl3.rs:125-126 | a table exists exactly for NUS-IPL3-6105, and holds the image words 452 to 515 |
| Ipl3.ComputeCrcs | src/ipl3.rs:105-187 | the returned pair is `Checksums`: the fold of the accumulator step over the padded words from the variant's seed, combined per variant |
| Ipl3.Accumulate | src/ipl3.rs:129-178 | the loop over all 262144 words leaves the accumulators equal to the fold |
| Ipl3.Round | src/ipl3.rs:141-177 | one pass of the loop body, in the source's order, is one fold step on the word at that position |
| Ipl3.SumAccumulators | src/ipl3.rs:146-152 | accumulator 1 is the low 32 bits of the seed plus all words; accumulator 2 is the seed plus the number of 32-bit overflows, modulo 2^32 |
| Ipl3.StepCarry | src/ipl3.rs:147-152 | in one iteration accumulator 2 grows by one exactly when the wrapping add into accumulator 1 overflowed |
| Ipl3.CarryStep | src/ipl3.rs:147-152 | one iteration keeps accumulators 1 and 2 equal to the low word and carry count of the running sum |
| Ipl3.XorAccumulator | src/ipl3.rs:155 | accumulator 3 is the exclusive or of the seed and every word |
| Ipl3.ParityAccumulator | src/ipl3.rs:155 | every bit of accumulator 3 is the parity of that bit over the seed and the words |
| Ipl3.TableOnlyInAcc6 | src/ipl3.rs:146-177 | accumulators 1 to 5 never depend on the table: only accumulator 6 sets NUS-IPL3-6105 apart |
| Ipl3.DefaultLoadersAgree | src/ipl3.rs:118-184 | NUS-IPL3-6101, 6102, 7102 and unknown loaders give identical pairs on identical input, whatever their images |
| Ipl3.TableRegionOnly | src/ipl3.rs:125-126 | the pair depends on the image only for NUS-IPL3-6105, and then only on image bytes 1808 to 2063 |
| Ipl3.Offset | src/ipl3.rs:190-197 | the entry point moves by 0x0010_0000 for 6103, by 0x0020_0000 for 6106, and not at all otherwise |
| Ipl3.OffsetExamples | src/ipl3.rs:275-309 | the offsets the tests expect for entry point 0x8000_0400 |
| Ipl3.Combine6106 | src/ipl3.rs:182 | NUS-IPL3-6106's pair is `acc1 * acc2 + acc3` and `acc4 * acc5 + acc6`, computed exactly and reduced modulo 2^32 |
| Word32.AddWraps | src/ipl3.rs:147 | a `Wrapping` add is the true sum, less 2^32 when that sum overflows |
| Word32.AddCarry | src/ipl3.rs:150 | a wrapped sum is below an addend exactly when the true sum overflows |
| Word32.XorBit | src/ipl3.rs:155 | `^` on words is bitwise exclusive or on every bit |
| Word32.MulAddWraps | src/ipl3.rs:182 | a `Wrapping` product followed by a `Wrapping` add is the true `a * b + c` reduced modulo 2^32 once |
| Word32.Low5 | src/ipl3.rs:144 | `current & 0x1f` is a rotation amount below 32 |
| Header.MagicNew | src/header.rs:87-94 | the canonical magic reads as 0x80371240 and classifies as big-endian |
| Header.PiRegisters | src/header.rs:50-67 | the magic is the latency, pulse width, page size and release duration registers, in that byte order |
| Header.InferByteOrder | src/header.rs:77-85 | Big, Little or Mixed exactly when the first four bytes read as the matching constant; otherwise `UnknownByteOrder` carries the value read |
| Header.MagicOrder | src/header.rs:77-85 | the canonical magic stored in any order is recognised as that order |
| Header.SwappedMagic | src/header.rs:80-82 | the Big-Little and Big-Mixed swaps turn the canonical magic into the Little and Mixed constants |
| Header.Write | src/header.rs:250-263 | the encoding is exactly `Header::SIZE` (64) bytes long |
| Header.Read | src/header.rs:234-248 | fails exactly when fewer than 64 bytes are available |
| Header.ReadWrite | src/header.rs:234-263 | reading what was written gives the header back, whatever follows it |
| Header.WriteRead | src/header.rs:234-263 | writing what was read reproduces the 64 bytes read |
| Header.OrderedParses | src/header.rs:220-231 | `read_ordered` fails exactly on a short stream or an unknown magic, with those errors; otherwise it returns the detected order and a header whose encoding is the 64 bytes converted to big-endian |
| Header.OrderedRoundTrip | src/header.rs:220-231 | a header with the canonical magic, written and stored in any order, reads back as itself with that order |
| Header.ReadOrdered | src/header.rs:220-231 | the method consumes 64 bytes when they are there and returns `Ordered` of the stream |
| Header.New | src/header.rs:204-217 | the canonical magic, clock rate 15, release 0, the offset entry point, the checksums of `program` and `fs`, the first 20 name bytes and 4 media bytes, and zeros elsewhere |
| Channel.Source.Grant | src/stream.rs:45 | a `read` never returns more than the room or the data left, and returns 0 exactly when one of them is 0 |
| Channel.Source.AlignedGrant | src/stream.rs:45-46 | under aligned reads, a read into 4-aligned room returns a multiple of 4 |
| Channel.Source.Read | src/stream.rs:45 | copies the next granted bytes into the buffer at `from` and nothing else |
| Channel.Source.ReadMore | src/header.rs:222 | one `read` of `read_exact` extends the filled prefix with the next bytes of the stream |
| Channel.Source.ReadExact | src/header.rs:221-222 | the next `len` bytes, or `UnexpectedEof` with the stream drained when fewer remain |
| Channel.Deposit | src/stream.rs:72 | `<&mut [u8]>::write` of bytes that fit copies them at `at` and changes nothing else |
| Channel.Sink.WriteAll | src/stream.rs:124 | the sink's data grows by the bytes written |
| Channel.Sink.Flush | src/stream.rs:160 | everything written is flushed |
| Stream.Reader.WithBufferSize | src/stream.rs:26-34 | an empty buffer of the given 4-aligned capacity over the reader |
| Stream.Reader.From | src/stream.rs:22-24 | `with_buffer_size` with the 16 KiB default |
| Stream.Reader.BufRead | src/stream.rs:37-41 | hands out `buffer[idx..idx + len]` and advances `idx` |
| Stream.Reader.Refill | src/stream.rs:44-50 | resets `idx` to 0, sets `length` to the count read, and leaves the buffer holding exactly the bytes read, converted to big-endian |
| Stream.Reader.Remaining | src/stream.rs:53-55 | `idx + remaining == length` |
| Stream.Reader.Read | src/stream.rs:59-88 | the bytes handed out extend the delivered prefix of the converted stream; a short count means the buffer is drained and the stream is exhausted (or the buffer has no capacity) |
| Stream.Reader.Drain | src/stream.rs:67-85 | the loop of `read` keeps the delivered prefix and stops short only at the end of the stream |
| Stream.Reader.Advance | src/stream.rs:76-83 | one loop pass hands out the rest of the buffer and refills it, making progress unless the stream is exhausted |
| Stream.Reader.Transfer | src/stream.rs:71-73 | `buf.write(buf_read(k))` copies the next `k` buffered bytes to the caller |
| Stream.Writer.WithBufferSize | src/stream.rs:104-111 | an empty writer of the given positive 4-aligned capacity |
| Stream.Writer.From | src/stream.rs:100-102 | `with_buffer_size` with the 16 KiB default |
| Stream.Writer.BufWrite | src/stream.rs:113-118 | appends the bytes to the buffer and to what has been accepted |
| Stream.Writer.BufFlush | src/stream.rs:121-127 | the sink then holds everything accepted so far, converted from big-endian to the target order, and the buffer is empty |
| Stream.Writer.Remaining | src/stream.rs:129-131 | `length + remaining == buffer.len()` |
| Stream.Writer.Write | src/stream.rs:135-156 | every byte is accepted and `buf.len()` is returned |
| Stream.Writer.Flush | src/stream.rs:158-161 | the sink holds all bytes written, in order, converted to the target order, and is flushed |
| Io.Reader.From | src/io.rs:20-28 | an empty reader over a 16 KiB buffer |
| Io.Reader.DeliveredPrefix | src/io.rs:53-82 | what has been delivered, plus what is buffered, is a prefix of the whole converted stream |
| Io.Reader.BufRead | src/io.rs:31-35 | hands out `buffer[idx..idx + len]` and advances `idx` |
| Io.Reader.Refill | src/io.rs:38-44 | resets `idx`, sets `length` to the count read, and converts exactly those bytes from the declared order to big-endian |
| Io.Reader.Remaining | src/io.rs:47-49 | `idx + remaining == length` |
| Io.Reader.RemainingBuffered | src/io.rs:47-49 | the buffered bytes `remaining` counts are the next bytes of the converted stream after those already handed out |
| Io.Reader.Read | src/io.rs:53-82 | the bytes handed out extend the delivered prefix; a short count means everything has been delivered |
| Io.Reader.Drain | src/io.rs:61-79 | the loop of `read` keeps the delivered prefix and stops short only at the end of the stream |
| Io.Reader.Advance | src/io.rs:70-77 | one loop pass hands out the rest of the buffer and refills it, making progress unless the stream is exhausted |
| Io.Reader.Transfer | src/io.rs:65-67 | `buf.write(buf_read(k))` copies the next `k` buffered bytes to the caller |
| Io.Reader.ReadExact | src/ipl3.rs:58-59 | `read_exact` through the reader: the next `len` converted bytes, or `UnexpectedEof` once everything has been delivered |
| Io.Reader.ReadToEnd | src/rom.rs:138-140 | `read_to_end` through the reader: the rest of the converted stream, after which everything has been delivered |
| Io.Reader.ReadChunk | src/rom.rs:139 | one `read` of `read_to_end`; an empty chunk means everything has been delivered |
| Io.Writer.From | src/io.rs:94-101 | an empty writer over a 16 KiB buffer |
| Io.Writer.BufWrite | src/io.rs:103-108 | appends the bytes to the buffer and to what has been accepted |
| Io.Writer.BufFlush | src/io.rs:111-117 | the sink then holds everything accepted so far, converted to the target order (converting the declared order to big-endian is the same permutation), and the buffer is empty |
| Io.Writer.Remaining | src/io.rs:119-121 | `length + remaining == BUFFER_SIZE` |
| Io.Writer.Write | src/io.rs:125-146 | every byte is accepted and `buf.len()` is returned |
| Io.Writer.Flush | src/io.rs:148-151 | the partial buffer is drained first; the sink then holds all bytes written, converted, and is flushed |
| Rom.Corrected | src/rom.rs:84-86 | the corrected header carries the given pair, and is the same header when it already did |
| Rom.ConvertedTake | src/rom.rs:130-131 | converting an aligned prefix is the prefix of the conversion |
| Rom.Rom.From | src/rom.rs:106-113 | the four fields as given |
| Rom.Rom.Len | src/rom.rs:175-177 | the length of the whole image |
| Rom.Rom.CheckCrc | src/rom.rs:71-76 | the computed pair is the checksum of `image[HEAD_SIZE..]` with an empty file system, and the flag says whether the stored pair equals it |
| Rom.Rom.CorrectCrc | src/rom.rs:79-91 | returns whether the pair already matched; afterwards it always matches; the header is unchanged when it matched and otherwise gets the computed pair, so a second call returns true and changes nothing |
| Rom.Rom.FromImage | src/rom.rs:94-104 | header errors pass through; a detected order other than Big gives `UnsupportedEndianness`; otherwise the ROM keeps the image as it is, with the parsed header and boot loader |
| Rom.Rom.Read | src/rom.rs:120-122 | succeeds exactly when the header parses and the head is complete; the image is then the whole input converted to big-endian |
| Rom.Rom.ReadWithBody | src/rom.rs:125-151 | fails with the header's error, or with end of file when the head is short, and only then; otherwise the order is the detected one, and the image is the header bytes, the boot loader bytes and, when `read_body` is set, the rest, all converted to big-endian |
| Rom.Rom.ReadBody | src/rom.rs:130-150 | after the header: the boot loader through the translating reader, then the body when asked for, assembled into the image |
| Rom.Rom.ReadIpl3 | src/rom.rs:131 | `IPL3::read` through the translating reader reads the first 4032 converted bytes, or fails exactly when there are fewer |
| Rom.Rom.ReadImage | src/rom.rs:134-141 | the image is the header bytes, the boot loader bytes, and the rest of the converted stream when `read_body` is set |
| Rom.Rom.Write | src/rom.rs:153-173 | the sink receives the header, the boot loader and `image[HEAD_SIZE..]`, converted to the given order or else to the ROM's own; the count is the image length |
| Rom.Emit | src/rom.rs:162-168 | the three writes through a fresh translating writer, then `flush`, put their bytes converted into the sink |
| Rom.WriteParts | src/rom.rs:165-167 | the writer has accepted the header, the boot loader and the body, in that order, and counts all their bytes |
| Rom.HeadImage | src/rom.rs:134-136 | the header bytes and the boot loader bytes are the converted head of the input |
| Rom.FullImage | src/rom.rs:134-140 | the header bytes and the rest read are the whole input converted |
| Rom.Assembled | src/rom.rs:134-140 | the assembled image is the header bytes followed by the converted rest of the input |
| Rom.BootSlice | src/rom.rs:131 | the boot loader read through the reader is the converted first 4032 bytes after the header |

## Left out

- CRC-32 (`crc32fast`) in `IPL3::read` is a foreign call. It is a function parameter `crc32`; only the value-to-variant table is modelled.
- File I/O is left out: `IPL3::read_path`, `convert_rom_file`, `convert_rom_path`, file sizes and seeks. Sources and sinks are in-memory byte sequences.
- The checksum regression literals in the tests are not proved. Evaluating them needs 262144 loop iterations inside the verifier. The structural properties above are proved instead.
- `src/util.rs` (floating-point file sizes) is left out, along with every `Display`/`Debug` impl and UTF-8 decoding (`name_str`, `Media::as_str`).
- `src/bin/n64romtool.rs` and the bare-metal example are left out.
- Error-type plumbing (`thiserror`/`failure` derives, `From` impls) is left out.
- I/O errors other than end of file do not occur: sources and sinks never fail.
- Ipl3.Offset: requires that the entry point plus the offset fits in 32 bits. The source's plain `+` would panic in a debug build otherwise.
- Ipl3.Round: models `current & 0x1f` as `current % 32`. Both are the low five bits.
- Ipl3.Round: models the cycling table iterator of NUS-IPL3-6105 as indexing the table at the word position modulo 64.
- Header.Write and Header.Read: model `Header::write` and `Header::read` as functions over the 64 bytes. Their field-by-field stream calls are not modelled.
- `IPL3::write` is modelled as one `write` of the 4032 image bytes, inside Rom.Emit.
- Stream.Reader.WithBufferSize: requires a capacity that is a multiple of 4. The source only asserts this for the default size, and a refill of a misaligned count would panic in `convert(..).unwrap()`.
- Stream.Writer.WithBufferSize: requires a capacity that is a positive multiple of 4. With capacity 0, `write` never finishes on non-empty input.
- Stream.Reader.Read and Io.Reader.Read: require that the underlying stream only ever returns 4-aligned counts (`AlignedReads`). Otherwise `refill` panics in `convert(..).unwrap()`.
- Stream.Reader.Refill and Io.Reader.Refill: require `idx == length`, which every caller meets. Refilling earlier would discard buffered bytes.
- Stream.Writer.Flush and Io.Writer.Flush: require the total written to be a multiple of 4. Otherwise `buf_flush` panics in `convert(..).unwrap()`.
- Rom.Rom.Write: requires an image that is at least `HEAD_SIZE` long and a multiple of 4, for the same reason.
- Bytes.SwapLittleEndian: requires a buffer length that is a multiple of 4. This stands in for the `assert_eq!` panic at `src/bytes.rs:23`.
- Bytes.SwapMixed: requires an even buffer length. This stands in for the `assert_eq!` panic at `src/bytes.rs:41`.
- Bytes.SwapBytes: carries the requires of the swap it dispatches to, a multiple of 4 for `LittleEndian` and an even length for `Mixed`, for the same two panics.
- Header.InferByteOrder: requires at least 4 bytes. `BigEndian::read_u32` at `src/header.rs:78` panics on a shorter slice.
- Header.New: requires a name of at least 20 bytes and media of at least 4 bytes, for the slices at `src/header.rs:207` and `src/header.rs:215`. It also requires that the entry point plus the offset fits in 32 bits, for the `+` inside `offset`, called at `src/header.rs:210`.
- Rom.Rom.Read and Rom.Rom.ReadWithBody: require `AlignedReads`, so that every refill of the translating reader converts a 4-aligned count. With `readBody` false, this also excludes a long input of unaligned length that the source reads without panicking, because only one 16 KiB refill, which is aligned, is ever converted there.
- Rom.Rom.FromImage and Rom.Rom.CheckCrc: require an image of at least `HEAD_SIZE` bytes. The source slices `image[..HEAD_SIZE]` or `image[HEAD_SIZE..]`, which panics on a shorter image.
- Io.Reader.ReadToEnd: uses one fixed-size probe buffer per `read`. The growth strategy of `Vec` in `read_to_end` is not modelled.
- The ROM image is an array whose bytes can change in place, as `convert_rom` changes them. The array itself is fixed once the ROM is built, whereas the source's `Vec` could be replaced or resized.

## Findings

| source | as written | input that shows it | evidently intended | confidence | as-written member | corrected member |
|---|---|---|---|---|---|---|
| src/bytes.rs:24-32 | `LittleEndian::swap` rotates each 4-byte group left by one byte | the big-endian magic 80 37 12 40 becomes 37 12 40 80; read as 0x37124080, no byte order claims it | reversing each group, as `swap_big_little` does, which gives 40 12 37 80, the little-endian magic | medium, not executed; the module is an older variant that may have other users | Bytes.RotatedMagicUnknown | Header.SwappedMagic |
