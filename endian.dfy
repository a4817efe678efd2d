/**
 * Shared vocabulary of the ROM library: bytes, 32-bit words, the three byte
 * orders a ROM image can be stored in, and the big-endian `u32` codec that the
 * header and the checksum engine both use (`byteorder::BigEndian`).
 */
module Endian {

  const BYTE_LIMIT: int := 0x100
  const U32_LIMIT: int := 0x1_0000_0000

  /** `u8`. */
  type byte = x: int | 0 <= x < BYTE_LIMIT
  /** `u32`; wrap-around is written out where the source relies on it. */
  type word = x: int | 0 <= x < U32_LIMIT

  /** The one I/O failure the model can produce: a read that ends before the bytes it needs. */
  datatype IoError = UnexpectedEof

  /** The order in which the bytes of each 32-bit word are stored. */
  datatype Endianness = Big | Little | Mixed

  /** `BigEndian::read_u32` on the four bytes at `off`. */
  function ReadU32(s: seq<byte>, off: nat): word
    requires off + 4 <= |s|
  {
    s[off] as int * 0x100_0000 + s[off + 1] as int * 0x1_0000 + s[off + 2] as int * 0x100 + s[off + 3] as int
  }

  /** `BigEndian::write_u32`: the four bytes of `w`, most significant first. */
  function U32Bytes(w: word): (r: seq<byte>)
    ensures |r| == 4
  {
    [w / 0x100_0000, (w / 0x1_0000) % 0x100, (w / 0x100) % 0x100, w % 0x100]
  }

  lemma ReadWriteU32(w: word)
    ensures ReadU32(U32Bytes(w), 0) == w
  {
    var r := U32Bytes(w);
    assert w == (w / 0x100) * 0x100 + w % 0x100;
    assert w / 0x100 == (w / 0x1_0000) * 0x100 + (w / 0x100) % 0x100;
    assert w / 0x1_0000 == (w / 0x100_0000) * 0x100 + (w / 0x1_0000) % 0x100;
  }

  lemma WriteReadU32(s: seq<byte>, off: nat)
    requires off + 4 <= |s|
    ensures U32Bytes(ReadU32(s, off)) == s[off..off + 4]
  {
    var w := ReadU32(s, off);
    var b0, b1, b2, b3 := s[off] as int, s[off + 1] as int, s[off + 2] as int, s[off + 3] as int;
    assert w == ((b0 * 0x100 + b1) * 0x100 + b2) * 0x100 + b3;
    DivMod(w, (b0 * 0x100 + b1) * 0x100 + b2, b3);
    DivMod((b0 * 0x100 + b1) * 0x100 + b2, b0 * 0x100 + b1, b2);
    DivMod(b0 * 0x100 + b1, b0, b1);
    assert w / 0x1_0000 == (w / 0x100) / 0x100;
    assert w / 0x100_0000 == (w / 0x1_0000) / 0x100;
  }

  /** Splitting `x = q * 256 + r` with a byte-sized `r`. */
  lemma DivMod(x: int, q: int, r: int)
    requires 0 <= r < 0x100 && x == q * 0x100 + r
    ensures x / 0x100 == q && x % 0x100 == r
  {
  }

  /** Reading a word only looks at its own four bytes. */
  lemma ReadU32Local(s: seq<byte>, off: nat, t: seq<byte>, off': nat)
    requires off + 4 <= |s| && off' + 4 <= |t|
    requires s[off..off + 4] == t[off'..off' + 4]
    ensures ReadU32(s, off) == ReadU32(t, off')
  {
    assert s[off] == t[off'] && s[off + 1] == t[off' + 1];
    assert s[off + 2] == t[off' + 2] && s[off + 3] == t[off' + 3];
  }
}
