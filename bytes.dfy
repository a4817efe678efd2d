/**
 * The older byte-swapping module (src/bytes.rs), kept apart from src/convert.rs
 * because it behaves differently: its `LittleEndian` swap rotates each 4-byte
 * group left by one byte instead of reversing it, and its `Mixed` swap works on
 * 2-byte pairs.
 */
module Bytes {
  import Endian
  import Convert
  import Header
  import Wrappers

  type byte = Endian.byte

  /** The three `Swap` implementations, selected by the type parameter of `swap_bytes`. */
  datatype SwapKind = BigEndian | LittleEndian | Mixed

  /** One group after `LittleEndian::swap`: `new[k] == old[(k + 1) % 4]`. */
  function RotateGroup(w: seq<byte>): (r: seq<byte>)
    requires |w| == 4
    ensures |r| == 4
  {
    [w[1], w[2], w[3], w[0]]
  }

  /** Every complete 4-byte group rotated left by one byte. */
  function Rotated(s: seq<byte>): (r: seq<byte>)
    ensures |r| == |s|
    decreases |s|
  {
    if |s| < 4 then s else RotateGroup(s[..4]) + Rotated(s[4..])
  }

  /** Every complete 2-byte pair exchanged. */
  function PairSwapped(s: seq<byte>): (r: seq<byte>)
    ensures |r| == |s|
    decreases |s|
  {
    if |s| < 2 then s else [s[1], s[0]] + PairSwapped(s[2..])
  }

  // ---------------------------------------------------------------------------
  // Laws.
  // ---------------------------------------------------------------------------

  /** Two rotations by one byte are the Little-Mixed swap of src/convert.rs. */
  lemma {:induction false} RotatedTwice(s: seq<byte>)
    ensures Rotated(Rotated(s)) == Convert.Apply(Convert.LittleMixed, s)
    decreases |s|
  {
    if |s| >= 4 {
      var t := Rotated(s);
      assert t[..4] == RotateGroup(s[..4]) && t[4..] == Rotated(s[4..]);
      RotatedTwice(s[4..]);
    }
  }

  /** Four rotations by one byte give the data back. */
  lemma RotatedFourTimes(s: seq<byte>)
    ensures Rotated(Rotated(Rotated(Rotated(s)))) == s
  {
    RotatedTwice(s);
    RotatedTwice(Rotated(Rotated(s)));
    Convert.ApplyInvolution(Convert.LittleMixed, s);
  }

  /** The rotation is not its own inverse. */
  lemma RotatedNotInvolution()
    ensures Rotated(Rotated([1, 2, 3, 4])) != [1, 2, 3, 4]
  {
    assert Rotated([1, 2, 3, 4]) == [2, 3, 4, 1];
    assert Rotated([2, 3, 4, 1]) == [3, 4, 1, 2];
  }

  /**
   * `LittleEndian::swap` does not produce little-endian data: on the canonical
   * big-endian magic it yields a word `infer_byte_order` rejects, where the
   * reversal of src/convert.rs yields the little-endian magic (`Header.SwappedMagic`).
   */
  lemma RotatedMagicUnknown()
    ensures Rotated(Header.MagicNew()) == [0x37, 0x12, 0x40, 0x80]
    ensures Header.InferByteOrder(Rotated(Header.MagicNew())) == Wrappers.Err(Header.UnknownByteOrder(0x3712_4080))
    ensures Convert.Apply(Convert.BigLittle, Header.MagicNew()) == [0x40, 0x12, 0x37, 0x80]
  {
    var m := Header.MagicNew();
    assert m[..4] == m && m[4..] == [];
    assert Rotated(m) == RotateGroup(m);
    assert Convert.Apply(Convert.BigLittle, m) == Convert.SwapGroup(Convert.BigLittle, m);
    assert Endian.ReadU32([0x37, 0x12, 0x40, 0x80], 0) == 0x3712_4080;
  }

  /** Exchanging adjacent pairs undoes itself. */
  lemma {:induction false} PairSwappedInvolution(s: seq<byte>)
    ensures PairSwapped(PairSwapped(s)) == s
    decreases |s|
  {
    if |s| >= 2 {
      var t := PairSwapped(s);
      assert t[..2] == [s[1], s[0]] && t[2..] == PairSwapped(s[2..]);
      PairSwappedInvolution(s[2..]);
      assert s == [s[0], s[1]] + s[2..];
    }
  }

  /** On 4-aligned data the pair exchange is the Big-Mixed swap of src/convert.rs. */
  lemma {:induction false} PairSwappedIsBigMixed(s: seq<byte>)
    requires |s| % 4 == 0
    ensures PairSwapped(s) == Convert.Apply(Convert.BigMixed, s)
    decreases |s|
  {
    if |s| >= 4 {
      assert s[2..][2..] == s[4..];
      PairSwappedIsBigMixed(s[4..]);
    }
  }

  // ---------------------------------------------------------------------------
  // In-place implementation.
  // ---------------------------------------------------------------------------

  lemma RotateStep(s: seq<byte>, before: seq<byte>, after: seq<byte>, i: nat)
    requires 4 * i + 4 <= |s| == |before|
    requires before[..4 * i] == Rotated(s[..4 * i]) && before[4 * i..] == s[4 * i..]
    requires after == before[..4 * i] + RotateGroup(before[4 * i..4 * i + 4]) + before[4 * i + 4..]
    ensures after[..4 * i + 4] == Rotated(s[..4 * i + 4]) && after[4 * i + 4..] == s[4 * i + 4..]
  {
    var w := s[4 * i..4 * i + 4];
    assert before[4 * i..4 * i + 4] == w;
    assert before[4 * i + 4..] == s[4 * i + 4..];
    RotatedAppend(s[..4 * i], w);
    assert s[..4 * i] + w == s[..4 * i + 4];
  }

  lemma {:induction false} RotatedAppend(x: seq<byte>, w: seq<byte>)
    requires |x| % 4 == 0 && |w| == 4
    ensures Rotated(x + w) == Rotated(x) + RotateGroup(w)
    decreases |x|
  {
    if |x| > 0 {
      assert |x| >= 4;
      assert (x + w)[..4] == x[..4] && (x + w)[4..] == x[4..] + w;
      RotatedAppend(x[4..], w);
    } else {
      assert x + w == w;
      assert Rotated(w) == RotateGroup(w) + Rotated(w[4..]);
    }
  }

  lemma PairStep(s: seq<byte>, before: seq<byte>, after: seq<byte>, i: nat)
    requires 2 * i + 2 <= |s| == |before|
    requires before[..2 * i] == PairSwapped(s[..2 * i]) && before[2 * i..] == s[2 * i..]
    requires after == before[..2 * i] + [before[2 * i + 1], before[2 * i]] + before[2 * i + 2..]
    ensures after[..2 * i + 2] == PairSwapped(s[..2 * i + 2]) && after[2 * i + 2..] == s[2 * i + 2..]
  {
    assert before[2 * i] == s[2 * i] && before[2 * i + 1] == s[2 * i + 1];
    assert before[2 * i + 2..] == s[2 * i + 2..];
    PairSwappedAppend(s[..2 * i], s[2 * i..2 * i + 2]);
    assert s[..2 * i] + s[2 * i..2 * i + 2] == s[..2 * i + 2];
  }

  lemma {:induction false} PairSwappedAppend(x: seq<byte>, p: seq<byte>)
    requires |x| % 2 == 0 && |p| == 2
    ensures PairSwapped(x + p) == PairSwapped(x) + [p[1], p[0]]
    decreases |x|
  {
    if |x| > 0 {
      assert (x + p)[..2] == x[..2] && (x + p)[2..] == x[2..] + p;
      PairSwappedAppend(x[2..], p);
    } else {
      assert x + p == p;
    }
  }

  /** `BigEndian::swap`: leaves the buffer as it is. */
  method SwapBigEndian(buf: array<byte>)
    ensures buf[..] == old(buf[..])
  {
  }

  /** `LittleEndian::swap`: asserts 4-alignment, then rotates each group through a temporary. */
  method SwapLittleEndian(buf: array<byte>)
    requires buf.Length % 4 == 0
    modifies buf
    ensures buf[..] == Rotated(old(buf[..]))
  {
    ghost var s := buf[..];
    var swaps := buf.Length / 4;
    for i := 0 to swaps
      invariant buf[..4 * i] == Rotated(s[..4 * i]) && buf[4 * i..] == s[4 * i..]
    {
      ghost var before := buf[..];
      var idx := i * 4;
      var temp := buf[idx];
      buf[idx] := buf[idx + 1];
      buf[idx + 1] := buf[idx + 2];
      buf[idx + 2] := buf[idx + 3];
      buf[idx + 3] := temp;
      assert buf[..] == before[idx := before[idx + 1]][idx + 1 := before[idx + 2]]
        [idx + 2 := before[idx + 3]][idx + 3 := before[idx]];
      RotateUpdate(before, idx);
      RotateStep(s, before, buf[..], i);
    }
    assert buf[..] == buf[..4 * swaps] && s == s[..4 * swaps];
  }

  /** The four element writes of one `LittleEndian` iteration rotate that group in place. */
  lemma RotateUpdate(s: seq<byte>, idx: nat)
    requires idx + 4 <= |s|
    ensures s[idx := s[idx + 1]][idx + 1 := s[idx + 2]][idx + 2 := s[idx + 3]][idx + 3 := s[idx]]
      == s[..idx] + RotateGroup(s[idx..idx + 4]) + s[idx + 4..]
  {
    var t := s[idx := s[idx + 1]][idx + 1 := s[idx + 2]][idx + 2 := s[idx + 3]][idx + 3 := s[idx]];
    var u := s[..idx] + RotateGroup(s[idx..idx + 4]) + s[idx + 4..];
    assert |t| == |u|;
    forall k | 0 <= k < |t|
      ensures t[k] == u[k]
    {
      if k < idx {
      } else if k < idx + 4 {
      } else {
      }
    }
  }

  /** `Mixed::swap`: asserts 2-alignment, then exchanges each pair through a temporary. */
  method SwapMixed(buf: array<byte>)
    requires buf.Length % 2 == 0
    modifies buf
    ensures buf[..] == PairSwapped(old(buf[..]))
  {
    ghost var s := buf[..];
    var swaps := buf.Length / 2;
    for i := 0 to swaps
      invariant buf[..2 * i] == PairSwapped(s[..2 * i]) && buf[2 * i..] == s[2 * i..]
    {
      ghost var before := buf[..];
      var idx := i * 2;
      var temp := buf[idx];
      buf[idx] := buf[idx + 1];
      buf[idx + 1] := temp;
      assert buf[..] == before[idx := before[idx + 1]][idx + 1 := before[idx]];
      PairUpdate(before, idx);
      PairStep(s, before, buf[..], i);
    }
    assert buf[..] == buf[..2 * swaps] && s == s[..2 * swaps];
  }

  /** The two element writes of one `Mixed` iteration exchange that pair in place. */
  lemma PairUpdate(s: seq<byte>, idx: nat)
    requires idx + 2 <= |s|
    ensures s[idx := s[idx + 1]][idx + 1 := s[idx]] == s[..idx] + [s[idx + 1], s[idx]] + s[idx + 2..]
  {
    var t := s[idx := s[idx + 1]][idx + 1 := s[idx]];
    var u := s[..idx] + [s[idx + 1], s[idx]] + s[idx + 2..];
    assert |t| == |u|;
    forall k | 0 <= k < |t|
      ensures t[k] == u[k]
    {
      if k < idx {
      } else if k < idx + 2 {
      } else {
      }
    }
  }

  /** The permutation `swap_bytes::<T>` performs. */
  function Swapped(kind: SwapKind, s: seq<byte>): seq<byte>
  {
    match kind
    case BigEndian => s
    case LittleEndian => Rotated(s)
    case Mixed => PairSwapped(s)
  }

  /** `swap_bytes::<T>`: delegates to `T::swap`, with that implementation's alignment assertion. */
  method SwapBytes(kind: SwapKind, buf: array<byte>)
    requires kind == LittleEndian ==> buf.Length % 4 == 0
    requires kind == Mixed ==> buf.Length % 2 == 0
    modifies buf
    ensures buf[..] == Swapped(kind, old(buf[..]))
  {
    match kind
    case BigEndian => SwapBigEndian(buf);
    case LittleEndian => SwapLittleEndian(buf);
    case Mixed => SwapMixed(buf);
  }
}
