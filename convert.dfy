/**
 * Byte-order conversion of ROM data (src/convert.rs).
 *
 * Every conversion permutes bytes inside 4-byte groups. The pure part of this
 * module describes the permutations and proves the laws they obey; the
 * imperative part swaps the bytes of an array prefix in place, as the Rust
 * code does on a `&mut [u8]` slice, and is proved to compute `Converted`.
 */
module Convert {
  import opened Endian
  import opened Wrappers

  datatype Error = AlignmentError(len: nat)

  datatype ConvertStatus = AlreadyConverted | Complete

  /** The three in-group swaps: `swap_big_little`, `swap_big_mixed`, `swap_little_mixed`. */
  datatype Swap = BigLittle | BigMixed | LittleMixed

  /**
   * The swap each converter (`BigEndianConverter`, `LittleEndianConverter`,
   * `MixedEndianConverter`) performs to reach `target`; `None` when it answers
   * `AlreadyConverted`.
   */
  function SwapFor(current: Endianness, target: Endianness): Option<Swap>
  {
    match current
    case Big => (match target case Big => None case Little => Some(BigLittle) case Mixed => Some(BigMixed))
    case Little => (match target case Big => Some(BigLittle) case Little => None case Mixed => Some(LittleMixed))
    case Mixed => (match target case Big => Some(BigMixed) case Little => Some(LittleMixed) case Mixed => None)
  }

  /** One 4-byte group after swap `sw`. */
  function SwapGroup(sw: Swap, w: seq<byte>): (r: seq<byte>)
    requires |w| == 4
    ensures |r| == 4
  {
    match sw
    case BigLittle => [w[3], w[2], w[1], w[0]]
    case BigMixed => [w[1], w[0], w[3], w[2]]
    case LittleMixed => [w[2], w[3], w[0], w[1]]
  }

  /**
   * `sw` applied to every complete 4-byte group of `s`, front to back; a trailing
   * partial group is left alone, as `chunks_exact_mut(4)` leaves it.
   */
  function Apply(sw: Swap, s: seq<byte>): (r: seq<byte>)
    ensures |r| == |s|
    decreases |s|
  {
    if |s| < 4 then s else SwapGroup(sw, s[..4]) + Apply(sw, s[4..])
  }

  /** `convert` on the data, once alignment has been checked. */
  function Converted(current: Endianness, target: Endianness, s: seq<byte>): (r: seq<byte>)
    ensures |r| == |s|
  {
    match SwapFor(current, target)
    case None => s
    case Some(sw) => Apply(sw, s)
  }

  /** `Converted` on a single group. */
  function ConvertGroup(current: Endianness, target: Endianness, w: seq<byte>): (r: seq<byte>)
    requires |w| == 4
    ensures |r| == 4
  {
    match SwapFor(current, target)
    case None => w
    case Some(sw) => SwapGroup(sw, w)
  }

  /** Conversion proceeds one group at a time. */
  lemma ConvertedUnfold(current: Endianness, target: Endianness, s: seq<byte>)
    requires |s| >= 4
    ensures Converted(current, target, s)
         == ConvertGroup(current, target, s[..4]) + Converted(current, target, s[4..])
  {
  }

  // ---------------------------------------------------------------------------
  // An independent description: what it means for words to be stored in an order.
  // ---------------------------------------------------------------------------

  /**
   * A big-endian word `w` as it sits in memory in order `o`: reversed for Little,
   * with its two 16-bit halves each byte-swapped for Mixed.
   */
  function LayoutGroup(o: Endianness, w: seq<byte>): (r: seq<byte>)
    requires |w| == 4
    ensures |r| == 4
  {
    match o
    case Big => w
    case Little => [w[3], w[2], w[1], w[0]]
    case Mixed => [w[1], w[0], w[3], w[2]]
  }

  /** The big-endian data `c` as it is stored in order `o`. */
  function Encode(o: Endianness, c: seq<byte>): (r: seq<byte>)
    ensures |r| == |c|
    decreases |c|
  {
    if |c| < 4 then c else LayoutGroup(o, c[..4]) + Encode(o, c[4..])
  }

  /** Converting data stored in `current` order yields the same data stored in `target` order. */
  lemma {:induction false} ConvertedReencodes(current: Endianness, target: Endianness, c: seq<byte>)
    ensures Converted(current, target, Encode(current, c)) == Encode(target, c)
    decreases |c|
  {
    if |c| >= 4 {
      var e := Encode(current, c);
      assert e[..4] == LayoutGroup(current, c[..4]) && e[4..] == Encode(current, c[4..]);
      ConvertedUnfold(current, target, e);
      ConvertedReencodes(current, target, c[4..]);
    }
  }

  /** Big order is the identity layout. */
  lemma {:induction false} EncodeBig(c: seq<byte>)
    ensures Encode(Big, c) == c
    decreases |c|
  {
    if |c| >= 4 {
      EncodeBig(c[4..]);
      assert c == c[..4] + c[4..];
    }
  }

  // ---------------------------------------------------------------------------
  // Laws of the swaps.
  // ---------------------------------------------------------------------------

  /** Each of the three swaps undoes itself. */
  lemma {:induction false} ApplyInvolution(sw: Swap, s: seq<byte>)
    ensures Apply(sw, Apply(sw, s)) == s
    decreases |s|
  {
    if |s| >= 4 {
      var t := Apply(sw, s);
      assert t[..4] == SwapGroup(sw, s[..4]) && t[4..] == Apply(sw, s[4..]);
      ApplyInvolution(sw, s[4..]);
      assert s == s[..4] + s[4..];
    }
  }

  /** Composition law: the Big-Little swap followed by the Big-Mixed swap is the Little-Mixed swap. */
  lemma {:induction false} ComposeBigLittleBigMixed(s: seq<byte>)
    ensures Apply(BigMixed, Apply(BigLittle, s)) == Apply(LittleMixed, s)
    decreases |s|
  {
    if |s| >= 4 {
      var t := Apply(BigLittle, s);
      assert t[..4] == SwapGroup(BigLittle, s[..4]) && t[4..] == Apply(BigLittle, s[4..]);
      ComposeBigLittleBigMixed(s[4..]);
    }
  }

  /** Converting A to B performs the same permutation as converting B to A. */
  lemma ConvertedSymmetric(a: Endianness, b: Endianness, s: seq<byte>)
    ensures Converted(a, b, s) == Converted(b, a, s)
    ensures SwapFor(a, b) == SwapFor(b, a)
    ensures SwapFor(a, b) == None <==> a == b
  {
  }

  /** Converting A to B and back restores the data. */
  lemma {:induction false} ConvertedRoundTrip(a: Endianness, b: Endianness, s: seq<byte>)
    ensures Converted(b, a, Converted(a, b, s)) == s
  {
    match SwapFor(a, b)
    case None =>
    case Some(sw) => ApplyInvolution(sw, s);
  }

  lemma GroupTransitive(a: Endianness, b: Endianness, c: Endianness, w: seq<byte>)
    requires |w| == 4
    ensures ConvertGroup(b, c, ConvertGroup(a, b, w)) == ConvertGroup(a, c, w)
  {
  }

  /** Converting A to B and then B to C is converting A to C. */
  lemma {:induction false} ConvertedTransitive(a: Endianness, b: Endianness, c: Endianness, s: seq<byte>)
    ensures Converted(b, c, Converted(a, b, s)) == Converted(a, c, s)
    decreases |s|
  {
    if |s| >= 4 {
      var t := Converted(a, b, s);
      ConvertedUnfold(a, b, s);
      assert t[..4] == ConvertGroup(a, b, s[..4]) && t[4..] == Converted(a, b, s[4..]);
      ConvertedUnfold(b, c, t);
      ConvertedUnfold(a, c, s);
      GroupTransitive(a, b, c, s[..4]);
      ConvertedTransitive(a, b, c, s[4..]);
    }
  }

  /** Conversion of an aligned prefix followed by more data is done piece by piece. */
  lemma {:induction false} ConvertedAppend(a: Endianness, b: Endianness, x: seq<byte>, y: seq<byte>)
    requires |x| % 4 == 0
    ensures Converted(a, b, x + y) == Converted(a, b, x) + Converted(a, b, y)
    decreases |x|
  {
    if |x| > 0 {
      var s := x + y;
      assert |x| >= 4;
      assert s[..4] == x[..4] && s[4..] == x[4..] + y;
      ConvertedUnfold(a, b, s);
      ConvertedUnfold(a, b, x);
      ConvertedAppend(a, b, x[4..], y);
    } else {
      assert x + y == y;
    }
  }

  /** Group `g` of the result is the conversion of group `g` of the input, and nothing else. */
  lemma {:induction false} ConvertedGroup(a: Endianness, b: Endianness, s: seq<byte>, g: nat)
    requires 4 * g + 4 <= |s|
    ensures Converted(a, b, s)[4 * g..4 * g + 4] == ConvertGroup(a, b, s[4 * g..4 * g + 4])
    decreases g
  {
    ConvertedUnfold(a, b, s);
    if g > 0 {
      ConvertedGroup(a, b, s[4..], g - 1);
      assert s[4..][4 * (g - 1)..4 * (g - 1) + 4] == s[4 * g..4 * g + 4];
      GroupAfterFirst(ConvertGroup(a, b, s[..4]), Converted(a, b, s[4..]), g);
    }
  }

  /** Group `g > 0` of a 4-byte group followed by `rest` is group `g - 1` of `rest`. */
  lemma GroupAfterFirst(first: seq<byte>, rest: seq<byte>, g: nat)
    requires |first| == 4 && 0 < g && 4 * g <= |rest|
    ensures (first + rest)[4 * g..4 * g + 4] == rest[4 * (g - 1)..4 * (g - 1) + 4]
  {
  }

  // ---------------------------------------------------------------------------
  // In-place implementation.
  // ---------------------------------------------------------------------------

  /** `swap_big_little` on the group at `off`: bytes 0<->3 and 1<->2. */
  method SwapBigLittle(buf: array<byte>, off: nat)
    requires off + 4 <= buf.Length
    modifies buf
    ensures buf[..] == old(buf[..off]) + SwapGroup(BigLittle, old(buf[off..off + 4])) + old(buf[off + 4..])
  {
    buf[off], buf[off + 3] := buf[off + 3], buf[off];
    buf[off + 1], buf[off + 2] := buf[off + 2], buf[off + 1];
  }

  /** `swap_big_mixed` on the group at `off`: bytes 0<->1 and 2<->3. */
  method SwapBigMixed(buf: array<byte>, off: nat)
    requires off + 4 <= buf.Length
    modifies buf
    ensures buf[..] == old(buf[..off]) + SwapGroup(BigMixed, old(buf[off..off + 4])) + old(buf[off + 4..])
  {
    buf[off], buf[off + 1] := buf[off + 1], buf[off];
    buf[off + 2], buf[off + 3] := buf[off + 3], buf[off + 2];
  }

  /** `swap_little_mixed` on the group at `off`: bytes 0<->2 and 1<->3. */
  method SwapLittleMixed(buf: array<byte>, off: nat)
    requires off + 4 <= buf.Length
    modifies buf
    ensures buf[..] == old(buf[..off]) + SwapGroup(LittleMixed, old(buf[off..off + 4])) + old(buf[off + 4..])
  {
    buf[off], buf[off + 2] := buf[off + 2], buf[off];
    buf[off + 1], buf[off + 3] := buf[off + 3], buf[off + 1];
  }

  /** `Apply` of an aligned prefix followed by more data is done piece by piece. */
  lemma {:induction false} ApplyAppend(sw: Swap, x: seq<byte>, y: seq<byte>)
    requires |x| % 4 == 0
    ensures Apply(sw, x + y) == Apply(sw, x) + Apply(sw, y)
    decreases |x|
  {
    if |x| > 0 {
      var s := x + y;
      assert |x| >= 4;
      assert s[..4] == x[..4] && s[4..] == x[4..] + y;
      ApplyAppend(sw, x[4..], y);
      calc {
        Apply(sw, s);
        SwapGroup(sw, x[..4]) + Apply(sw, x[4..] + y);
        SwapGroup(sw, x[..4]) + (Apply(sw, x[4..]) + Apply(sw, y));
        (SwapGroup(sw, x[..4]) + Apply(sw, x[4..])) + Apply(sw, y);
        Apply(sw, x) + Apply(sw, y);
      }
    } else {
      assert x + y == y;
    }
  }

  /** The swap helper named by `sw`, on the group at `off`. */
  method SwapAt(sw: Swap, buf: array<byte>, off: nat)
    requires off + 4 <= buf.Length
    modifies buf
    ensures buf[..] == old(buf[..off]) + SwapGroup(sw, old(buf[off..off + 4])) + old(buf[off + 4..])
  {
    match sw
    case BigLittle => SwapBigLittle(buf, off);
    case BigMixed => SwapBigMixed(buf, off);
    case LittleMixed => SwapLittleMixed(buf, off);
  }

  /** One more group swapped in place extends the converted prefix by one group. */
  lemma SwapStep(sw: Swap, s: seq<byte>, before: seq<byte>, after: seq<byte>, g: nat)
    requires 4 * g + 4 <= |s| == |before|
    requires before[..4 * g] == Apply(sw, s[..4 * g]) && before[4 * g..] == s[4 * g..]
    requires after == before[..4 * g] + SwapGroup(sw, before[4 * g..4 * g + 4]) + before[4 * g + 4..]
    ensures after[..4 * g + 4] == Apply(sw, s[..4 * g + 4]) && after[4 * g + 4..] == s[4 * g + 4..]
  {
    var w := s[4 * g..4 * g + 4];
    assert before[4 * g..4 * g + 4] == w;
    assert before[4 * g + 4..] == s[4 * g + 4..];
    assert after[..4 * g + 4] == before[..4 * g] + SwapGroup(sw, w);
    assert Apply(sw, w) == SwapGroup(sw, w) + Apply(sw, w[4..]);
    ApplyAppend(sw, s[..4 * g], w);
    assert s[..4 * g] + w == s[..4 * g + 4];
  }

  /** `for chunk in buf[..len].chunks_exact_mut(4) { swap(chunk) }`. */
  method SwapGroups(sw: Swap, buf: array<byte>, len: nat)
    requires len <= buf.Length
    modifies buf
    ensures buf[..len] == Apply(sw, old(buf[..len]))
    ensures buf[len..] == old(buf[len..])
  {
    ghost var s := buf[..];
    var g := 0;
    while g < len / 4
      invariant 0 <= g <= len / 4
      invariant buf[..4 * g] == Apply(sw, s[..4 * g])
      invariant buf[4 * g..] == s[4 * g..]
      decreases len / 4 - g
    {
      ghost var before := buf[..];
      SwapAt(sw, buf, 4 * g);
      SwapStep(sw, s, before, buf[..], g);
      g := g + 1;
    }
    SwapTail(sw, s, buf[..], len);
  }

  /** Once every complete group of the prefix is swapped, the prefix is converted. */
  lemma SwapTail(sw: Swap, s: seq<byte>, t: seq<byte>, len: nat)
    requires len <= |s| == |t|
    requires t[..4 * (len / 4)] == Apply(sw, s[..4 * (len / 4)]) && t[4 * (len / 4)..] == s[4 * (len / 4)..]
    ensures t[..len] == Apply(sw, s[..len]) && t[len..] == s[len..]
  {
    var k := 4 * (len / 4);
    assert |s[k..len]| < 4;
    assert Apply(sw, s[k..len]) == s[k..len];
    ApplyAppend(sw, s[..k], s[k..len]);
    assert s[..k] + s[k..len] == s[..len];
    assert t[..len] == t[..k] + t[k..len];
    assert t[k..len] == s[k..len];
  }

  /** `BigEndianConverter` through `convert_with`: the `convert_to_*` chosen by `target`. */
  method ConvertFromBig(buf: array<byte>, len: nat, target: Endianness) returns (status: ConvertStatus)
    requires len <= buf.Length
    modifies buf
    ensures buf[..len] == Converted(Big, target, old(buf[..len])) && buf[len..] == old(buf[len..])
    ensures status == if target == Big then AlreadyConverted else Complete
  {
    match target
    case Big => status := AlreadyConverted;
    case Little => SwapGroups(BigLittle, buf, len); status := Complete;
    case Mixed => SwapGroups(BigMixed, buf, len); status := Complete;
  }

  /** `LittleEndianConverter` through `convert_with`. */
  method ConvertFromLittle(buf: array<byte>, len: nat, target: Endianness) returns (status: ConvertStatus)
    requires len <= buf.Length
    modifies buf
    ensures buf[..len] == Converted(Little, target, old(buf[..len])) && buf[len..] == old(buf[len..])
    ensures status == if target == Little then AlreadyConverted else Complete
  {
    match target
    case Big => SwapGroups(BigLittle, buf, len); status := Complete;
    case Little => status := AlreadyConverted;
    case Mixed => SwapGroups(LittleMixed, buf, len); status := Complete;
  }

  /** `MixedEndianConverter` through `convert_with`. */
  method ConvertFromMixed(buf: array<byte>, len: nat, target: Endianness) returns (status: ConvertStatus)
    requires len <= buf.Length
    modifies buf
    ensures buf[..len] == Converted(Mixed, target, old(buf[..len])) && buf[len..] == old(buf[len..])
    ensures status == if target == Mixed then AlreadyConverted else Complete
  {
    match target
    case Big => SwapGroups(BigMixed, buf, len); status := Complete;
    case Little => SwapGroups(LittleMixed, buf, len); status := Complete;
    case Mixed => status := AlreadyConverted;
  }

  /**
   * `convert(&mut buf[..len], current, target)`: rejects a slice whose length is
   * not a multiple of 4 without touching it; otherwise converts it in place.
   */
  method ConvertPrefix(buf: array<byte>, len: nat, current: Endianness, target: Endianness)
    returns (r: Result<ConvertStatus, Error>)
    requires len <= buf.Length
    modifies buf
    ensures len % 4 != 0 ==> r == Err(AlignmentError(len)) && buf[..] == old(buf[..])
    ensures len % 4 == 0 ==> r == Ok(if current == target then AlreadyConverted else Complete)
    ensures len % 4 == 0 ==> buf[..len] == Converted(current, target, old(buf[..len]))
    ensures buf[len..] == old(buf[len..])
    ensures r == Ok(Complete) <==> len % 4 == 0 && current != target
  {
    if len % 4 == 0 {
      var status: ConvertStatus;
      match current {
        case Big => status := ConvertFromBig(buf, len, target);
        case Little => status := ConvertFromLittle(buf, len, target);
        case Mixed => status := ConvertFromMixed(buf, len, target);
      }
      r := Ok(status);
    } else {
      r := Err(AlignmentError(len));
    }
  }
}
