/**
 * The `u32` operations the checksum engine uses, on words modelled as bounded
 * integers: wrapping addition and multiplication, bitwise exclusive or, and left
 * rotation.
 */
module Word32 {
  import opened Endian

  function Pow2(n: nat): (r: nat)
    ensures r >= 1
  {
    if n == 0 then 1 else 2 * Pow2(n - 1)
  }

  lemma {:induction false} Pow2Add(a: nat, b: nat)
    ensures Pow2(a + b) == Pow2(a) * Pow2(b)
    decreases a
  {
    if a > 0 {
      Pow2Add(a - 1, b);
      assert Pow2(a + b) == 2 * Pow2(a - 1 + b);
    }
  }

  lemma Pow2Word()
    ensures Pow2(32) == U32_LIMIT
  {
    assert Pow2(8) == 0x100;
    Pow2Add(8, 8);
    Pow2Add(16, 16);
  }

  /** `u32::wrapping_add`, the `+` of a release build. */
  function WrappingAdd(a: word, b: word): word
  {
    (a + b) % U32_LIMIT
  }

  /**
   * The overflow test of the checksum loop: a wrapped sum is smaller than an
   * addend exactly when the true sum does not fit in 32 bits.
   */
  lemma AddCarry(a: word, b: word)
    ensures WrappingAdd(a, b) < b <==> a + b >= U32_LIMIT
    ensures WrappingAdd(a, b) < a <==> a + b >= U32_LIMIT
  {
    AddWraps(a, b);
  }

  /** The wrapped sum is the true sum, less 2^32 when the true sum overflows. */
  lemma AddWraps(a: word, b: word)
    ensures a + b < U32_LIMIT ==> WrappingAdd(a, b) == a + b
    ensures a + b >= U32_LIMIT ==> WrappingAdd(a, b) == a + b - U32_LIMIT
  {
    if a + b >= U32_LIMIT {
      DivMod32(a + b, 1, a + b - U32_LIMIT);
    } else {
      DivMod32(a + b, 0, a + b);
    }
  }

  /** Division by 2^32 is determined by a quotient and an in-range remainder. */
  lemma DivMod32(x: int, q: int, r: int)
    requires 0 <= r < U32_LIMIT && x == q * U32_LIMIT + r
    ensures x / U32_LIMIT == q && x % U32_LIMIT == r
  {
  }

  /** `u32::wrapping_mul`, the `*` of a release build. */
  function WrappingMul(a: word, b: word): word
  {
    (a * b) % U32_LIMIT
  }

  /**
   * A wrapped product followed by a wrapped add is the true `a * b + c`
   * reduced once: wrapping the intermediate product loses nothing.
   */
  lemma MulAddWraps(a: word, b: word, c: word)
    ensures WrappingAdd(WrappingMul(a, b), c) == (a * b + c) % U32_LIMIT
  {
    var p := a * b;
    assert 0 <= p;
    var q, r := p / U32_LIMIT, p % U32_LIMIT;
    assert p == q * U32_LIMIT + r;
    var q2, r2 := (r + c) / U32_LIMIT, (r + c) % U32_LIMIT;
    assert r + c == q2 * U32_LIMIT + r2;
    DivMod32(p + c, q + q2, r2);
  }

  /** Bitwise exclusive or of natural numbers, least significant bit first. */
  function XorNat(a: nat, b: nat): nat
    decreases a + b
  {
    if a == 0 && b == 0 then 0 else (a % 2 + b % 2) % 2 + 2 * XorNat(a / 2, b / 2)
  }

  /** Exclusive or never sets a bit above the operands' width. */
  lemma {:induction false} XorNatBound(a: nat, b: nat, n: nat)
    requires a < Pow2(n) && b < Pow2(n)
    ensures XorNat(a, b) < Pow2(n)
    decreases a + b
  {
    if !(a == 0 && b == 0) {
      XorNatBound(a / 2, b / 2, n - 1);
    }
  }

  /** `^` on `u32`. */
  function Xor(a: word, b: word): word
  {
    Pow2Word();
    XorNatBound(a, b, 32);
    XorNat(a, b)
  }

  /** Bit `i` of `x`: the low bit after `i` halvings. */
  function Bit(x: nat, i: nat): (r: nat)
    ensures r < 2
    decreases i
  {
    if i == 0 then x % 2 else Bit(x / 2, i - 1)
  }

  /** Every bit of `XorNat(a, b)` is the exclusive or of the bits of `a` and `b`. */
  lemma {:induction false} XorNatBit(a: nat, b: nat, i: nat)
    ensures Bit(XorNat(a, b), i) == (Bit(a, i) + Bit(b, i)) % 2
    decreases a + b
  {
    if a == 0 && b == 0 {
      ZeroBit(i);
    } else {
      var r := XorNat(a, b);
      LowBitSplit(r, (a % 2 + b % 2) % 2, XorNat(a / 2, b / 2));
      if i > 0 {
        XorNatBit(a / 2, b / 2, i - 1);
      }
    }
  }

  lemma {:induction false} ZeroBit(i: nat)
    ensures Bit(0, i) == 0
    decreases i
  {
    if i > 0 {
      ZeroBit(i - 1);
    }
  }

  lemma LowBitSplit(r: nat, low: nat, rest: nat)
    requires low < 2 && r == low + 2 * rest
    ensures r % 2 == low && r / 2 == rest
  {
  }

  /** `Xor` is bitwise exclusive or on every one of the 32 bits. */
  lemma XorBit(a: word, b: word, i: nat)
    ensures Bit(Xor(a, b), i) == (Bit(a, i) + Bit(b, i)) % 2
  {
    XorNatBit(a, b, i);
  }

  /** A left rotation by one bit: the top bit moves to the bottom. */
  function RotateLeftOne(c: word): word
  {
    if c < U32_LIMIT / 2 then 2 * c else 2 * c - U32_LIMIT + 1
  }

  /** `u32::rotate_left(k)`: `k` single-bit rotations. */
  function RotateLeft(c: word, k: nat): word
    decreases k
  {
    if k == 0 then c else RotateLeft(RotateLeftOne(c), k - 1)
  }

  /** `current & 0x1f`: the low five bits, a rotation amount below 32. */
  function Low5(x: word): (r: nat)
    ensures r < 32
  {
    x % 32
  }
}
