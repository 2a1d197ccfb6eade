/**
 * Unsigned 32-bit words and the bit helpers of the predictor.
 *
 * A C `uint32_t` is modelled as an integer in [0, 2^32). The C bitwise
 * operators `&`, `|` and `^` are defined bit by bit on naturals, and `<<` on
 * a `uint32_t` as multiplication by a power of two reduced modulo 2^32, so
 * that every mask, shift and XOR of the source is written out explicitly.
 */
module Bits {

  const TWO32: int := 0x1_0000_0000

  /** The values of a C `uint32_t`. */
  type U32 = x: int | 0 <= x < TWO32

  /** The values of a C `uint8_t`. */
  type U8 = x: int | 0 <= x < 256

  /** 2^n */
  function Pow2(n: nat): (r: nat)
    ensures r >= 1
  {
    if n == 0 then 1 else 2 * Pow2(n - 1)
  }

  /** A boolean as the C integer it converts to: 1 for true, 0 for false. */
  function Bit(b: bool): nat
  {
    if b then 1 else 0
  }

  /** C's `a & b` on non-negative integers. */
  function BitAnd(a: nat, b: nat): nat
    decreases a + b
  {
    if a == 0 && b == 0 then 0
    else 2 * BitAnd(a / 2, b / 2) + Bit(a % 2 == 1 && b % 2 == 1)
  }

  /** C's `a | b` on non-negative integers. */
  function BitOr(a: nat, b: nat): nat
    decreases a + b
  {
    if a == 0 && b == 0 then 0
    else 2 * BitOr(a / 2, b / 2) + Bit(a % 2 == 1 || b % 2 == 1)
  }

  /** C's `a ^ b` on non-negative integers. */
  function BitXor(a: nat, b: nat): nat
    decreases a + b
  {
    if a == 0 && b == 0 then 0
    else 2 * BitXor(a / 2, b / 2) + Bit(a % 2 != b % 2)
  }

  /** C's `x << k` on a `uint32_t`: bits shifted past position 31 are lost. */
  function ShiftLeft32(x: U32, k: nat): U32
  {
    (x * Pow2(k)) % TWO32
  }

  /**
   * The low `n` bits of `x`, read off one bit at a time: the reference for
   * every mask the predictor applies. It is `x` modulo 2^n (`LowBitsIsMod`).
   */
  function LowBits(x: nat, n: nat): (r: nat)
    ensures r < Pow2(n)
  {
    if n == 0 then 0 else 2 * LowBits(x / 2, n - 1) + x % 2
  }

  lemma {:induction false} LowBitsIsMod(x: nat, n: nat)
    ensures LowBits(x, n) == x % Pow2(n)
  {
    if n == 0 {
      ModUnique(x, 1, x, 0);
    } else {
      LowBitsIsMod(x / 2, n - 1);
      ModDouble(x, Pow2(n - 1));
    }
  }

  /**
   * `getLowerNBits(val, n)`: `val` itself when `n == 32`, otherwise `val`
   * masked with `(1 << n) - 1`. The result is the low `n` bits of `val`.
   * The shift `1 << n` is on a C `int`, so it is defined only for n < 31;
   * n == 32 never reaches it.
   */
  function LowerNBits(val: U32, n: nat): (r: U32)
    requires n < 31 || n == 32
    ensures r == LowBits(val, n)
  {
    MaskedWord(val, n);
    if n == 32 then val else BitAnd(val, Pow2(n) - 1)
  }

  lemma MaskedWord(val: U32, n: nat)
    requires n <= 32
    ensures n == 32 ==> val == LowBits(val, n) == val % Pow2(n)
    ensures n < 32 ==> BitAnd(val, Pow2(n) - 1) == LowBits(val, n) == val % Pow2(n) <= val
  {
    LowBitsIsMod(val, n);
    if n == 32 {
      Pow2Is32();
      ModUnique(val, TWO32, 0, val);
    } else {
      AndLowMask(val, n);
      ModAtMost(val, Pow2(n));
    }
  }

  /** The values of the `getLowerNBits` self-test: 72 -> 8 (4 bits), 1365 -> 21 (5 bits). */
  lemma LowerNBitsTestValues()
    ensures LowerNBits(72, 4) == 8
    ensures LowerNBits(1365, 5) == 21
  {
    assert Pow2(4) == 16 && Pow2(5) == 32;
  }

  /**
   * `getTableSize(bits)`: `1 << bits` on a C `int`. Widths of 31 and more
   * overflow a 32-bit `int` (undefined behaviour in C), so they are excluded.
   */
  function TableSize(bits: nat): (r: nat)
    requires bits < 31
    ensures 1 <= r < 0x8000_0000
    ensures r == Pow2(bits)
  {
    Pow2Monotone(bits, 31);
    Pow2Is31();
    Pow2(bits)
  }

  // ---------------------------------------------------------------------
  // Powers of two
  // ---------------------------------------------------------------------

  lemma {:induction false} Pow2Add(a: nat, b: nat)
    ensures Pow2(a + b) == Pow2(a) * Pow2(b)
  {
    if a > 0 {
      Pow2Add(a - 1, b);
    }
  }

  lemma {:induction false} Pow2Monotone(a: nat, b: nat)
    requires a <= b
    ensures Pow2(a) <= Pow2(b)
    ensures a < b ==> 2 * Pow2(a) <= Pow2(b)
  {
    if a < b {
      Pow2Monotone(a, b - 1);
    }
  }

  lemma Pow2Is31()
    ensures Pow2(31) == 0x8000_0000
  {
    assert Pow2(8) == 256;
    Pow2Add(8, 8);
    Pow2Add(16, 8);
    Pow2Add(24, 7);
    assert Pow2(7) == 128;
  }

  lemma Pow2Is32()
    ensures Pow2(32) == TWO32
  {
    Pow2Is31();
  }

  // ---------------------------------------------------------------------
  // Arithmetic helpers
  // ---------------------------------------------------------------------

  /** Halving commutes with reduction modulo an even number. */
  lemma ModDouble(v: nat, p: nat)
    requires p >= 1
    ensures v % (2 * p) == 2 * ((v / 2) % p) + v % 2
  {
    var q := v / 2;
    var k := q / p;
    var s := q % p;
    assert q == p * k + s;
    assert v == 2 * q + v % 2;
    assert v == (2 * p) * k + (2 * s + v % 2);
    assert 0 <= 2 * s + v % 2 < 2 * p;
    ModUnique(v, 2 * p, k, 2 * s + v % 2);
  }

  /** The remainder is determined by any decomposition with a small rest. */
  lemma ModUnique(v: int, d: int, k: int, s: int)
    requires d >= 1
    requires v == d * k + s
    requires 0 <= s < d
    ensures v % d == s
    ensures v / d == k
  {
    var k' := v / d;
    var s' := v % d;
    assert v == d * k' + s';
    assert d * (k - k') == s' - s by {
      assert d * (k - k') == d * k - d * k';
    }
    if k > k' {
      MulAtLeast(d, k - k');
    } else if k < k' {
      assert d * (k' - k) == d * k' - d * k;
      MulAtLeast(d, k' - k);
    }
  }

  lemma ModAtMost(v: nat, d: nat)
    requires d >= 1
    ensures v % d <= v
  {
    if v < d {
      ModUnique(v, d, 0, v);
    } else {
      assert v == d * (v / d) + v % d;
      MulAtLeast(d, v / d);
    }
  }

  /** (p * q - 1) mod p == p - 1 */
  lemma AllOnesMod(p: nat, q: nat)
    requires p >= 1 && q >= 1
    ensures (p * q - 1) % p == p - 1
  {
    assert p * (q - 1) + (p - 1) == p * q - 1;
    ModUnique(p * q - 1, p, q - 1, p - 1);
  }

  lemma MulAtLeast(d: int, m: int)
    requires d >= 1 && m >= 1
    ensures d * m >= d
  {
    assert d * m == d * (m - 1) + d;
  }

  /** Reducing modulo a multiple of `p` first does not change the rest modulo `p`. */
  lemma ModOfMultiple(x: nat, p: nat, q: nat)
    requires p >= 1 && q >= 1
    ensures (x % (p * q)) % p == x % p
  {
    var k := x / (p * q);
    var r := x % (p * q);
    assert x == (p * q) * k + r;
    var s := r % p;
    var t := r / p;
    assert r == p * t + s;
    assert x == p * (q * k + t) + s;
    ModUnique(x, p, q * k + t, s);
  }

  // ---------------------------------------------------------------------
  // The bitwise operators
  // ---------------------------------------------------------------------

  lemma {:induction false} AndZero(a: nat)
    ensures BitAnd(a, 0) == 0
    decreases a
  {
    if a != 0 {
      AndZero(a / 2);
    }
  }

  lemma HalfOfMask(p: nat)
    requires p >= 1
    ensures (2 * p - 1) / 2 == p - 1 && (2 * p - 1) % 2 == 1
  {
    ModUnique(2 * p - 1, 2, p - 1, 1);
  }

  /** Masking with 2^n - 1 keeps the value modulo 2^n. */
  lemma {:induction false} AndLowMask(v: nat, n: nat)
    ensures BitAnd(v, Pow2(n) - 1) == v % Pow2(n)
    decreases n
  {
    if n == 0 {
      AndZero(v);
    } else {
      var p := Pow2(n - 1);
      var m := Pow2(n) - 1;
      assert m / 2 == p - 1 && m % 2 == 1 by {
        HalfOfMask(p);
      }
      assert BitAnd(v, m) == 2 * BitAnd(v / 2, p - 1) + v % 2;
      AndLowMask(v / 2, n - 1);
      ModDouble(v, p);
    }
  }

  lemma {:induction false} AndBound(a: nat, b: nat)
    ensures BitAnd(a, b) <= b
    decreases a + b
  {
    if a != 0 || b != 0 {
      AndBound(a / 2, b / 2);
    }
  }

  lemma {:induction false} OrZero(a: nat)
    ensures BitOr(a, 0) == a
    decreases a
  {
    if a != 0 {
      OrZero(a / 2);
    }
  }

  /** Setting bit 0 of an even number adds one. */
  lemma OrOneOfEven(x: nat)
    requires x % 2 == 0
    ensures BitOr(x, 1) == x + 1
  {
    OrZero(x / 2);
  }

  /** If both operands are below 2^n then so is their XOR. */
  lemma {:induction false} XorBound(a: nat, b: nat, n: nat)
    requires a < Pow2(n) && b < Pow2(n)
    ensures BitXor(a, b) < Pow2(n)
    decreases n
  {
    if n > 0 && (a != 0 || b != 0) {
      XorBound(a / 2, b / 2, n - 1);
    }
  }

  /** XOR with the same operand twice gives the original value back. */
  lemma {:induction false} XorCancel(a: nat, b: nat)
    ensures BitXor(BitXor(a, b), b) == a
    decreases a + b
  {
    if a != 0 || b != 0 {
      var x := BitXor(a, b);
      XorCancel(a / 2, b / 2);
      assert x / 2 == BitXor(a / 2, b / 2);
    }
  }

  /** The XOR of two 32-bit words is a 32-bit word. */
  lemma XorU32(a: U32, b: U32)
    ensures BitXor(a, b) < TWO32
  {
    Pow2Is32();
    XorBound(a, b, 32);
  }
}
