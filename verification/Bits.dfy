/** Unsigned machine arithmetic on natural numbers: the shifts and bitwise operators of C and C++
    as they act on unsigned operands, and the laws that turn them into sums, quotients and remainders.
    Truncation to a machine width is written out where it happens, as `% Pow2(width)`. */
module Bits {

  type byte = x: int | 0 <= x < 256

  function Pow2(n: nat): (p: nat)
    ensures p > 0
  {
    if n == 0 then 1 else 2 * Pow2(n - 1)
  }

  function Shl(x: nat, s: nat): nat { x * Pow2(s) }

  function Shr(x: nat, s: nat): nat { QuotientNatural(x, Pow2(s)); x / Pow2(s) }

  /** `a | b`, bit by bit. */
  function BitOr(a: nat, b: nat): nat
    decreases a + b
  {
    if a == 0 && b == 0 then 0
    else 2 * BitOr(a / 2, b / 2) + (if a % 2 == 1 || b % 2 == 1 then 1 else 0)
  }

  /** `a & b`, bit by bit. */
  function BitAnd(a: nat, b: nat): nat
    decreases a + b
  {
    if a == 0 && b == 0 then 0
    else 2 * BitAnd(a / 2, b / 2) + (if a % 2 == 1 && b % 2 == 1 then 1 else 0)
  }

  lemma QuotientNatural(x: nat, d: nat)
    requires d > 0
    ensures x / d >= 0
  {
  }

  lemma {:induction false} Pow2Add(m: nat, n: nat)
    ensures Pow2(m + n) == Pow2(m) * Pow2(n)
  {
    if m != 0 {
      Pow2Add(m - 1, n);
      assert 2 * (Pow2(m - 1) * Pow2(n)) == (2 * Pow2(m - 1)) * Pow2(n);
    }
  }

  lemma {:induction false} Pow2Monotone(m: nat, n: nat)
    requires m <= n
    ensures Pow2(m) <= Pow2(n)
  {
    if m < n { Pow2Monotone(m, n - 1); }
  }

  lemma Pow2Small()
    ensures Pow2(4) == 16 && Pow2(6) == 64 && Pow2(7) == 128 && Pow2(8) == 256
  {
    assert Pow2(4) == 16;
  }

  lemma Pow2Base64()
    ensures Pow2(12) == 4096 && Pow2(16) == 65536 && Pow2(18) == 262144
  {
    Pow2Small();
    Pow2Add(6, 6);
    Pow2Add(8, 8);
    Pow2Add(12, 6);
  }

  /** Numbers whose set bits do not meet are joined by `|` as they are by `+`. */
  lemma {:induction false} OrLowHigh(low: nat, x: nat, s: nat)
    requires low < Pow2(s)
    ensures BitOr(low, Shl(x, s)) == low + Shl(x, s)
    ensures BitOr(Shl(x, s), low) == low + Shl(x, s)
    decreases s, x
  {
    if s == 0 {
      OrZero(x);
    } else {
      assert Shl(x, s) == 2 * Shl(x, s - 1) by {
        assert x * (2 * Pow2(s - 1)) == 2 * (x * Pow2(s - 1));
      }
      OrLowHigh(low / 2, x, s - 1);
    }
  }

  lemma {:induction false} OrZero(x: nat)
    ensures BitOr(0, x) == x && BitOr(x, 0) == x
  {
    if x != 0 { OrZero(x / 2); }
  }

  lemma {:induction false} AndZero(x: nat)
    ensures BitAnd(0, x) == 0 && BitAnd(x, 0) == 0
  {
    if x != 0 { AndZero(x / 2); }
  }

  /** Masking with k one bits keeps the remainder modulo 2^k. */
  lemma {:induction false} AndMask(x: nat, k: nat)
    ensures BitAnd(x, Pow2(k) - 1) == x % Pow2(k)
    decreases k
  {
    if k == 0 {
      AndZero(x);
    } else {
      AndMask(x / 2, k - 1);
      assert (Pow2(k) - 1) / 2 == Pow2(k - 1) - 1;
      HalfMod(x, Pow2(k - 1));
    }
  }

  lemma HalfMod(x: nat, m: nat)
    requires m > 0
    ensures x % (2 * m) == 2 * (x / 2 % m) + x % 2
    ensures x / (2 * m) == x / 2 / m
  {
    var q, r := x / 2 / m, x / 2 % m;
    assert x == 2 * (m * q + r) + x % 2;
    assert 2 * (m * q) == (2 * m) * q;
    ModUnique(x, 2 * m, q, 2 * r + x % 2);
  }

  /** Quotient and remainder are the only way to write x as d*q + r with r below d. */
  lemma ModUnique(x: int, d: nat, q: int, r: nat)
    requires r < d && x == d * q + r
    ensures x / d == q && x % d == r
  {
    var k := q - x / d;
    assert d * k == x % d - r by {
      assert d * k == d * q - d * (x / d);
    }
    MultipleOutside(d, k);
  }

  lemma {:induction false} MultipleOutside(d: int, k: int)
    requires d > 0
    ensures k > 0 ==> d * k >= d
    ensures k < 0 ==> d * k <= -d
    decreases if k < 0 then -k else k
  {
    if k > 1 {
      MultipleOutside(d, k - 1);
    } else if k < -1 {
      MultipleOutside(d, k + 1);
    }
  }

  /** Testing one bit. */
  lemma {:induction false} AndBit(x: nat, k: nat)
    ensures BitAnd(x, Pow2(k)) == if x / Pow2(k) % 2 == 1 then Pow2(k) else 0
    decreases k
  {
    if k == 0 {
      AndZero(x / 2);
    } else {
      AndBit(x / 2, k - 1);
      HalfMod(x, Pow2(k - 1));
    }
  }
}
