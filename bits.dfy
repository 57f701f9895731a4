/**
 * Unsigned 32-bit words as bounded naturals, and the bitwise operations the
 * address arithmetic uses, defined bit by bit on naturals.  The lemmas tie
 * AND/OR with the masks that occur in CIDR arithmetic to division and
 * remainder by powers of two.
 */
module Bits {

  /** 2^32, the number of distinct 32-bit words. */
  const Modulus32: int := 0x1_0000_0000

  /** An unsigned 32-bit value. */
  type u32 = x: int | 0 <= x < 0x1_0000_0000

  function Pow2(k: nat): (r: nat)
    ensures r >= 1
  {
    if k == 0 then 1 else 2 * Pow2(k - 1)
  }

  lemma {:induction false} Pow2Add(a: nat, b: nat)
    ensures Pow2(a + b) == Pow2(a) * Pow2(b)
  {
    if a > 0 {
      Pow2Add(a - 1, b);
      assert Pow2(a + b) == 2 * Pow2(a - 1 + b);
    }
  }

  lemma {:induction false} Pow2Monotone(a: nat, b: nat)
    requires a <= b
    ensures Pow2(a) <= Pow2(b)
  {
    if a < b {
      Pow2Monotone(a, b - 1);
    }
  }

  /** The powers of two that name byte positions in a 32-bit word. */
  lemma Pow2Values()
    ensures Pow2(1) == 2 && Pow2(8) == 256 && Pow2(16) == 0x1_0000
    ensures Pow2(24) == 0x100_0000 && Pow2(32) == Modulus32
  {
    assert Pow2(2) == 4;
    assert Pow2(4) == 16 by { Pow2Add(2, 2); }
    assert Pow2(8) == 256 by { Pow2Add(4, 4); }
    assert Pow2(16) == 0x1_0000 by { Pow2Add(8, 8); }
    assert Pow2(24) == 0x100_0000 by { Pow2Add(16, 8); }
    assert Pow2(32) == Modulus32 by { Pow2Add(16, 16); }
  }

  lemma Pow2Word()
    ensures Pow2(32) == Modulus32
  {
    Pow2Values();
  }

  /** Division with remainder has only one answer. */
  lemma DivModUnique(a: int, m: int, q: int, r: int)
    requires m > 0 && 0 <= r < m && a == q * m + r
    ensures a / m == q && a % m == r
  {
    var q', r' := a / m, a % m;
    assert (q' - q) * m == r - r' by {
      assert q' * m + r' == q * m + r;
      assert (q' - q) * m == q' * m - q * m;
    }
    if q' > q {
      MulAtLeast(q' - q, m);
    } else if q' < q {
      MulAtLeast(q - q', m);
    }
  }

  /** A number below m is its own remainder. */
  lemma ModSmall(a: int, m: int)
    requires 0 <= a < m
    ensures a % m == a && a / m == 0
  {
    DivModUnique(a, m, 0, a);
  }

  /** A number below q * d has a quotient by d below q. */
  lemma DivBelow(x: nat, d: nat, q: nat)
    requires d >= 1 && x < q * d
    ensures x / d < q
  {
    assert x / d * d <= x;
    assert (q - x / d) * d > 0;
  }

  lemma MulAtLeast(d: int, m: int)
    requires d >= 1 && m > 0
    ensures d * m >= m
  {
    assert d * m == (d - 1) * m + m;
  }

  /** The low w bits of a, peeled one bit at a time from the bottom. */
  lemma ModPow2Step(a: nat, w: nat)
    requires w >= 1
    ensures a % Pow2(w) == 2 * ((a / 2) % Pow2(w - 1)) + a % 2
  {
    var m := Pow2(w - 1);
    var q := a / 2;
    assert q == (q / m) * m + q % m;
    assert a == (q / m) * (2 * m) + (2 * (q % m) + a % 2);
    DivModUnique(a, 2 * m, q / m, 2 * (q % m) + a % 2);
  }

  /** A multiple of a power of two has a zero low bit and halves exactly. */
  lemma HalveMultiple(x: nat, k: nat)
    requires k >= 1
    ensures (x * Pow2(k)) % 2 == 0 && (x * Pow2(k)) / 2 == x * Pow2(k - 1)
  {
    assert x * Pow2(k) == (x * Pow2(k - 1)) * 2;
    DivModUnique(x * Pow2(k), 2, x * Pow2(k - 1), 0);
  }

  /** Bitwise AND of the low w bits of a and b. */
  function And(a: nat, b: nat, w: nat): (r: nat)
    ensures r < Pow2(w)
  {
    if w == 0 then 0
    else 2 * And(a / 2, b / 2, w - 1) + (if a % 2 == 1 && b % 2 == 1 then 1 else 0)
  }

  /** Bitwise OR of the low w bits of a and b. */
  function Or(a: nat, b: nat, w: nat): (r: nat)
    ensures r < Pow2(w)
  {
    if w == 0 then 0
    else 2 * Or(a / 2, b / 2, w - 1) + (if a % 2 == 1 || b % 2 == 1 then 1 else 0)
  }

  /** AND and OR together account for every set bit of both operands once. */
  lemma {:induction false} AndPlusOr(a: nat, b: nat, w: nat)
    ensures And(a, b, w) + Or(a, b, w) == a % Pow2(w) + b % Pow2(w)
  {
    if w > 0 {
      AndPlusOr(a / 2, b / 2, w - 1);
      ModPow2Step(a, w);
      ModPow2Step(b, w);
    }
  }

  /** OR of operands with no common bit is their sum. */
  lemma OrDisjoint(a: nat, b: nat, w: nat)
    requires a < Pow2(w) && b < Pow2(w) && And(a, b, w) == 0
    ensures Or(a, b, w) == a + b
  {
    AndPlusOr(a, b, w);
  }

  lemma {:induction false} AndZero(a: nat, w: nat)
    ensures And(a, 0, w) == 0
  {
    if w > 0 {
      AndZero(a / 2, w - 1);
    }
  }

  /** A value shifted left by k has no bit in common with a value below 2^k. */
  lemma {:induction false} AndShiftedDisjoint(x: nat, b: nat, k: nat, w: nat)
    requires b < Pow2(k)
    ensures And(x * Pow2(k), b, w) == 0
  {
    if k == 0 {
      AndZero(x * Pow2(k), w);
    } else if w > 0 {
      HalveMultiple(x, k);
      AndShiftedDisjoint(x, b / 2, k - 1, w - 1);
    }
  }

  /** AND with k low one-bits keeps the value modulo 2^k. */
  lemma {:induction false} AndLowOnes(a: nat, k: nat, w: nat)
    requires k <= w
    ensures And(a, Pow2(k) - 1, w) == a % Pow2(k)
  {
    if k == 0 {
      AndZero(a, w);
    } else {
      AndLowOnes(a / 2, k - 1, w - 1);
      ModPow2Step(a, k);
      assert (Pow2(k) - 1) / 2 == Pow2(k - 1) - 1;
    }
  }

  /** The w-bit word whose bits k..w-1 are set and whose k low bits are clear. */
  function HighOnes(k: nat, w: nat): nat
    requires k <= w
  {
    Pow2Monotone(k, w);
    Pow2(w) - Pow2(k)
  }

  /** AND with the ones from bit k up to bit w-1 clears the k low bits. */
  lemma {:induction false} AndHighOnes(a: nat, k: nat, w: nat)
    requires k <= w
    ensures And(a, HighOnes(k, w), w) == a % Pow2(w) - a % Pow2(k)
  {
    if k == 0 {
      AndLowOnes(a, w, w);
    } else {
      AndHighOnes(a / 2, k - 1, w - 1);
      ModPow2Step(a, w);
      ModPow2Step(a, k);
      assert HighOnes(k, w) / 2 == HighOnes(k - 1, w - 1);
    }
  }

  /** A multiple of m is its quotient times m. */
  lemma MultipleOf(x: int, m: int)
    requires m > 0 && x % m == 0
    ensures x == (x / m) * m
  {
  }

  /** Clearing the k low bits leaves a multiple of 2^k. */
  lemma RoundDown(a: nat, k: nat)
    ensures (a - a % Pow2(k)) % Pow2(k) == 0
    ensures (a - a % Pow2(k)) / Pow2(k) == a / Pow2(k)
  {
    var m := Pow2(k);
    assert a - a % m == (a / m) * m;
    DivModUnique(a - a % m, m, a / m, 0);
  }
}
