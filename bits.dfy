/** Binary-counter arithmetic behind the level sizes of the accumulator:
    powers of two, repeated halving, the bits of the leaf count and its
    base-2 logarithm. */
module Bits {

  function Pow2(k: nat): (r: nat)
    ensures r >= 1
  {
    if k == 0 then 1 else 2 * Pow2(k - 1)
  }

  /** A positive multiple of `d` is at least `d`. */
  lemma MulAtLeast(a: int, d: int)
    requires a >= 1 && d > 0
    ensures a * d >= d
  {
    assert a * d == d + (a - 1) * d;
  }

  /** Quotient and remainder are determined by the defining equation. */
  lemma DivUnique(n: int, d: int, q: int, r: int)
    requires d > 0 && 0 <= r < d && n == q * d + r
    ensures n / d == q && n % d == r
  {
    var q0, r0 := n / d, n % d;
    assert n == q0 * d + r0;
    assert (q - q0) * d == r0 - r;
    if q > q0 {
      MulAtLeast(q - q0, d);
    } else if q < q0 {
      MulAtLeast(q0 - q, d);
    }
  }

  /** Halving a quotient is dividing by twice the divisor. */
  lemma DivTwice(n: nat, m: nat)
    requires m > 0
    ensures n / m / 2 == n / (m * 2)
  {
    var q, r := n / m, n % m;
    assert n == q * m + r;
    var hq, hr := q / 2, q % 2;
    assert q == 2 * hq + hr;
    assert n == hq * (m * 2) + (hr * m + r) by {
      calc {
        n;
        q * m + r;
        (2 * hq + hr) * m + r;
        hq * (m * 2) + (hr * m + r);
      }
    }
    assert 0 <= hr * m <= m by {
      if hr == 1 {
        assert hr * m == m;
      } else {
        assert hr == 0;
        assert hr * m == 0;
      }
    }
    DivUnique(n, m * 2, hq, hr * m + r);
  }

  /** Dividing by 2^(k+1) halves the quotient by 2^k. */
  lemma HalvePow2(n: nat, k: nat)
    ensures n / Pow2(k + 1) == n / Pow2(k) / 2
  {
    DivTwice(n, Pow2(k));
    assert Pow2(k + 1) == Pow2(k) * 2;
  }

  /** `n` shifted right by `k` bits: halved `k` times, rounding down. */
  function Shift(n: nat, k: nat): nat
  {
    if k == 0 then n else Shift(n, k - 1) / 2
  }

  /** Shifting right by k bits is dividing by 2^k. */
  lemma {:induction false} ShiftIsDiv(n: nat, k: nat)
    ensures Shift(n, k) == n / Pow2(k)
  {
    if k > 0 {
      ShiftIsDiv(n, k - 1);
      HalvePow2(n, k - 1);
    }
  }

  lemma {:induction false} ShiftMonotone(n: nat, j: nat, k: nat)
    requires j <= k
    ensures Shift(n, k) <= Shift(n, j)
    decreases k - j
  {
    if j < k {
      ShiftMonotone(n, j, k - 1);
    }
  }

  /** A number below 2^h keeps fewer than 2^(h-k) after a shift by k <= h bits. */
  lemma {:induction false} ShiftBelow(n: nat, h: nat, k: nat)
    requires n < Pow2(h) && k <= h
    ensures Shift(n, k) < Pow2(h - k)
  {
    if k > 0 {
      ShiftBelow(n, h, k - 1);
      assert Pow2(h - (k - 1)) == 2 * Pow2(h - k);
    }
  }

  /** Shifting a number below 2^h by at least h bits leaves nothing. */
  lemma ShiftPastTop(n: nat, h: nat, k: nat)
    requires n < Pow2(h) && h <= k
    ensures Shift(n, k) == 0
  {
    ShiftBelow(n, h, h);
    ShiftMonotone(n, h, k);
  }

  /** Shifting 2^h right by k <= h bits leaves 2^(h-k). */
  lemma {:induction false} ShiftPow2(h: nat, k: nat)
    requires k <= h
    ensures Shift(Pow2(h), k) == Pow2(h - k)
  {
    if k > 0 {
      ShiftPow2(h, k - 1);
      assert Pow2(h - (k - 1)) == 2 * Pow2(h - k);
    }
  }

  /** A number of at least c * 2^k keeps at least c after a shift by k bits. */
  lemma {:induction false} ShiftScaled(n: nat, k: nat, c: nat)
    requires c * Pow2(k) <= n
    ensures Shift(n, k) >= c
  {
    if k > 0 {
      assert c * Pow2(k) == (2 * c) * Pow2(k - 1);
      ShiftScaled(n, k - 1, 2 * c);
    }
  }

  /** A number of at least 2^k keeps at least one after a shift by k bits. */
  lemma ShiftPositive(n: nat, k: nat)
    requires Pow2(k) <= n
    ensures Shift(n, k) >= 1
  {
    ShiftScaled(n, k, 1);
  }

  /** Bit `k` of `n`. */
  predicate Bit(n: nat, k: nat)
  {
    Shift(n, k) % 2 == 1
  }

  /** The number of set bits of `n`. */
  function Popcount(n: nat): nat
  {
    if n == 0 then 0 else n % 2 + Popcount(n / 2)
  }

  lemma {:induction false} PopcountPositive(n: nat)
    requires n > 0
    ensures Popcount(n) > 0
  {
    if n % 2 == 0 {
      PopcountPositive(n / 2);
    }
  }

  /** floor(log2 n): the index of the highest set bit of `n`. */
  function Log2(n: nat): nat
    requires n >= 1
  {
    if n < 2 then 0 else 1 + Log2(n / 2)
  }

  lemma {:induction false} Log2Bounds(n: nat)
    requires n >= 1
    ensures Pow2(Log2(n)) <= n < Pow2(Log2(n) + 1)
  {
    if n >= 2 {
      Log2Bounds(n / 2);
    }
  }
}
