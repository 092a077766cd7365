/** Python's built-in `round(x)` with no digits argument: the nearest integer,
    ties going to the even neighbour. The model applies it to an exact
    rational `p / q` instead of a binary float. */
module Rounding {

  function Abs(x: int): nat
  {
    if x < 0 then -x else x
  }

  /** The distance from `p / q` to `r`, scaled by `2 * q`; at most `q` means
      `r` is within one half of `p / q`. */
  function TwiceGap(p: int, q: int, r: int): nat
  {
    2 * Abs(p - r * q)
  }

  /** `round(p / q)` for `q > 0`. */
  function RoundHalfEven(p: int, q: int): (r: int)
    requires q > 0
    ensures TwiceGap(p, q, r) <= q
    ensures TwiceGap(p, q, r) == q ==> r % 2 == 0
  {
    var (f, m) := FloorDivMod(p, q);
    assert p - (f + 1) * q == m - q by { MulSucc(f, q); }
    if 2 * m < q then f
    else if 2 * m > q then f + 1
    else if f % 2 == 0 then f
    else f + 1
  }

  /** Python's `divmod(p, q)` for `q > 0`: the quotient rounded down and the
      remainder in `[0, q)`. Written by recursion, so that no division by a
      variable reaches the solver where the rounding is used. */
  function FloorDivMod(p: int, q: int): (dm: (int, int))
    requires q > 0
    ensures 0 <= dm.1 < q && p == dm.0 * q + dm.1
    decreases if p < 0 then q - p else p
  {
    if p < 0 then
      var (d, m) := FloorDivMod(p + q, q);
      MulSucc(d - 1, q);
      (d - 1, m)
    else if p < q then (0, p)
    else
      var (d, m) := FloorDivMod(p - q, q);
      MulSucc(d, q);
      (d + 1, m)
  }

  /** `n * k` for `k >= 0`, by repeated addition; like `FloorDivMod` it keeps
      a product of two variables away from the solver. */
  function Times(n: int, k: nat): int
  {
    if k == 0 then 0 else Times(n, k - 1) + n
  }

  lemma {:induction false} TimesIsProduct(n: int, k: nat)
    ensures Times(n, k) == n * k
  {
    if k > 0 {
      TimesIsProduct(n, k - 1);
      MulSucc(k - 1, n);
    }
  }

  lemma MulSucc(a: int, q: int)
    ensures (a + 1) * q == a * q + q
  {
  }

  lemma MulDiff(a: int, b: int, q: int)
    ensures a * q - b * q == (a - b) * q
  {
  }

  /** `k * q` grows with `k`: at least `q` for `k >= 1`. */
  lemma {:induction false} MulAtLeast(k: int, q: int)
    requires k >= 1 && q > 0
    ensures k * q >= q
    decreases k
  {
    if k > 1 {
      MulAtLeast(k - 1, q);
      MulSucc(k - 1, q);
    }
  }

  /** Multiples of `q` by different integers lie at least `q` apart, and at
      least `2 * q` apart unless the integers are neighbours. */
  lemma MultiplesApart(m: int, r: int, q: int)
    requires q > 0 && m != r
    ensures Abs(m * q - r * q) >= q
    ensures Abs(m - r) >= 2 ==> Abs(m * q - r * q) >= 2 * q
  {
    MulDiff(m, r, q);
    MulDiff(r, m, q);
    if m > r {
      MulAtLeast(m - r, q);
      if m - r >= 2 {
        MulAtLeast(m - r - 1, q);
        MulSucc(m - r - 1, q);
      }
    } else {
      MulAtLeast(r - m, q);
      if r - m >= 2 {
        MulAtLeast(r - m - 1, q);
        MulSucc(r - m - 1, q);
      }
    }
  }

  /** No integer is closer to `p / q` than the rounded value. */
  lemma RoundIsNearest(p: int, q: int, m: int)
    requires q > 0
    ensures TwiceGap(p, q, RoundHalfEven(p, q)) <= TwiceGap(p, q, m)
  {
    var r := RoundHalfEven(p, q);
    if m != r {
      MultiplesApart(m, r, q);
    }
  }

  /** The two properties of the contract of `RoundHalfEven` single out one
      integer: any `r` that is within one half of `p / q`, and even on a tie,
      is the rounded value. */
  lemma RoundHalfEvenUnique(p: int, q: int, r: int)
    requires q > 0
    requires TwiceGap(p, q, r) <= q
    requires TwiceGap(p, q, r) == q ==> r % 2 == 0
    ensures r == RoundHalfEven(p, q)
  {
    var s := RoundHalfEven(p, q);
    if r != s {
      MultiplesApart(r, s, q);
    }
  }

  /** Rounding `p / q` with `0 <= p / q <= k` stays within `[0, k]`. */
  lemma RoundWithin(p: int, q: int, k: int)
    requires q > 0 && 0 <= p <= k * q
    ensures 0 <= RoundHalfEven(p, q) <= k
  {
    var r := RoundHalfEven(p, q);
    if r < 0 {
      MulAtLeast(-r, q);
      MulDiff(0, r, q);
    }
    if r > k {
      MulAtLeast(r - k, q);
      MulDiff(r, k, q);
    }
  }

  /** With `0 <= n <= d` and `k >= 0`, `n * k` lies in `[0, k * d]`. */
  lemma ProductBetween(n: int, d: int, k: nat)
    requires 0 <= n <= d
    ensures 0 <= n * k <= k * d
  {
    assert n * k <= d * k by {
      MulDiff(d, n, k);
      if d > n && k > 0 {
        MulAtLeast(d - n, k);
      }
    }
  }

  /** Rounding a fraction `n / d` in `[0, 1]` of a whole `span` gives a
      share in `[0, span]`. */
  lemma ShareWithin(n: int, d: int, span: nat)
    requires 0 <= n <= d && d > 0
    ensures 0 <= RoundHalfEven(Times(n, span), d) <= span
  {
    TimesIsProduct(n, span);
    ProductBetween(n, d, span);
    RoundWithin(n * span, d, span);
  }

  /** The fraction 0 of a span rounds to nothing. */
  lemma ShareOfNone(d: int, span: nat)
    requires d > 0
    ensures RoundHalfEven(Times(0, span), d) == 0
  {
    TimesIsProduct(0, span);
    RoundExact(0, d);
  }

  /** The fraction `d / d` of a span rounds to the whole span. */
  lemma ShareOfAll(d: int, span: nat)
    requires d > 0
    ensures RoundHalfEven(Times(d, span), d) == span
  {
    TimesIsProduct(d, span);
    RoundExact(span, d);
  }

  /** An exact integer quotient is its own rounding. */
  lemma RoundExact(k: int, q: int)
    requires q > 0
    ensures RoundHalfEven(k * q, q) == k
  {
    RoundHalfEvenUnique(k * q, q, k);
  }
}
