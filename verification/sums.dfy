/** Real-valued sums over integer ranges, accumulated in increasing index
    order as the filter loops accumulate them, and the rounding function the
    Gaussian kernel size is computed with. */
module Sums {

  /** f(lo) + f(lo+1) + ... + f(hi-1), added left to right; 0 on an empty range. */
  function Sum(f: int -> real, lo: int, hi: int): real
    decreases hi - lo
  {
    if hi <= lo then 0.0 else Sum(f, lo, hi - 1) + f(hi - 1)
  }

  /** The k-th element of a sequence, 0.0 outside it. */
  function At(s: seq<real>, k: int): real {
    if 0 <= k < |s| then s[k] else 0.0
  }

  /** A sequence as a function on all integers, 0.0 outside it. */
  function Elems(s: seq<real>): int -> real {
    k => At(s, k)
  }

  /** Every term multiplied by `a`. */
  function Scaled(f: int -> real, a: real): int -> real {
    k => a * f(k)
  }

  /** The sum of all elements of a sequence. */
  function Total(s: seq<real>): real {
    Sum(Elems(s), 0, |s|)
  }

  /** Sums of functions that agree on the range are equal. */
  lemma {:induction false} SumExt(f: int -> real, g: int -> real, lo: int, hi: int)
    requires forall k :: lo <= k < hi ==> f(k) == g(k)
    ensures Sum(f, lo, hi) == Sum(g, lo, hi)
    decreases hi - lo
  {
    if lo < hi {
      SumExt(f, g, lo, hi - 1);
    }
  }

  /** A constant factor moves out of a sum. */
  lemma {:induction false} SumScale(f: int -> real, g: int -> real, a: real, lo: int, hi: int)
    requires forall k :: lo <= k < hi ==> g(k) == a * f(k)
    ensures Sum(g, lo, hi) == a * Sum(f, lo, hi)
    decreases hi - lo
  {
    if lo < hi {
      SumScale(f, g, a, lo, hi - 1);
    }
  }

  /** Sums are monotone in their terms. */
  lemma {:induction false} SumMono(f: int -> real, g: int -> real, lo: int, hi: int)
    requires forall k :: lo <= k < hi ==> f(k) <= g(k)
    ensures Sum(f, lo, hi) <= Sum(g, lo, hi)
    decreases hi - lo
  {
    if lo < hi {
      SumMono(f, g, lo, hi - 1);
    }
  }

  /** A non-empty sum of positive terms is positive. */
  lemma {:induction false} SumPositive(f: int -> real, lo: int, hi: int)
    requires lo < hi
    requires forall k :: lo <= k < hi ==> f(k) > 0.0
    ensures Sum(f, lo, hi) > 0.0
    decreases hi - lo
  {
    if lo < hi - 1 {
      SumPositive(f, lo, hi - 1);
    }
  }

  /** Multiplying by a non-negative factor keeps the order. */
  lemma MulMonoReal(a: real, b: real, m: real)
    requires a <= b && m >= 0.0
    ensures a * m <= b * m
  {
    assert b * m - a * m == (b - a) * m;
  }

  /** The least integer not below `r`. */
  function Ceil(r: real): (c: int)
    ensures r <= c as real < r + 1.0
  {
    -((-r).Floor)
  }
}
