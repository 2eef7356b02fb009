/**
 * Python's `round()` applied to a ratio.  The handlers compute
 * `round(i / n * 100)` and `round(c / t * 100, 1)` on floats; here the
 * quotient is exact and rounded to the nearest integer, ties to even as
 * Python does.  The one-decimal rounding is expressed in tenths of a percent.
 */
module Percent {

  /** The integer nearest to `p / q`; an exact half goes to the even neighbour. */
  function RoundHalfEven(p: nat, q: nat): (r: nat)
    requires q > 0
    ensures 2 * (p - r * q) <= q && 2 * (r * q - p) <= q
    ensures 2 * (p - r * q) == q || 2 * (r * q - p) == q ==> r % 2 == 0
  {
    var f, m := p / q, p % q;
    assert p == f * q + m;
    assert (f + 1) * q == f * q + q;
    if 2 * m < q then f
    else if 2 * m > q then f + 1
    else if f % 2 == 0 then f
    else f + 1
  }

  /** Rounding a quotient of at most `k` never gives more than `k`. */
  lemma RoundAtMost(p: nat, q: nat, k: nat)
    requires q > 0 && p <= k * q
    ensures RoundHalfEven(p, q) <= k
  {
  }

  /** A whole quotient is its own rounding. */
  lemma RoundExact(q: nat, k: nat)
    requires q > 0
    ensures RoundHalfEven(k * q, q) == k
  {
  }

  lemma MulCancelStrict(a: nat, b: nat, q: nat)
    requires q > 0 && a * q < b * q
    ensures a < b
  {
  }

  lemma DivMonotone(p1: nat, p2: nat, q: nat)
    requires q > 0 && p1 <= p2
    ensures p1 / q <= p2 / q
  {
    var f1, f2 := p1 / q, p2 / q;
    assert p2 == f2 * q + p2 % q;
    assert (f2 + 1) * q == f2 * q + q;
    assert f1 * q <= p1;
    MulCancelStrict(f1, f2 + 1, q);
  }

  /** Rounding is monotone in the numerator. */
  lemma RoundMonotone(p1: nat, p2: nat, q: nat)
    requires q > 0 && p1 <= p2
    ensures RoundHalfEven(p1, q) <= RoundHalfEven(p2, q)
  {
    DivMonotone(p1, p2, q);
    var f1, f2 := p1 / q, p2 / q;
    if f1 == f2 {
      assert p1 % q <= p2 % q;
    }
  }

  /** `round(i / n * 100)`: the integer percentage of `i` out of `n`. */
  function PercentOf(i: nat, n: nat): (r: nat)
    requires n > 0
    ensures i <= n ==> r <= 100
    ensures i == 0 ==> r == 0
    ensures i == n ==> r == 100
  {
    var r := RoundHalfEven(100 * i, n);
    assert i <= n ==> r <= 100 by {
      if i <= n { RoundAtMost(100 * i, n, 100); }
    }
    assert i == 0 ==> r == 0 by {
      if i == 0 { RoundAtMost(0, n, 0); }
    }
    assert i == n ==> r == 100 by {
      if i == n { RoundExact(n, 100); }
    }
    r
  }

  /** A cursor further along never shows a smaller percentage. */
  lemma PercentMonotone(i: nat, j: nat, n: nat)
    requires n > 0 && i <= j
    ensures PercentOf(i, n) <= PercentOf(j, n)
  {
    RoundMonotone(100 * i, 100 * j, n);
  }

  /** `round(c / t * 100, 1)`, in tenths of a percent; 0 when `t` is 0. */
  function TenthsOf(c: nat, t: nat): (r: nat)
    ensures t == 0 ==> r == 0
    ensures c <= t ==> r <= 1000
    ensures c == t && t > 0 ==> r == 1000
  {
    if t == 0 then 0
    else
      var r := RoundHalfEven(1000 * c, t);
      assert c <= t ==> r <= 1000 by {
        if c <= t { RoundAtMost(1000 * c, t, 1000); }
      }
      assert c == t ==> r == 1000 by {
        if c == t { RoundExact(t, 1000); }
      }
      r
  }
}
