/** One-dimensional piecewise-linear interpolation as `numpy.interp` computes it, over
    exact reals: below the first sample point the first value, above the last sample
    point the last value, and in between the straight line through the two samples
    on either side. */
module Interpolation {

  /** The sample points of `numpy.interp` must be increasing; here strictly. */
  predicate StrictlyIncreasing(xs: seq<real>) {
    forall i :: 0 <= i < |xs| - 1 ==> xs[i] < xs[i + 1]
  }

  predicate NonIncreasing(ys: seq<real>) {
    forall i :: 0 <= i < |ys| - 1 ==> ys[i] >= ys[i + 1]
  }

  /** Every element of ys lies in [lo, hi]. */
  predicate Within(ys: seq<real>, lo: real, hi: real) {
    forall i :: 0 <= i < |ys| ==> lo <= ys[i] <= hi
  }

  /** The line through (x0, y0) and (x1, y1) at x, written as numpy writes it:
      the slope times the distance from the left sample, plus the left value. */
  function Lerp(x0: real, y0: real, x1: real, y1: real, x: real): real
    requires x0 < x1
  {
    (y1 - y0) / (x1 - x0) * (x - x0) + y0
  }

  /** `numpy.interp(x, xp, fp)` for a scalar x. */
  function Interp(x: real, xp: seq<real>, fp: seq<real>): real
    requires |xp| == |fp| > 0 && StrictlyIncreasing(xp)
    decreases |xp|
  {
    if x <= xp[0] || |xp| == 1 then fp[0]
    else if x < xp[1] then Lerp(xp[0], fp[0], xp[1], fp[1], x)
    else Interp(x, xp[1..], fp[1..])
  }

  /** The share of the way from x0 to x1 that x has gone. */
  lemma LerpShare(x0: real, y0: real, x1: real, y1: real, x: real)
    requires x0 < x1
    ensures Lerp(x0, y0, x1, y1, x) == y0 + (y1 - y0) * ((x - x0) / (x1 - x0))
  {
  }

  /** The line meets both samples. */
  lemma LerpEnds(x0: real, y0: real, x1: real, y1: real)
    requires x0 < x1
    ensures Lerp(x0, y0, x1, y1, x0) == y0
    ensures Lerp(x0, y0, x1, y1, x1) == y1
  {
    LerpShare(x0, y0, x1, y1, x1);
  }

  /** Between the samples the line stays between the two values. */
  lemma LerpBetween(x0: real, y0: real, x1: real, y1: real, x: real, lo: real, hi: real)
    requires x0 <= x <= x1 && x0 < x1
    requires lo <= y0 <= hi && lo <= y1 <= hi
    ensures lo <= Lerp(x0, y0, x1, y1, x) <= hi
  {
    var t := (x - x0) / (x1 - x0);
    LerpShare(x0, y0, x1, y1, x);
    ShareInUnit(x - x0, x1 - x0);
    assert y0 + (y1 - y0) * t == (1.0 - t) * y0 + t * y1;
    assert (1.0 - t) * lo <= (1.0 - t) * y0 <= (1.0 - t) * hi;
    assert t * lo <= t * y1 <= t * hi;
  }

  /** n / d is a share in [0, 1] when 0 <= n <= d. */
  lemma ShareInUnit(n: real, d: real)
    requires 0.0 <= n <= d && 0.0 < d
    ensures 0.0 <= n / d <= 1.0
  {
    var t := n / d;
    assert t * d == n;
    NegativeTimesPositive(t, d);
    NegativeTimesPositive(1.0 - t, d);
  }

  lemma NegativeTimesPositive(t: real, d: real)
    requires 0.0 < d
    ensures t < 0.0 ==> t * d < 0.0
  {
  }

  /** A falling line: the further right, the lower, and never below the right value. */
  lemma LerpAntitone(x0: real, y0: real, x1: real, y1: real, a: real, b: real)
    requires x0 < x1 && y0 >= y1 && a <= b
    ensures Lerp(x0, y0, x1, y1, b) <= Lerp(x0, y0, x1, y1, a)
  {
    var s := (y1 - y0) / (x1 - x0);
    assert s <= 0.0;
    assert s * (b - x0) <= s * (a - x0);
  }

  /** Left of the first sample point the result is clamped to the first value. */
  lemma InterpBelow(x: real, xp: seq<real>, fp: seq<real>)
    requires |xp| == |fp| > 0 && StrictlyIncreasing(xp)
    requires x <= xp[0]
    ensures Interp(x, xp, fp) == fp[0]
  {
  }

  /** Right of the last sample point the result is clamped to the last value. */
  lemma {:induction false} InterpAbove(x: real, xp: seq<real>, fp: seq<real>)
    requires |xp| == |fp| > 0 && StrictlyIncreasing(xp)
    requires x >= xp[|xp| - 1]
    ensures Interp(x, xp, fp) == fp[|fp| - 1]
    decreases |xp|
  {
    if |xp| > 1 {
      assert x >= xp[1] by { SampleOrder(xp, 1, |xp| - 1); }
      InterpAbove(x, xp[1..], fp[1..]);
    }
  }

  /** Sample points further right are larger. */
  lemma {:induction false} SampleOrder(xp: seq<real>, i: nat, j: nat)
    requires StrictlyIncreasing(xp) && i <= j < |xp|
    ensures xp[i] <= xp[j]
    decreases j - i
  {
    if i < j {
      SampleOrder(xp, i + 1, j);
    }
  }

  /** At each sample point the result is the sample value. */
  lemma {:induction false} InterpAtKnot(xp: seq<real>, fp: seq<real>, i: nat)
    requires |xp| == |fp| > 0 && StrictlyIncreasing(xp) && i < |xp|
    ensures Interp(xp[i], xp, fp) == fp[i]
    decreases i
  {
    if i > 0 {
      assert xp[0] < xp[1] <= xp[i] by { SampleOrder(xp, 1, i); }
      assert xp[1..][i - 1] == xp[i];
      InterpAtKnot(xp[1..], fp[1..], i - 1);
    }
  }

  /** Between sample points i and i + 1, both included, the result is the line
      through those two samples. */
  lemma {:induction false} InterpOnSegment(x: real, xp: seq<real>, fp: seq<real>, i: nat)
    requires |xp| == |fp| && StrictlyIncreasing(xp) && i + 1 < |xp|
    requires xp[i] <= x <= xp[i + 1]
    ensures Interp(x, xp, fp) == Lerp(xp[i], fp[i], xp[i + 1], fp[i + 1], x)
    decreases i
  {
    LerpEnds(xp[i], fp[i], xp[i + 1], fp[i + 1]);
    if i == 0 {
      if x == xp[1] {
        InterpAtKnot(xp, fp, 1);
      }
    } else if x == xp[i] {
      InterpAtKnot(xp, fp, i);
    } else {
      assert xp[1] <= xp[i] by { SampleOrder(xp, 1, i); }
      InterpOnSegment(x, xp[1..], fp[1..], i - 1);
    }
  }

  /** The result never leaves the range of the sample values. */
  lemma {:induction false} InterpWithin(x: real, xp: seq<real>, fp: seq<real>, lo: real, hi: real)
    requires |xp| == |fp| > 0 && StrictlyIncreasing(xp)
    requires Within(fp, lo, hi)
    ensures lo <= Interp(x, xp, fp) <= hi
    decreases |xp|
  {
    if x <= xp[0] || |xp| == 1 {
    } else if x < xp[1] {
      LerpBetween(xp[0], fp[0], xp[1], fp[1], x, lo, hi);
    } else {
      InterpWithin(x, xp[1..], fp[1..], lo, hi);
    }
  }

  /** Non-increasing sample values are bounded by the first and the last. */
  lemma {:induction false} NonIncreasingWithin(ys: seq<real>)
    requires |ys| > 0 && NonIncreasing(ys)
    ensures Within(ys, ys[|ys| - 1], ys[0])
    decreases |ys|
  {
    if |ys| > 1 {
      NonIncreasingWithin(ys[1..]);
      assert ys[0] >= ys[1];
    }
  }

  /** With non-increasing sample values the interpolant is non-increasing in x. */
  lemma {:induction false} InterpAntitone(a: real, b: real, xp: seq<real>, fp: seq<real>)
    requires |xp| == |fp| > 0 && StrictlyIncreasing(xp) && NonIncreasing(fp)
    requires a <= b
    ensures Interp(b, xp, fp) <= Interp(a, xp, fp)
    decreases |xp|
  {
    NonIncreasingWithin(fp);
    if a <= xp[0] || |xp| == 1 {
      InterpWithin(b, xp, fp, fp[|fp| - 1], fp[0]);
    } else if a < xp[1] {
      if b < xp[1] {
        LerpAntitone(xp[0], fp[0], xp[1], fp[1], a, b);
      } else {
        NonIncreasingWithin(fp[1..]);
        InterpWithin(b, xp[1..], fp[1..], fp[|fp| - 1], fp[1]);
        LerpBetween(xp[0], fp[0], xp[1], fp[1], a, fp[1], fp[0]);
      }
    } else {
      InterpAntitone(a, b, xp[1..], fp[1..]);
    }
  }
}
