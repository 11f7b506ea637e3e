/** One-dimensional piecewise-linear interpolation, as numpy's `interp`
    documents it: for sample points `xp` (strictly increasing) with values
    `fp`, a query below `xp[0]` gives `fp[0]`, a query above the last sample
    point gives the last value, and a query between two neighbouring sample
    points lies on the straight line through them. */
module Interpolation {

  /** The sample points are strictly increasing. */
  predicate StrictlyIncreasing(xp: seq<real>)
  {
    forall i, j :: 0 <= i < j < |xp| ==> xp[i] < xp[j]
  }

  /** The value on the straight line through (x0, f0) and (x1, f1) at v. */
  function Lerp(v: real, x0: real, x1: real, f0: real, f1: real): real
    requires x0 < x1
  {
    f0 + (v - x0) * (f1 - f0) / (x1 - x0)
  }

  /** numpy's `interp(v, xp, fp)` for a single query point `v`. */
  function InterpAt(v: real, xp: seq<real>, fp: seq<real>): (r: real)
    requires |xp| == |fp| > 0 && StrictlyIncreasing(xp)
    ensures v <= xp[0] ==> r == fp[0]
    ensures v >= xp[|xp| - 1] ==> r == fp[|fp| - 1]
    decreases |xp|
  {
    if |xp| == 1 || v <= xp[0] then fp[0]
    else if v <= xp[1] then
      assert v == xp[1] ==> Lerp(v, xp[0], xp[1], fp[0], fp[1]) == fp[1] by {
        if v == xp[1] { LerpAtRight(xp[0], xp[1], fp[0], fp[1]); }
      }
      Lerp(v, xp[0], xp[1], fp[0], fp[1])
    else InterpAt(v, xp[1..], fp[1..])
  }

  /** numpy's `interp(vs, xp, fp)` applied to every query point of `vs`. */
  function InterpAll(vs: seq<real>, xp: seq<real>, fp: seq<real>): (r: seq<real>)
    requires |xp| == |fp| > 0 && StrictlyIncreasing(xp)
    ensures |r| == |vs|
    ensures forall k :: 0 <= k < |vs| ==> r[k] == InterpAt(vs[k], xp, fp)
  {
    seq(|vs|, k requires 0 <= k < |vs| => InterpAt(vs[k], xp, fp))
  }

  lemma LerpAtRight(x0: real, x1: real, f0: real, f1: real)
    requires x0 < x1
    ensures Lerp(x1, x0, x1, f0, f1) == f1
  {
    calc {
      Lerp(x1, x0, x1, f0, f1);
      f0 + (x1 - x0) * (f1 - f0) / (x1 - x0);
      { assert (x1 - x0) * (f1 - f0) / (x1 - x0) == f1 - f0; }
      f1;
    }
  }

  /** Between the k-th and (k+1)-th sample points the result lies on the
      straight line through those two samples: the reference definition of
      piecewise-linear interpolation. */
  lemma {:induction false} InterpOnSegment(v: real, xp: seq<real>, fp: seq<real>, k: nat)
    requires |xp| == |fp| > 0 && StrictlyIncreasing(xp)
    requires k + 1 < |xp| && xp[k] <= v <= xp[k + 1]
    ensures InterpAt(v, xp, fp) == Lerp(v, xp[k], xp[k + 1], fp[k], fp[k + 1])
    decreases k
  {
    if k == 0 {
      if v == xp[0] {
        assert Lerp(v, xp[0], xp[1], fp[0], fp[1]) == fp[0];
      }
    } else {
      assert xp[0] < xp[k];
      if v == xp[k] {
        // The previous segment ends where this one begins.
        InterpOnSegment(v, xp, fp, k - 1);
        LerpAtRight(xp[k - 1], xp[k], fp[k - 1], fp[k]);
        assert Lerp(v, xp[k], xp[k + 1], fp[k], fp[k + 1]) == fp[k];
      } else {
        assert xp[1] <= xp[k] < v;
        InterpOnSegment(v, xp[1..], fp[1..], k - 1);
      }
    }
  }

  /** At a sample point the interpolation returns that sample's value. */
  lemma InterpAtKnot(xp: seq<real>, fp: seq<real>, k: nat)
    requires |xp| == |fp| > 0 && StrictlyIncreasing(xp)
    requires k < |xp|
    ensures InterpAt(xp[k], xp, fp) == fp[k]
  {
    if k + 1 < |xp| {
      InterpOnSegment(xp[k], xp, fp, k);
    }
  }

  /** Interpolation is exact on data that is itself a straight line:
      if every `fp[i]` is `a * xp[i] + b`, then so is the result at any
      query point inside the sampled range. */
  lemma {:induction false} InterpLinear(v: real, xp: seq<real>, fp: seq<real>, a: real, b: real)
    requires |xp| == |fp| > 0 && StrictlyIncreasing(xp)
    requires forall i :: 0 <= i < |xp| ==> fp[i] == a * xp[i] + b
    requires xp[0] <= v <= xp[|xp| - 1]
    ensures InterpAt(v, xp, fp) == a * v + b
    decreases |xp|
  {
    if |xp| == 1 || v <= xp[0] {
      assert v == xp[0];
    } else if v <= xp[1] {
      LerpLinear(v, xp[0], xp[1], a, b);
    } else {
      InterpLinear(v, xp[1..], fp[1..], a, b);
    }
  }

  /** `InterpLinear` for every query point of a sequence. */
  lemma InterpAllLinear(vs: seq<real>, xp: seq<real>, fp: seq<real>, a: real, b: real)
    requires |xp| == |fp| > 0 && StrictlyIncreasing(xp)
    requires forall i :: 0 <= i < |xp| ==> fp[i] == a * xp[i] + b
    requires forall k :: 0 <= k < |vs| ==> xp[0] <= vs[k] <= xp[|xp| - 1]
    ensures forall k :: 0 <= k < |vs| ==> InterpAll(vs, xp, fp)[k] == a * vs[k] + b
  {
    forall k | 0 <= k < |vs| ensures InterpAll(vs, xp, fp)[k] == a * vs[k] + b {
      InterpLinear(vs[k], xp, fp, a, b);
    }
  }

  lemma LerpLinear(v: real, x0: real, x1: real, a: real, b: real)
    requires x0 < x1
    ensures Lerp(v, x0, x1, a * x0 + b, a * x1 + b) == a * v + b
  {
    calc {
      Lerp(v, x0, x1, a * x0 + b, a * x1 + b);
      a * x0 + b + (v - x0) * ((a * x1 + b) - (a * x0 + b)) / (x1 - x0);
      { assert (a * x1 + b) - (a * x0 + b) == a * (x1 - x0); }
      a * x0 + b + (v - x0) * (a * (x1 - x0)) / (x1 - x0);
      { assert (v - x0) * (a * (x1 - x0)) / (x1 - x0) == (v - x0) * a; }
      a * v + b;
    }
  }

  /** The result never leaves the range spanned by the sample values. */
  lemma {:induction false} InterpBounded(v: real, xp: seq<real>, fp: seq<real>, lo: real, hi: real)
    requires |xp| == |fp| > 0 && StrictlyIncreasing(xp)
    requires forall i :: 0 <= i < |fp| ==> lo <= fp[i] <= hi
    ensures lo <= InterpAt(v, xp, fp) <= hi
    decreases |xp|
  {
    if |xp| == 1 || v <= xp[0] {
    } else if v <= xp[1] {
      LerpBetween(v, xp[0], xp[1], fp[0], fp[1], lo, hi);
    } else {
      InterpBounded(v, xp[1..], fp[1..], lo, hi);
    }
  }

  lemma LerpBetween(v: real, x0: real, x1: real, f0: real, f1: real, lo: real, hi: real)
    requires x0 < v <= x1
    requires lo <= f0 <= hi && lo <= f1 <= hi
    ensures lo <= Lerp(v, x0, x1, f0, f1) <= hi
  {
    var w := (v - x0) / (x1 - x0);
    assert 0.0 < w <= 1.0;
    assert Lerp(v, x0, x1, f0, f1) == (1.0 - w) * f0 + w * f1;
    assert (1.0 - w) * lo <= (1.0 - w) * f0 <= (1.0 - w) * hi;
    assert w * lo <= w * f1 <= w * hi;
  }
}
