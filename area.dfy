/** Signed areas between a path and a reference line (`auc`, `auc2`): two
    shoelace-style loops that add up, for every point, the cross term with
    its predecessor, the predecessor of the first point being the last. */
module Area {
  import opened Wrappers

  function Abs(v: real): (r: real)
    ensures r >= 0.0 && (r == v || r == -v)
  {
    if v < 0.0 then -v else v
  }

  /** The term both loops add for a point (xi, yi) whose predecessor is
      (xj, yj): xi * yj - yi * xj. */
  function Cross(xi: real, yi: real, xj: real, yj: real): real
  {
    xi * yj - yi * xj
  }

  /** Python's `sum`: the elements added from the first to the last. */
  function Sum(s: seq<real>): real
  {
    if s == [] then 0.0 else Sum(s[..|s| - 1]) + s[|s| - 1]
  }

  /** The cross terms of points 1 .. n-1, each with the point before it. */
  function ChainSum(x: seq<real>, y: seq<real>): real
    requires |x| == |y|
    decreases |x|
  {
    if |x| < 2 then 0.0
    else ChainSum(x[..|x| - 1], y[..|y| - 1])
         + Cross(x[|x| - 1], y[|y| - 1], x[|x| - 2], y[|y| - 2])
  }

  /** The cross terms of all n points around the closed polygon: the chain
      plus point 0 with its predecessor n-1. Twice the polygon's signed
      area, with clockwise traversal positive. */
  function WrapSum(x: seq<real>, y: seq<real>): real
    requires |x| == |y|
  {
    if |x| == 0 then 0.0
    else Cross(x[0], y[0], x[|x| - 1], y[|y| - 1]) + ChainSum(x, y)
  }

  /** The loop shared by `auc` and `auc2`: one cross term per point, with a
      running predecessor index j that starts at the last point. Only the
      first |x| values of y are read. */
  method CrossTerms(x: seq<real>, y: seq<real>) returns (areas: seq<real>)
    requires |x| <= |y|
    ensures |areas| == |x|
    ensures Sum(areas) == WrapSum(x, y[..|x|])
  {
    ghost var ys := y[..|x|];
    areas := [];
    var j := |x| - 1;
    for i := 0 to |x|
      invariant |areas| == i
      invariant j == if i == 0 then |x| - 1 else i - 1
      invariant Sum(areas) == if i == 0 then 0.0
                              else Cross(x[0], y[0], x[|x| - 1], y[|x| - 1])
                                   + ChainSum(x[..i], ys[..i])
    {
      var x1y2 := y[i] * x[j];
      var x2y1 := x[i] * y[j];
      var area := x2y1 - x1y2;
      assert area == Cross(x[i], ys[i], x[j], ys[j]);
      SumAppend(areas, area);
      if i > 0 {
        ChainSumStep(x, ys, i);
      }
      areas := areas + [area];
      j := i;
    }
    assert x[..|x|] == x && ys[..|x|] == ys;
  }

  /** Adding one more element to the running sum. */
  lemma SumAppend(s: seq<real>, v: real)
    ensures Sum(s + [v]) == Sum(s) + v
  {
    assert (s + [v])[..|s|] == s;
  }

  /** The chain of the first i + 1 points is the chain of the first i plus
      the term of point i with point i - 1. */
  lemma ChainSumStep(x: seq<real>, y: seq<real>, i: nat)
    requires |x| == |y| && 0 < i < |x|
    ensures ChainSum(x[..i + 1], y[..i + 1])
            == ChainSum(x[..i], y[..i]) + Cross(x[i], y[i], x[i - 1], y[i - 1])
  {
    assert x[..i + 1][..i] == x[..i] && y[..i + 1][..i] == y[..i];
  }

  /** `auc(x, y)`: half the cross-term sum around the closed polygon, that
      is, the signed area enclosed by the path and the chord from its last
      point back to its first. `None` stands for the IndexError the loop
      raises when y is shorter than x. */
  method Auc(x: seq<real>, y: seq<real>) returns (area: Option<real>)
    ensures area.None? <==> |y| < |x|
    ensures area.Some? ==> area.value == WrapSum(x, y[..|x|]) / 2.0
  {
    if |y| < |x| {
      return None;
    }
    var areas := CrossTerms(x, y);
    area := Some(Sum(areas) / 2.0);
  }

  /** What `auc2` computes for a path of equal-length coordinates: the path
      closed through the extra point (x[-1], y[0]), its cross-term sum not
      halved, minus 0.5 * |x[-1] - x[0]| * |y[0] * y[0]|. */
  function Auc2Of(x: seq<real>, y: seq<real>): real
    requires |x| == |y| > 0
  {
    WrapSum(x + [x[|x| - 1]], y + [y[0]])
      - 0.5 * Abs(x[|x| - 1] - x[0]) * Abs(y[0] * y[0])
  }

  /** `auc2(x, y)`: copies x and y, appends the point (x[-1], y[0]) to the
      copies, runs the same loop over the n + 1 points without halving, and
      subtracts 0.5 * |x'[-1] - x'[0]| * |y'[-1] * y'[0]| computed on the
      copies, where y'[-1] is the appended y[0]. The caller's sequences are
      values and stay as they were. `None` stands for the IndexError raised
      by `x[-1]` on an empty x or by the loop when y is shorter than x. */
  method Auc2(x: seq<real>, y: seq<real>) returns (area: Option<real>)
    ensures area.None? <==> |x| == 0 || |y| < |x|
    ensures area.Some? ==>
      area.value == WrapSum(x + [x[|x| - 1]], (y + [y[0]])[..|x| + 1])
                    - 0.5 * Abs(x[|x| - 1] - x[0]) * Abs(y[0] * y[0])
    ensures area.Some? && |x| == |y| ==> area.value == Auc2Of(x, y)
  {
    if |x| == 0 || |y| < |x| {
      return None;
    }
    var xs, ys := x, y;
    xs := xs + [xs[|xs| - 1]];
    ys := ys + [ys[0]];
    var areas := CrossTerms(xs, ys);
    var triangle := 0.5 * Abs(xs[|xs| - 1] - xs[0]) * Abs(ys[|ys| - 1] * ys[0]);
    area := Some(Sum(areas) - triangle);
    assert |x| == |y| ==> (y + [y[0]])[..|x| + 1] == y + [y[0]];
  }

  /** A path of fewer than three points encloses no area. */
  lemma WrapSumFewPoints(x: seq<real>, y: seq<real>)
    requires |x| == |y| < 3
    ensures WrapSum(x, y) == 0.0
  {
    if |x| == 2 {
      assert x[..1] == [x[0]] && y[..1] == [y[0]];
      assert ChainSum(x, y) == Cross(x[1], y[1], x[0], y[0]);
    }
  }

  /** For points on one line, p + s * d, the cross term of point i with
      predecessor j is (px * dy - py * dx) * (sj - si). */
  lemma CrossOnLine(px: real, py: real, dx: real, dy: real, si: real, sj: real)
    ensures Cross(px + si * dx, py + si * dy, px + sj * dx, py + sj * dy)
            == (px * dy - py * dx) * sj - (px * dy - py * dx) * si
  {
    calc {
      Cross(px + si * dx, py + si * dy, px + sj * dx, py + sj * dy);
      (px + si * dx) * (py + sj * dy) - (py + si * dy) * (px + sj * dx);
      px * py + px * sj * dy + si * dx * py + si * sj * dx * dy
        - (py * px + py * sj * dx + si * dy * px + si * sj * dy * dx);
      (px * dy - py * dx) * sj - (px * dy - py * dx) * si;
    }
  }

  /** Points on one line p + s[i] * d. */
  ghost predicate OnLine(x: seq<real>, y: seq<real>, s: seq<real>,
                         px: real, py: real, dx: real, dy: real)
  {
    |x| == |y| == |s| &&
    forall i :: 0 <= i < |x| ==> x[i] == px + s[i] * dx && y[i] == py + s[i] * dy
  }

  /** `CrossOnLine` for two points of a sequence on a line. */
  lemma CrossOnLineAt(x: seq<real>, y: seq<real>, s: seq<real>,
                      px: real, py: real, dx: real, dy: real, k: real, i: nat, j: nat)
    requires OnLine(x, y, s, px, py, dx, dy) && i < |x| && j < |x|
    requires k == px * dy - py * dx
    ensures Cross(x[i], y[i], x[j], y[j]) == k * s[j] - k * s[i]
  {
    assert x[i] == px + s[i] * dx && y[i] == py + s[i] * dy;
    assert x[j] == px + s[j] * dx && y[j] == py + s[j] * dy;
    CrossOnLine(px, py, dx, dy, s[i], s[j]);
  }

  /** When every chain term is the drop of u from one point to the next,
      the chain adds up to the drop of u from the first point to the last. */
  lemma {:induction false} ChainSumTelescopes(x: seq<real>, y: seq<real>, u: seq<real>)
    requires |x| == |y| == |u| > 0
    requires forall i :: 0 < i < |x| ==> Cross(x[i], y[i], x[i - 1], y[i - 1]) == u[i - 1] - u[i]
    ensures ChainSum(x, y) == u[0] - u[|u| - 1]
    decreases |x|
  {
    var n := |x|;
    if n >= 2 {
      var xs, ys, us := x[..n - 1], y[..n - 1], u[..n - 1];
      ChainSumTelescopes(xs, ys, us);
      assert ChainSum(x, y) == ChainSum(xs, ys) + Cross(x[n - 1], y[n - 1], x[n - 2], y[n - 2]);
    }
  }

  /** Along a line p + s * d the chain of cross terms telescopes, with k
      the cross product of p and d. */
  lemma ChainSumOnLine(x: seq<real>, y: seq<real>, s: seq<real>,
                       px: real, py: real, dx: real, dy: real, k: real)
    requires OnLine(x, y, s, px, py, dx, dy) && |x| > 0
    requires k == px * dy - py * dx
    ensures ChainSum(x, y) == k * s[0] - k * s[|s| - 1]
  {
    var u := LineDrops(x, y, s, px, py, dx, dy, k);
    ChainSumTelescopes(x, y, u);
  }

  /** The values k * s[i] whose drops from one point to the next are the
      chain terms of a path along a line. */
  lemma LineDrops(x: seq<real>, y: seq<real>, s: seq<real>,
                  px: real, py: real, dx: real, dy: real, k: real) returns (u: seq<real>)
    requires OnLine(x, y, s, px, py, dx, dy) && |x| > 0
    requires k == px * dy - py * dx
    ensures |u| == |x|
    ensures forall i :: 0 < i < |x| ==> Cross(x[i], y[i], x[i - 1], y[i - 1]) == u[i - 1] - u[i]
    ensures u[0] == k * s[0] && u[|u| - 1] == k * s[|s| - 1]
  {
    u := seq(|s|, i requires 0 <= i < |s| => k * s[i]);
    forall i | 0 < i < |x|
      ensures Cross(x[i], y[i], x[i - 1], y[i - 1]) == u[i - 1] - u[i]
    {
      CrossOnLineAt(x, y, s, px, py, dx, dy, k, i, i - 1);
    }
  }

  /** Points on one straight line enclose no area: `auc` of a straight path
      is 0. */
  lemma WrapSumOnLine(x: seq<real>, y: seq<real>, s: seq<real>,
                      px: real, py: real, dx: real, dy: real)
    requires OnLine(x, y, s, px, py, dx, dy)
    ensures WrapSum(x, y) == 0.0
  {
    if |x| > 0 {
      var k := px * dy - py * dx;
      ChainSumOnLine(x, y, s, px, py, dx, dy, k);
      CrossOnLineAt(x, y, s, px, py, dx, dy, k, 0, |x| - 1);
    }
  }

  /** The points in the opposite order. */
  function Reverse(s: seq<real>): (r: seq<real>)
    ensures |r| == |s|
    ensures forall i :: 0 <= i < |s| ==> r[i] == s[|s| - 1 - i]
  {
    seq(|s|, i requires 0 <= i < |s| => s[|s| - 1 - i])
  }

  /** The chain can also be split off at its first point. */
  lemma {:induction false} ChainSumFront(x: seq<real>, y: seq<real>)
    requires |x| == |y| >= 2
    ensures ChainSum(x, y) == Cross(x[1], y[1], x[0], y[0]) + ChainSum(x[1..], y[1..])
    decreases |x|
  {
    var n := |x|;
    if n > 2 {
      ChainSumFront(x[..n - 1], y[..n - 1]);
      assert x[..n - 1][1..] == x[1..][..n - 2] && y[..n - 1][1..] == y[1..][..n - 2];
    } else {
      assert x[1..][..0] == [] && y[1..][..0] == [];
    }
  }

  /** Reversing the path reverses every cross term of the chain. */
  lemma {:induction false} ChainSumReverse(x: seq<real>, y: seq<real>)
    requires |x| == |y|
    ensures ChainSum(Reverse(x), Reverse(y)) == -ChainSum(x, y)
    decreases |x|
  {
    var n := |x|;
    if n >= 2 {
      var rx, ry := Reverse(x), Reverse(y);
      assert rx[..n - 1] == Reverse(x[1..]) && ry[..n - 1] == Reverse(y[1..]);
      ChainSumReverse(x[1..], y[1..]);
      ChainSumFront(x, y);
    }
  }

  /** Traversing the path backwards negates its signed area: `auc` of the
      reversed path is minus `auc` of the path. */
  lemma WrapSumReverse(x: seq<real>, y: seq<real>)
    requires |x| == |y|
    ensures WrapSum(Reverse(x), Reverse(y)) == -WrapSum(x, y)
  {
    ChainSumReverse(x, y);
  }

  /** Appending a point adds one chain term. */
  lemma ChainSumAppend(x: seq<real>, y: seq<real>, c: real, d: real)
    requires |x| == |y| > 0
    ensures ChainSum(x + [c], y + [d]) == ChainSum(x, y) + Cross(c, d, x[|x| - 1], y[|y| - 1])
  {
    assert (x + [c])[..|x|] == x && (y + [d])[..|y|] == y;
  }

  /** For a straight path from p to p + d, the polygon `auc2` closes through
      (x[-1], y[0]) has cross-term sum dx * dy: twice the triangle between
      the path and the horizontal through its start. */
  lemma StraightPathClosedSum(x: seq<real>, y: seq<real>, s: seq<real>,
                              px: real, py: real, dx: real, dy: real)
    requires OnLine(x, y, s, px, py, dx, dy) && |x| > 0
    requires s[0] == 0.0 && s[|s| - 1] == 1.0
    ensures WrapSum(x + [x[|x| - 1]], y + [y[0]]) == dx * dy
  {
    var n := |x|;
    ChainSumOnLine(x, y, s, px, py, dx, dy, px * dy - py * dx);
    ChainSumAppend(x, y, x[n - 1], y[0]);
    assert x[n - 1] == px + dx && y[n - 1] == py + dy && x[0] == px && y[0] == py;
  }

  /** As written, `auc2` of the straight path (0, 0) -> (1, 1) is 1, not 0:
      the sum is not halved and the triangle term uses y[0] * y[0], which is
      0 for a path starting on the x axis. */
  lemma Auc2StraightPathNotZero()
    ensures Auc2Of([0.0, 1.0], [0.0, 1.0]) == 1.0
  {
    StraightPathClosedSum([0.0, 1.0], [0.0, 1.0], [0.0, 1.0], 0.0, 0.0, 1.0, 1.0);
  }

  /** As written, `auc2` of any straight path from p to p + d is
      dx * dy - 0.5 * |dx| * py * py. */
  lemma Auc2StraightPath(x: seq<real>, y: seq<real>, s: seq<real>,
                         px: real, py: real, dx: real, dy: real)
    requires OnLine(x, y, s, px, py, dx, dy) && |x| > 0
    requires s[0] == 0.0 && s[|s| - 1] == 1.0
    ensures Auc2Of(x, y) == dx * dy - 0.5 * Abs(dx) * (py * py)
  {
    StraightPathClosedSum(x, y, s, px, py, dx, dy);
    assert x[|x| - 1] - x[0] == dx && y[0] == py;
    assert Abs(py * py) == py * py;
  }

  /** `auc2` as its documentation describes it: the signed area between the
      path and the horizontal through its start (half the cross-term sum of
      the polygon closed through (x[-1], y[0])), minus the triangle between
      the straight line and that horizontal,
      0.5 * |x[-1] - x[0]| * |y[-1] - y[0]|. */
  function Auc2Corrected(x: seq<real>, y: seq<real>): real
    requires |x| == |y| > 0
  {
    WrapSum(x + [x[|x| - 1]], y + [y[0]]) / 2.0
      - 0.5 * Abs(x[|x| - 1] - x[0]) * Abs(y[|y| - 1] - y[0])
  }

  /** The corrected `auc2` of a straight path that moves right and up (or
      left and down) is 0. */
  lemma Auc2CorrectedStraightPath(x: seq<real>, y: seq<real>, s: seq<real>,
                                  px: real, py: real, dx: real, dy: real)
    requires OnLine(x, y, s, px, py, dx, dy) && |x| > 0
    requires s[0] == 0.0 && s[|s| - 1] == 1.0 && dx * dy >= 0.0
    ensures Auc2Corrected(x, y) == 0.0
  {
    StraightPathClosedSum(x, y, s, px, py, dx, dy);
    assert x[|x| - 1] - x[0] == dx && y[|y| - 1] - y[0] == dy;
    assert Abs(dx) * Abs(dy) == dx * dy;
  }
}
