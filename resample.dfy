/** The resampler: puts an irregularly time-stamped path onto an evenly
    spaced time grid (`even_time_steps`), or onto a grid of fixed
    millisecond intervals padded with the last value (`uniform_time`). */
module Resample {
  import opened Wrappers
  import opened Interpolation

  /** A path as three parallel sequences: coordinates x, y and timestamps t. */
  datatype Path = Path(x: seq<real>, y: seq<real>, t: seq<real>)

  /** The least integer not below q. */
  function Ceil(q: real): (n: int)
    ensures q <= n as real < q + 1.0
  {
    -((-q).Floor)
  }

  /** Python's `int()` applied to a float: truncation toward zero. */
  function TruncToInt(q: real): (n: int)
    ensures q >= 0.0 ==> 0 <= n && n as real <= q < n as real + 1.0
    ensures q < 0.0 ==> n <= 0 && n as real - 1.0 < q <= n as real
  {
    if q >= 0.0 then q.Floor else -((-q).Floor)
  }

  /** numpy's `arange(start, stop, step)` for a positive step, in exact
      arithmetic: `start + k * step` for every k >= 0 that stays below `stop`. */
  function Arange(start: real, stop: real, step: real): (r: seq<real>)
    requires step > 0.0
    ensures forall k :: 0 <= k < |r| ==> r[k] == start + k as real * step && r[k] < stop
    ensures start + |r| as real * step >= stop
  {
    var n := if stop <= start then 0 else Ceil((stop - start) / step);
    var r := seq(n, k requires 0 <= k < n => start + k as real * step);
    forall k | 0 <= k < n ensures r[k] < stop {
      ArangeBelowStop(start, stop, step, k, n);
    }
    assert n > 0 ==> start + n as real * step >= stop by {
      if n > 0 { ArangeReachesStop(start, stop, step, n); }
    }
    r
  }

  lemma ArangeBelowStop(start: real, stop: real, step: real, k: int, n: int)
    requires step > 0.0 && start < stop && n == Ceil((stop - start) / step)
    requires 0 <= k < n
    ensures start + k as real * step < stop
  {
    var q := (stop - start) / step;
    assert k as real < q;
    assert k as real * step < q * step;
    assert q * step == stop - start;
  }

  lemma ArangeReachesStop(start: real, stop: real, step: real, n: int)
    requires step > 0.0 && start < stop && n == Ceil((stop - start) / step)
    ensures start + n as real * step >= stop
  {
    var q := (stop - start) / step;
    assert n as real >= q;
    assert n as real * step >= q * step;
    assert q * step == stop - start;
  }

  /** numpy's `arange(start, stop, step)` over integers for a non-zero step:
      `start + k * step` for every k >= 0 that has not yet passed `stop`. */
  function IntArange(start: int, stop: int, step: int): (r: seq<int>)
    requires step != 0
    ensures forall k :: 0 <= k < |r| ==> r[k] == start + k * step
    ensures step > 0 ==> (forall k :: 0 <= k < |r| ==> r[k] < stop) && start + |r| * step >= stop
    ensures step < 0 ==> (forall k :: 0 <= k < |r| ==> r[k] > stop) && start + |r| * step <= stop
  {
    if step > 0 then UpRange(start, stop, step)
    else
      var up := UpRange(-start, -stop, -step);
      var r := seq(|up|, k requires 0 <= k < |up| => -up[k]);
      assert forall k :: 0 <= k < |r| ==> r[k] == start + k * step by {
        forall k | 0 <= k < |r| ensures r[k] == start + k * step {
          assert k * (-step) == -(k * step);
        }
      }
      assert start + |r| * step <= stop by {
        assert |up| * (-step) == -(|up| * step);
      }
      r
  }

  /** The ascending case of `IntArange`. */
  function UpRange(start: int, stop: int, size: int): (r: seq<int>)
    requires size > 0
    ensures forall k :: 0 <= k < |r| ==> r[k] == start + k * size && r[k] < stop
    ensures start + |r| * size >= stop
  {
    var gap := stop - start;
    var n := if gap <= 0 then 0 else (gap + size - 1) / size;
    var r := seq(n, k requires 0 <= k < n => start + k * size);
    assert gap > 0 ==> (n - 1) * size < gap <= n * size by {
      if gap > 0 { CeilDiv(gap, size); }
    }
    forall k | 0 <= k < n ensures r[k] < stop {
      MulMonotone(k, n - 1, size);
    }
    r
  }

  /** (gap + size - 1) / size is the number of multiples of size below gap. */
  lemma CeilDiv(gap: int, size: int)
    requires gap > 0 && size > 0
    ensures var n := (gap + size - 1) / size; n >= 1 && (n - 1) * size < gap <= n * size
  {
    var n, m := (gap + size - 1) / size, (gap + size - 1) % size;
    assert gap + size - 1 == n * size + m && 0 <= m < size;
    assert (n - 1) * size == n * size - size;
  }

  lemma MulMonotone(a: int, b: int, c: int)
    requires 0 <= a <= b && c > 0
    ensures a * c <= b * c
  {
    assert b * c - a * c == (b - a) * c;
  }

  /** `even_time_steps(x, y, t, length)`: `length` evenly spaced timestamps
      over [min t, max t) with x and y interpolated onto them. `None` stands
      for the exceptions the original raises: the minimum of an empty
      sequence, a division by a zero `length`, a zero-width step when all
      timestamps coincide, or `interp`'s refusal of coordinates whose length
      differs from the timestamps'. A negative `length` gives a negative step, for
      which `arange` from min t up to max t yields nothing. For increasing
      timestamps min t and max t are the first and the last. */
  function EvenTimeSteps(x: seq<real>, y: seq<real>, t: seq<real>, length: int): (r: Option<Path>)
    requires StrictlyIncreasing(t)
    ensures r.None? <==> |t| < 2 || length == 0 || |x| != |t| || |y| != |t|
    ensures r.Some? && length < 0 ==> r.value == Path([], [], [])
    ensures r.Some? && length > 0 ==>
      var p, lo, hi := r.value, t[0], t[|t| - 1];
      && |p.t| == length && |p.x| == length && |p.y| == length
      && p.t[0] == lo && p.x[0] == x[0] && p.y[0] == y[0]
      && (forall k :: 0 <= k < length - 1 ==> p.t[k + 1] - p.t[k] == (hi - lo) / length as real)
      && (forall k :: 0 <= k < length ==> lo <= p.t[k] < hi)
      && p.x == InterpAll(p.t, t, x) && p.y == InterpAll(p.t, t, y)
  {
    if |t| == 0 || length == 0 then None
    else
      var lo, hi := t[0], t[|t| - 1];
      var step := (hi - lo) / length as real;
      if step == 0.0 || |x| != |t| || |y| != |t| then None
      else if step < 0.0 then Some(Path([], [], []))
      else
        var nt := Arange(lo, hi, step);
        EvenGrid(lo, hi, length);
        Some(Path(InterpAll(nt, t, x), InterpAll(nt, t, y), nt))
  }

  /** A span [lo, hi) cut into `length` equal steps yields exactly `length`
      points, `step` apart, starting at lo and all below hi. */
  lemma EvenGrid(lo: real, hi: real, length: int)
    requires lo < hi && length > 0
    ensures var step := (hi - lo) / length as real;
      var nt := Arange(lo, hi, step);
      && |nt| == length && nt[0] == lo
      && (forall k :: 0 <= k < length - 1 ==> nt[k + 1] - nt[k] == step)
      && (forall k :: 0 <= k < length ==> lo <= nt[k] < hi)
  {
    var step := (hi - lo) / length as real;
    var nt := Arange(lo, hi, step);
    StepsInSpan(hi - lo, length);
    assert |nt| == length;
    forall k | 0 <= k < length - 1 ensures nt[k + 1] - nt[k] == step {
      NextGridPoint(lo, step, k);
    }
    forall k | 0 <= k < length ensures lo <= nt[k] {
      assert k as real * step >= 0.0;
    }
  }

  /** A span cut into n equal steps holds exactly n steps. */
  lemma StepsInSpan(span: real, n: int)
    requires span > 0.0 && n > 0
    ensures span / (span / n as real) == n as real
    ensures Ceil(n as real) == n
  {
  }

  lemma NextGridPoint(lo: real, step: real, k: int)
    ensures (lo + (k + 1) as real * step) - (lo + k as real * step) == step
  {
    assert (k + 1) as real * step == k as real * step + step;
  }

  /** Timestamps in milliseconds, strictly increasing. */
  predicate IncreasingTimes(ts: seq<int>)
  {
    forall i, j :: 0 <= i < j < |ts| ==> ts[i] < ts[j]
  }

  /** Integer timestamps as reals, for interpolation. */
  function AsReal(ts: seq<int>): (r: seq<real>)
    ensures |r| == |ts|
    ensures forall i :: 0 <= i < |ts| ==> r[i] == ts[i] as real
    ensures IncreasingTimes(ts) ==> StrictlyIncreasing(r)
  {
    seq(|ts|, i requires 0 <= i < |ts| => ts[i] as real)
  }

  /** `uniform_time(coordinates, timepoints, desired_interval, max_duration)`:
      `coordinates` interpolated at 0, interval, 2 * interval, ... up to the
      last timestamp, then padded with the last interpolated value up to
      `int(max_duration / desired_interval)` entries. `None` stands for the
      exceptions the original raises: the last element of an empty
      `timepoints`, a zero interval, `interp`'s refusal of coordinates whose
      length differs from the timestamps', or the last element of an empty
      grid. */
  function UniformTime(coords: seq<real>, tp: seq<int>, interval: int, maxDuration: int)
    : (r: Option<seq<real>>)
    requires IncreasingTimes(tp)
    ensures r.None? <==>
      || |tp| == 0 || interval == 0 || |coords| != |tp|
      || (interval > 0 && tp[|tp| - 1] < 0)
      || (interval < 0 && tp[|tp| - 1] >= -1)
    ensures interval > 0 && |coords| == |tp| > 0 && tp[|tp| - 1] >= 0 ==>
      var grid := tp[|tp| - 1] / interval + 1;
      var required := TruncToInt(maxDuration as real / interval as real);
      && r.Some?
      && |r.value| == (if required > grid then required else grid)
      && (forall k :: 0 <= k < grid ==>
            r.value[k] == InterpAt((k * interval) as real, AsReal(tp), coords))
      && (forall k :: grid <= k < |r.value| ==> r.value[k] == r.value[grid - 1])
  {
    if |tp| == 0 || interval == 0 || |coords| != |tp| then None
    else
      var last := tp[|tp| - 1];
      var regularTimes := IntArange(0, last + 1, interval);
      IntArangeEmpty(0, last + 1, interval);
      if |regularTimes| == 0 then None
      else
        var regular := InterpAll(AsReal(regularTimes), AsReal(tp), coords);
        var required := TruncToInt(maxDuration as real / interval as real);
        var extra := if required > |regular| then required - |regular| else 0;
        assert interval > 0 && last >= 0 ==> |regular| == last / interval + 1 by {
          if interval > 0 && last >= 0 { GridCount(last, interval); }
        }
        GridValues(coords, tp, last, interval);
        Some(regular + seq(extra, _ => regular[|regular| - 1]))
  }

  /** The k-th value interpolated on the grid 0, d, 2d, ... is the
      interpolation at k * d. */
  lemma GridValues(coords: seq<real>, tp: seq<int>, last: int, d: int)
    requires |coords| == |tp| > 0 && IncreasingTimes(tp) && d != 0
    ensures var grid := IntArange(0, last + 1, d);
      forall k :: 0 <= k < |grid| ==>
        InterpAll(AsReal(grid), AsReal(tp), coords)[k] == InterpAt((k * d) as real, AsReal(tp), coords)
  {
    var grid := IntArange(0, last + 1, d);
    assert forall k :: 0 <= k < |grid| ==> AsReal(grid)[k] == (k * d) as real;
  }

  /** An integer range is empty exactly when its start has already passed
      its stop. */
  lemma IntArangeEmpty(start: int, stop: int, step: int)
    requires step != 0
    ensures |IntArange(start, stop, step)| == 0 <==> if step > 0 then stop <= start else start <= stop
  {
    var r := IntArange(start, stop, step);
    if |r| > 0 {
      assert r[0] == start;
    }
  }

  /** The grid 0, d, 2d, ... up to and including `last` has last / d + 1 points. */
  lemma GridCount(last: int, d: int)
    requires last >= 0 && d > 0
    ensures |IntArange(0, last + 1, d)| == last / d + 1
  {
    var r := IntArange(0, last + 1, d);
    var g := |r|;
    assert g * d >= last + 1;
    assert g > 0;
    assert r[g - 1] == (g - 1) * d;
    CountBetween(last, d, g);
  }

  /** g is last / d + 1 when the g-th multiple of d is the first past last. */
  lemma CountBetween(last: int, d: int, g: int)
    requires last >= 0 && d > 0 && g > 0
    requires (g - 1) * d <= last < g * d
    ensures g == last / d + 1
  {
    var q, m := last / d, last % d;
    assert last == q * d + m && 0 <= m < d;
    assert (q + 1) * d == q * d + d;
    if g <= q {
      MulMonotone(g, q, d);
    } else if g > q + 1 {
      MulMonotone(q + 1, g - 1, d);
    }
  }

  /** The grid of `uniform_time` holds exactly the multiples k * d, k >= 0,
      that do not pass the last timestamp. */
  lemma GridIsMultiples(last: int, d: int, k: nat)
    requires last >= 0 && d > 0
    ensures k < last / d + 1 <==> k * d <= last
  {
    var q, m := last / d, last % d;
    assert last == q * d + m && 0 <= m < d;
    assert (q + 1) * d == q * d + d;
    if k <= q {
      MulMonotone(k, q, d);
    } else {
      MulMonotone(q + 1, k, d);
    }
  }

  /** For a non-negative duration, `int(max_duration / desired_interval)` is
      the integer quotient. */
  lemma RequiredLength(maxDuration: int, d: int)
    requires maxDuration >= 0 && d > 0
    ensures TruncToInt(maxDuration as real / d as real) == maxDuration / d
  {
    var q, m := maxDuration / d, maxDuration % d;
    assert maxDuration == q * d + m && 0 <= m < d;
    var dr := d as real;
    assert maxDuration as real == q as real * dr + m as real by {
      CastProduct(q, d);
    }
    var frac := m as real / dr;
    assert 0.0 <= frac < 1.0;
    assert maxDuration as real / dr == q as real + frac;
  }

  /** Converting to real commutes with multiplication. */
  lemma CastProduct(a: int, b: int)
    ensures (a * b) as real == a as real * b as real
  {
  }

  /** When the path starts at or after time 0, the first entry is its
      first coordinate. */
  lemma UniformTimeStart(coords: seq<real>, tp: seq<int>, interval: int, maxDuration: int)
    requires |coords| == |tp| > 0 && IncreasingTimes(tp)
    requires interval > 0 && tp[|tp| - 1] >= 0 && tp[0] >= 0
    ensures UniformTime(coords, tp, interval, maxDuration).value[0] == coords[0]
  {
    var ts := AsReal(tp);
    var r := UniformTime(coords, tp, interval, maxDuration).value;
    assert r[0] == InterpAt((0 * interval) as real, ts, coords);
    assert (0 * interval) as real == 0.0 <= ts[0];
  }

  /** When the last timestamp falls on the grid, every padded entry (and the
      last grid entry) is the path's last recorded coordinate. */
  lemma UniformTimeEnds(coords: seq<real>, tp: seq<int>, interval: int, maxDuration: int)
    requires |coords| == |tp| > 0 && IncreasingTimes(tp)
    requires interval > 0 && tp[|tp| - 1] >= 0 && tp[|tp| - 1] % interval == 0
    ensures var r := UniformTime(coords, tp, interval, maxDuration).value;
      forall k :: tp[|tp| - 1] / interval <= k < |r| ==> r[k] == coords[|coords| - 1]
  {
    var last := tp[|tp| - 1];
    var ts := AsReal(tp);
    var r := UniformTime(coords, tp, interval, maxDuration).value;
    var q := last / interval;
    ExactQuotient(last, interval);
    assert ts[|ts| - 1] == last as real;
    assert r[q] == InterpAt(last as real, ts, coords);
  }

  /** A multiple of d divided by d and multiplied back is itself. */
  lemma ExactQuotient(n: int, d: int)
    requires d > 0 && n % d == 0
    ensures (n / d) * d == n
  {
  }

  /** With the defaults (10 ms steps up to 3000 ms) a trial that ends
      before 3000 ms comes out as exactly 300 entries. */
  lemma UniformTimeDefaultLength(coords: seq<real>, tp: seq<int>)
    requires |coords| == |tp| > 0 && IncreasingTimes(tp)
    requires 0 <= tp[|tp| - 1] < 3000
    ensures |UniformTime(coords, tp, 10, 3000).value| == 300
  {
    RequiredLength(3000, 10);
  }

  /** When x (or y) moves at constant speed in t, so do the resampled values:
      the interpolation introduces no distortion on straight-line motion. */
  lemma EvenTimeStepsLinear(x: seq<real>, y: seq<real>, t: seq<real>, length: int, a: real, b: real)
    requires |x| == |t| && |y| == |t| && StrictlyIncreasing(t)
    requires |t| >= 2 && length > 0
    requires forall i :: 0 <= i < |t| ==> x[i] == a * t[i] + b
    ensures var p := EvenTimeSteps(x, y, t, length).value;
      forall k :: 0 <= k < length ==> p.x[k] == a * p.t[k] + b
  {
    var p := EvenTimeSteps(x, y, t, length).value;
    var nt, nx := p.t, p.x;
    assert nx == InterpAll(nt, t, x);
    assert forall k :: 0 <= k < |nt| ==> t[0] <= nt[k] <= t[|t| - 1];
    InterpAllLinear(nt, t, x, a, b);
  }

  /** x = [0, 1, 2, 3] at t = [0, 10, 20, 30], cut into 4 steps, gives
      timestamps 0, 7.5, 15, 22.5 and x values 0, 0.75, 1.5, 2.25. */
  lemma EvenTimeStepsExample()
    ensures var p := EvenTimeSteps([0.0, 1.0, 2.0, 3.0], [0.0, 0.0, 0.0, 0.0],
                                   [0.0, 10.0, 20.0, 30.0], 4).value;
      p.t == [0.0, 7.5, 15.0, 22.5] && p.x == [0.0, 0.75, 1.5, 2.25]
  {
    var x, y, t := [0.0, 1.0, 2.0, 3.0], [0.0, 0.0, 0.0, 0.0], [0.0, 10.0, 20.0, 30.0];
    var p := EvenTimeSteps(x, y, t, 4).value;
    EvenTimeStepsLinear(x, y, t, 4, 0.1, 0.0);
    assert p.t[1] == 7.5 && p.t[2] == 15.0 && p.t[3] == 22.5;
  }
}
