/** The spatial normaliser: rescales one coordinate so that its endpoints
    land on given values (`normalize_space`), and mirrors an overall
    decreasing coordinate so that it increases (`remap_right`). */
module Spatial {
  import opened Interpolation

  /** The endpoint-anchored linear rescale with clamping that
      `normalize_space` is meant to compute, written out directly: values
      within one span d = aN - a0 of the anchors map linearly so that a0 goes
      to start and aN to end; values further out are clamped to one target
      span e = end - start beyond start or end. */
  function Rescale(v: real, a0: real, aN: real, start: real, end: real): real
    requires a0 < aN
  {
    var d, e := aN - a0, end - start;
    if v < a0 - d then start - e
    else if v > aN + d then end + e
    else start + (v - a0) * (e / d)
  }

  /** `normalize_space(coord, start, end)`: numpy's `interp` of every value
      against the two-point sample [a0 - d, aN + d] -> [start - e, end + e],
      where a0, aN are the first and last values, d = aN - a0 and
      e = end - start. Only increasing endpoints are modelled: the sample
      points must increase for the interpolation to be defined. */
  function NormalizeSpace(coord: seq<real>, start: real, end: real): (r: seq<real>)
    requires |coord| > 0 && coord[0] < coord[|coord| - 1]
    ensures |r| == |coord|
    ensures r[0] == start && r[|r| - 1] == end
    ensures forall i :: 0 <= i < |coord| ==>
      r[i] == Rescale(coord[i], coord[0], coord[|coord| - 1], start, end)
  {
    var a0, aN := coord[0], coord[|coord| - 1];
    var oldDelta, newDelta := aN - a0, end - start;
    var oldRange := [a0 - oldDelta, aN + oldDelta];
    var newRange := [start - newDelta, end + newDelta];
    var r := InterpAll(coord, oldRange, newRange);
    forall i | 0 <= i < |coord| ensures r[i] == Rescale(coord[i], a0, aN, start, end) {
      PaddedInterp(coord[i], a0, aN, start, end);
    }
    RescaleAnchors(a0, aN, start, end);
    r
  }

  /** numpy's `interp` against the padded two-point sample is `Rescale`. */
  lemma PaddedInterp(v: real, a0: real, aN: real, start: real, end: real)
    requires a0 < aN
    ensures var d, e := aN - a0, end - start;
      InterpAt(v, [a0 - d, aN + d], [start - e, end + e]) == Rescale(v, a0, aN, start, end)
  {
    var d, e := aN - a0, end - start;
    var xp, fp := [a0 - d, aN + d], [start - e, end + e];
    if a0 - d <= v <= aN + d {
      InterpOnSegment(v, xp, fp, 0);
      PaddedLerp(v, a0, aN, start, end);
    }
  }

  /** The padded two-point line agrees with the plain endpoint-anchored one. */
  lemma PaddedLerp(v: real, a0: real, aN: real, start: real, end: real)
    requires a0 < aN
    ensures var d, e := aN - a0, end - start;
      Lerp(v, a0 - d, aN + d, start - e, end + e) == start + (v - a0) * (e / d)
  {
    var d, e := aN - a0, end - start;
    calc {
      Lerp(v, a0 - d, aN + d, start - e, end + e);
      start - e + (v - (a0 - d)) * ((end + e) - (start - e)) / ((aN + d) - (a0 - d));
      { assert (end + e) - (start - e) == 3.0 * e && (aN + d) - (a0 - d) == 3.0 * d; }
      start - e + (v - a0 + d) * (3.0 * e) / (3.0 * d);
      { assert (v - a0 + d) * (3.0 * e) / (3.0 * d) == (v - a0 + d) * e / d; }
      start - e + (v - a0 + d) * e / d;
      { assert (v - a0 + d) * e / d == (v - a0) * (e / d) + e; }
      start + (v - a0) * (e / d);
    }
  }

  /** The anchors land exactly on the target endpoints. */
  lemma RescaleAnchors(a0: real, aN: real, start: real, end: real)
    requires a0 < aN
    ensures Rescale(a0, a0, aN, start, end) == start
    ensures Rescale(aN, a0, aN, start, end) == end
  {
    assert (aN - a0) * (end - start) / (aN - a0) == end - start;
  }

  /** With start < end every rescaled value lies in the padded target range
      [start - e, end + e]. */
  lemma RescaleWithinPaddedRange(v: real, a0: real, aN: real, start: real, end: real)
    requires a0 < aN && start < end
    ensures var e := end - start;
      start - e <= Rescale(v, a0, aN, start, end) <= end + e
  {
    var d, e := aN - a0, end - start;
    var k := e / d;
    assert k * d == e && k > 0.0;
    if a0 - d <= v <= aN + d {
      assert (v - a0 + d) * k >= 0.0;
      assert (2.0 * d - (v - a0)) * k >= 0.0;
    }
  }

  /** Rescaling onto an increasing target range preserves order. */
  lemma RescaleMonotone(u: real, v: real, a0: real, aN: real, start: real, end: real)
    requires a0 < aN && start < end && u <= v
    ensures Rescale(u, a0, aN, start, end) <= Rescale(v, a0, aN, start, end)
  {
    var d, e := aN - a0, end - start;
    var k := e / d;
    assert k > 0.0;
    RescaleWithinPaddedRange(u, a0, aN, start, end);
    RescaleWithinPaddedRange(v, a0, aN, start, end);
    assert (v - u) * k >= 0.0;
  }

  /** Rescaling [start, end] onto itself leaves the padded range fixed. */
  lemma RescaleIdentity(v: real, start: real, end: real)
    requires start < end && start - (end - start) <= v <= end + (end - start)
    ensures Rescale(v, start, end, start, end) == v
  {
    var e := end - start;
    assert e / e == 1.0;
  }

  /** Normalising a second time onto the same increasing range changes
      nothing: after the first pass the anchors are start and end, and every
      value lies in the padded range, where the map is then the identity. */
  lemma NormalizeSpaceIdempotent(coord: seq<real>, start: real, end: real)
    requires |coord| > 0 && coord[0] < coord[|coord| - 1] && start < end
    ensures var once := NormalizeSpace(coord, start, end);
      NormalizeSpace(once, start, end) == once
  {
    var once := NormalizeSpace(coord, start, end);
    var twice := NormalizeSpace(once, start, end);
    var a0, aN := coord[0], coord[|coord| - 1];
    forall i | 0 <= i < |once| ensures twice[i] == once[i] {
      RescaleWithinPaddedRange(coord[i], a0, aN, start, end);
      RescaleIdentity(once[i], start, end);
    }
  }

  /** With an increasing target range the normalisation keeps the order of
      the values. */
  lemma NormalizeSpaceMonotone(coord: seq<real>, start: real, end: real, i: nat, j: nat)
    requires |coord| > 0 && coord[0] < coord[|coord| - 1] && start < end
    requires i < |coord| && j < |coord| && coord[i] <= coord[j]
    ensures NormalizeSpace(coord, start, end)[i] <= NormalizeSpace(coord, start, end)[j]
  {
    RescaleMonotone(coord[i], coord[j], coord[0], coord[|coord| - 1], start, end);
  }

  /** `remap_right(coord)`: when the last value is below the first, every
      value is mirrored about the first; otherwise the values are returned
      unchanged. */
  function RemapRight(coord: seq<real>): (r: seq<real>)
    requires |coord| > 0
    ensures |r| == |coord| && r[0] == coord[0]
    ensures r[|r| - 1] >= r[0]
    ensures coord[|coord| - 1] >= coord[0] ==> r == coord
    ensures coord[|coord| - 1] < coord[0] ==>
      forall i :: 0 <= i < |coord| ==> r[i] == 2.0 * coord[0] - coord[i]
  {
    if coord[|coord| - 1] - coord[0] < 0.0 then
      var coordStart := coord[0];
      seq(|coord|, i requires 0 <= i < |coord| => (coord[i] - coordStart) * -1.0 + coordStart)
    else coord
  }

  /** Mirroring keeps each value's distance from the start. */
  lemma RemapRightKeepsDistance(coord: seq<real>, i: nat)
    requires |coord| > 0 && i < |coord|
    ensures var r := RemapRight(coord);
      r[i] - r[0] == coord[i] - coord[0] || r[i] - r[0] == coord[0] - coord[i]
  {
  }

  /** Remapping twice is remapping once. */
  lemma RemapRightIdempotent(coord: seq<real>)
    requires |coord| > 0
    ensures RemapRight(RemapRight(coord)) == RemapRight(coord)
  {
  }

  /** After remapping, a path whose endpoints differ meets the condition
      under which `NormalizeSpace` is modelled. */
  lemma RemapRightEnablesNormalize(coord: seq<real>)
    requires |coord| > 0 && coord[|coord| - 1] != coord[0]
    ensures var r := RemapRight(coord); r[0] < r[|r| - 1]
  {
  }

  /** The two examples in the documentation of `remap_right`. */
  lemma RemapRightExamples()
    ensures RemapRight([10.0, 11.0, 12.0]) == [10.0, 11.0, 12.0]
    ensures RemapRight([10.0, 9.0, 8.0]) == [10.0, 11.0, 12.0]
  {
    var r := RemapRight([10.0, 9.0, 8.0]);
    assert r[1] == 11.0 && r[2] == 12.0;
  }
}
