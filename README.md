# Squeak trajectory normalisation and geometry, in Dafny

Squeak analyses mouse-cursor trajectories recorded during two-choice tasks.
This project models the per-trajectory helpers of `squeak/main.py` that put
a path on a common time and space basis and summarise its shape:

- **Interpolation** (`interp.dfy`): numpy's `interp`, the piecewise-linear
  interpolation every resampler uses. It is written as a function with the
  library's documented meaning, because the library code is not part of this model.
- **Resampler** (`resample.dfy`): `even_time_steps` puts x and y on
  `length` evenly spaced timestamps over `[min t, max t)`. `uniform_time`
  puts one coordinate on a grid of `desired_interval` milliseconds. It then
  pads the result with the last value up to
  `int(max_duration / desired_interval)` entries.
- **Spatial normaliser** (`spatial.dfy`): `normalize_space` rescales a
  coordinate so that its first value lands on `start` and its last on
  `end`, clamping one span beyond either end. `remap_right` mirrors an
  overall decreasing coordinate about its first value.
- **Event locator** (`events.dfy`): `get_init_step` and `get_init_time`
  find the first sample strictly beyond a threshold. When there is none they
  give index 0, as numpy's `argmax` does.
- **Signed area** (`area.dfy`): `auc` and `auc2` are two shoelace loops
  over the path's points. They are kept separate, as the original keeps them.
- **Parser** (`parse.dfy`): `list_from_string` strips brackets, splits on
  commas and converts each piece with `int`. It gives `None` when any piece
  fails to convert.

Coordinates are Dafny `real` (exact arithmetic) and millisecond timestamps
are `int`. The exceptions the helpers raise on bad input become `None`
results of an `Option` type (`wrappers.dfy`). These are the minimum of an
empty sequence, a zero step for `arange`, a division by a zero length,
`interp` given coordinates whose length differs from the timestamps', an
index past the end of `y` in `auc` and `auc2`, and `int('')`. The few
inputs that are excluded by a precondition instead are named under
"## Left out". `auc`, `auc2` and `list_from_string` loop
and append or overwrite, so they are methods with loop invariants, each
proved against a function that specifies it. The other operations are
whole-array numpy expressions and are modelled as functions.

Where the code and its documentation disagree, the model follows the code.
The note at `squeak/main.py:70` says `uniform_time` crashes when the last
timestamp passes `max_duration`. The code at lines 82-83 does not crash
then. Multiplying a list by a negative count gives an empty list, so the
result is the unpadded grid, which is longer than
`int(max_duration / desired_interval)`. `Resample.UniformTime` states
exactly that.

## Model

| member | source | states |
|---|---|---|
| `Interpolation.InterpAt` | squeak/main.py:18-19 | a query at or below the first sample point gives the first value; a query at or above the last sample point gives the last value |
| `Interpolation.InterpOnSegment` | squeak/main.py:18-19 | between the k-th and (k+1)-th sample points the result lies on the straight line through those two samples |
| `Interpolation.InterpAtKnot` | squeak/main.py:78 | at a sample point the interpolation returns that sample's value |
| `Interpolation.InterpLinear` | squeak/main.py:18-19 | on data that is itself a straight line, the interpolation reproduces that line anywhere inside the sampled range |
| `Interpolation.InterpAllLinear` | squeak/main.py:18-19 | the same for every query point of a sequence, as numpy applies `interp` elementwise |
| `Interpolation.InterpBounded` | squeak/main.py:78 | the result never leaves the range spanned by the sample values |
| `Resample.Arange` | squeak/main.py:17 | `arange(start, stop, step)` with a positive step holds start + k * step for each k, every entry below stop, and one more step would reach stop |
| `Resample.IntArange` | squeak/main.py:77 | integer `arange` holds start + k * step; for a positive step every entry is below stop, for a negative step above it, and one more step would pass stop |
| `Resample.TruncToInt` | squeak/main.py:80 | Python's `int()` of a float truncates toward zero |
| `Resample.EvenTimeSteps` | squeak/main.py:11-20 | fails exactly when there are fewer than two timestamps, `length` is 0, or x or y differs in length from t; a negative length gives empty output; otherwise exactly `length` timestamps starting at min t, evenly spaced by (max t - min t) / length and all below max t; x and y are interpolated at them and keep their first values |
| `Resample.EvenGrid` | squeak/main.py:17 | a span cut into `length` equal steps yields exactly `length` grid points, one step apart, starting at its lower end and all below its upper end |
| `Resample.EvenTimeStepsLinear` | squeak/main.py:17-19 | straight-line motion in time stays straight-line motion after resampling |
| `Resample.EvenTimeStepsExample` | squeak/main.py:17-19 | x = [0, 1, 2, 3] at t = [0, 10, 20, 30] in 4 steps gives t = [0, 7.5, 15, 22.5] and x = [0, 0.75, 1.5, 2.25] |
| `Resample.UniformTime` | squeak/main.py:56-83 | fails exactly on empty timepoints, a zero interval, coordinates whose length differs from the timepoints', or an empty grid; for a positive interval and a non-negative last timestamp, the output holds the last / interval + 1 interpolated grid values, followed by copies of the last of them up to the required length, and is never shorter than the grid |
| `Resample.IntArangeEmpty` | squeak/main.py:77 | an integer range is empty exactly when its start has already passed its stop |
| `Resample.GridCount` | squeak/main.py:77 | the grid 0, d, 2d, ... up to and including the last timestamp has last / d + 1 points |
| `Resample.GridIsMultiples` | squeak/main.py:77 | k is a grid index exactly when k * d does not pass the last timestamp |
| `Resample.RequiredLength` | squeak/main.py:80 | for a non-negative duration, `int(max_duration / desired_interval)` is the integer quotient |
| `Resample.UniformTimeStart` | squeak/main.py:77-78 | when the recording starts at or after time 0, the first output value is the first coordinate |
| `Resample.UniformTimeEnds` | squeak/main.py:78-83 | when the last timestamp is a multiple of the interval, the last grid value and every padded value equal the last recorded coordinate |
| `Resample.UniformTimeDefaultLength` | squeak/main.py:56-83 | with the defaults (10 ms, 3000 ms) every trial ending before 3000 ms gives exactly 300 values |
| `Spatial.NormalizeSpace` | squeak/main.py:22-38 | for increasing endpoints the output has the input's length, the first value maps to `start` and the last to `end`, and each value maps linearly inside the padded range and is clamped to start - e or end + e outside it |
| `Spatial.PaddedInterp` | squeak/main.py:33-37 | `interp` against the padded two-point sample is the endpoint-anchored rescale with clamping |
| `Spatial.RescaleAnchors` | squeak/main.py:26-27 | the anchors land exactly on `start` and `end` |
| `Spatial.RescaleWithinPaddedRange` | squeak/main.py:30-34 | with start < end every rescaled value lies in [start - e, end + e] |
| `Spatial.RescaleMonotone` | squeak/main.py:37 | rescaling onto an increasing target range preserves order |
| `Spatial.NormalizeSpaceIdempotent` | squeak/main.py:22-38 | normalising an already normalised coordinate onto the same range changes nothing |
| `Spatial.NormalizeSpaceMonotone` | squeak/main.py:37 | the normalised values keep the order of the input values |
| `Spatial.RemapRight` | squeak/main.py:40-54 | keeps length and first value; leaves the input unchanged when last >= first and otherwise gives 2 * first - v for each v; the result's last value is never below its first |
| `Spatial.RemapRightKeepsDistance` | squeak/main.py:50-52 | every value keeps its distance from the first value |
| `Spatial.RemapRightIdempotent` | squeak/main.py:40-54 | remapping twice is remapping once |
| `Spatial.RemapRightEnablesNormalize` | squeak/main.py:22-54 | after remapping, a coordinate with distinct endpoints has increasing endpoints, as `normalize_space` needs |
| `Spatial.RemapRightExamples` | squeak/main.py:43-47 | [10, 11, 12] is unchanged and [10, 9, 8] becomes [10, 11, 12] |
| `Events.ArgMax` | squeak/main.py:171 | numpy's `argmax` on booleans is the first `true` index, or 0 when all are `false` |
| `Events.GetInitStep` | squeak/main.py:148-172 | the index is in range, no earlier value is beyond the threshold (strictly above it when ascending, strictly below otherwise), and the value at the index is beyond it unless none is and the index is 0 |
| `Events.GetInitStepIsFirst` | squeak/main.py:165-172 | the first index beyond the threshold is the one returned |
| `Events.GetInitStepZeroAmbiguous` | squeak/main.py:171 | index 0 is returned both for a crossing at the first sample and for no crossing at all |
| `Events.GetInitStepExample` | squeak/main.py:165-172 | [0, 0, 0.02, 0.5] with threshold 0.01 gives index 2 |
| `Events.GetInitTime` | squeak/main.py:127-146 | the timestamp of the first crossing, or the first timestamp when nothing crosses |
| `Area.CrossTerms` | squeak/main.py:240-247 | the loop with predecessor index j adds one term per point, and the terms sum to the cross-term sum around the closed polygon |
| `Area.Auc` | squeak/main.py:219-248 | fails exactly when y is shorter than x; otherwise `auc` is half the wrap-around sum of x[i] * y[i-1] - y[i] * x[i-1], the predecessor of point 0 being the last point |
| `Area.Auc2` | squeak/main.py:250-284 | fails exactly when x is empty or y is shorter than x; otherwise `auc2` works on copies, appends (x[-1], y[0]), sums the same terms over the n + 1 points without halving, and subtracts 0.5 * abs(x[-1] - x[0]) * abs(y[0] * y[0]) |
| `Area.WrapSumFewPoints` | squeak/main.py:240-248 | a path of fewer than three points encloses no area |
| `Area.ChainSumOnLine` | squeak/main.py:242-247 | along a line p + s * d the terms telescope to (p x d) * (s_first - s_last) |
| `Area.WrapSumOnLine` | squeak/main.py:240-248 | `auc` of points on one straight line is 0 |
| `Area.WrapSumReverse` | squeak/main.py:240-248 | reversing the order of the points negates `auc` |
| `Area.StraightPathClosedSum` | squeak/main.py:274-282 | for a straight path from p to p + d the polygon closed through (x[-1], y[0]) has term sum dx * dy |
| `Area.Auc2StraightPath` | squeak/main.py:271-284 | as written, `auc2` of a straight path from p to p + d is dx * dy - 0.5 * abs(dx) * py * py |
| `Area.Auc2StraightPathNotZero` | squeak/main.py:283-284 | as written, `auc2` of the straight path (0, 0) -> (1, 1) is 1, not 0 |
| `Area.Auc2CorrectedStraightPath` | squeak/main.py:264-268 | `auc2` as its note describes it (half the sum minus the triangle 0.5 * abs(dx) * abs(dy)) is 0 for every straight path with dx * dy >= 0 |
| `Parse.StripLeading` | squeak/main.py:90 | removes exactly the leading run of the given characters |
| `Parse.StripTrailing` | squeak/main.py:90 | removes exactly the trailing run of the given characters |
| `Parse.Split` | squeak/main.py:91 | `str.split(',')` gives at least one piece, no piece holds the separator, and joining the pieces with it gives the string back |
| `Parse.SplitJoin` | squeak/main.py:91 | splitting undoes joining pieces that hold no separator |
| `Parse.ParseIntMeaning` | squeak/main.py:93 | `int()` of text succeeds exactly when, after stripping ASCII whitespace, the text is one or more digits with at most one leading sign; the value is the digits' decimal value, negated exactly for a minus sign |
| `Parse.ParseIntPadded` | squeak/main.py:93 | whitespace around a literal changes neither whether `int()` succeeds nor its value |
| `Parse.ParseIntPaddedExample` | squeak/main.py:93 | `int(' 7 ')` is 7 |
| `Parse.ParseIntSpacedSignExample` | squeak/main.py:93 | `int(' - 7')` fails, because a sign must be followed directly by digits |
| `Parse.ParseIntShowInt` | squeak/main.py:93 | `int(str(n)) == n` |
| `Parse.ParseAll` | squeak/main.py:92-93 | all pieces convert exactly when the result is a list, and then it holds each piece's integer, in order |
| `Parse.ConvertPieces` | squeak/main.py:92-96 | the conversion loop gives the integers of all pieces, or `None` at the first piece that is not an integer literal |
| `Parse.ListFromString` | squeak/main.py:85-96 | `list_from_string` is the conversion of the comma-separated pieces of the bracket-stripped string |
| `Parse.ParseListRender` | squeak/main.py:85-96 | reading back a non-empty list written as `[a,b,c]` gives the list |
| `Parse.ParseListExample` | squeak/main.py:86 | `'[1,2,3]'` reads as [1, 2, 3] |
| `Parse.ParseListEmptyPiece` | squeak/main.py:89-96 | `'[]'` and `'1,,2'` give `None`, because an empty piece is not an integer literal |

## Left out

- `max_deviation` and `rotate` (squeak/main.py:174-216) need `atan`, `sin` and `cos`, which have no exact `real` model.
- `velocity`, `pythag` and `rel_distance` (squeak/main.py:99-125, 286-294) need `sqrt`. `rel_distance` is also marked as in development.
- `bimodality_coef`, `chisquare_boolean` and `compare_means_1d` only call `scipy.stats`.
- `average_path` aggregates across trials over pandas Series. It is outside the per-trajectory helpers.
- `plot_means_1d`, `plot_means_2d`, `plot_all` and `make_gif` are plotting and file output.
- Floating-point rounding is not modelled: arithmetic is exact, so `np.arange` never yields the occasional extra point that rounding produces.
- numpy arrays and Python lists are modelled as sequences, and integer input arrays as reals.
- Interpolation.InterpAt: requires strictly increasing sample points, because numpy does not define the result for repeated or decreasing ones. It also requires non-empty sample arrays of equal length, for which numpy raises ValueError. `Resample.EvenTimeSteps` and `Resample.UniformTime` return `None` for those inputs before they interpolate.
- Resample.EvenTimeSteps: requires strictly increasing timestamps (as `interp` does), so min t and max t are the first and the last timestamp.
- Resample.UniformTime: requires strictly increasing timestamps, as `interp` does.
- Spatial.NormalizeSpace: only increasing endpoints (array[-1] > array[0]) are modelled. For equal or decreasing endpoints the padded sample points do not increase, and numpy does not define the result. The source's own TODO (squeak/main.py:25) flags decreasing input as untested.
- Spatial.RemapRight: requires a non-empty input; `array[-1]` raises on an empty one.
- Events.GetInitStep: requires a non-empty input; `argmax` raises on an empty array.
- Events.GetInitTime: requires the crossing index to be inside `t`; `t[init_step]` raises otherwise.
- Area.CrossTerms: states the sum of the terms, not each term separately, because the sum is all that `auc` and `auc2` use.
- Area.Auc2CorrectedStraightPath: proved only for straight paths with dx * dy >= 0, the direction of a path after `remap_right`; in the other direction the signed half-sum and the unsigned triangle do not cancel.
- Parse.ConvertPieces: writes the integers into a fresh array of ints instead of overwriting the list of strings in place, because a Dafny array has one element type.
- Parse.ParseIntMeaning: Python's `int` also accepts underscores between digits, non-ASCII digits and non-ASCII whitespace; only ASCII whitespace, an optional sign and ASCII digits are modelled.

## Findings

| source | as written | input that shows it | evidently intended | confidence | as-written member | corrected member |
|---|---|---|---|---|---|---|
| squeak/main.py:283-284 | `auc2` does not halve the term sum, and its triangle uses `y[-1] * y[0]` after `y[0]` was appended, which is `y[0] * y[0]` | x = [0, 1], y = [0, 1] (a straight path) gives 1 | half the sum (the area between path and horizontal) minus the triangle 0.5 * abs(x[-1] - x[0]) * abs(y[-1] - y[0]), which is 0 for a straight path with dx * dy >= 0, as the note at lines 264-268 describes | medium, not executed | `Area.Auc2StraightPathNotZero` | `Area.Auc2CorrectedStraightPath` |
