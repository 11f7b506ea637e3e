/** The event locator: the first sample at which a coordinate is beyond a
    threshold, used to detect movement onset (`get_init_step`,
    `get_init_time`). */
module Events {

  /** Whether a value is beyond the threshold: strictly above it when
      ascending, strictly below it otherwise. */
  predicate Beyond(v: real, threshold: real, ascending: bool)
  {
    if ascending then v > threshold else v < threshold
  }

  /** numpy's `argmax` on a boolean sequence: the index of the first `true`,
      or 0 when every element is `false`. */
  function ArgMax(b: seq<bool>): (i: nat)
    requires |b| > 0
    ensures i < |b|
    ensures forall j :: 0 <= j < i ==> !b[j]
    ensures b[i] || (i == 0 && forall j :: 0 <= j < |b| ==> !b[j])
    decreases |b|
  {
    if b[0] || |b| == 1 then 0
    else
      var k := ArgMax(b[1..]);
      if b[k + 1] then k + 1 else 0
  }

  /** `get_init_step(y, y_threshold, ascending)`: the index of the first
      value beyond the threshold, or 0 when there is none. */
  function GetInitStep(y: seq<real>, threshold: real, ascending: bool): (step: nat)
    requires |y| > 0
    ensures step < |y|
    ensures forall j :: 0 <= j < step ==> !Beyond(y[j], threshold, ascending)
    ensures Beyond(y[step], threshold, ascending)
         || (step == 0 && forall j :: 0 <= j < |y| ==> !Beyond(y[j], threshold, ascending))
  {
    var started := seq(|y|, i requires 0 <= i < |y| => Beyond(y[i], threshold, ascending));
    assert forall i :: 0 <= i < |y| ==> (started[i] <==> Beyond(y[i], threshold, ascending));
    ArgMax(started)
  }

  /** The step is the least crossing index: any index beyond the threshold
      with none before it is the one returned. */
  lemma GetInitStepIsFirst(y: seq<real>, threshold: real, ascending: bool, i: nat)
    requires i < |y| && Beyond(y[i], threshold, ascending)
    requires forall j :: 0 <= j < i ==> !Beyond(y[j], threshold, ascending)
    ensures GetInitStep(y, threshold, ascending) == i
  {
  }

  /** Index 0 is ambiguous: it is returned both for a crossing at the first
      sample and when no sample crosses at all. */
  lemma GetInitStepZeroAmbiguous(threshold: real)
    ensures GetInitStep([threshold + 1.0, threshold], threshold, true) == 0
    ensures GetInitStep([threshold, threshold], threshold, true) == 0
  {
  }

  /** The crossing at 0.02 after two samples at rest is found at index 2. */
  lemma GetInitStepExample()
    ensures GetInitStep([0.0, 0.0, 0.02, 0.5], 0.01, true) == 2
  {
    GetInitStepIsFirst([0.0, 0.0, 0.02, 0.5], 0.01, true, 2);
  }

  /** `get_init_time(t, y, y_threshold, ascending)`: the timestamp at the
      first crossing, or the first timestamp when there is none. */
  function GetInitTime<T>(t: seq<T>, y: seq<real>, threshold: real, ascending: bool): (r: T)
    requires |y| > 0 && GetInitStep(y, threshold, ascending) < |t|
    ensures (forall j :: 0 <= j < |y| ==> !Beyond(y[j], threshold, ascending)) ==> r == t[0]
    ensures forall i :: 0 <= i < |y| && Beyond(y[i], threshold, ascending)
                        && (forall j :: 0 <= j < i ==> !Beyond(y[j], threshold, ascending))
                        ==> r == t[i]
  {
    t[GetInitStep(y, threshold, ascending)]
  }
}
