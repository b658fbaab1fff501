/** Score intervals and the drift verdict (skynet/recall_scorecard.py), over the reals. The square
    root and the normal quantile are parameters: root is any exact square root, z the quantile. */
module Intervals {
  import opened Options

  const VERDICT_ROPE: real := 0.10
  const VERDICT_MIN_SCENARIOS: int := 4

  datatype Sample = Sample(hits: int, total: int)

  datatype Interval = Interval(low: real, high: real)

  datatype Verdict = Reproduced | Drifted | Underdetermined

  ghost predicate IsRoot(root: real -> real) {
    forall x: real :: x >= 0.0 ==> root(x) >= 0.0 && root(x) * root(x) == x
  }

  /** What a counted sample is: some of its scenarios were hits. */
  predicate Counted(s: Sample) {
    0 <= s.hits <= s.total && s.total > 0
  }

  function Min(a: real, b: real): real {
    if a <= b then a else b
  }

  function Max(a: real, b: real): real {
    if a >= b then a else b
  }

  function Rate(s: Sample): real
    requires s.total > 0
  {
    s.hits as real / s.total as real
  }

  /** How far n scenarios let a rate move: the square of the quantile over the sample size. */
  function Spread(z: real, n: real): (a: real)
    requires n > 0.0
    ensures a >= 0.0
  {
    assert z * z >= 0.0;
    z * z / n
  }

  function Centre(p: real, z: real, n: real): real
    requires n > 0.0
  {
    (p + z * z / (2.0 * n)) / (1.0 + Spread(z, n))
  }

  function Half(p: real, z: real, n: real, root: real -> real): real
    requires n > 0.0
  {
    (z / (1.0 + Spread(z, n))) * root(p * (1.0 - p) / n + z * z / (4.0 * n * n))
  }

  /** The Wilson interval before it is clamped. */
  function RawWilson(s: Sample, z: real, root: real -> real): Interval
    requires s.total > 0
  {
    var centre, half := Centre(Rate(s), z, s.total as real), Half(Rate(s), z, s.total as real, root);
    Interval(centre - half, centre + half)
  }

  function Wilson(s: Sample, z: real, root: real -> real): Interval {
    if s.total <= 0 then Interval(0.0, 1.0)
    else
      var raw, p := RawWilson(s, z, root), Rate(s);
      Interval(Max(0.0, Min(raw.low, p)), Min(1.0, Max(raw.high, p)))
  }

  function Squared(x: real): real {
    x * x
  }

  /** Two rates and their own intervals combined into an interval for the gap from r to o. */
  function Combined(r: real, wr: Interval, o: real, wo: Interval, root: real -> real): Interval {
    Interval((o - r) - root(Squared(o - wo.low) + Squared(wr.high - r)),
             (o - r) + root(Squared(wo.high - o) + Squared(r - wr.low)))
  }

  /** The interval for rate(observed) - rate(recorded), before it is clamped. */
  function RawDifference(recorded: Sample, observed: Sample, z: real, root: real -> real): Interval
    requires recorded.total > 0 && observed.total > 0
  {
    Combined(Rate(recorded), Wilson(recorded, z, root), Rate(observed), Wilson(observed, z, root), root)
  }

  function Difference(recorded: Sample, observed: Sample, z: real, root: real -> real): Interval {
    if recorded.total <= 0 || observed.total <= 0 then Interval(-1.0, 1.0)
    else
      var raw := RawDifference(recorded, observed, z, root);
      Interval(Max(-1.0, raw.low), Min(1.0, raw.high))
  }

  /** The difference interval lies wholly outside the band. */
  predicate Clears(recorded: Sample, observed: Sample, rope: real, z: real, root: real -> real) {
    var interval := Difference(recorded, observed, z, root);
    interval.low > rope || interval.high < -rope
  }

  function Classify(recorded: Sample, observed: Sample, z: real, root: real -> real): Verdict {
    if recorded.total <= 0 || observed.total <= 0 then Underdetermined
    else if recorded.hits * observed.total == observed.hits * recorded.total then Reproduced
    else if recorded.total < VERDICT_MIN_SCENARIOS || observed.total < VERDICT_MIN_SCENARIOS then Underdetermined
    else if Clears(recorded, observed, VERDICT_ROPE, z, root) then Drifted
    else Underdetermined
  }

  // ------------------------------------------------------------------------------------------
  // The budget
  // ------------------------------------------------------------------------------------------

  /** Rounding to the nearest integer, halves to the even one. */
  function Round(x: real): (r: int)
    ensures x - 0.5 <= r as real <= x + 0.5
  {
    var below := x.Floor;
    var rest := x - below as real;
    if rest < 0.5 || (rest == 0.5 && below % 2 == 0) then below else below + 1
  }

  function Share(p: real, total: int): real {
    p * total as real
  }

  /** A rate carried to a denominator. */
  function Carried(p: real, total: int): Sample {
    Sample(Round(Share(p, total)), total)
  }

  function Projected(s: Sample, total: int): Sample
    requires s.total > 0
  {
    Carried(Rate(s), total)
  }

  /** Whether n comparable situations would take the gap out of the band. */
  predicate DecidedAt(recorded: Sample, observed: Sample, rope: real, n: int, z: real, root: real -> real)
    requires recorded.total > 0 && observed.total > 0
  {
    Clears(Projected(recorded, n), Projected(observed, n), rope, z, root)
  }

  /** Searches for the smallest n from the least the verdict accepts up to the limit. */
  method RequiredN(recorded: Sample, observed: Sample, rope: real, limit: int, z: real, root: real -> real)
    returns (r: Option<int>)
    ensures recorded.total <= 0 || observed.total <= 0 ==> r == None
    ensures recorded.total > 0 && observed.total > 0 && r.Some? ==>
      VERDICT_MIN_SCENARIOS <= r.value <= limit && DecidedAt(recorded, observed, rope, r.value, z, root)
      && forall n :: VERDICT_MIN_SCENARIOS <= n < r.value ==> !DecidedAt(recorded, observed, rope, n, z, root)
    ensures recorded.total > 0 && observed.total > 0 && r.None? ==>
      forall n :: VERDICT_MIN_SCENARIOS <= n <= limit ==> !DecidedAt(recorded, observed, rope, n, z, root)
  {
    if recorded.total <= 0 || observed.total <= 0 {
      return None;
    }
    var total := VERDICT_MIN_SCENARIOS;
    while total <= limit
      invariant total >= VERDICT_MIN_SCENARIOS
      invariant forall n :: VERDICT_MIN_SCENARIOS <= n < total ==> !DecidedAt(recorded, observed, rope, n, z, root)
    {
      if DecidedAt(recorded, observed, rope, total, z, root) {
        return Some(total);
      }
      total := total + 1;
    }
    r := None;
  }
}
