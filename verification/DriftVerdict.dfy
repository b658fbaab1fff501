/** When the comparison of two recall rates is called drift (skynet/recall_scorecard.py): the verdict
    is read off the difference interval and the two totals. A gap wider than the band is called drift
    from some number of scenarios on, one inside it at no number; and the example the scorecard's
    own documentation works out comes out as it says, to the four digits it gives. The interval's
    arithmetic is over the reals, with any function that squares back for the root. */
module DriftVerdict {
  import opened Options
  import opened Intervals
  import opened IntervalsProofs
  import opened RequiredSample

  // ------------------------------------------------------------------------------------------
  // The verdict
  // ------------------------------------------------------------------------------------------

  /** Every verdict: reproduced for equal rates, drifted for different rates of at least four
      scenarios each whose difference interval lies wholly more than a tenth above or below zero, and
      underdetermined for the rest. */
  lemma VerdictIff(a: Sample, b: Sample, z: real, root: real -> real)
    ensures var d := Difference(a, b, z, root);
            && (Classify(a, b, z, root) == Reproduced <==> a.total > 0 && b.total > 0 && Rate(a) == Rate(b))
            && (Classify(a, b, z, root) == Drifted <==>
                  a.total >= 4 && b.total >= 4 && Rate(a) != Rate(b) && (d.low > 0.1 || d.high < -0.1))
  {
    if a.total > 0 && b.total > 0 { RatesAgree(a, b); }
  }

  /** An interval outside the band is drift already: the rates cannot be equal then. */
  lemma OutsideIsDrift(a: Sample, b: Sample, z: real, root: real -> real)
    requires IsRoot(root) && z > 0.0 && Counted(a) && Counted(b) && a.total >= 4 && b.total >= 4
    ensures Classify(a, b, z, root) == Drifted <==> Clears(a, b, 0.1, z, root)
  {
    VerdictIff(a, b, z, root);
    DifferenceClampsAreIdle(a, b, z, root);
  }

  /** The two rates carried to n scenarios each are called drift. */
  predicate DriftAt(recorded: Sample, observed: Sample, n: int, z: real, root: real -> real)
    requires recorded.total > 0 && observed.total > 0
  {
    Classify(Projected(recorded, n), Projected(observed, n), z, root) == Drifted
  }

  lemma DriftAtIff(recorded: Sample, observed: Sample, n: int, z: real, root: real -> real)
    requires IsRoot(root) && z > 0.0 && Counted(recorded) && Counted(observed) && n >= 4
    ensures DriftAt(recorded, observed, n, z, root) <==> DecidedAt(recorded, observed, 0.1, n, z, root)
  {
    ProjectionIsClose(recorded, n);
    ProjectionIsClose(observed, n);
    OutsideIsDrift(Projected(recorded, n), Projected(observed, n), z, root);
  }

  /** With enough scenarios the verdict is drift exactly for a gap of more than a tenth: such a gap is
      called drift at every number of scenarios from some number on, and any other at none. */
  lemma DriftIsCalledIff(recorded: Sample, observed: Sample, z: real, root: real -> real) returns (n: int)
    requires IsRoot(root) && Counted(recorded) && Counted(observed) && z > 0.0 && z * z >= 2.4
    ensures Rate(observed) - Rate(recorded) > 0.1 || Rate(observed) - Rate(recorded) < -0.1 ==>
              n >= 4 && forall m: int :: m >= n ==> DriftAt(recorded, observed, m, z, root)
    ensures -0.1 <= Rate(observed) - Rate(recorded) <= 0.1 ==>
              forall m: int :: m >= 4 ==> !DriftAt(recorded, observed, m, z, root)
  {
    n := 4;
    if -0.1 <= Rate(observed) - Rate(recorded) <= 0.1 {
      forall m: int | m >= 4 ensures !DriftAt(recorded, observed, m, z, root) {
        InsideBandIsNeverDecided(recorded, observed, 0.1, m, z, root);
        DriftAtIff(recorded, observed, m, z, root);
      }
    } else {
      n := WideGapIsDecided(recorded, observed, 0.1, z, root);
      forall m: int | m >= n ensures DriftAt(recorded, observed, m, z, root) {
        assert DecidedAt(recorded, observed, 0.1, m, z, root);
        DriftAtIff(recorded, observed, m, z, root);
      }
    }
  }

  // ------------------------------------------------------------------------------------------
  // A published example
  // ------------------------------------------------------------------------------------------

  /** A root of v lies between two numbers whose squares v lies between. */
  lemma RootBetween(root: real -> real, v: real, below: real, above: real)
    requires IsRoot(root) && 0.0 <= below && 0.0 <= above && below * below <= v <= above * above
    ensures below <= root(v) <= above
  {
    Square(below, below * below);
    SquaresOrder(below, root(v));
    SquaresOrder(root(v), above);
  }

  lemma ThreeOfTen(root: real -> real)
    requires IsRoot(root)
    ensures var w := Wilson(Sample(3, 10), 1.96, root);
            0.10778 <= w.low <= 0.1078 && 0.60322 <= w.high <= 0.60323
  {
    RootBetween(root, 0.030604, 0.174939, 0.17494);
    WilsonClampsAreIdle(Sample(3, 10), 1.96, root);
  }

  lemma NineOfTen(root: real -> real)
    requires IsRoot(root)
    ensures var w := Wilson(Sample(9, 10), 1.96, root);
            0.59584 <= w.low <= 0.59585 && 0.98212 <= w.high <= 0.98213
  {
    RootBetween(root, 0.018604, 0.136396, 0.136397);
    WilsonClampsAreIdle(Sample(9, 10), 1.96, root);
  }

  lemma PublishedCombination(root: real -> real, wr: Interval, wo: Interval)
    requires IsRoot(root)
    requires 0.10778 <= wr.low <= 0.1078 && 0.60322 <= wr.high <= 0.60323
    requires 0.59584 <= wo.low <= 0.59585 && 0.98212 <= wo.high <= 0.98213
    ensures 0.1704 < Combined(0.3, wr, 0.9, wo, root).low < 0.1706
    ensures 0.8089 < Combined(0.3, wr, 0.9, wo, root).high < 0.8091
  {
    SpanBetween(root, 0.9 - wo.low, wr.high - 0.3, 0.30415, 0.30416, 0.30322, 0.30323, 0.42947, 0.4295);
    SpanBetween(root, wo.high - 0.9, 0.3 - wr.low, 0.08212, 0.08213, 0.1922, 0.19222, 0.209, 0.20904);
  }

  /** Three of ten against nine of ten at 95 percent (a quantile of 1.96): the difference interval is
      (0.1705, 0.8090) to four digits, and the verdict is drift. */
  lemma PublishedExample(root: real -> real)
    requires IsRoot(root)
    ensures var d := Difference(Sample(3, 10), Sample(9, 10), 1.96, root);
            0.1704 < d.low < 0.1706 && 0.8089 < d.high < 0.8091
    ensures Classify(Sample(3, 10), Sample(9, 10), 1.96, root) == Drifted
  {
    var recorded, observed := Sample(3, 10), Sample(9, 10);
    ThreeOfTen(root);
    NineOfTen(root);
    PublishedCombination(root, Wilson(recorded, 1.96, root), Wilson(observed, 1.96, root));
    DifferenceClampsAreIdle(recorded, observed, 1.96, root);
    OutsideIsDrift(recorded, observed, 1.96, root);
  }

  lemma SpanBetween(root: real -> real, x: real, y: real, x0: real, x1: real, y0: real, y1: real, below: real, above: real)
    requires IsRoot(root) && 0.0 <= x0 <= x <= x1 && 0.0 <= y0 <= y <= y1 && 0.0 <= below && 0.0 <= above
    requires below * below <= x0 * x0 + y0 * y0 && x1 * x1 + y1 * y1 <= above * above
    ensures below <= root(Squared(x) + Squared(y)) <= above
  {
    SquareBetween(x, x0, x1);
    SquareBetween(y, y0, y1);
    RootBetween(root, Squared(x) + Squared(y), below, above);
  }

  lemma SquareBetween(x: real, low: real, high: real)
    requires 0.0 <= low <= x <= high
    ensures low * low <= x * x <= high * high
  {
    Product(x - low, x + low, (x - low) * (x + low));
    Product(high - x, high + x, (high - x) * (high + x));
  }
}
