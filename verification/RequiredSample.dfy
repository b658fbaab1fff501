/** When more scenarios can settle a gap: exactly when the gap is wider than the band
    (skynet/recall_scorecard.py, the required-n search). The rates are carried to n scenarios each by
    rounding the hits, which moves a rate by at most half a scenario; from some n on that, and the
    width of the interval, is less than what the gap has over the band, and a gap inside the band is
    never cleared because the interval always reaches back to it. */
module RequiredSample {
  import opened Options
  import opened Intervals
  import opened IntervalsProofs

  // ------------------------------------------------------------------------------------------
  // How far the ends of a Wilson interval are from the rate
  // ------------------------------------------------------------------------------------------

  /** h is at least a/2, and at most e when a is small against e*e. */
  lemma HalfSize(a: real, q: real, h: real, e: real)
    requires a >= 0.0 && 0.0 <= q <= 0.25 && h >= 0.0 && h * h == a * q + a * a / 4.0
    ensures a / 2.0 <= h
    ensures e >= 0.0 && a <= 1.0 && a / 2.0 <= e * e ==> h <= e
  {
    Product(a, q, a * q);
    var half, hh := a / 2.0, h * h;
    assert half * half == a * a / 4.0;
    SquaresOrder(half, h);
    if e >= 0.0 && a <= 1.0 && a / 2.0 <= e * e {
      Product(a, 0.25 - q, a * (0.25 - q));
      Product(a, 1.0 - a, a * (1.0 - a));
      assert hh <= a / 2.0;
      SquaresOrder(h, e);
    }
  }

  /** The reaches of the ends are at least the shares b*(1-p) and b*p, where b = a/(1+a). */
  lemma ReachAtLeast(a: real, p: real, h: real, b: real)
    requires a > 0.0 && a / 2.0 <= h && b == a / (1.0 + a)
    ensures p + b * (1.0 - p) <= (p + a / 2.0 + h) / (1.0 + a)
    ensures (p + a / 2.0 - h) / (1.0 + a) <= p - b * p
  {
    var d, bp := 1.0 + a, b * p;
    assert b * d == a;
    assert bp * d == a * p;
    DivideOrder(p + a / 2.0 + h, p + b - bp, d);
    DivideOrder(p + a / 2.0 - h, p - bp, d);
    assert (p + b - bp) * d == p * d + a - a * p;
    assert (p - bp) * d == p * d - a * p;
  }

  /** And at most a/2 + h. */
  lemma ReachAtMost(a: real, p: real, h: real)
    requires a > 0.0 && 0.0 <= p <= 1.0 && a / 2.0 <= h
    ensures (p + a / 2.0 + h) / (1.0 + a) <= p + (a / 2.0 + h)
    ensures p - (a / 2.0 + h) <= (p + a / 2.0 - h) / (1.0 + a)
  {
    var d, reach := 1.0 + a, a / 2.0 + h;
    Product(a, p, a * p);
    Product(a, 1.0 - p, a * (1.0 - p));
    Product(a, reach, a * reach);
    DivideOrder(p + a / 2.0 + h, p + reach, d);
    DivideOrder(p + a / 2.0 - h, p - reach, d);
    assert (p + reach) * d == p + reach + a * p + a * reach;
    assert (p - reach) * d == p - reach + a * p - a * reach;
  }

  lemma QuarterAtMost(p: real)
    requires 0.0 <= p <= 1.0
    ensures 0.0 <= p * (1.0 - p) <= 0.25
  {
    Product(p, 1.0 - p, p * (1.0 - p));
    var c := p - 0.5;
    Square(c, c * c);
    assert c * c == p * p - p + 0.25;
  }

  /** Both ends of an interval around p are far enough away from it, by the weight b. */
  predicate Reaches(w: Interval, p: real, b: real) {
    w.high - p >= b * (1.0 - p) && p - w.low >= b * p
  }

  /** The weight of a spread. */
  function Weight(a: real): real
    requires a >= 0.0
  {
    a / (1.0 + a)
  }

  predicate ReachesAtMost(w: Interval, p: real, most: real) {
    w.high - p <= most && p - w.low <= most
  }

  lemma ReachOfReals(a: real, p: real, h: real, e: real)
    requires a > 0.0 && 0.0 <= p <= 1.0 && h >= 0.0 && h * h == a * (p * (1.0 - p)) + a * a / 4.0
    ensures var w := Interval((p + a / 2.0 - h) / (1.0 + a), (p + a / 2.0 + h) / (1.0 + a));
            Reaches(w, p, Weight(a))
            && (e >= 0.0 && a <= 1.0 && a / 2.0 <= e * e ==> ReachesAtMost(w, p, a / 2.0 + e))
  {
    QuarterAtMost(p);
    HalfSize(a, p * (1.0 - p), h, e);
    ReachAtLeast(a, p, h, Weight(a));
    ReachAtMost(a, p, h);
  }

  lemma WilsonReach(s: Sample, z: real, root: real -> real, e: real)
    requires IsRoot(root) && Counted(s) && z > 0.0
    ensures var a, p, w := Spread(z, s.total as real), Rate(s), Wilson(s, z, root);
            Reaches(w, p, Weight(a))
            && (e >= 0.0 && a <= 1.0 && a / 2.0 <= e * e ==> ReachesAtMost(w, p, a / 2.0 + e))
  {
    var a, h := WilsonForm(s, z, root);
    ReachOfReals(a, Rate(s), h, e);
    WilsonClampsAreIdle(s, z, root);
  }

  // ------------------------------------------------------------------------------------------
  // Carrying a rate to another denominator
  // ------------------------------------------------------------------------------------------

  /** What one scenario of n is worth. */
  function Step(n: int): real
    requires n > 0
  {
    1.0 / n as real
  }

  /** Off by at most half a scenario. */
  predicate Close(q: real, p: real, n: int)
    requires n > 0
  {
    -Step(n) / 2.0 <= q - p <= Step(n) / 2.0
  }

  lemma HalfAStep(q: real, p: real, n: int, hits: int)
    requires n > 0 && q == hits as real / n as real && -0.5 <= hits as real - Share(p, n) <= 0.5
    ensures Close(q, p, n)
  {
    var m := n as real;
    var half, qm := Step(n) / 2.0, q * m;
    assert qm == hits as real;
    assert half * m == 0.5;
    DivideOrder(hits as real, p + half, m);
    DivideOrder(hits as real, p - half, m);
    assert (p + half) * m == p * m + half * m && (p - half) * m == p * m - half * m;
  }

  lemma ShareOf(p: real, n: int)
    requires 0.0 <= p <= 1.0 && n > 0
    ensures 0.0 <= Share(p, n) <= n as real
  {
    var m := n as real;
    Product(p, m, p * m);
    Product(1.0 - p, m, (1.0 - p) * m);
  }

  /** The nearest integer, and the even one of two that are equally near. */
  lemma RoundIsNearest(x: real, k: int)
    requires -0.5 <= k as real - x <= 0.5 && (k as real - x == 0.5 || k as real - x == -0.5 ==> k % 2 == 0)
    ensures Round(x) == k
  {
  }

  lemma RoundWithin(x: real, n: int)
    requires 0.0 <= x <= n as real
    ensures 0 <= Round(x) <= n && -0.5 <= Round(x) as real - x <= 0.5
  {
  }

  lemma CarriedIsClose(p: real, n: int)
    requires 0.0 <= p <= 1.0 && n > 0
    ensures Counted(Carried(p, n)) && Close(Rate(Carried(p, n)), p, n)
  {
    ShareOf(p, n);
    RoundWithin(Share(p, n), n);
    HalfAStep(Rate(Carried(p, n)), p, n, Carried(p, n).hits);
  }

  /** A projected sample is a sample, and its rate is off by at most half a scenario. */
  lemma ProjectionIsClose(s: Sample, n: int)
    requires Counted(s) && n > 0
    ensures Counted(Projected(s, n)) && Close(Rate(Projected(s, n)), Rate(s), n)
  {
    RateIsShare(s);
    CarriedIsClose(Rate(s), n);
  }

  // ------------------------------------------------------------------------------------------
  // A gap inside the band
  // ------------------------------------------------------------------------------------------

  /** From four scenarios on, b*n is at least 3/2 for any quantile whose square is at least 2.4. */
  lemma SpreadShare(a: real, n: real, w: real)
    requires n >= 4.0 && w >= 2.4 && a > 0.0 && a * n == w
    ensures a / (1.0 + a) * n >= 1.5
  {
    var d, b := 1.0 + a, a / (1.0 + a);
    assert b * d == a;
    assert (b * n) * d == w by { Reassociate(b, d, n); }
    Product(a, n - 4.0, a * (n - 4.0));
    assert 4.0 * a <= w;
    assert 1.5 * d <= w;
    var c := b * n - 1.5;
    assert c * d == w - 1.5 * d;
    if c < 0.0 { Product(-c, d, (-c) * d); }
  }

  lemma ScaledSide(x: real, b: real, o: real, n: real)
    requires n > 0.0 && o >= 0.0 && b * n >= 1.5 && x >= b * o
    ensures x * n >= 1.5 * o
  {
    var rest, over := x - b * o, b * n - 1.5;
    Product(rest, n, rest * n);
    Product(over, o, over * o);
    assert rest * n == x * n - (b * o) * n;
    assert over * o == (b * n) * o - 1.5 * o;
    Reassociate(b, o, n);
  }

  /** Two sides of at least b*o and b*(1-r), with r <= o and b*n >= 3/2, span at least 1/n. */
  lemma SpanAtLeast(x: real, y: real, b: real, o: real, r: real, n: real, span: real)
    requires n > 0.0 && 0.0 <= r <= o <= 1.0 && b * n >= 1.5
    requires x >= b * o && y >= b * (1.0 - r) && span >= 0.0 && span * span == x * x + y * y
    ensures span * n >= 1.0
  {
    ScaledSide(x, b, o, n);
    ScaledSide(y, b, 1.0 - r, n);
    SumOfSquares(x * n, y * n, span * n, x, y, span, n);
  }

  lemma SumOfSquares(u: real, v: real, t: real, x: real, y: real, span: real, n: real)
    requires u == x * n && v == y * n && t == span * n && span * span == x * x + y * y && n > 0.0
    requires u + v >= 1.5 && u >= 0.0 && v >= 0.0 && span >= 0.0
    ensures t >= 1.0
  {
    Product(span, n, t);
    var tt := t * t;
    assert tt == u * u + v * v by {
      assert t * t == (span * span) * (n * n);
      assert u * u == (x * x) * (n * n);
      assert v * v == (y * y) * (n * n);
    }
    var d := u - v;
    Square(d, d * d);
    assert d * d == u * u - 2.0 * (u * v) + v * v;
    assert (u + v) * (u + v) == u * u + 2.0 * (u * v) + v * v;
    SquaresOrder(1.5, u + v);
    var one := 1.0;
    SquaresOrder(one, t);
  }

  /** The lower end of an interval for the gap from r to o lies at least 1/n below it. */
  predicate StaysBelow(low: real, r: real, o: real, n: int)
    requires n > 0
  {
    o - r - low >= Step(n)
  }

  lemma RootSpans(root: real -> real, x: real, y: real, b: real, o: real, r: real, n: int)
    requires IsRoot(root) && n > 0 && 0.0 <= r <= o <= 1.0 && b * n as real >= 1.5 && x >= b * o && y >= b * (1.0 - r)
    ensures root(Squared(x) + Squared(y)) >= Step(n)
  {
    var span := root(Squared(x) + Squared(y));
    RootSquares(root, x, y);
    SpanAtLeast(x, y, b, o, r, n as real, span);
    DivideOrder(1.0, span, n as real);
  }

  lemma CombinedStaysBelow(r: real, wr: Interval, o: real, wo: Interval, root: real -> real, b: real, n: int)
    requires IsRoot(root) && Around(wr, r) && Around(wo, o) && Reaches(wr, r, b) && Reaches(wo, o, b)
    requires r <= o && n > 0 && b * n as real >= 1.5
    ensures StaysBelow(Combined(r, wr, o, wo, root).low, r, o, n)
  {
    RootSpans(root, o - wo.low, wr.high - r, b, o, r, n);
  }

  lemma SpreadIsEnough(z: real, n: real)
    requires n >= 4.0 && z > 0.0 && z * z >= 2.4
    ensures Weight(Spread(z, n)) * n >= 1.5
  {
    PositiveQuotient(z * z, n);
    assert Spread(z, n) * n == z * z;
    SpreadShare(Spread(z, n), n, z * z);
  }

  /** At a common n the lower end stays at least 1/n below a gap that is not negative. */
  lemma LowStaysBelow(r: Sample, o: Sample, z: real, root: real -> real)
    requires IsRoot(root) && Counted(r) && Counted(o) && r.total == o.total >= 4 && z > 0.0 && z * z >= 2.4
    requires Rate(r) <= Rate(o)
    ensures StaysBelow(Difference(r, o, z, root).low, Rate(r), Rate(o), r.total)
  {
    var n := r.total;
    WilsonReach(r, z, root, 0.0);
    WilsonReach(o, z, root, 0.0);
    SpreadIsEnough(z, n as real);
    WilsonClampsAreIdle(r, z, root);
    WilsonClampsAreIdle(o, z, root);
    DifferenceClampsAreIdle(r, o, z, root);
    CombinedStaysBelow(Rate(r), Wilson(r, z, root), Rate(o), Wilson(o, z, root), root, Weight(Spread(z, n as real)), n);
  }

  lemma RootSquares(root: real -> real, x: real, y: real)
    requires IsRoot(root)
    ensures var span := root(Squared(x) + Squared(y)); span >= 0.0 && span * span == x * x + y * y
  {
    Square(x, x * x);
    Square(y, y * y);
  }

  /** Projected to any common n, a gap inside the band never leaves it from below. */
  lemma InsideBandLow(recorded: Sample, observed: Sample, rope: real, n: int, z: real, root: real -> real)
    requires IsRoot(root) && Counted(recorded) && Counted(observed) && z > 0.0 && z * z >= 2.4
    requires n >= VERDICT_MIN_SCENARIOS && rope >= 0.0 && Rate(observed) - Rate(recorded) <= rope
    ensures Difference(Projected(recorded, n), Projected(observed, n), z, root).low <= rope
  {
    var r, o := Projected(recorded, n), Projected(observed, n);
    ProjectionIsClose(recorded, n);
    ProjectionIsClose(observed, n);
    DifferenceClampsAreIdle(r, o, z, root);
    if Rate(r) <= Rate(o) {
      LowStaysBelow(r, o, z, root);
    }
  }

  /** However many scenarios: a gap inside the band is decided at no n, so the search comes back
      empty whatever its limit. */
  lemma InsideBandIsNeverDecided(recorded: Sample, observed: Sample, rope: real, n: int, z: real, root: real -> real)
    requires IsRoot(root) && Counted(recorded) && Counted(observed) && z > 0.0 && z * z >= 2.4
    requires n >= VERDICT_MIN_SCENARIOS && -rope <= Rate(observed) - Rate(recorded) <= rope
    ensures !DecidedAt(recorded, observed, rope, n, z, root)
  {
    InsideBandLow(recorded, observed, rope, n, z, root);
    InsideBandLow(observed, recorded, rope, n, z, root);
    ProjectionIsClose(recorded, n);
    ProjectionIsClose(observed, n);
    SwapNegates(Projected(recorded, n), Projected(observed, n), z, root);
  }

  // ------------------------------------------------------------------------------------------
  // A gap wider than the band
  // ------------------------------------------------------------------------------------------

  /** At n, both a step and the spread are small against e. */
  predicate Large(n: int, z: real, e: real)
    requires n > 0
  {
    Step(n) <= e / 4.0 && Spread(z, n as real) <= e * e / 32.0
  }

  lemma LargeFrom(z: real, e: real) returns (n: int)
    requires z > 0.0 && e > 0.0
    ensures n >= 4 && forall m: int :: m >= n ==> Large(m, z, e)
  {
    var w, quarter, ee := z * z, e / 4.0, e * e / 32.0;
    Square(z, w);
    Square(e, e * e);
    var u, v := 1.0 / quarter, w / ee;
    assert u * quarter == 1.0 && v * ee == w;
    PositiveQuotient(1.0, quarter);
    PositiveQuotient(w, ee);
    n := (u + v).Floor + 5;
    forall m: int | m >= n ensures Large(m, z, e) {
      var k := m as real;
      Product(k - u, quarter, (k - u) * quarter);
      Product(k - v, ee, (k - v) * ee);
      DivideOrder(1.0, quarter, k);
      DivideOrder(w, ee, k);
    }
  }

  lemma SpreadIsSmall(a: real, e: real)
    requires 0.0 < e <= 1.0 && a <= e * e / 32.0
    ensures a <= e / 32.0 <= 1.0 && a / 2.0 <= (e / 8.0) * (e / 8.0)
  {
    Product(e, 1.0 - e, e * (1.0 - e));
  }

  lemma CombinedReaches(r: real, wr: Interval, o: real, wo: Interval, root: real -> real, most: real)
    requires IsRoot(root) && Around(wr, r) && Around(wo, o)
    requires ReachesAtMost(wr, r, most) && ReachesAtMost(wo, o, most)
    ensures o - r - Combined(r, wr, o, wo, root).low <= 2.0 * most
  {
    var span := Hypotenuse(root, o - wo.low, wr.high - r);
  }

  /** The reach of a Wilson interval at a large n. */
  lemma LargeReaches(s: Sample, z: real, root: real -> real, e: real)
    requires IsRoot(root) && Counted(s) && z > 0.0 && 0.0 < e <= 1.0 && Large(s.total, z, e)
    ensures Around(Wilson(s, z, root), Rate(s))
    ensures ReachesAtMost(Wilson(s, z, root), Rate(s), e / 64.0 + e / 8.0)
  {
    SpreadIsSmall(Spread(z, s.total as real), e);
    WilsonReach(s, z, root, e / 8.0);
    WilsonClampsAreIdle(s, z, root);
  }

  lemma WideGapLow(recorded: Sample, observed: Sample, rope: real, e: real, n: int, z: real, root: real -> real)
    requires IsRoot(root) && Counted(recorded) && Counted(observed) && z > 0.0 && n >= 4
    requires 0.0 < e <= 1.0 && Rate(observed) - Rate(recorded) == rope + e && Large(n, z, e)
    ensures Difference(Projected(recorded, n), Projected(observed, n), z, root).low > rope
  {
    var r, o := Projected(recorded, n), Projected(observed, n);
    ProjectionIsClose(recorded, n);
    ProjectionIsClose(observed, n);
    LargeReaches(r, z, root, e);
    LargeReaches(o, z, root, e);
    DifferenceClampsAreIdle(r, o, z, root);
    CombinedReaches(Rate(r), Wilson(r, z, root), Rate(o), Wilson(o, z, root), root, e / 64.0 + e / 8.0);
  }

  /** A gap wider than the band is decided at every n from some n on. */
  lemma WideGapIsDecided(recorded: Sample, observed: Sample, rope: real, z: real, root: real -> real) returns (n: int)
    requires IsRoot(root) && Counted(recorded) && Counted(observed) && z > 0.0 && rope >= 0.0
    requires Rate(observed) - Rate(recorded) > rope || Rate(observed) - Rate(recorded) < -rope
    ensures n >= VERDICT_MIN_SCENARIOS
    ensures forall m: int :: m >= n ==> DecidedAt(recorded, observed, rope, m, z, root)
  {
    RateIsShare(recorded);
    RateIsShare(observed);
    Square(z, z * z);
    var up := Rate(observed) - Rate(recorded) > rope;
    var gap := if up then Rate(observed) - Rate(recorded) else Rate(recorded) - Rate(observed);
    var e := gap - rope;
    n := LargeFrom(z, e);
    forall m: int | m >= n ensures DecidedAt(recorded, observed, rope, m, z, root) {
      assert Large(m, z, e);
      if up {
        WideGapLow(recorded, observed, rope, e, m, z, root);
      } else {
        WideGapLow(observed, recorded, rope, e, m, z, root);
        ProjectionIsClose(recorded, m);
        ProjectionIsClose(observed, m);
        SwapNegates(Projected(recorded, m), Projected(observed, m), z, root);
      }
    }
  }

  /** So there is a budget exactly when the gap is wider than the band, as the report says of the
      two reasons for having none. */
  lemma BudgetExistsIff(recorded: Sample, observed: Sample, rope: real, z: real, root: real -> real)
    requires IsRoot(root) && Counted(recorded) && Counted(observed) && z > 0.0 && z * z >= 2.4 && rope >= 0.0
    ensures (exists n: int :: n >= VERDICT_MIN_SCENARIOS && DecidedAt(recorded, observed, rope, n, z, root))
       <==> Rate(observed) - Rate(recorded) > rope || Rate(observed) - Rate(recorded) < -rope
  {
    if -rope <= Rate(observed) - Rate(recorded) <= rope {
      forall n: int | n >= VERDICT_MIN_SCENARIOS ensures !DecidedAt(recorded, observed, rope, n, z, root) {
        InsideBandIsNeverDecided(recorded, observed, rope, n, z, root);
      }
    } else {
      var n := WideGapIsDecided(recorded, observed, rope, z, root);
      assert DecidedAt(recorded, observed, rope, n, z, root);
    }
  }
}
