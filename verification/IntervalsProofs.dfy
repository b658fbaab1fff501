/** What the interval arithmetic guarantees when nothing is rounded: the Wilson interval has a closed
    form, the clamps of both intervals never act, exchanging the samples negates the difference, and
    the verdict does not depend on their order. The products and quotients of reals that this takes
    are proved first, each by itself, so that no later proof multiplies two unknowns. */
module IntervalsProofs {
  import opened Options
  import opened Intervals

  // ------------------------------------------------------------------------------------------
  // Real arithmetic
  // ------------------------------------------------------------------------------------------

  lemma Product(x: real, y: real, xy: real)
    requires x >= 0.0 && y >= 0.0 && xy == x * y
    ensures xy >= 0.0
    ensures x > 0.0 && y > 0.0 ==> xy > 0.0
  {
  }

  lemma Square(x: real, xx: real)
    requires xx == x * x
    ensures xx >= 0.0
    ensures x != 0.0 ==> xx > 0.0
  {
    if x >= 0.0 { Product(x, x, xx); } else { Product(-x, -x, xx); }
  }

  /** Squares of non-negative numbers order as the numbers do. */
  lemma SquaresOrder(x: real, y: real)
    requires y >= 0.0 && x * x <= y * y
    ensures x <= y
  {
    var d := x - y;
    assert x * d + y * d == x * x - y * y;
    if d > 0.0 {
      Product(x, d, x * d);
      Product(y, d, y * d);
      assert false;
    }
  }

  /** Comparing a quotient is comparing the product. */
  lemma DivideOrder(x: real, y: real, d: real)
    requires d > 0.0
    ensures x / d <= y <==> x <= y * d
    ensures y <= x / d <==> y * d <= x
  {
    var q := x / d;
    assert q * d == x;
    var e := q - y;
    assert e * d == x - y * d;
    if e > 0.0 { Product(e, d, e * d); }
    if e < 0.0 { Product(-e, d, (-e) * d); }
  }

  lemma SquareOfProduct(z: real, r: real)
    ensures (z * r) * (z * r) == (z * z) * (r * r)
  {
  }

  lemma PositiveQuotient(x: real, d: real)
    requires x > 0.0 && d > 0.0
    ensures x / d > 0.0
  {
    var q := x / d;
    assert q * d == x;
    if q <= 0.0 { Product(-q, d, (-q) * d); }
  }

  lemma Quotient(q: real, x: real, d: real)
    requires d != 0.0 && q * d == x
    ensures q == x / d
  {
    var e := q - x / d;
    assert e * d == 0.0;
    SquareOfProduct(e, d);
    Square(e, e * e);
    Square(d, d * d);
    Product(e * e, d * d, (e * e) * (d * d));
  }

  lemma RateIsShare(s: Sample)
    requires Counted(s)
    ensures 0.0 <= Rate(s) <= 1.0
  {
    DivideOrder(s.hits as real, 0.0, s.total as real);
    DivideOrder(s.hits as real, 1.0, s.total as real);
  }

  // ------------------------------------------------------------------------------------------
  // One interval
  // ------------------------------------------------------------------------------------------

  lemma Reassociate(x: real, y: real, u: real)
    ensures (x * y) * u == x * (y * u) && (x * y) * u == (x * u) * y
  {
  }

  lemma OverFourSquares(w: real, n: real)
    requires n > 0.0
    ensures 4.0 * n * n > 0.0
    ensures w / (4.0 * n * n) == w / n / (4.0 * n)
  {
    var a := w / n;
    var c := a / (4.0 * n);
    assert a * n == w && c * (4.0 * n) == a;
    Product(n, n, n * n);
    assert 4.0 * n * n == 4.0 * (n * n);
    assert c * (4.0 * n * n) == w by {
      Reassociate(c, 4.0 * n, n);
    }
    Quotient(c, w, 4.0 * n * n);
  }

  /** z*z times what stands under the root, with w = z*z and a = w/n. */
  lemma UnderRoot(q: real, w: real, n: real)
    requires n > 0.0 && q >= 0.0 && w >= 0.0
    ensures q / n + w / (4.0 * n * n) >= 0.0
    ensures w * (q / n + w / (4.0 * n * n)) == (w / n) * q + (w / n) * (w / n) / 4.0
  {
    OverFourSquares(w, n);
    var a, b := w / n, q / n;
    var c := a / (4.0 * n);
    assert a * n == w && b * n == q && c * (4.0 * n) == a;
    DivideOrder(q, 0.0, n);
    DivideOrder(w, 0.0, n);
    DivideOrder(a, 0.0, 4.0 * n);
    Reassociate(a, n, b);
    Reassociate(a, n, c);
  }

  lemma HalfOver(z: real, r: real, d: real)
    requires d > 0.0
    ensures (z / d) * r == (z * r) / d
  {
    var q := z / d;
    assert q * d == z;
    Reassociate(q, d, r);
    Quotient(q * r, z * r, d);
  }

  lemma OverTwice(w: real, n: real)
    requires n > 0.0
    ensures w / (2.0 * n) == (w / n) / 2.0
  {
    var a := w / n;
    assert a * n == w;
    Quotient(a / 2.0, w, 2.0 * n);
  }

  lemma SplitFraction(x: real, y: real, d: real)
    requires d > 0.0
    ensures x / d - y / d == (x - y) / d && x / d + y / d == (x + y) / d
  {
    var u, v := x / d, y / d;
    assert u * d == x && v * d == y;
    Quotient(u - v, x - y, d);
    Quotient(u + v, x + y, d);
  }

  lemma CentreForm(p: real, z: real, n: real)
    requires n > 0.0
    ensures Centre(p, z, n) == (p + Spread(z, n) / 2.0) / (1.0 + Spread(z, n))
  {
    OverTwice(z * z, n);
  }

  lemma HalfSquared(z: real, r: real, q: real, n: real)
    requires n > 0.0 && q >= 0.0 && r * r == q / n + z * z / (4.0 * n * n)
    ensures (z * r) * (z * r) == Spread(z, n) * q + Spread(z, n) * Spread(z, n) / 4.0
  {
    Square(z, z * z);
    UnderRoot(q, z * z, n);
    SquareOfProduct(z, r);
  }

  lemma UnderIsNonNegative(p: real, z: real, n: real)
    requires 0.0 <= p <= 1.0 && n > 0.0
    ensures p * (1.0 - p) >= 0.0 && p * (1.0 - p) / n + z * z / (4.0 * n * n) >= 0.0
  {
    Square(z, z * z);
    Product(p, 1.0 - p, p * (1.0 - p));
    UnderRoot(p * (1.0 - p), z * z, n);
  }

  /** Half is h / (1 + a) for an h whose square is known. */
  lemma HalfForm(p: real, z: real, n: real, root: real -> real) returns (h: real)
    requires IsRoot(root) && 0.0 <= p <= 1.0 && z > 0.0 && n > 0.0
    ensures h >= 0.0 && Half(p, z, n, root) == h / (1.0 + Spread(z, n))
    ensures h * h == Spread(z, n) * (p * (1.0 - p)) + Spread(z, n) * Spread(z, n) / 4.0
  {
    UnderIsNonNegative(p, z, n);
    var r := root(p * (1.0 - p) / n + z * z / (4.0 * n * n));
    h := z * r;
    Product(z, r, h);
    HalfSquared(z, r, p * (1.0 - p), n);
    HalfOver(z, r, 1.0 + Spread(z, n));
  }

  /** With a = z*z/n, the raw interval is (p + a/2 -/+ h) / (1 + a), where h*h = a*p*(1-p) + a*a/4. */
  lemma WilsonForm(s: Sample, z: real, root: real -> real) returns (a: real, h: real)
    requires IsRoot(root) && Counted(s) && z > 0.0
    ensures a == Spread(z, s.total as real) && a > 0.0 && h >= 0.0 && 0.0 <= Rate(s) <= 1.0
    ensures h * h == a * (Rate(s) * (1.0 - Rate(s))) + a * a / 4.0
    ensures RawWilson(s, z, root) == Interval((Rate(s) + a / 2.0 - h) / (1.0 + a), (Rate(s) + a / 2.0 + h) / (1.0 + a))
  {
    var n, p := s.total as real, Rate(s);
    RateIsShare(s);
    Square(z, z * z);
    PositiveQuotient(z * z, n);
    a := Spread(z, n);
    h := HalfForm(p, z, n, root);
    CentreForm(p, z, n);
    SplitFraction(p + a / 2.0, h, 1.0 + a);
  }

  /** h is at most the distance from the unscaled centre to 0, and from p's own place to the centre. */
  lemma HalfReaches(a: real, p: real, q: real, hh: real, h: real)
    requires a > 0.0 && 0.0 <= p <= 1.0 && q == p * (1.0 - p) && q >= 0.0
    requires h >= 0.0 && hh == h * h && hh == a * q + a * a / 4.0
    ensures h <= p + a / 2.0
    ensures a / 2.0 - a * p <= h
  {
    var u, v := p + a / 2.0, a / 2.0 - a * p;
    assert u * u == p * p + a * p + a * a / 4.0;
    assert a * q == a * p - a * (p * p);
    Square(p, p * p);
    Product(a, p * p, a * (p * p));
    SquaresOrder(h, u);
    assert v * v == a * a / 4.0 - (a * a) * q;
    Product(a, q, a * q);
    Product(a, a, a * a);
    Product(a * a, q, (a * a) * q);
    SquaresOrder(v, h);
  }

  lemma HalfIsBetween(a: real, p: real, h: real)
    requires a > 0.0 && 0.0 <= p <= 1.0 && h >= 0.0 && h * h == a * (p * (1.0 - p)) + a * a / 4.0
    ensures h <= p + a / 2.0 && h <= 1.0 - p + a / 2.0
    ensures a / 2.0 - a * p <= h && a * p - a / 2.0 <= h
  {
    var q := p * (1.0 - p);
    Product(p, 1.0 - p, q);
    HalfReaches(a, p, q, h * h, h);
    HalfReaches(a, 1.0 - p, q, h * h, h);
  }

  lemma WithinUnit(a: real, p: real, h: real)
    requires a > 0.0
    requires h <= p + a / 2.0 && h <= 1.0 - p + a / 2.0
    requires a / 2.0 - a * p <= h && a * p - a / 2.0 <= h
    ensures 0.0 <= (p + a / 2.0 - h) / (1.0 + a) <= p
    ensures p <= (p + a / 2.0 + h) / (1.0 + a) <= 1.0
  {
    DivideOrder(p + a / 2.0 - h, 0.0, 1.0 + a);
    DivideOrder(p + a / 2.0 - h, p, 1.0 + a);
    DivideOrder(p + a / 2.0 + h, p, 1.0 + a);
    DivideOrder(p + a / 2.0 + h, 1.0, 1.0 + a);
  }

  lemma Brackets(a: real, p: real, h: real)
    requires a > 0.0 && 0.0 <= p <= 1.0 && h >= 0.0 && h * h == a * (p * (1.0 - p)) + a * a / 4.0
    ensures 0.0 <= (p + a / 2.0 - h) / (1.0 + a) <= p
    ensures p <= (p + a / 2.0 + h) / (1.0 + a) <= 1.0
  {
    HalfIsBetween(a, p, h);
    WithinUnit(a, p, h);
  }

  /** Over the reals the interval brackets the observed rate inside [0, 1] by itself: every clamp
      in the code only answers to rounding. */
  lemma WilsonClampsAreIdle(s: Sample, z: real, root: real -> real)
    requires IsRoot(root) && Counted(s) && z > 0.0
    ensures Wilson(s, z, root) == RawWilson(s, z, root)
    ensures 0.0 <= Wilson(s, z, root).low <= Rate(s) <= Wilson(s, z, root).high <= 1.0
  {
    var a, h := WilsonForm(s, z, root);
    Brackets(a, Rate(s), h);
  }

  // ------------------------------------------------------------------------------------------
  // The difference of two rates
  // ------------------------------------------------------------------------------------------

  /** The root of a sum of squares is at least each side and at most their sum. */
  lemma Hypotenuse(root: real -> real, x: real, y: real) returns (r: real)
    requires IsRoot(root) && x >= 0.0 && y >= 0.0
    ensures r == root(Squared(x) + Squared(y)) && r == root(Squared(y) + Squared(x))
    ensures x <= r && y <= r && r <= x + y
  {
    Square(x, x * x);
    Square(y, y * y);
    r := root(Squared(x) + Squared(y));
    assert Squared(x) + Squared(y) == Squared(y) + Squared(x);
    var rr := r * r;
    assert rr == x * x + y * y;
    SquaresOrder(x, r);
    SquaresOrder(y, r);
    Product(x, y, x * y);
    assert (x + y) * (x + y) == rr + 2.0 * (x * y);
    SquaresOrder(r, x + y);
  }

  /** An interval for a share that brackets it. */
  predicate Around(w: Interval, p: real) {
    0.0 <= w.low <= p <= w.high <= 1.0
  }

  lemma CombinedBrackets(r: real, wr: Interval, o: real, wo: Interval, root: real -> real)
    requires IsRoot(root) && Around(wr, r) && Around(wo, o)
    ensures -1.0 <= Combined(r, wr, o, wo, root).low <= o - r <= Combined(r, wr, o, wo, root).high <= 1.0
    ensures Combined(o, wo, r, wr, root).low == -Combined(r, wr, o, wo, root).high
  {
    var down := Hypotenuse(root, o - wo.low, wr.high - r);
    var up := Hypotenuse(root, wo.high - o, r - wr.low);
  }

  /** Over the reals the difference interval brackets the observed gap inside [-1, 1] by itself. */
  lemma DifferenceClampsAreIdle(recorded: Sample, observed: Sample, z: real, root: real -> real)
    requires IsRoot(root) && Counted(recorded) && Counted(observed) && z > 0.0
    ensures Difference(recorded, observed, z, root) == RawDifference(recorded, observed, z, root)
    ensures var interval := Difference(recorded, observed, z, root);
            -1.0 <= interval.low <= Rate(observed) - Rate(recorded) <= interval.high <= 1.0
  {
    WilsonClampsAreIdle(recorded, z, root);
    WilsonClampsAreIdle(observed, z, root);
    CombinedBrackets(Rate(recorded), Wilson(recorded, z, root), Rate(observed), Wilson(observed, z, root), root);
  }

  /** A sample without scenarios says nothing: the interval is the whole range. */
  lemma NothingObserved(s: Sample, t: Sample, z: real, root: real -> real)
    requires s.total <= 0
    ensures Wilson(s, z, root) == Interval(0.0, 1.0)
    ensures Difference(s, t, z, root) == Difference(t, s, z, root) == Interval(-1.0, 1.0)
  {
  }

  /** Swapping the two samples negates the interval and swaps its ends. */
  lemma SwapNegates(a: Sample, b: Sample, z: real, root: real -> real)
    requires IsRoot(root) && Counted(a) && Counted(b) && z > 0.0
    ensures Difference(b, a, z, root).low == -Difference(a, b, z, root).high
    ensures Difference(b, a, z, root).high == -Difference(a, b, z, root).low
  {
    DifferenceClampsAreIdle(a, b, z, root);
    DifferenceClampsAreIdle(b, a, z, root);
    WilsonClampsAreIdle(a, z, root);
    WilsonClampsAreIdle(b, z, root);
    CombinedBrackets(Rate(a), Wilson(a, z, root), Rate(b), Wilson(b, z, root), root);
    CombinedBrackets(Rate(b), Wilson(b, z, root), Rate(a), Wilson(a, z, root), root);
  }

  /** Which sample is called the recorded one does not matter to the verdict. */
  lemma VerdictIsSymmetric(a: Sample, b: Sample, z: real, root: real -> real)
    requires IsRoot(root) && z > 0.0
    requires a.total > 0 ==> Counted(a)
    requires b.total > 0 ==> Counted(b)
    ensures Classify(a, b, z, root) == Classify(b, a, z, root)
  {
    if a.total > 0 && b.total > 0 {
      SwapNegates(a, b, z, root);
    }
  }

  lemma RatesAgree(a: Sample, b: Sample)
    requires a.total > 0 && b.total > 0
    ensures a.hits * b.total == b.hits * a.total <==> Rate(a) == Rate(b)
  {
    var n, m := a.total as real, b.total as real;
    var p, q := Rate(a), Rate(b);
    assert p * n == a.hits as real && q * m == b.hits as real;
    assert (a.hits * b.total) as real == (p * n) * m;
    assert (b.hits * a.total) as real == (q * m) * n;
    CrossMultiply(p, q, n, m);
  }

  lemma CrossMultiply(p: real, q: real, n: real, m: real)
    requires n > 0.0 && m > 0.0
    ensures (p * n) * m == (q * m) * n <==> p == q
  {
    var nm := n * m;
    Product(n, m, nm);
    assert (p * n) * m == p * nm && (q * m) * n == q * nm;
    if p > q { Product(p - q, nm, (p - q) * nm); }
    if q > p { Product(q - p, nm, (q - p) * nm); }
  }

  /** Drift is never called on a gap inside the band, and reproduced means equal rates. */
  lemma DriftIsWide(a: Sample, b: Sample, z: real, root: real -> real)
    requires IsRoot(root) && z > 0.0 && Counted(a) && Counted(b)
    ensures Classify(a, b, z, root) == Drifted ==>
      Rate(b) - Rate(a) > VERDICT_ROPE || Rate(a) - Rate(b) > VERDICT_ROPE
    ensures Classify(a, b, z, root) == Reproduced <==> Rate(a) == Rate(b)
  {
    DifferenceClampsAreIdle(a, b, z, root);
    RatesAgree(a, b);
  }
}
