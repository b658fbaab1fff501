/** What fits, what is lost, and when: the memory budget's arithmetic. */
module MemoryBudgetProofs {
  import opened Options
  import opened Preview
  import opened MemoryBudget

  // ------------------------------------------------------------------------------------------
  // Sizes
  // ------------------------------------------------------------------------------------------

  lemma {:induction false} WideJoin(a: string, b: string, width: Width)
    ensures Wide(a + b, width) == Wide(a, width) + Wide(b, width)
  {
    if b == "" {
      assert a + b == a;
    } else {
      WideJoin(a, b[..|b| - 1], width);
      assert (a + b)[..|a + b| - 1] == a + b[..|b| - 1];
    }
  }

  lemma {:induction false} WideAtLeast(s: string, width: Width)
    requires Expands(width)
    ensures Wide(s, width) >= |s|
  {
    if s == "" {
    } else {
      WideAtLeast(s[..|s| - 1], width);
    }
  }

  /** Dropping characters from the end drops at least as many from the encoding. */
  lemma WideDrops(s: string, j: nat, k: nat, width: Width)
    requires Expands(width) && j <= k <= |s|
    ensures Wide(s[..j], width) + (k - j) <= Wide(s[..k], width)
  {
    WideJoin(s[..j], s[j..k], width);
    WideAtLeast(s[j..k], width);
    assert s[..j] + s[j..k] == s[..k];
  }

  lemma {:induction false} FieldSizesUpdate(texts: seq<Option<string>>, i: nat, field: Option<string>, width: Width)
    requires i < |texts|
    ensures FieldSizes(texts[i := field], width)
         == FieldSizes(texts, width) - FieldSize(texts[i], width) + FieldSize(field, width)
  {
    var front := texts[..|texts| - 1];
    if i == |texts| - 1 {
      assert texts[i := field][..i] == front;
    } else {
      FieldSizesUpdate(front, i, field, width);
      assert texts[i := field][..|texts| - 1] == front[i := field];
    }
  }

  lemma SizeOfCut(item: Entry, i: nat, keep: nat, width: Width)
    requires HasText(item, i)
    ensures var s := item.texts[i].value;
            Size(Cut(item, i, keep), width)
            == Size(item, width) - Wide(s, width) + Wide(Prefix(s, keep), width) + Wide(Mark(|s|), width)
  {
    var s := item.texts[i].value;
    FieldSizesUpdate(item.texts, i, Some(Prefix(s, keep) + Mark(|s|)), width);
    WideJoin(Prefix(s, keep), Mark(|s|), width);
  }

  // ------------------------------------------------------------------------------------------
  // Shortening one row
  // ------------------------------------------------------------------------------------------

  /** Whatever the escapes, a text is only ever replaced by a proper prefix of itself, and only
      by one with which the row fits. */
  lemma {:induction false} ShavedFits(item: Entry, i: nat, limit: int, width: Width, keep: int) returns (k: nat)
    requires HasText(item, i) && Expands(width) && Size(item, width) > limit
    ensures Shaved(item, i, limit, width, keep).Some? ==>
      0 < k <= keep && k < |item.texts[i].value|
      && Shaved(item, i, limit, width, keep) == Some(Cut(item, i, k)) && Size(Cut(item, i, k), width) <= limit
    decreases keep
  {
    k := 0;
    if keep <= 0 {
    } else {
      var size := Size(Cut(item, i, keep), width);
      if size <= limit {
        k := keep;
        assert keep >= |item.texts[i].value| ==> Prefix(item.texts[i].value, keep) == item.texts[i].value;
        SizeOfCut(item, i, keep, width);
        WideAtLeast(Mark(|item.texts[i].value|), width);
      } else {
        k := ShavedFits(item, i, limit, width, keep - (size - limit));
      }
    }
  }

  /** The first length that is tried forgets the two quotes around the text, so it never fits. */
  lemma FirstCutNeverFits(item: Entry, i: nat, limit: int, width: Width)
    requires HasText(item, i) && Expands(width) && Size(item, width) > limit
    requires FirstKeep(item, i, limit, width) > 0
    ensures Size(Cut(item, i, FirstKeep(item, i, limit, width)), width) > limit
  {
    var s, keep := item.texts[i].value, FirstKeep(item, i, limit, width);
    SizeOfCut(item, i, keep, width);
    WideAtLeast(Prefix(s, keep), width);
    WideAtLeast(Mark(|s|), width);
  }

  /** Once a tried length lies inside the text, one shave is enough: the characters removed are
      each worth at least one. So the loop succeeds exactly when the excess of that try, which is
      counted in encoded characters, leaves something of a length counted in plain ones. */
  lemma OneShaveIsEnough(item: Entry, i: nat, limit: int, width: Width, keep: int)
    requires HasText(item, i) && Expands(width) && 0 < keep <= |item.texts[i].value|
    requires Size(Cut(item, i, keep), width) > limit
    ensures var excess := Size(Cut(item, i, keep), width) - limit;
            Shaved(item, i, limit, width, keep)
            == if keep > excess then Some(Cut(item, i, keep - excess)) else None
  {
    var s := item.texts[i].value;
    var next := keep - (Size(Cut(item, i, keep), width) - limit);
    if next > 0 {
      SizeOfCut(item, i, keep, width);
      SizeOfCut(item, i, next, width);
      WideDrops(s, next, keep, width);
      assert Size(Cut(item, i, next), width) <= limit;
    }
  }

  /** A row comes out untouched if it fits; otherwise with exactly one text cut to a marked proper
      prefix so that it fits, or as a shape that tells its size. */
  lemma {:induction false} ShortenedIsHonest(item: Entry, from: nat, limit: int, kind: string, width: Width)
    returns (i: nat, k: nat)
    requires item.Row? && Expands(width) && from <= |item.texts| && Size(item, width) > limit
    ensures var r := FirstShaved(item, from, limit, kind, width);
            r == Shape(kind, Size(item, width))
            || (HasText(item, i) && 0 < k < |item.texts[i].value| && r == Cut(item, i, k) && Size(r, width) <= limit)
    decreases |item.texts| - from
  {
    i, k := from, 0;
    if from >= |item.texts| {
    } else {
      if HasText(item, from) {
        k := ShavedFits(item, from, limit, width, FirstKeep(item, from, limit, width));
      }
      if !(HasText(item, from) && Shaved(item, from, limit, width, FirstKeep(item, from, limit, width)).Some?) {
        i, k := ShortenedIsHonest(item, from + 1, limit, kind, width);
      }
    }
  }

  // ------------------------------------------------------------------------------------------
  // When a row can be shortened
  // ------------------------------------------------------------------------------------------

  /** The mark alone makes a row this much too long; while more than the whole text would be kept,
      the length tried falls by that. */
  function Excess(item: Entry, i: nat, limit: int, width: Width): int
    requires HasText(item, i)
  {
    Size(item, width) - limit + Wide(Mark(|item.texts[i].value|), width)
  }

  /** The first length tried that lies inside the text, if it is positive. */
  function FirstInside(item: Entry, i: nat, limit: int, width: Width): int
    requires HasText(item, i) && Excess(item, i, limit, width) > 0
  {
    var n, keep := |item.texts[i].value|, FirstKeep(item, i, limit, width);
    if keep <= n then keep else n - (n - keep) % Excess(item, i, limit, width)
  }

  /** Nothing is left of the first length inside the text once the excess of that try is off. */
  predicate Overshoots(item: Entry, i: nat, limit: int, width: Width)
    requires HasText(item, i) && Excess(item, i, limit, width) > 0
  {
    var keep := FirstInside(item, i, limit, width);
    keep <= 0 || keep <= Size(Cut(item, i, keep), width) - limit
  }

  /** Whether the loop cuts a text so that the row fits. */
  predicate Shortens(item: Entry, i: nat, limit: int, width: Width) {
    HasText(item, i) && Excess(item, i, limit, width) > 0 && !Overshoots(item, i, limit, width)
  }

  lemma MultipleIsFar(d: int, e: int)
    requires e > 0
    ensures (d >= 1 ==> d * e >= e) && (d <= -1 ==> d * e <= -e)
  {
    if d >= 1 {
      assert (d - 1) * e >= 0;
    } else if d <= -1 {
      assert (-d - 1) * e >= 0;
    }
  }

  lemma ModIsUnique(x: int, e: int, q: int, r: int)
    requires e > 0 && x == q * e + r && 0 <= r < e
    ensures x % e == r
  {
    assert x == (x / e) * e + x % e;
    assert (x / e - q) * e == r - x % e;
    MultipleIsFar(x / e - q, e);
  }

  lemma ModStep(x: int, e: int)
    requires e > 0
    ensures (x + e) % e == x % e
  {
    assert x == (x / e) * e + x % e;
    assert (x / e + 1) * e == (x / e) * e + e;
    ModIsUnique(x + e, e, x / e + 1, x % e);
  }

  /** A length past the text's end falls by the same excess until it is inside. */
  lemma {:induction false} ShavedFromOutside(item: Entry, i: nat, limit: int, width: Width, keep: int)
    requires HasText(item, i) && Expands(width) && Size(item, width) > limit && keep > |item.texts[i].value|
    ensures var n, e := |item.texts[i].value|, Excess(item, i, limit, width);
            e > 0 && Shaved(item, i, limit, width, keep) == Shaved(item, i, limit, width, n - (n - keep) % e)
    decreases keep
  {
    var s := item.texts[i].value;
    var n, e := |s|, Excess(item, i, limit, width);
    SizeOfCut(item, i, keep, width);
    WideAtLeast(Mark(n), width);
    assert Prefix(s, keep) == s;
    ModStep(n - keep, e);
    if keep - e <= n {
      ModIsUnique(n - keep + e, e, 0, n - keep + e);
    } else {
      ShavedFromOutside(item, i, limit, width, keep - e);
      assert n - (keep - e) == n - keep + e;
    }
  }

  /** Exactly when the loop's shaving of one text succeeds, read off the row and the limit. */
  lemma ShavedIff(item: Entry, i: nat, limit: int, width: Width)
    requires HasText(item, i) && Expands(width) && Size(item, width) > limit
    ensures Shaved(item, i, limit, width, FirstKeep(item, i, limit, width)).Some? <==> Shortens(item, i, limit, width)
  {
    var n := |item.texts[i].value|;
    WideAtLeast(Mark(n), width);
    var keep := FirstInside(item, i, limit, width);
    if FirstKeep(item, i, limit, width) > n { ShavedFromOutside(item, i, limit, width, FirstKeep(item, i, limit, width)); }
    if keep > 0 && Size(Cut(item, i, keep), width) > limit { OneShaveIsEnough(item, i, limit, width, keep); }
  }

  lemma OneTextLess(item: Entry, i: nat, limit: int, kind: string, width: Width)
    requires item.Row? && Expands(width) && i < |item.texts| && Size(item, width) > limit
    ensures FirstShaved(item, i, limit, kind, width).Shape?
            <==> !Shortens(item, i, limit, width) && FirstShaved(item, i + 1, limit, kind, width).Shape?
  {
    if HasText(item, i) {
      ShavedIff(item, i, limit, width);
      var _ := ShavedFits(item, i, limit, width, FirstKeep(item, i, limit, width));
    }
  }

  lemma {:induction false} ShapeLeftIff(item: Entry, from: nat, limit: int, kind: string, width: Width)
    requires item.Row? && Expands(width) && from <= |item.texts| && Size(item, width) > limit
    ensures FirstShaved(item, from, limit, kind, width).Shape?
            <==> forall i | from <= i < |item.texts| :: !Shortens(item, i, limit, width)
    decreases |item.texts| - from
  {
    if from == |item.texts| {
    } else {
      OneTextLess(item, from, limit, kind, width);
      ShapeLeftIff(item, from + 1, limit, kind, width);
    }
  }

  /** The newest row is replaced by its shape: it is over the limit, and the loop cuts none of its
      texts so that it fits half of it. */
  predicate GivenUp(item: Entry, limit: int, width: Width)
    requires item.Row?
  {
    Size(item, width) > limit && forall i | 0 <= i < |item.texts| :: !Shortens(item, i, Halved(limit), width)
  }

  lemma ShapeIff(item: Entry, limit: int, kind: string, width: Width)
    requires item.Row? && Expands(width)
    ensures Admitted(item, limit, kind, width).Shape? <==> GivenUp(item, limit, width)
  {
    if Size(item, width) > limit { ShapeLeftIff(item, 0, Halved(limit), kind, width); }
  }

  // ------------------------------------------------------------------------------------------
  // What the loop misses
  // ------------------------------------------------------------------------------------------

  /** Some prefix of the text, marked, is proper and fits. */
  ghost predicate CanBeCut(item: Entry, i: nat, limit: int, width: Width) {
    HasText(item, i) && exists k :: 0 < k < |item.texts[i].value| && Size(Cut(item, i, k), width) <= limit
  }

  /** The text has a second character to lose, and its first one fits with the mark. */
  predicate FitsAtOne(item: Entry, i: nat, limit: int, width: Width) {
    HasText(item, i) && |item.texts[i].value| >= 2 && Size(Cut(item, i, 1), width) <= limit
  }

  /** Whether a text can be cut is seen at the shortest prefix. */
  lemma CanBeCutIff(item: Entry, i: nat, limit: int, width: Width)
    requires Expands(width)
    ensures CanBeCut(item, i, limit, width) <==> FitsAtOne(item, i, limit, width)
  {
    if CanBeCut(item, i, limit, width) {
      var k :| 0 < k < |item.texts[i].value| && Size(Cut(item, i, k), width) <= limit;
      SizeOfCut(item, i, 1, width);
      SizeOfCut(item, i, k, width);
      WideDrops(item.texts[i].value, 1, k, width);
    }
  }

  lemma ShortenedCanBeCut(item: Entry, i: nat, limit: int, width: Width)
    requires Expands(width) && item.Row? && Size(item, width) > limit && Shortens(item, i, limit, width)
    ensures CanBeCut(item, i, limit, width)
  {
    ShavedIff(item, i, limit, width);
    var _ := ShavedFits(item, i, limit, width, FirstKeep(item, i, limit, width));
  }

  /** The text could be cut and the loop does not. */
  ghost predicate Missed(item: Entry, i: nat, limit: int, width: Width) {
    CanBeCut(item, i, limit, width) && !Shortens(item, i, limit, width)
  }

  lemma MissedIff(item: Entry, i: nat, limit: int, width: Width)
    requires Expands(width) && item.Row? && Size(item, width) > limit
    ensures Missed(item, i, limit, width) <==>
            FitsAtOne(item, i, limit, width) && Excess(item, i, limit, width) > 0 && Overshoots(item, i, limit, width)
  {
    CanBeCutIff(item, i, limit, width);
    if HasText(item, i) { WideAtLeast(Mark(|item.texts[i].value|), width); }
  }

  /** How many characters a text gains when it is encoded. */
  function Escapes(s: string, width: Width): int {
    Wide(s, width) - |s|
  }

  /** Where the first length tried is inside the text already, it comes to nothing exactly when the
      characters it keeps gain as many in the encoding, but for the two quotes it forgets and what
      the mark gains. */
  lemma OvershootsIff(item: Entry, i: nat, limit: int, width: Width)
    requires HasText(item, i) && Expands(width) && Excess(item, i, limit, width) > 0
    requires 0 < FirstKeep(item, i, limit, width) <= |item.texts[i].value|
    ensures var s, keep := item.texts[i].value, FirstKeep(item, i, limit, width);
            Overshoots(item, i, limit, width) <==> Escapes(s[..keep], width) + Escapes(Mark(|s|), width) + 2 >= keep
  {
    SizeOfCut(item, i, FirstKeep(item, i, limit, width), width);
  }

  /** A text that can be cut is tried from a positive length on. */
  lemma FirstKeepIsPositive(item: Entry, i: nat, limit: int, width: Width)
    requires Expands(width) && CanBeCut(item, i, limit, width)
    ensures FirstKeep(item, i, limit, width) > 2
  {
    CanBeCutIff(item, i, limit, width);
    var s := item.texts[i].value;
    SizeOfCut(item, i, 1, width);
    WideAtLeast(s[..1], width);
    WideAtLeast(Mark(|s|), width);
  }

  /** Where neither the text nor the mark gains anything, nothing is missed. */
  lemma PlainTextIsNotMissed(item: Entry, i: nat, limit: int, width: Width)
    requires Expands(width) && HasText(item, i) && Size(item, width) > limit
    requires Escapes(item.texts[i].value, width) == 0 && Escapes(Mark(|item.texts[i].value|), width) == 0
    ensures Shortens(item, i, limit, width) <==> CanBeCut(item, i, limit, width)
  {
    var s, keep := item.texts[i].value, FirstKeep(item, i, limit, width);
    if Shortens(item, i, limit, width) {
      ShortenedCanBeCut(item, i, limit, width);
    }
    if CanBeCut(item, i, limit, width) {
      FirstKeepIsPositive(item, i, limit, width);
      WideDrops(s, keep, |s|, width);
      assert s[..|s|] == s;
      OvershootsIff(item, i, limit, width);
      WideAtLeast(s[..keep], width);
    }
  }

  /** When the newest row is sent as its shape although a text of it could be cut to fit: some
      text's shortest cut does, and every text whose shortest cut does is overshot. */
  lemma GivenUpNeedlesslyIff(item: Entry, limit: int, kind: string, width: Width)
    requires item.Row? && Expands(width)
    ensures var half := Halved(limit);
            Admitted(item, limit, kind, width).Shape? && (exists i: nat :: CanBeCut(item, i, half, width)) <==>
            && Size(item, width) > limit
            && (exists i: nat :: FitsAtOne(item, i, half, width))
            && forall i: nat | FitsAtOne(item, i, half, width) :: Excess(item, i, half, width) > 0 && Overshoots(item, i, half, width)
  {
    ShapeIff(item, limit, kind, width);
    var half := Halved(limit);
    if Size(item, width) > limit {
      forall i: nat
        ensures CanBeCut(item, i, half, width) <==> FitsAtOne(item, i, half, width)
        ensures Missed(item, i, half, width) <==>
                FitsAtOne(item, i, half, width) && Excess(item, i, half, width) > 0 && Overshoots(item, i, half, width)
        ensures Shortens(item, i, half, width) ==> CanBeCut(item, i, half, width)
      {
        CanBeCutIff(item, i, half, width);
        MissedIff(item, i, half, width);
        if Shortens(item, i, half, width) { ShortenedCanBeCut(item, i, half, width); }
      }
      assert GivenUp(item, limit, width) <==> forall i: nat | FitsAtOne(item, i, half, width) :: Missed(item, i, half, width);
    }
  }

  /** Newlines take two characters each. */
  function NewlineWidth(c: char): nat {
    if c == '\n' then 2 else 1
  }

  lemma {:induction false} UniformWide(s: string, width: Width, w: nat)
    requires forall i | 0 <= i < |s| :: width(s[i]) == w
    ensures Wide(s, width) == w * |s|
  {
    if s == "" {
    } else {
      UniformWide(s[..|s| - 1], width, w);
    }
  }

  lemma {:induction false} PlainWidth(s: string)
    requires '\n' !in s
    ensures Wide(s, NewlineWidth) == |s|
  {
    assert forall i | 0 <= i < |s| :: s[i] in s;
    UniformWide(s, NewlineWidth, 1);
  }

  lemma {:induction false} DecimalIsOneLine(n: nat)
    ensures '\n' !in Decimal(n)
  {
    if n < 10 {
    } else {
      DecimalIsOneLine(n / 10);
    }
  }

  lemma MarkIsOneLine(n: nat)
    ensures '\n' !in Mark(n) && |Mark(n)| == 57 + |Decimal(n)|
  {
    DecimalIsOneLine(n);
  }

  /** A row with one text of a thousand newlines. */
  function Newlines(): (r: Entry)
    ensures HasText(r, 0) && |r.texts[0].value| == 1000
  {
    Row(1, 8, [Some(seq(1000, i => '\n'))])
  }

  /** Of a thousand newlines 460 would fit half of a limit of 2000, and the row is sent as its shape. */
  lemma NewlinesAreGivenUp(kind: string)
    ensures Size(Cut(Newlines(), 0, 460), NewlineWidth) <= Halved(2000)
    ensures Missed(Newlines(), 0, Halved(2000), NewlineWidth)
    ensures Admitted(Newlines(), 2000, kind, NewlineWidth) == Shape(kind, 2012)
  {
    var item, s := Newlines(), Newlines().texts[0].value;
    assert item.texts[..0] == [];
    assert Decimal(1000) == "1000" by { assert Decimal(100) == "100" by { assert Decimal(10) == "10"; } }
    UniformWide(s, NewlineWidth, 2);
    MarkIsOneLine(1000);
    PlainWidth(Mark(1000));
    UniformWide(s[..460], NewlineWidth, 2);
    assert Size(item, NewlineWidth) == 2012;
    SizeOfCut(item, 0, 460, NewlineWidth);
    var keep := FirstKeep(item, 0, 1000, NewlineWidth);
    UniformWide(s[..keep], NewlineWidth, 2);
    OvershootsIff(item, 0, 1000, NewlineWidth);
    assert !Shortens(item, 0, 1000, NewlineWidth);
    ShapeIff(item, 2000, kind, NewlineWidth);
    AdmittedFits(item, 2000, kind, NewlineWidth);
  }

  // ------------------------------------------------------------------------------------------
  // Which text is cut, and what the mark says
  // ------------------------------------------------------------------------------------------

  /** The first text, in the fixed order of the fields, that the loop can cut is cut. */
  lemma {:induction false} FirstIsCut(item: Entry, from: nat, limit: int, kind: string, width: Width, i: nat) returns (k: nat)
    requires item.Row? && Expands(width) && from <= i && Size(item, width) > limit
    requires Shortens(item, i, limit, width) && forall j | from <= j < i :: !Shortens(item, j, limit, width)
    ensures 0 < k < |item.texts[i].value| && FirstShaved(item, from, limit, kind, width) == Cut(item, i, k)
    ensures Size(Cut(item, i, k), width) <= limit
    decreases i - from
  {
    if from == i {
      ShavedIff(item, i, limit, width);
      k := ShavedFits(item, i, limit, width, FirstKeep(item, i, limit, width));
    } else {
      if HasText(item, from) { ShavedIff(item, from, limit, width); }
      k := FirstIsCut(item, from + 1, limit, kind, width, i);
    }
  }

  /** No text is longer. */
  predicate IsLongest(item: Entry, i: nat)
    requires item.Row?
  {
    HasText(item, i) && forall j | 0 <= j < |item.texts| && HasText(item, j) :: |item.texts[j].value| <= |item.texts[i].value|
  }

  /** So a longest text is cut exactly when the first that the loop can cut is one. */
  lemma LongestIsCutIff(item: Entry, limit: int, kind: string, width: Width, i: nat)
    requires item.Row? && Expands(width) && Size(item, width) > limit
    requires Shortens(item, i, limit, width) && forall j | 0 <= j < i :: !Shortens(item, j, limit, width)
    ensures var r := Shortened(item, limit, kind, width);
            && r.Row? && |r.texts| == |item.texts|
            && ((exists j :: 0 <= j < |item.texts| && IsLongest(item, j) && r.texts[j] != item.texts[j]) <==> IsLongest(item, i))
  {
    var k := FirstIsCut(item, 0, limit, kind, width, i);
    SizeOfCut(item, i, k, width);
    WideJoin(item.texts[i].value[..k], Mark(|item.texts[i].value|), width);
    assert Shortened(item, limit, kind, width).texts[i] != item.texts[i];
  }

  lemma SizeOfTwo(s: string, t: string, width: Width)
    ensures Size(Row(1, 0, [Some(s), Some(t)]), width) == 6 + Wide(s, width) + Wide(t, width)
  {
    var one: seq<Option<string>> := [Some(s)];
    var two := one + [Some(t)];
    assert two == [Some(s), Some(t)] && two[..1] == one && one[..0] == [];
    assert FieldSizes(one, width) == FieldSize(Some(s), width);
    assert FieldSizes(two, width) == FieldSizes(one, width) + FieldSize(Some(t), width);
  }

  lemma CutFirstOfTwo(s: string, t: string, limit: int, kind: string)
    requires |s| >= 2 && '\n' !in s && '\n' !in t && 6 + |s| + |t| > limit >= 7 + |Mark(|s|)| + |t|
    ensures var item := Row(1, 0, [Some(s), Some(t)]);
            var r := Shortened(item, limit, kind, NewlineWidth);
            r.Row? && |r.texts| == 2 && r.texts[0] != item.texts[0] && r.texts[1] == item.texts[1]
  {
    var item := Row(1, 0, [Some(s), Some(t)]);
    SizeOfTwo(s, t, NewlineWidth);
    MarkIsOneLine(|s|);
    PlainWidth(s);
    PlainWidth(t);
    PlainWidth(s[..1]);
    PlainWidth(Mark(|s|));
    SizeOfCut(item, 0, 1, NewlineWidth);
    CanBeCutIff(item, 0, limit, NewlineWidth);
    PlainTextIsNotMissed(item, 0, limit, NewlineWidth);
    var k := FirstIsCut(item, 0, limit, kind, NewlineWidth, 0);
    SizeOfCut(item, 0, k, NewlineWidth);
    WideJoin(s[..k], Mark(|s|), NewlineWidth);
  }

  /** Two hundred characters are cut, and the three hundred behind them are left. */
  lemma LongestIsLeft(kind: string)
    ensures var item := Row(1, 0, [Some(seq(200, i => 'a')), Some(seq(300, i => 'a'))]);
            var r := Shortened(item, 450, kind, NewlineWidth);
            r.Row? && |r.texts| == 2 && r.texts[0] != item.texts[0] && r.texts[1] == item.texts[1] && IsLongest(item, 1)
  {
    MarkIsOneLine(200);
    assert |Decimal(200)| == 3;
    CutFirstOfTwo(seq(200, i => 'a'), seq(300, i => 'a'), 450, kind);
  }

  lemma {:induction false} DecimalTells(a: nat, b: nat)
    requires Decimal(a) == Decimal(b)
    ensures a == b
  {
    var s, n := Decimal(a), |Decimal(a)|;
    assert s[n - 1] as int == '0' as int + a % 10 && s[n - 1] as int == '0' as int + b % 10;
    if a < 10 || b < 10 {
    } else {
      assert s[..n - 1] == Decimal(a / 10) && s[..n - 1] == Decimal(b / 10);
      DecimalTells(a / 10, b / 10);
    }
  }

  lemma MarkTells(a: nat, b: nat)
    requires Mark(a) == Mark(b)
    ensures a == b
  {
    MarkIsOneLine(a);
    MarkIsOneLine(b);
    assert Mark(a)[42..|Mark(a)| - 15] == Decimal(a) && Mark(b)[42..|Mark(b)| - 15] == Decimal(b);
    DecimalTells(a, b);
  }

  /** The mark prints the length of the whole text, k more than was left out of it, whenever a text
      is cut; the number that would be right is never the one that is printed. */
  lemma MarkOverstates(item: Entry, i: nat, limit: int, width: Width) returns (k: nat)
    requires item.Row? && Expands(width) && Size(item, width) > limit && Shortens(item, i, limit, width)
    ensures var s := item.texts[i].value;
            && 0 < k < |s|
            && Shaved(item, i, limit, width, FirstKeep(item, i, limit, width)) == Some(Cut(item, i, k))
            && Cut(item, i, k).texts[i] == Some(s[..k] + Mark(|s|)) && Mark(|s|) != Mark(|s| - k)
  {
    ShavedIff(item, i, limit, width);
    k := ShavedFits(item, i, limit, width, FirstKeep(item, i, limit, width));
    var s := item.texts[i].value;
    if Mark(|s|) == Mark(|s| - k) {
      MarkTells(|s|, |s| - k);
      assert false;
    }
  }

  // ------------------------------------------------------------------------------------------
  // Newest first
  // ------------------------------------------------------------------------------------------

  lemma {:induction false} TotalSnoc(a: seq<Entry>, b: seq<Entry>, width: Width)
    ensures Total(a + b, width) == Total(a, width) + Total(b, width)
  {
    if a == [] {
      assert a + b == b;
    } else {
      TotalSnoc(a[1..], b, width);
      assert (a + b)[1..] == a[1..] + b;
    }
  }

  /** What a row and a shape are charged: their braces, keys and quotes, and what is between. */
  lemma Charges(id: int, rest: nat, s: string, kind: string, omitted: nat, width: Width)
    ensures Size(Row(id, rest, [Some(s), None]), width) == rest + Wide(s, width) + 4
    ensures Size(Shape(kind, omitted), width) == |kind| + |Decimal(omitted)| + 43
  {
    var texts: seq<Option<string>> := [Some(s), None];
    assert texts[..1] == [texts[0]] && texts[..1][..0] == [];
    assert FieldSizes(texts[..1], width) == FieldSize(texts[0], width);
  }

  /** Exactly the rows within the limit come out as they are. */
  lemma FittingRowIsLeft(item: Entry, limit: int, kind: string, width: Width)
    requires item.Row? && Expands(width)
    ensures Shortened(item, limit, kind, width) == item <==> Size(item, width) <= limit
  {
    if Size(item, width) > limit {
      var i, k := ShortenedIsHonest(item, 0, limit, kind, width);
    }
  }

  /** A newest row over the budget is shortened to half of it, rounded down, but to no less than 1. */
  lemma NewestIsHalved(item: Entry, limit: int, half: int, kind: string, width: Width)
    requires item.Row? && Size(item, width) > limit
    requires if limit < 2 then half == 1 else 2 * half <= limit <= 2 * half + 1
    ensures Admitted(item, limit, kind, width) == Shortened(item, half, kind, width)
  {
    assert limit >= 2 ==> limit / 2 == half;
  }

  /** An admitted row fits, unless it became a shape; a shortened one leaves half of the budget to
      the older rows. */
  lemma AdmittedFits(item: Entry, limit: int, kind: string, width: Width)
    requires item.Row? && Expands(width)
    ensures Admitted(item, limit, kind, width) == item <==> Size(item, width) <= limit
    ensures Admitted(item, limit, kind, width).Row? ==> Size(Admitted(item, limit, kind, width), width) <= limit
    ensures Admitted(item, limit, kind, width).Row? && Size(item, width) > limit ==>
      2 * Size(Admitted(item, limit, kind, width), width) <= limit
    ensures Admitted(item, limit, kind, width).Shape? ==>
      Size(item, width) > limit && Admitted(item, limit, kind, width) == Shape(kind, Size(item, width))
  {
    if Size(item, width) > limit && Size(item, width) > Halved(limit) {
      var i, k := ShortenedIsHonest(item, 0, Halved(limit), kind, width);
      var r := Admitted(item, limit, kind, width);
      if r.Row? {
        SizeOfCut(item, i, k, width);
        WideAtLeast(item.texts[i].value, width);
        WideAtLeast(Mark(|item.texts[i].value|), width);
        TextWithin(item.texts, i, width);
      }
    }
  }

  lemma {:induction false} TextWithin(texts: seq<Option<string>>, i: nat, width: Width)
    requires i < |texts|
    ensures FieldSizes(texts, width) >= FieldSize(texts[i], width)
  {
    if i >= |texts| - 1 {
    } else {
      TextWithin(texts[..|texts| - 1], i, width);
    }
  }

  /** The rows kept stay within the budget exactly when the newest of them is not given up for
      a shape that is itself too large. */
  lemma BudgetIsKeptIff(items: seq<Entry>, m: nat, limit: int, kind: string, width: Width)
    requires m < |items| && items[|items| - 1].Row? && Expands(width) && Newest(items, m, limit, kind, width)
    ensures var newest := items[|items| - 1];
            Total(From(items, m, limit, kind, width), width) <= limit
            <==> !(GivenUp(newest, limit, width) && Size(Shape(kind, Size(newest, width)), width) > limit)
  {
    var newest := items[|items| - 1];
    var admitted := Admitted(newest, limit, kind, width);
    AdmittedFits(newest, limit, kind, width);
    ShapeIff(newest, limit, kind, width);
    TotalSnoc(items[m..|items| - 1], [admitted], width);
  }

  /** `{'kind':'..._truncated','omitted_items':n}` */
  function NoteSize(kind: string, omitted: nat): nat {
    |"{'kind':'"| + |kind| + |"_truncated','omitted_items':"| + |Decimal(omitted)| + |"}"|
  }

  /** The list as it is sent, the note in front included. */
  function SentSize(items: seq<Entry>, m: nat, limit: int, kind: string, width: Width): nat
    requires m < |items| && items[|items| - 1].Row?
  {
    Total(From(items, m, limit, kind, width), width) + if m == 0 then 0 else NoteSize(kind, m)
  }

  /** The note is not charged to the budget: the list sent is over it by no more than the note,
      and is over it whenever the rows kept leave the note no room. In particular a newest row that
      fills the budget is sent over it as soon as there is an older one. */
  lemma NoteIsNotCharged(items: seq<Entry>, m: nat, limit: int, kind: string, width: Width)
    requires m < |items| && items[|items| - 1].Row? && Expands(width) && Newest(items, m, limit, kind, width)
    requires !GivenUp(items[|items| - 1], limit, width)
    ensures SentSize(items, m, limit, kind, width) <= limit + if m == 0 then 0 else NoteSize(kind, m)
    ensures Size(items[|items| - 1], width) == limit && |items| > 1 ==>
              m == |items| - 1 && SentSize(items, m, limit, kind, width) == limit + NoteSize(kind, m)
  {
    var n := |items|;
    BudgetIsKeptIff(items, m, limit, kind, width);
    if Size(items[n - 1], width) == limit && n > 1 {
      assert From(items, n - 1, limit, kind, width) == [items[n - 1]];
      if m < n - 1 { FewerIsSmaller(items, m, n - 1, limit, kind, width); }
    }
  }

  /** Being the newest that fit settles how many rows are kept. */
  lemma NewestIsUnique(items: seq<Entry>, m: nat, n: nat, limit: int, kind: string, width: Width)
    requires m < |items| && n < |items| && items[|items| - 1].Row?
    requires Newest(items, m, limit, kind, width) && Newest(items, n, limit, kind, width)
    ensures m == n
  {
    if m < n {
      FewerIsSmaller(items, m, n, limit, kind, width);
    } else if n < m {
      FewerIsSmaller(items, n, m, limit, kind, width);
    }
  }

  lemma FewerIsSmaller(items: seq<Entry>, m: nat, n: nat, limit: int, kind: string, width: Width)
    requires m < n < |items| && items[|items| - 1].Row?
    ensures Total(From(items, n, limit, kind, width), width) + Size(items[n - 1], width)
         <= Total(From(items, m, limit, kind, width), width)
  {
    var kept := From(items, n, limit, kind, width);
    var between := items[m..n - 1] + [items[n - 1]];
    assert From(items, m, limit, kind, width) == between + kept;
    TotalSnoc(between, kept, width);
    TotalSnoc(items[m..n - 1], [items[n - 1]], width);
  }

  // ------------------------------------------------------------------------------------------
  // The episode's digest
  // ------------------------------------------------------------------------------------------

  /** Whether the digest keeps row i. */
  predicate Keeps(rows: seq<Entry>, i: nat, limit: int, width: Width)
    requires i < |rows|
  {
    |Digested(rows[i..], limit, width)| > |Digested(rows[i + 1..], limit, width)|
  }

  lemma {:induction false} DigestGrows(rows: seq<Entry>, i: nat, limit: int, width: Width)
    requires i <= |rows|
    ensures Total(Digested(rows[i..], limit, width), width) <= Total(Digested(rows, limit, width), width)
    ensures i < |rows| ==> Digested(rows[i..], limit, width) != []
    decreases |rows|
  {
    if i == 0 {
      assert rows[0..] == rows;
    } else {
      DigestGrows(rows[1..], i - 1, limit, width);
      assert rows[1..][i - 1..] == rows[i..];
    }
  }

  /** No row the digest left out would still fit beside those it kept. */
  lemma NothingLeftOutFits(rows: seq<Entry>, i: nat, limit: int, width: Width)
    requires i < |rows| && !Keeps(rows, i, limit, width)
    ensures Total(Digested(rows, limit, width), width) + Size(rows[i], width) > limit
  {
    assert rows[i..][1..] == rows[i + 1..] && rows[i..][0] == rows[i];
    DigestGrows(rows, i + 1, limit, width);
  }

  /** The rows of the digest are within its budget exactly when its newest row is. */
  lemma {:induction false} DigestFitsIff(rows: seq<Entry>, limit: int, width: Width)
    requires rows != []
    ensures Total(Digested(rows, limit, width), width) <= limit <==> Size(rows[|rows| - 1], width) <= limit
  {
    if |rows| == 1 {
      assert rows[1..] == [];
    } else {
      DigestFitsIff(rows[1..], limit, width);
      DigestGrows(rows, 1, limit, width);
    }
  }

  /** `{'kind':'digest_truncated','omitted_events':n}` */
  function DigestNoteSize(omitted: nat): nat {
    |"{'kind':'digest_truncated','omitted_events':"| + |Decimal(omitted)| + |"}"|
  }

  /** `{'kind':'history_digest_truncated','omitted_rows':n}` */
  function HistoryNoteSize(omitted: nat): nat {
    |"{'kind':'history_digest_truncated','omitted_rows':"| + |Decimal(omitted)| + |"}"|
  }

  function DigestSent(rows: seq<Entry>, limit: int, width: Width): nat {
    var kept := Digested(rows, limit, width);
    Total(kept, width) + if |kept| == |rows| then 0 else DigestNoteSize(|rows| - |kept|)
  }

  /** The note in front is not charged to the digest either: with it the digest is over its limit by
      no more than the note, and a newest row that fills the budget is sent over it by all of the note
      as soon as there is an older one. */
  lemma {:induction false} DigestNoteIsNotCharged(rows: seq<Entry>, limit: int, width: Width)
    requires rows != [] && Size(rows[|rows| - 1], width) <= limit
    ensures var omitted := |rows| - |Digested(rows, limit, width)|;
            DigestSent(rows, limit, width) <= limit + if omitted == 0 then 0 else DigestNoteSize(omitted)
    ensures Size(rows[|rows| - 1], width) == limit && |rows| > 1 ==>
              DigestSent(rows, limit, width) == limit + DigestNoteSize(|rows| - 1)
  {
    DigestFitsIff(rows, limit, width);
    if Size(rows[|rows| - 1], width) == limit && |rows| > 1 { FullDigest(rows, limit, width); }
  }

  /** A newest row that fills the budget is all that is kept. */
  lemma {:induction false} FullDigest(rows: seq<Entry>, limit: int, width: Width)
    requires rows != [] && Size(rows[|rows| - 1], width) == limit
    ensures Digested(rows, limit, width) == [rows[|rows| - 1]]
  {
    if |rows| == 1 {
      assert rows[1..] == [];
    } else {
      FullDigest(rows[1..], limit, width);
    }
  }

  /** The same of the transcript's digest, for what its contract says of the rows kept. */
  lemma HistoryNoteIsNotCharged(rows: seq<Entry>, m: nat, limit: int, width: Width)
    requires m < |rows| && Size(rows[|rows| - 1], width) <= limit
    requires m < |rows| - 1 ==> Total(rows[m..], width) <= limit
    requires m > 0 ==> Total(rows[m - 1..], width) > limit
    ensures Total(rows[m..], width) + HistoryNoteSize(m) <= limit + HistoryNoteSize(m)
    ensures Size(rows[|rows| - 1], width) == limit ==>
              m == |rows| - 1 && Total(rows[m..], width) + HistoryNoteSize(m) == limit + HistoryNoteSize(|rows| - 1)
  {
    var n := |rows|;
    assert rows[n - 1..] == [rows[n - 1]];
    if m < n - 1 {
      assert rows[m..] == [rows[m]] + rows[m + 1..];
      assert rows[m + 1..] == rows[m + 1..n - 1] + [rows[n - 1]];
      TotalSnoc(rows[m + 1..n - 1], [rows[n - 1]], width);
    }
  }

  lemma {:induction false} AllFit(rows: seq<Entry>, limit: int, width: Width)
    requires |rows| <= 1 || Total(rows, width) <= limit
    ensures Digested(rows, limit, width) == rows
  {
    if |rows| > 1 {
      AllFit(rows[1..], limit, width);
    } else if |rows| == 1 {
      assert rows[1..] == [];
    }
  }

  lemma {:induction false} NoneOlder(rows: seq<Entry>, i: nat, m: nat, limit: int, width: Width)
    requires i <= m < |rows| - 1 && Digested(rows[m + 1..], limit, width) == rows[m + 1..]
    requires Total(rows[m..], width) > limit
    requires forall k | i <= k < m :: Total(rows[m + 1..], width) + Size(rows[k], width) > limit
    ensures Digested(rows[i..], limit, width) == rows[m + 1..]
    decreases m - i
  {
    assert rows[i..][1..] == rows[i + 1..] && rows[i..][0] == rows[i];
    if i >= m {
    } else {
      NoneOlder(rows, i + 1, m, limit, width);
    }
  }

  /** The digest does not stop at the first row that does not fit. With m the newest row that does
      not, an older row is kept over it exactly when some older row is small enough to fit beside
      everything newer than m. */
  lemma DigestSkipsIff(rows: seq<Entry>, m: nat, limit: int, width: Width)
    requires m < |rows| - 1 && Total(rows[m..], width) > limit
    requires m + 1 == |rows| - 1 || Total(rows[m + 1..], width) <= limit
    ensures !Keeps(rows, m, limit, width)
    ensures (exists i :: 0 <= i < m && Keeps(rows, i, limit, width))
       <==> (exists k :: 0 <= k < m && Total(rows[m + 1..], width) + Size(rows[k], width) <= limit)
  {
    AllFit(rows[m + 1..], limit, width);
    NoneOlder(rows, m, m, limit, width);
    if forall k | 0 <= k < m :: Total(rows[m + 1..], width) + Size(rows[k], width) > limit {
      forall i | 0 <= i < m ensures !Keeps(rows, i, limit, width) {
        NoneOlder(rows, i, m, limit, width);
        NoneOlder(rows, i + 1, m, limit, width);
      }
    } else {
      var k :| 0 <= k < m && Total(rows[m + 1..], width) + Size(rows[k], width) <= limit;
      OneFits(rows, k, m, limit, width);
    }
  }

  lemma OneFits(rows: seq<Entry>, k: nat, m: nat, limit: int, width: Width)
    requires k < m < |rows| - 1 && Digested(rows[m..], limit, width) == rows[m + 1..]
    requires Total(rows[m + 1..], width) + Size(rows[k], width) <= limit
    ensures exists i :: 0 <= i < m && Keeps(rows, i, limit, width)
  {
    if forall i | 0 <= i < m :: !Keeps(rows, i, limit, width) {
      NoneKept(rows, k + 1, m, limit, width);
      assert rows[k..][1..] == rows[k + 1..] && rows[k..][0] == rows[k];
      assert Keeps(rows, k, limit, width);
    }
  }

  lemma {:induction false} NoneKept(rows: seq<Entry>, i: nat, m: nat, limit: int, width: Width)
    requires i <= m < |rows| - 1 && Digested(rows[m..], limit, width) == rows[m + 1..]
    requires forall k | i <= k < m :: !Keeps(rows, k, limit, width)
    ensures Digested(rows[i..], limit, width) == rows[m + 1..]
    decreases m - i
  {
    if i >= m {
    } else {
      NoneKept(rows, i + 1, m, limit, width);
      assert !Keeps(rows, i, limit, width);
      assert rows[i..][1..] == rows[i + 1..];
    }
  }
}
