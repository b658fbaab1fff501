/** Both trims read off the text: what they return, when that is below a floor, over the limit or
    longer than the text, and so when a value clamped by the shipped trim validates. */
module TrimProofs {
  import opened Options
  import opened Contracts
  import opened ContractsProofs

  // ------------------------------------------------------------------------------------------
  // What a trim returns
  // ------------------------------------------------------------------------------------------

  /** The last place from `keep` on that satisfies p. */
  ghost predicate IsLast(s: string, keep: nat, p: char -> bool, i: nat) {
    keep <= i < |s| && p(s[i]) && forall j | i < j < |s| :: !p(s[j])
  }

  ghost predicate NoneFrom(s: string, keep: nat, p: char -> bool) {
    forall j | keep <= j < |s| :: !p(s[j])
  }

  /** The first m characters of s, and after them only space up to place n. */
  ghost predicate EndsAt(s: string, m: nat, n: nat)
    requires m <= n <= |s|
  {
    (m > 0 ==> !IsSpace(s[m - 1])) && forall j | m <= j < n :: IsSpace(s[j])
  }

  /** A text over its limit, of which `window` is looked at, comes out as w: behind the last sentence
      end of the kept half, or else before the space that ends with the last one of the kept half,
      with the mark; or else cut at the limit without one. */
  ghost predicate Trims(text: string, limit: nat, window: string, w: string)
    requires limit < |text|
  {
    var keep := MinKeep(limit);
    || (exists e: nat :: IsLast(window, keep, IsSentenceEnd, e) && w == window[..e + 1] + TRUNCATION_MARK)
    || (NoneFrom(window, keep, IsSentenceEnd)
        && exists p: nat, m: nat ::
             IsLast(window, keep, IsSpace, p) && m <= p && EndsAt(window, m, p) && w == window[..m] + TRUNCATION_MARK)
    || (NoneFrom(window, keep, IsSentenceEnd) && NoneFrom(window, keep, IsSpace) && w == text[..limit])
  }

  lemma {:induction false} StripRightEnds(s: string)
    ensures StripRight(s) <= s && EndsAt(s, |StripRight(s)|, |s|)
  {
    if s == [] || !IsSpace(s[|s| - 1]) {
    } else {
      StripRightEnds(s[..|s| - 1]);
    }
  }

  lemma LastIsLast(s: string, keep: nat, p: char -> bool)
    ensures LastPlace(s, keep, p).Some? ==> IsLast(s, keep, p, LastPlace(s, keep, p).value)
    ensures forall i: nat :: IsLast(s, keep, p, i) <==> LastPlace(s, keep, p) == Some(i)
    ensures LastPlace(s, keep, p).None? <==> NoneFrom(s, keep, p)
  {
  }

  /** What is left of the window before the space at p. */
  lemma StrippedBefore(window: string, p: nat)
    requires p <= |window|
    ensures var m := |StripRight(window[..p])|;
            && m <= p && StripRight(window[..p]) == window[..m]
            && forall k: nat | k <= p :: EndsAt(window, k, p) <==> k == m
  {
    var m := |StripRight(window[..p])|;
    StripRightEnds(window[..p]);
    assert EndsAt(window, m, p);
  }

  lemma WithinTrims(text: string, limit: nat, room: nat, w: string)
    requires limit < |text| && room <= limit
    ensures w == TrimWithin(text, limit, room) <==> Trims(text, limit, text[..room], w)
  {
    var window, keep := text[..room], MinKeep(limit);
    LastIsLast(window, keep, IsSentenceEnd);
    LastIsLast(window, keep, IsSpace);
    var space := LastPlace(window, keep, IsSpace);
    if space.Some? { StrippedBefore(window, space.value); }
  }

  /** The shipped trim, as a relation between the text and what it becomes. */
  lemma TrimIs(text: string, limit: nat, w: string)
    requires limit < |text|
    ensures w == Trim(text, limit) <==> Trims(text, limit, text[..limit], w)
  {
    WithinTrims(text, limit, limit, w);
  }

  // ------------------------------------------------------------------------------------------
  // Below a floor
  // ------------------------------------------------------------------------------------------

  /** The boundary that decides lies too near the front for `least` characters, the mark counted:
      the kept half has sentence ends and all of them are; or it has none, and before its last space
      there is nothing but space from the last place that would do; or it has neither, and the limit
      itself is too low. */
  ghost predicate Undercuts(window: string, limit: nat, least: nat) {
    var keep := MinKeep(limit);
    || (!NoneFrom(window, keep, IsSentenceEnd) && forall e | keep <= e < |window| && IsSentenceEnd(window[e]) :: e + 3 < least)
    || (NoneFrom(window, keep, IsSentenceEnd) && least > 2
        && exists p: nat :: IsLast(window, keep, IsSpace, p) && forall j: nat | least - 3 <= j < p :: IsSpace(window[j]))
    || (NoneFrom(window, keep, IsSentenceEnd) && NoneFrom(window, keep, IsSpace) && limit < least)
  }

  lemma StripUndercutsIff(window: string, p: nat, least: nat)
    requires p <= |window|
    ensures |StripRight(window[..p])| + 2 < least <==> least > 2 && forall j: nat | least - 3 <= j < p :: IsSpace(window[j])
  {
    StrippedBefore(window, p);
    var m := |StripRight(window[..p])|;
    assert EndsAt(window, m, p);
    if m > 0 && least > 2 && m > least - 3 { assert !IsSpace(window[m - 1]); }
  }

  lemma WithinUndercutsIff(text: string, limit: nat, room: nat, least: nat)
    requires limit < |text| && room <= limit
    ensures |TrimWithin(text, limit, room)| < least <==> Undercuts(text[..room], limit, least)
  {
    var window, keep := text[..room], MinKeep(limit);
    LastIsLast(window, keep, IsSentenceEnd);
    LastIsLast(window, keep, IsSpace);
    var space := LastPlace(window, keep, IsSpace);
    if space.Some? { StripUndercutsIff(window, space.value, least); }
  }

  /** The lower twin of `TrimOverrunsIff`: exactly when the shipped trim leaves too little. */
  lemma TrimUndercutsIff(text: string, limit: nat, least: nat)
    requires limit < |text|
    ensures |Trim(text, limit)| < least <==> Undercuts(text[..limit], limit, least)
  {
    WithinUndercutsIff(text, limit, limit, least);
  }

  /** What the documented trim looks at: room for the mark is kept back. */
  function Roomy(text: string, limit: nat): string
    requires limit < |text|
  {
    text[..if limit >= |TRUNCATION_MARK| then limit - |TRUNCATION_MARK| else 0]
  }

  lemma IntendedTrimUndercutsIff(text: string, limit: nat, least: nat)
    requires limit < |text|
    ensures |IntendedTrim(text, limit)| < least <==> Undercuts(Roomy(text, limit), limit, least)
  {
    WithinUndercutsIff(text, limit, if limit >= |TRUNCATION_MARK| then limit - |TRUNCATION_MARK| else 0, least);
  }

  // ------------------------------------------------------------------------------------------
  // Longer than the text
  // ------------------------------------------------------------------------------------------

  /** The shipped trim is also said never to lengthen a text. It does exactly when one character is
      too much and the last that is kept ends a sentence. */
  lemma TrimGrowsIff(text: string, limit: nat)
    ensures |Trim(text, limit)| > |text| <==>
            |text| == limit + 1 && MinKeep(limit) < limit && IsSentenceEnd(text[limit - 1])
  {
    if |text| > limit {
      var cut, keep := text[..limit], MinKeep(limit);
      var end, space := LastPlace(cut, keep, IsSentenceEnd), LastPlace(cut, keep, IsSpace);
      if end.None? && space.Some? { StripRightKeepsPrefix(cut[..space.value]); }
    }
  }

  /** A witness: five characters become six. */
  lemma TrimGrowsWitness()
    ensures |Trim("abc.x", 4)| > |"abc.x"|
  {
    TrimGrowsIff("abc.x", 4);
  }

  lemma IntendedTrimNeverGrows(text: string, limit: nat)
    ensures |IntendedTrim(text, limit)| <= |text|
  {
    IntendedTrimHonoursLimit();
  }

  // ------------------------------------------------------------------------------------------
  // Clamping with the shipped trim
  // ------------------------------------------------------------------------------------------

  /** A report whose one string is only too long is spoiled by the shipped trim exactly when the
      boundary found leaves no room for the mark, or leaves too little. */
  lemma TextSpoiledByTrimIff(name: string, text: string, least: nat, limit: nat)
    ensures Spoils(name, Str(text), TextSchema(least, Some(limit)), Trim) <==>
            && least <= |text| && limit < |text|
            && (NoRoomForMark(text[..limit]) || Undercuts(text[..limit], limit, least))
  {
    TextSpoiledIff(name, text, least, limit, Trim);
    if limit < |text| {
      TrimOverrunsIff(text, limit);
      TrimUndercutsIff(text, limit, least);
    }
  }

  /** By the documented trim it is spoiled exactly when that leaves too little. */
  lemma TextSpoiledByIntendedTrimIff(name: string, text: string, least: nat, limit: nat)
    ensures Spoils(name, Str(text), TextSchema(least, Some(limit)), IntendedTrim) <==>
            least <= |text| && limit < |text| && Undercuts(Roomy(text, limit), limit, least)
  {
    TextSpoiledIff(name, text, least, limit, IntendedTrim);
    IntendedTrimHonoursLimit();
    if limit < |text| { IntendedTrimUndercutsIff(text, limit, least); }
  }

  /** A string that the shipped clamp leaves as its schema asks. */
  ghost predicate TextHolds(text: string, s: Schema) {
    if s.maxLength.Some? && |text| > s.maxLength.value then
      var limit := s.maxLength.value;
      && !NoRoomForMark(text[..limit])
      && !Undercuts(text[..limit], limit, s.minLength)
      && (s.enum.Some? ==> exists w :: w in s.enum.value && Trims(text, limit, text[..limit], w))
    else
      s.minLength <= |text| && (s.enum.Some? ==> text in s.enum.value)
  }

  /** The same of a value: an array that is cut answers for its first items alone. */
  ghost predicate Holds(v: Value, s: Schema, cutting: bool)
    decreases v
  {
    && KindOk(v, s)
    && (s.enum.Some? ==> v.Str?)
    && match v
       case Str(text) => TextHolds(text, s)
       case Arr(items) =>
         var isCut := cutting && TooMany(v, s);
         var kept := if isCut then s.maxItems.value else |items|;
         s.minItems <= kept && (s.items.Some? ==> forall i | 0 <= i < kept :: Holds(items[i], s.items.value, cutting && !isCut))
       case Obj(fields) =>
         && s.required <= fields.Keys
         && (s.closed ==> fields.Keys <= s.properties.Keys)
         && forall k | k in fields && k in s.properties :: Holds(fields[k], s.properties[k], cutting)
       case _ => true
  }

  lemma TextHoldsIff(text: string, s: Schema)
    ensures TextHolds(text, s) <==>
            && s.minLength <= |Shortened(text, s, Trim)|
            && (s.maxLength.Some? ==> |Shortened(text, s, Trim)| <= s.maxLength.value)
            && (s.enum.Some? ==> Shortened(text, s, Trim) in s.enum.value)
  {
    if s.maxLength.Some? && |text| > s.maxLength.value {
      var limit := s.maxLength.value;
      TrimOverrunsIff(text, limit);
      TrimUndercutsIff(text, limit, s.minLength);
      TrimIs(text, limit, Trim(text, limit));
      if s.enum.Some? {
        forall w | w in s.enum.value ensures w == Trim(text, limit) <==> Trims(text, limit, text[..limit], w) {
          TrimIs(text, limit, w);
        }
      }
    }
  }

  /** The trims that the walk keeps below v fit. */
  ghost predicate Fit(v: Value, s: Schema, cutting: bool) {
    if cutting then KeptTrimFits(v, s, Trim, 0) else TrimFits(v, s, Trim, 0)
  }

  lemma FitUnfolds(v: Value, s: Schema, cutting: bool)
    ensures match v
            case Str(text) => Fit(v, s, cutting) <==> (s.maxLength.Some? ==> |Shortened(text, s, Trim)| <= s.maxLength.value)
            case Obj(fields) =>
              Fit(v, s, cutting) <==> forall k | k in fields && k in s.properties :: Fit(fields[k], s.properties[k], cutting)
            case Arr(items) =>
              var isCut := cutting && TooMany(v, s);
              var kept := if isCut then s.maxItems.value else |items|;
              Fit(v, s, cutting) <==> (s.items.Some? ==> forall i | 0 <= i < kept :: Fit(items[i], s.items.value, cutting && !isCut))
            case _ => Fit(v, s, cutting)
  {
    if !TooLong(v, s) {
      if !cutting {
        assert TrimFits(v, s, Trim, 0) <==> TrimsFit(v, s, Trim, 0);
      } else if !TooMany(v, s) {
        assert KeptTrimFits(v, s, Trim, 0) <==> KeptTrimsFit(v, s, Trim, 0);
      }
    }
  }

  lemma {:induction false} HoldsIff(v: Value, s: Schema, cutting: bool)
    ensures Holds(v, s, cutting) <==> Sound(v, s, Trim, cutting) && Fit(v, s, cutting)
    decreases v
  {
    FitUnfolds(v, s, cutting);
    match v {
      case Str(text) =>
        TextHoldsIff(text, s);
      case Obj(fields) =>
        forall k | k in fields && k in s.properties
          ensures Holds(fields[k], s.properties[k], cutting)
             <==> Sound(fields[k], s.properties[k], Trim, cutting) && Fit(fields[k], s.properties[k], cutting)
        {
          HoldsIff(fields[k], s.properties[k], cutting);
        }
      case Arr(items) =>
        var deeper := cutting && !TooMany(v, s);
        if s.items.Some? {
          forall i | 0 <= i < |items|
            ensures Holds(items[i], s.items.value, deeper)
               <==> Sound(items[i], s.items.value, Trim, deeper) && Fit(items[i], s.items.value, deeper)
          {
            HoldsIff(items[i], s.items.value, deeper);
          }
        }
      case _ =>
    }
  }

  /** When a value clamped by the shipped trim validates, read off the value and the schema alone:
      it is within its own ceilings, every string kept leaves room for the mark and enough before
      it, what is kept meets every other rule, and no array that is cut holds another too long. */
  lemma ShippedClampVerdict(v: Value, s: Schema)
    ensures Valid(ClampToSchema(v, s, Trim), s) <==> !TooLong(v, s) && !TooMany(v, s) && Holds(v, s, true) && CutsReach(v, s)
  {
    ClampVerdict(v, s, Trim);
    HoldsIff(v, s, true);
  }
}
