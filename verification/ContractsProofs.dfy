/** What the repairs of `Contracts` promise: dropping makes exactly the extra keys harmless, and
    clamping makes exactly the overruns that trimming can fix. */
module ContractsProofs {
  import opened Options
  import opened Contracts

  // ------------------------------------------------------------------------------------------
  // Dropping
  // ------------------------------------------------------------------------------------------

  /** Every required key is declared, throughout the schema. */
  ghost predicate RequiresDeclared(s: Schema) {
    && s.required <= s.properties.Keys
    && (s.items.Some? ==> RequiresDeclared(s.items.value))
    && forall k | k in s.properties :: RequiresDeclared(s.properties[k])
  }

  /** The same schema with undeclared keys ignored everywhere. */
  function Open(s: Schema): Schema {
    s.(closed := false,
       items := if s.items.None? then None else Some(Open(s.items.value)),
       properties := map k | k in s.properties :: Open(s.properties[k]))
  }

  /** After dropping, a value validates exactly when it satisfied the schema with undeclared keys
      ignored. */
  lemma {:induction false} DropThenValid(v: Value, s: Schema)
    requires RequiresDeclared(s)
    ensures Valid(Drop(v, s), s) <==> Valid(v, Open(s))
    decreases v
  {
    match v {
      case Obj(fields) =>
        forall k | k in fields && k in s.properties
          ensures Valid(Drop(fields[k], s.properties[k]), s.properties[k]) <==> Valid(fields[k], Open(s).properties[k])
        {
          DropThenValid(fields[k], s.properties[k]);
        }
        var kept := Drop(v, s).fields;
        assert s.required <= kept.Keys <==> s.required <= fields.Keys;
      case Arr(items) =>
        if s.items.Some? {
          forall i | 0 <= i < |items|
            ensures Valid(Drop(items[i], s.items.value), s.items.value) <==> Valid(items[i], Open(s).items.value)
          {
            DropThenValid(items[i], s.items.value);
          }
          var kept := Drop(v, s).items;
          assert forall i | 0 <= i < |items| :: kept[i] == Drop(items[i], s.items.value);
          assert Open(s).items == Some(Open(s.items.value));
        }
      case _ =>
    }
  }

  lemma {:induction false} DropTwice(v: Value, s: Schema)
    ensures Drop(Drop(v, s), s) == Drop(v, s)
    decreases v
  {
    match v {
      case Obj(fields) =>
        forall k | k in fields && k in s.properties
          ensures Drop(Drop(fields[k], s.properties[k]), s.properties[k]) == Drop(fields[k], s.properties[k])
        {
          DropTwice(fields[k], s.properties[k]);
        }
      case Arr(items) =>
        if s.items.Some? {
          forall i | 0 <= i < |items|
            ensures Drop(Drop(items[i], s.items.value), s.items.value) == Drop(items[i], s.items.value)
          {
            DropTwice(items[i], s.items.value);
          }
        }
      case _ =>
    }
  }

  /** No path is reported exactly when nothing was changed. */
  lemma {:induction false} DropReportsItsChanges(v: Value, s: Schema)
    ensures DroppedPaths(v, s) == {} <==> Drop(v, s) == v
    decreases v
  {
    match v {
      case Obj(fields) =>
        var kept := Drop(v, s).fields;
        forall k | k in fields && k in s.properties
          ensures DroppedPaths(fields[k], s.properties[k]) == {} <==> kept[k] == fields[k]
        {
          DropReportsItsChanges(fields[k], s.properties[k]);
        }
        FieldPathsEmptyIff(fields, s);
        if forall k | k in fields :: k in kept && kept[k] == fields[k] {
          assert kept == fields;
        }
      case Arr(items) =>
        if s.items.Some? {
          forall i | 0 <= i < |items|
            ensures DroppedPaths(items[i], s.items.value) == {} <==> Drop(items[i], s.items.value) == items[i]
          {
            DropReportsItsChanges(items[i], s.items.value);
          }
          ItemPathsEmptyIff(items, s.items.value);
          var kept := Drop(v, s).items;
          if forall i | 0 <= i < |items| :: kept[i] == items[i] {
            assert kept == items;
          }
        }
      case _ =>
    }
  }

  lemma FieldPathsEmptyIff(fields: map<string, Value>, s: Schema)
    ensures DroppedPaths(Obj(fields), s) == {} <==>
            forall k | k in fields ::
              (k in s.properties ==> DroppedPaths(fields[k], s.properties[k]) == {}) && (s.closed ==> k in s.properties)
  {
    var paths := DroppedPaths(Obj(fields), s);
    forall k | k in fields
      ensures paths == {} ==> (k in s.properties ==> DroppedPaths(fields[k], s.properties[k]) == {}) && (s.closed ==> k in s.properties)
    {
      if k in s.properties {
        if p :| p in DroppedPaths(fields[k], s.properties[k]) {
          assert [Key(k)] + p in paths;
        }
      } else if s.closed {
        assert [Key(k)] in paths;
      }
    }
  }

  lemma ItemPathsEmptyIff(items: seq<Value>, s: Schema)
    ensures (set i, p | 0 <= i < |items| && p in DroppedPaths(items[i], s) :: [Index(i)] + p) == {}
            <==> forall i | 0 <= i < |items| :: DroppedPaths(items[i], s) == {}
  {
    var paths := set i, p | 0 <= i < |items| && p in DroppedPaths(items[i], s) :: [Index(i)] + p;
    forall i | 0 <= i < |items| ensures paths == {} ==> DroppedPaths(items[i], s) == {} {
      if p :| p in DroppedPaths(items[i], s) {
        assert [Index(i)] + p in paths;
      }
    }
  }

  /** A valid value is left alone. */
  lemma {:induction false} DropKeepsValid(v: Value, s: Schema)
    requires Valid(v, s)
    ensures Drop(v, s) == v
    decreases v
  {
    match v {
      case Obj(fields) =>
        forall k | k in fields && k in s.properties ensures Drop(fields[k], s.properties[k]) == fields[k] {
          DropKeepsValid(fields[k], s.properties[k]);
        }
        assert Drop(v, s).fields == fields;
      case Arr(items) =>
        if s.items.Some? {
          forall i | 0 <= i < |items| ensures Drop(items[i], s.items.value) == items[i] {
            DropKeepsValid(items[i], s.items.value);
          }
          assert Drop(v, s).items == items;
        }
      case _ =>
    }
  }

  // ------------------------------------------------------------------------------------------
  // Trimming
  // ------------------------------------------------------------------------------------------

  lemma {:induction false} StripRightKeepsPrefix(s: string)
    ensures StripRight(s) <= s
    ensures s != [] && !IsSpace(s[|s| - 1]) ==> StripRight(s) == s
    ensures s != [] && IsSpace(s[|s| - 1]) ==> |StripRight(s)| < |s|
  {
    if s == [] || !IsSpace(s[|s| - 1]) {
    } else {
      StripRightKeepsPrefix(s[..|s| - 1]);
    }
  }

  /** A trimmer that does what `trim_to_limit` is documented to do. */
  ghost predicate Honours(trim: Trimmer, slack: nat) {
    forall text: string, limit: nat | |text| > limit :: |trim(text, limit)| <= limit + slack
  }

  lemma IntendedTrimHonoursLimit()
    ensures Honours(IntendedTrim, 0)
  {
    forall text: string, limit: nat | |text| > limit ensures |IntendedTrim(text, limit)| <= limit {
      var room := if limit >= 2 then limit - 2 else 0;
      var window := text[..room];
      var i := LastPlace(window, MinKeep(limit), IsSpace);
      if i.Some? { StripRightKeepsPrefix(window[..i.value]); }
    }
  }

  /** The shipped trim goes over by at most the mark's two characters. */
  lemma ShippedTrimGoesOverByTwo()
    ensures Honours(Trim, 2)
  {
    forall text: string, limit: nat | |text| > limit ensures |Trim(text, limit)| <= limit + 2 {
      var cut := text[..limit];
      var i := LastPlace(cut, MinKeep(limit), IsSpace);
      if i.Some? { StripRightKeepsPrefix(cut[..i.value]); }
    }
  }

  /** The last boundary of the cut leaves no room for the mark: a sentence end in one of its last
      two places, or no sentence end in its kept half and a space in its very last place after
      something that is no space. */
  predicate NoRoomForMark(cut: string) {
    var n, keep := |cut|, MinKeep(|cut|);
    && keep < n
    && (|| IsSentenceEnd(cut[n - 1])
        || (keep <= n - 2 && IsSentenceEnd(cut[n - 2]))
        || ((forall i | keep <= i < n :: !IsSentenceEnd(cut[i])) && IsSpace(cut[n - 1]) && !IsSpace(cut[n - 2])))
  }

  /** Exactly when the shipped trim breaks its own limit. */
  lemma TrimOverrunsIff(text: string, limit: nat)
    requires |text| > limit
    ensures |Trim(text, limit)| > limit <==> NoRoomForMark(text[..limit])
  {
    var cut, keep := text[..limit], MinKeep(limit);
    var end := LastPlace(cut, keep, IsSentenceEnd);
    if end.None? {
      var space := LastPlace(cut, keep, IsSpace);
      if space.Some? {
        var i := space.value;
        StripRightKeepsPrefix(cut[..i]);
        assert cut[..i][i - 1] == cut[i - 1];
      }
    }
  }

  /** A witness: six characters where four were allowed, from a text of five. */
  lemma TrimOverrunWitness()
    ensures Trim("abc.x", 4) == "abc. \U{2026}" && |Trim("abc.x", 4)| == 6
  {
    assert "abc.x"[..4] == "abc.";
    assert LastPlace("abc.", 2, IsSentenceEnd) == Some(3);
    assert "abc."[..4] == "abc.";
  }

  // ------------------------------------------------------------------------------------------
  // Clamping valid values, and what clamping never touches
  // ------------------------------------------------------------------------------------------

  lemma {:induction false} LengthsOfValid(v: Value, s: Schema, trim: Trimmer)
    requires Valid(v, s)
    ensures ClampLengths(v, s, trim) == v && ClampLength(v, s, trim) == v && LengthPaths(v, s) == {}
    decreases v
  {
    match v {
      case Obj(fields) =>
        forall k | k in fields && k in s.properties
          ensures ClampLength(fields[k], s.properties[k], trim) == fields[k] && LengthPaths(fields[k], s.properties[k]) == {}
        {
          LengthsOfValid(fields[k], s.properties[k], trim);
        }
        assert ClampLengths(v, s, trim).fields == fields;
      case Arr(items) =>
        if s.items.Some? {
          forall i | 0 <= i < |items|
            ensures ClampLength(items[i], s.items.value, trim) == items[i] && LengthPaths(items[i], s.items.value) == {}
          {
            LengthsOfValid(items[i], s.items.value, trim);
          }
          assert ClampLengths(v, s, trim).items == items;
        }
      case _ =>
    }
  }

  lemma {:induction false} CountsOfValid(v: Value, s: Schema)
    requires Valid(v, s)
    ensures ClampItems(v, s) == v && ClampCount(v, s) == v && CountPaths(v, s) == {}
    decreases v
  {
    match v {
      case Obj(fields) =>
        forall k | k in fields && k in s.properties
          ensures ClampCount(fields[k], s.properties[k]) == fields[k] && CountPaths(fields[k], s.properties[k]) == {}
        {
          CountsOfValid(fields[k], s.properties[k]);
        }
        assert ClampItems(v, s).fields == fields;
      case Arr(items) =>
        if s.items.Some? {
          forall i | 0 <= i < |items|
            ensures ClampCount(items[i], s.items.value) == items[i] && CountPaths(items[i], s.items.value) == {}
          {
            CountsOfValid(items[i], s.items.value);
          }
          assert ClampItems(v, s).items == items;
        }
      case _ =>
    }
  }

  /** A valid value comes back untouched, with nothing to report, whatever the trimmer. */
  lemma {:induction false} ClampKeepsValid(v: Value, s: Schema, trim: Trimmer)
    requires Valid(v, s)
    ensures ClampToSchema(v, s, trim) == v && ClampPaths(v, s, trim) == {}
  {
    LengthsOfValid(v, s, trim);
    CountsOfValid(v, s);
  }

  /** Same keys, same types, arrays no longer than they were. */
  ghost predicate SameShape(v: Value, w: Value)
    decreases v
  {
    match v
    case Obj(fields) => w.Obj? && w.fields.Keys == fields.Keys && forall k | k in fields :: SameShape(fields[k], w.fields[k])
    case Arr(items) => w.Arr? && |w.items| <= |items| && forall i | 0 <= i < |w.items| :: SameShape(items[i], w.items[i])
    case Str(_) => w.Str?
    case _ => w == v
  }

  lemma {:induction false} ShapeIsReflexive(v: Value)
    ensures SameShape(v, v)
    decreases v
  {
    match v {
      case Obj(fields) => forall k | k in fields ensures SameShape(fields[k], fields[k]) { ShapeIsReflexive(fields[k]); }
      case Arr(items) => forall i | 0 <= i < |items| ensures SameShape(items[i], items[i]) { ShapeIsReflexive(items[i]); }
      case _ =>
    }
  }

  lemma {:induction false} ShapeIsTransitive(a: Value, b: Value, c: Value)
    requires SameShape(a, b) && SameShape(b, c)
    ensures SameShape(a, c)
    decreases a
  {
    match a {
      case Obj(fields) =>
        forall k | k in fields ensures SameShape(fields[k], c.fields[k]) {
          ShapeIsTransitive(fields[k], b.fields[k], c.fields[k]);
        }
      case Arr(items) =>
        forall i | 0 <= i < |c.items| ensures SameShape(items[i], c.items[i]) {
          ShapeIsTransitive(items[i], b.items[i], c.items[i]);
        }
      case _ =>
    }
  }

  lemma {:induction false} LengthsKeepShape(v: Value, s: Schema, trim: Trimmer)
    ensures SameShape(v, ClampLengths(v, s, trim)) && SameShape(v, ClampLength(v, s, trim))
    decreases v
  {
    match v {
      case Obj(fields) =>
        forall k | k in fields ensures SameShape(fields[k], ClampLengths(v, s, trim).fields[k]) {
          if k in s.properties { LengthsKeepShape(fields[k], s.properties[k], trim); } else { ShapeIsReflexive(fields[k]); }
        }
      case Arr(items) =>
        forall i | 0 <= i < |items| ensures SameShape(items[i], ClampLengths(v, s, trim).items[i]) {
          if s.items.Some? { LengthsKeepShape(items[i], s.items.value, trim); } else { ShapeIsReflexive(items[i]); }
        }
      case _ =>
    }
  }

  lemma {:induction false} CountsKeepShape(v: Value, s: Schema)
    ensures SameShape(v, ClampItems(v, s)) && SameShape(v, ClampCount(v, s))
    decreases v
  {
    ShapeIsReflexive(v);
    match v {
      case Obj(fields) =>
        forall k | k in fields ensures SameShape(fields[k], ClampItems(v, s).fields[k]) {
          if k in s.properties { CountsKeepShape(fields[k], s.properties[k]); } else { ShapeIsReflexive(fields[k]); }
        }
      case Arr(items) =>
        forall i | 0 <= i < |items| ensures SameShape(items[i], ClampItems(v, s).items[i]) {
          if s.items.Some? { CountsKeepShape(items[i], s.items.value); } else { ShapeIsReflexive(items[i]); }
        }
      case _ =>
    }
  }

  /** Clamping never adds or removes a key, never changes a type, never lengthens an array. */
  lemma ClampKeepsShape(v: Value, s: Schema, trim: Trimmer)
    ensures SameShape(v, ClampToSchema(v, s, trim))
  {
    var w := ClampLengths(v, s, trim);
    LengthsKeepShape(v, s, trim);
    CountsKeepShape(w, s);
    ShapeIsTransitive(v, w, ClampToSchema(v, s, trim));
  }

  // ------------------------------------------------------------------------------------------
  // What is left too long
  // ------------------------------------------------------------------------------------------

  /** No string is over its maxLength by more than `slack`, here or below. */
  ghost predicate LengthOk(v: Value, s: Schema, slack: nat)
    decreases v
  {
    match v
    case Str(text) => s.maxLength.Some? ==> |text| <= s.maxLength.value + slack
    case Obj(fields) => forall k | k in fields && k in s.properties :: LengthOk(fields[k], s.properties[k], slack)
    case Arr(items) => s.items.Some? ==> forall i | 0 <= i < |items| :: LengthOk(items[i], s.items.value, slack)
    case _ => true
  }

  /** No array has more than its maxItems, here or below. */
  ghost predicate CountOk(v: Value, s: Schema)
    decreases v
  {
    match v
    case Obj(fields) => forall k | k in fields && k in s.properties :: CountOk(fields[k], s.properties[k])
    case Arr(items) =>
      && (s.maxItems.Some? ==> |items| <= s.maxItems.value)
      && (s.items.Some? ==> forall i | 0 <= i < |items| :: CountOk(items[i], s.items.value))
    case _ => true
  }

  /** The same schema without its ceilings. */
  function Uncapped(s: Schema): Schema {
    s.(maxLength := None,
       maxItems := None,
       items := if s.items.None? then None else Some(Uncapped(s.items.value)),
       properties := map k | k in s.properties :: Uncapped(s.properties[k]))
  }

  /** Validity is everything but the ceilings, and the ceilings. */
  lemma {:induction false} CeilingsSplitOff(v: Value, s: Schema)
    ensures Valid(v, s) <==> Valid(v, Uncapped(s)) && LengthOk(v, s, 0) && CountOk(v, s)
    decreases v
  {
    match v {
      case Obj(fields) =>
        forall k | k in fields && k in s.properties
          ensures Valid(fields[k], s.properties[k]) <==>
                  Valid(fields[k], Uncapped(s).properties[k]) && LengthOk(fields[k], s.properties[k], 0) && CountOk(fields[k], s.properties[k])
        {
          CeilingsSplitOff(fields[k], s.properties[k]);
        }
        assert Uncapped(s).properties.Keys == s.properties.Keys;
      case Arr(items) =>
        if s.items.Some? {
          assert Uncapped(s).items == Some(Uncapped(s.items.value));
          forall i | 0 <= i < |items|
            ensures Valid(items[i], s.items.value) <==>
                    Valid(items[i], Uncapped(s.items.value)) && LengthOk(items[i], s.items.value, 0) && CountOk(items[i], s.items.value)
          {
            CeilingsSplitOff(items[i], s.items.value);
          }
        }
      case _ =>
    }
  }

  /** Every string below v that is over its maxLength comes out of the trimmer within it. */
  ghost predicate TrimsFit(v: Value, s: Schema, trim: Trimmer, slack: nat)
    decreases v, 0
  {
    match v
    case Obj(fields) => forall k | k in fields && k in s.properties :: TrimFits(fields[k], s.properties[k], trim, slack)
    case Arr(items) => s.items.Some? ==> forall i | 0 <= i < |items| :: TrimFits(items[i], s.items.value, trim, slack)
    case _ => true
  }

  ghost predicate TrimFits(v: Value, s: Schema, trim: Trimmer, slack: nat)
    decreases v, 1
  {
    if TooLong(v, s) then |trim(v.text, s.maxLength.value)| <= s.maxLength.value + slack
    else TrimsFit(v, s, trim, slack)
  }

  /** The same, for the strings that the count clamp keeps. */
  ghost predicate KeptTrimsFit(v: Value, s: Schema, trim: Trimmer, slack: nat)
    decreases v, 0
  {
    match v
    case Obj(fields) => forall k | k in fields && k in s.properties :: KeptTrimFits(fields[k], s.properties[k], trim, slack)
    case Arr(items) => s.items.Some? ==> forall i | 0 <= i < |items| :: KeptTrimFits(items[i], s.items.value, trim, slack)
    case _ => true
  }

  ghost predicate KeptTrimFits(v: Value, s: Schema, trim: Trimmer, slack: nat)
    decreases v, 1
  {
    if TooLong(v, s) then |trim(v.text, s.maxLength.value)| <= s.maxLength.value + slack
    else if TooMany(v, s) then
      s.items.Some? ==> forall i | 0 <= i < s.maxItems.value :: TrimFits(v.items[i], s.items.value, trim, slack)
    else KeptTrimsFit(v, s, trim, slack)
  }

  lemma {:induction false} LengthsAfterTrim(v: Value, s: Schema, trim: Trimmer, slack: nat)
    ensures LengthOk(ClampLength(v, s, trim), s, slack) <==> TrimFits(v, s, trim, slack)
    ensures !TooLong(v, s) ==> (LengthOk(ClampLengths(v, s, trim), s, slack) <==> TrimsFit(v, s, trim, slack))
    decreases v
  {
    match v {
      case Obj(fields) =>
        forall k | k in fields && k in s.properties
          ensures LengthOk(ClampLength(fields[k], s.properties[k], trim), s.properties[k], slack)
             <==> TrimFits(fields[k], s.properties[k], trim, slack)
        {
          LengthsAfterTrim(fields[k], s.properties[k], trim, slack);
        }
        var w := ClampLengths(v, s, trim).fields;
        assert forall k | k in fields && k in s.properties :: w[k] == ClampLength(fields[k], s.properties[k], trim);
      case Arr(items) =>
        if s.items.Some? {
          forall i | 0 <= i < |items|
            ensures LengthOk(ClampLength(items[i], s.items.value, trim), s.items.value, slack)
               <==> TrimFits(items[i], s.items.value, trim, slack)
          {
            LengthsAfterTrim(items[i], s.items.value, trim, slack);
          }
          var w := ClampLengths(v, s, trim).items;
          assert forall i | 0 <= i < |items| :: w[i] == ClampLength(items[i], s.items.value, trim);
        }
      case _ =>
    }
  }

  /** Lengths after both clamps: within the ceilings exactly when the trims that are kept fit. */
  lemma {:induction false} LengthsAfterClamp(v: Value, s: Schema, trim: Trimmer, slack: nat)
    ensures LengthOk(ClampCount(ClampLength(v, s, trim), s), s, slack) <==> KeptTrimFits(v, s, trim, slack)
    ensures !TooLong(v, s) && !TooMany(v, s) ==>
              (LengthOk(ClampToSchema(v, s, trim), s, slack) <==> KeptTrimsFit(v, s, trim, slack))
    decreases v
  {
    match v {
      case Obj(fields) =>
        forall k | k in fields && k in s.properties
          ensures LengthOk(ClampCount(ClampLength(fields[k], s.properties[k], trim), s.properties[k]), s.properties[k], slack)
             <==> KeptTrimFits(fields[k], s.properties[k], trim, slack)
        {
          LengthsAfterClamp(fields[k], s.properties[k], trim, slack);
        }
        var w := ClampToSchema(v, s, trim).fields;
        assert forall k | k in fields && k in s.properties ::
                 w[k] == ClampCount(ClampLength(fields[k], s.properties[k], trim), s.properties[k]);
      case Arr(items) =>
        if s.items.Some? {
          forall i | 0 <= i < |items|
            ensures LengthOk(ClampCount(ClampLength(items[i], s.items.value, trim), s.items.value), s.items.value, slack)
               <==> KeptTrimFits(items[i], s.items.value, trim, slack)
            ensures LengthOk(ClampLength(items[i], s.items.value, trim), s.items.value, slack)
               <==> TrimFits(items[i], s.items.value, trim, slack)
          {
            LengthsAfterClamp(items[i], s.items.value, trim, slack);
            LengthsAfterTrim(items[i], s.items.value, trim, slack);
          }
          var w := ClampLengths(v, s, trim).items;
          assert forall i | 0 <= i < |items| :: w[i] == ClampLength(items[i], s.items.value, trim);
          if !TooMany(v, s) {
            var x := ClampToSchema(v, s, trim).items;
            assert forall i | 0 <= i < |items| :: x[i] == ClampCount(w[i], s.items.value);
          }
        }
      case _ =>
    }
  }

  /** Arrays below v that the count clamp cuts, or leaves alone, hold no array over its own
      ceiling that the clamp does not look into. */
  ghost predicate CutsReach(v: Value, s: Schema)
    decreases v, 0
  {
    match v
    case Obj(fields) => forall k | k in fields && k in s.properties :: CutReaches(fields[k], s.properties[k])
    case Arr(items) => s.items.Some? ==> forall i | 0 <= i < |items| :: CutReaches(items[i], s.items.value)
    case _ => true
  }

  ghost predicate CutReaches(v: Value, s: Schema)
    decreases v, 1
  {
    if TooMany(v, s) then s.items.Some? ==> forall i | 0 <= i < s.maxItems.value :: CountOk(v.items[i], s.items.value)
    else CutsReach(v, s)
  }

  lemma {:induction false} TrimKeepsCounts(v: Value, s: Schema, trim: Trimmer)
    ensures CountOk(ClampLength(v, s, trim), s) <==> CountOk(v, s)
    ensures CountOk(ClampLengths(v, s, trim), s) <==> CountOk(v, s)
    decreases v
  {
    match v {
      case Obj(fields) =>
        forall k | k in fields && k in s.properties
          ensures CountOk(ClampLength(fields[k], s.properties[k], trim), s.properties[k]) <==> CountOk(fields[k], s.properties[k])
        {
          TrimKeepsCounts(fields[k], s.properties[k], trim);
        }
        var w := ClampLengths(v, s, trim).fields;
        assert forall k | k in fields && k in s.properties :: w[k] == ClampLength(fields[k], s.properties[k], trim);
      case Arr(items) =>
        if s.items.Some? {
          forall i | 0 <= i < |items|
            ensures CountOk(ClampLength(items[i], s.items.value, trim), s.items.value) <==> CountOk(items[i], s.items.value)
          {
            TrimKeepsCounts(items[i], s.items.value, trim);
          }
          var w := ClampLengths(v, s, trim).items;
          assert forall i | 0 <= i < |items| :: w[i] == ClampLength(items[i], s.items.value, trim);
        }
      case _ =>
    }
  }

  lemma {:induction false} CountsAfterCut(v: Value, s: Schema)
    ensures CountOk(ClampCount(v, s), s) <==> CutReaches(v, s)
    ensures !TooMany(v, s) ==> (CountOk(ClampItems(v, s), s) <==> CutsReach(v, s))
    decreases v
  {
    match v {
      case Obj(fields) =>
        forall k | k in fields && k in s.properties
          ensures CountOk(ClampCount(fields[k], s.properties[k]), s.properties[k]) <==> CutReaches(fields[k], s.properties[k])
        {
          CountsAfterCut(fields[k], s.properties[k]);
        }
        var w := ClampItems(v, s).fields;
        assert forall k | k in fields && k in s.properties :: w[k] == ClampCount(fields[k], s.properties[k]);
      case Arr(items) =>
        if s.items.Some? {
          forall i | 0 <= i < |items|
            ensures CountOk(ClampCount(items[i], s.items.value), s.items.value) <==> CutReaches(items[i], s.items.value)
          {
            CountsAfterCut(items[i], s.items.value);
          }
          if !TooMany(v, s) {
            var w := ClampItems(v, s).items;
            assert forall i | 0 <= i < |items| :: w[i] == ClampCount(items[i], s.items.value);
          }
        }
      case _ =>
    }
  }

  lemma {:induction false} TrimKeepsReach(v: Value, s: Schema, trim: Trimmer)
    ensures CutReaches(ClampLength(v, s, trim), s) <==> CutReaches(v, s)
    ensures CutsReach(ClampLengths(v, s, trim), s) <==> CutsReach(v, s)
    decreases v
  {
    match v {
      case Obj(fields) =>
        forall k | k in fields && k in s.properties
          ensures CutReaches(ClampLength(fields[k], s.properties[k], trim), s.properties[k]) <==> CutReaches(fields[k], s.properties[k])
        {
          TrimKeepsReach(fields[k], s.properties[k], trim);
        }
        var w := ClampLengths(v, s, trim).fields;
        assert forall k | k in fields && k in s.properties :: w[k] == ClampLength(fields[k], s.properties[k], trim);
      case Arr(items) =>
        if s.items.Some? {
          forall i | 0 <= i < |items|
            ensures CutReaches(ClampLength(items[i], s.items.value, trim), s.items.value) <==> CutReaches(items[i], s.items.value)
            ensures CountOk(ClampLength(items[i], s.items.value, trim), s.items.value) <==> CountOk(items[i], s.items.value)
          {
            TrimKeepsReach(items[i], s.items.value, trim);
            TrimKeepsCounts(items[i], s.items.value, trim);
          }
          var w := ClampLengths(v, s, trim).items;
          assert forall i | 0 <= i < |items| :: w[i] == ClampLength(items[i], s.items.value, trim);
        }
      case _ =>
    }
  }

  /** The text a string is left with below the value that is clamped. */
  function Shortened(text: string, s: Schema, trim: Trimmer): string {
    if s.maxLength.Some? && |text| > s.maxLength.value then trim(text, s.maxLength.value) else text
  }

  /** Everything a schema asks for but its ceilings, of what a clamp leaves of v: floors and
      enumerations are about the text a string is left with; an array that is cut answers for its
      first items alone, and in those no further array is cut. */
  ghost predicate Sound(v: Value, s: Schema, trim: Trimmer, cutting: bool)
    decreases v
  {
    && KindOk(v, s)
    && (s.enum.Some? ==> v.Str? && Shortened(v.text, s, trim) in s.enum.value)
    && match v
       case Str(text) => s.minLength <= |Shortened(text, s, trim)|
       case Arr(items) =>
         var isCut := cutting && TooMany(v, s);
         var kept := if isCut then s.maxItems.value else |items|;
         s.minItems <= kept && (s.items.Some? ==> forall i | 0 <= i < kept :: Sound(items[i], s.items.value, trim, cutting && !isCut))
       case Obj(fields) =>
         && s.required <= fields.Keys
         && (s.closed ==> fields.Keys <= s.properties.Keys)
         && forall k | k in fields && k in s.properties :: Sound(fields[k], s.properties[k], trim, cutting)
       case _ => true
  }

  lemma {:induction false} SoundAfterTrim(v: Value, s: Schema, trim: Trimmer)
    ensures Valid(ClampLength(v, s, trim), Uncapped(s)) <==> Sound(v, s, trim, false)
    decreases v
  {
    match v {
      case Obj(fields) =>
        var w := ClampLengths(v, s, trim).fields;
        assert ClampLength(v, s, trim) == Obj(w);
        forall k | k in fields && k in s.properties
          ensures Valid(w[k], Uncapped(s).properties[k]) <==> Sound(fields[k], s.properties[k], trim, false)
        {
          SoundAfterTrim(fields[k], s.properties[k], trim);
        }
        assert w.Keys == fields.Keys && Uncapped(s).properties.Keys == s.properties.Keys;
      case Arr(items) =>
        if s.items.Some? {
          assert Uncapped(s).items == Some(Uncapped(s.items.value));
          var w := ClampLengths(v, s, trim).items;
          assert ClampLength(v, s, trim) == Arr(w);
          forall i | 0 <= i < |items| ensures Valid(w[i], Uncapped(s.items.value)) <==> Sound(items[i], s.items.value, trim, false) {
            SoundAfterTrim(items[i], s.items.value, trim);
          }
        }
      case _ =>
    }
  }

  lemma {:induction false} SoundAfterClamp(v: Value, s: Schema, trim: Trimmer)
    ensures Valid(ClampCount(ClampLength(v, s, trim), s), Uncapped(s)) <==> Sound(v, s, trim, true)
    decreases v, 1
  {
    match v {
      case Obj(_) => FieldsAfterClamp(v, s, trim);
      case Arr(_) => ItemsAfterClamp(v, s, trim);
      case _ =>
    }
  }

  lemma {:induction false} FieldsAfterClamp(v: Value, s: Schema, trim: Trimmer)
    requires v.Obj?
    ensures Valid(ClampCount(ClampLength(v, s, trim), s), Uncapped(s)) <==> Sound(v, s, trim, true)
    decreases v, 0
  {
    var fields, x := v.fields, ClampLengths(v, s, trim);
    var w := ClampItems(x, s).fields;
    assert ClampLength(v, s, trim) == x && ClampCount(x, s) == Obj(w);
    forall k | k in fields && k in s.properties
      ensures Valid(w[k], Uncapped(s).properties[k]) <==> Sound(fields[k], s.properties[k], trim, true)
    {
      SoundAfterClamp(fields[k], s.properties[k], trim);
    }
    assert w.Keys == fields.Keys && Uncapped(s).properties.Keys == s.properties.Keys;
  }

  lemma {:induction false} ItemsAfterClamp(v: Value, s: Schema, trim: Trimmer)
    requires v.Arr?
    ensures Valid(ClampCount(ClampLength(v, s, trim), s), Uncapped(s)) <==> Sound(v, s, trim, true)
    decreases v, 0
  {
    var items, x := v.items, ClampLengths(v, s, trim).items;
    var w := if TooMany(Arr(x), s) then x[..s.maxItems.value] else ClampItems(Arr(x), s).items;
    assert ClampLength(v, s, trim) == Arr(x) && ClampCount(Arr(x), s) == Arr(w);
    if s.items.Some? {
      assert Uncapped(s).items == Some(Uncapped(s.items.value));
      forall i | 0 <= i < |w|
        ensures Valid(w[i], Uncapped(s.items.value)) <==> Sound(items[i], s.items.value, trim, !TooMany(v, s))
      {
        if TooMany(v, s) {
          assert w[i] == x[i];
          SoundAfterTrim(items[i], s.items.value, trim);
        } else {
          SoundAfterClamp(items[i], s.items.value, trim);
        }
      }
    }
  }

  /** When a clamped value validates, read off the value before it is clamped: it was within its
      own ceilings (they are not clamped), it is sound but for the items past a cut, every trim
      that is kept fits, and no array cut short holds another that is too long. */
  lemma ClampVerdict(v: Value, s: Schema, trim: Trimmer)
    ensures Valid(ClampToSchema(v, s, trim), s) <==>
            && !TooLong(v, s) && !TooMany(v, s)
            && Sound(v, s, trim, true)
            && KeptTrimsFit(v, s, trim, 0)
            && CutsReach(v, s)
  {
    CeilingsSplitOff(ClampToSchema(v, s, trim), s);
    LengthsAfterClamp(v, s, trim, 0);
    CountsAfterCut(ClampLengths(v, s, trim), s);
    TrimKeepsReach(v, s, trim);
    SoundAfterClamp(v, s, trim);
  }

  ghost predicate NoCaps(s: Schema) {
    && s.maxItems.None?
    && (s.items.Some? ==> NoCaps(s.items.value))
    && forall k | k in s.properties :: NoCaps(s.properties[k])
  }

  /** No capped array is declared inside a capped array. */
  ghost predicate NoNestedCaps(s: Schema) {
    && (s.maxItems.Some? && s.items.Some? ==> NoCaps(s.items.value))
    && (s.items.Some? ==> NoNestedCaps(s.items.value))
    && forall k | k in s.properties :: NoNestedCaps(s.properties[k])
  }

  lemma {:induction false} NoCapsNoCount(v: Value, s: Schema)
    requires NoCaps(s)
    ensures CountOk(v, s)
    decreases v
  {
    match v {
      case Obj(fields) =>
        forall k | k in fields && k in s.properties ensures CountOk(fields[k], s.properties[k]) { NoCapsNoCount(fields[k], s.properties[k]); }
      case Arr(items) =>
        if s.items.Some? {
          forall i | 0 <= i < |items| ensures CountOk(items[i], s.items.value) { NoCapsNoCount(items[i], s.items.value); }
        }
      case _ =>
    }
  }

  lemma {:induction false} CutsReachUnlessNested(v: Value, s: Schema)
    requires NoNestedCaps(s)
    ensures CutsReach(v, s) && CutReaches(v, s)
    decreases v
  {
    match v {
      case Obj(fields) =>
        forall k | k in fields && k in s.properties ensures CutReaches(fields[k], s.properties[k]) {
          CutsReachUnlessNested(fields[k], s.properties[k]);
        }
      case Arr(items) =>
        if s.items.Some? {
          forall i | 0 <= i < |items| ensures CutReaches(items[i], s.items.value) {
            CutsReachUnlessNested(items[i], s.items.value);
          }
          if TooMany(v, s) {
            forall i | 0 <= i < |items| ensures CountOk(items[i], s.items.value) { NoCapsNoCount(items[i], s.items.value); }
          }
        }
      case _ =>
    }
  }

  lemma {:induction false} HonouredTrimsFit(v: Value, s: Schema, trim: Trimmer, slack: nat)
    requires Honours(trim, slack)
    ensures TrimsFit(v, s, trim, slack) && TrimFits(v, s, trim, slack)
    ensures KeptTrimsFit(v, s, trim, slack) && KeptTrimFits(v, s, trim, slack)
    decreases v
  {
    match v {
      case Obj(fields) =>
        forall k | k in fields && k in s.properties
          ensures TrimFits(fields[k], s.properties[k], trim, slack) && KeptTrimFits(fields[k], s.properties[k], trim, slack)
        {
          HonouredTrimsFit(fields[k], s.properties[k], trim, slack);
        }
      case Arr(items) =>
        if s.items.Some? {
          forall i | 0 <= i < |items|
            ensures TrimFits(items[i], s.items.value, trim, slack) && KeptTrimFits(items[i], s.items.value, trim, slack)
          {
            HonouredTrimsFit(items[i], s.items.value, trim, slack);
          }
        }
      case _ =>
    }
  }

  /** With a trimmer that honours its limit, and no capped array inside a capped array, no ceiling
      fails a clamped value: what is left of it has only to be sound. */
  lemma HonestClampMeetsCeilings(v: Value, s: Schema, trim: Trimmer)
    requires Honours(trim, 0) && NoNestedCaps(s) && !TooLong(v, s) && !TooMany(v, s)
    ensures LengthOk(ClampToSchema(v, s, trim), s, 0) && CountOk(ClampToSchema(v, s, trim), s)
    ensures Valid(ClampToSchema(v, s, trim), s) <==> Sound(v, s, trim, true)
  {
    ClampVerdict(v, s, trim);
    HonouredTrimsFit(v, s, trim, 0);
    CutsReachUnlessNested(v, s);
    LengthsAfterClamp(v, s, trim, 0);
    CountsAfterCut(ClampLengths(v, s, trim), s);
    TrimKeepsReach(v, s, trim);
  }

  /** The shipped clamp only brings strings within their limit plus two. */
  lemma ShippedClampIsWithinTwo(v: Value, s: Schema)
    requires !TooLong(v, s) && !TooMany(v, s)
    ensures LengthOk(ClampToSchema(v, s, Trim), s, 2)
  {
    ShippedTrimGoesOverByTwo();
    HonouredTrimsFit(v, s, Trim, 2);
    LengthsAfterClamp(v, s, Trim, 2);
  }

  // ------------------------------------------------------------------------------------------
  // Witnesses
  // ------------------------------------------------------------------------------------------

  const ANY := Schema(None, None, 0, None, 0, None, None, map[], {}, false)

  /** An object with one declared field. */
  function Field(name: string, s: Schema): Schema {
    ANY.(kind := Some(ObjectKind), properties := map[name := s], required := {name}, closed := true)
  }

  /** A report whose only field is v, with nothing wrong but its ceilings, does not come out of
      the clamp valid. */
  ghost predicate Spoils(name: string, v: Value, s: Schema, trim: Trimmer) {
    var report, schema := Obj(map[name := v]), Field(name, s);
    Valid(report, Uncapped(schema)) && !Valid(ClampToSchema(report, schema, trim), schema)
  }

  /** One that has something else wrong does. */
  ghost predicate Forgives(name: string, v: Value, s: Schema, trim: Trimmer) {
    var report, schema := Obj(map[name := v]), Field(name, s);
    !Valid(report, Uncapped(schema)) && Valid(ClampToSchema(report, schema, trim), schema)
  }

  lemma FieldIsClamped(name: string, v: Value, s: Schema, trim: Trimmer)
    ensures Valid(ClampToSchema(Obj(map[name := v]), Field(name, s), trim), Field(name, s)) <==>
            Sound(v, s, trim, true) && KeptTrimFits(v, s, trim, 0) && CutReaches(v, s)
  {
    var f, o := Field(name, s), Obj(map[name := v]);
    ClampVerdict(o, f, trim);
    assert o.fields[name] == v && f.properties[name] == s;
  }

  /** Both, by that field alone. */
  lemma FieldVerdict(name: string, v: Value, s: Schema, trim: Trimmer)
    ensures Spoils(name, v, s, trim) <==>
            Valid(v, Uncapped(s)) && !(Sound(v, s, trim, true) && KeptTrimFits(v, s, trim, 0) && CutReaches(v, s))
    ensures Forgives(name, v, s, trim) <==>
            !Valid(v, Uncapped(s)) && Sound(v, s, trim, true) && KeptTrimFits(v, s, trim, 0) && CutReaches(v, s)
  {
    FieldIsClamped(name, v, s, trim);
  }

  function TextSchema(minLength: nat, maxLength: Option<nat>): Schema {
    ANY.(kind := Some(StringKind), minLength := minLength, maxLength := maxLength)
  }

  function ListSchema(maxItems: nat, items: Option<Schema>): Schema {
    ANY.(kind := Some(ArrayKind), maxItems := Some(maxItems), items := items)
  }

  /** Under any trimmer a string long enough is spoiled exactly when it comes out of it at a length
      outside its bounds. */
  lemma TextSpoiledIff(name: string, text: string, least: nat, limit: nat, trim: Trimmer)
    ensures Spoils(name, Str(text), TextSchema(least, Some(limit)), trim) <==>
            least <= |text| && |text| > limit && !(least <= |trim(text, limit)| <= limit)
  {
    var s, v := TextSchema(least, Some(limit)), Str(text);
    FieldVerdict(name, v, s, trim);
    assert Valid(v, Uncapped(s)) <==> least <= |text|;
    assert Sound(v, s, trim, true) <==> least <= |Shortened(text, s, trim)|;
    assert KeptTrimFits(v, s, trim, 0) <==> |Shortened(text, s, trim)| <= limit;
    assert CutReaches(v, s);
  }

  /** A list is forgiven exactly when everything that is wrong with its items lies past the cut. */
  lemma ListForgivenIff(name: string, items: seq<Value>, limit: nat, trim: Trimmer)
    ensures Forgives(name, Arr(items), ListSchema(limit, Some(TextSchema(0, None))), trim) <==>
            (exists i :: limit <= i < |items| && !items[i].Str?) && forall i | 0 <= i < |items| && i < limit :: items[i].Str?
  {
    var text := TextSchema(0, None);
    var list := ListSchema(limit, Some(text));
    FieldVerdict(name, Arr(items), list, trim);
    assert Uncapped(list).items == Some(Uncapped(text));
    forall i | 0 <= i < |items|
      ensures Valid(items[i], Uncapped(text)) <==> items[i].Str?
      ensures Sound(items[i], text, trim, true) <==> items[i].Str?
      ensures Sound(items[i], text, trim, false) <==> items[i].Str?
      ensures items[i].Str? ==> TrimFits(items[i], text, trim, 0) && KeptTrimFits(items[i], text, trim, 0)
      ensures items[i].Str? ==> CountOk(items[i], text) && CutReaches(items[i], text)
    {
    }
  }

  /** The shipped clamp turns a report whose only fault is one long string into another that
      still fails on length. */
  lemma ShippedClampStillTooLong()
    ensures Spoils("summary", Str("abc.x"), TextSchema(0, Some(4)), Trim)
  {
    TextSpoiledIff("summary", "abc.x", 0, 4, Trim);
    TrimOverrunWitness();
  }

  lemma BlanksTrimToTheMark()
    ensures IntendedTrim("       ", 6) == TRUNCATION_MARK && Trim("      ", 4) == TRUNCATION_MARK
  {
    assert "       "[..4] == "    " && "      "[..4] == "    ";
    assert LastPlace("    ", 3, IsSpace) == Some(3) && LastPlace("    ", 2, IsSpace) == Some(3);
    assert "    "[..3] == "   " && "   "[..2] == "  " && "  "[..1] == " " && " "[..0] == "";
  }

  /** A string that was long enough can be trimmed below its floor: seven spaces become the bare
      mark under the documented trim, six under the shipped one. */
  lemma TrimmedBelowItsFloor()
    ensures Spoils("summary", Str("       "), TextSchema(3, Some(6)), IntendedTrim)
    ensures Spoils("summary", Str("      "), TextSchema(4, Some(4)), Trim)
  {
    BlanksTrimToTheMark();
    TextSpoiledIff("summary", "       ", 3, 6, IntendedTrim);
    TextSpoiledIff("summary", "      ", 4, 4, Trim);
  }

  /** A number where strings are asked for passes once it lies past the cut. */
  lemma CutForgivesItems(trim: Trimmer)
    ensures Forgives("sources", Arr([Str("a"), Int(7)]), ListSchema(1, Some(TextSchema(0, None))), trim)
  {
    var items := [Str("a"), Int(7)];
    ListForgivenIff("sources", items, 1, trim);
    assert !items[1].Str?;
  }

  /** An array that is cut is not looked into: one of its first items that is over a ceiling of its
      own stays over it, under any trimmer. */
  lemma {:induction false} NestedSpoils(name: string, items: seq<Value>, limit: nat, inner: Schema, trim: Trimmer, i: nat)
    requires i < limit < |items| && !CountOk(items[i], inner)
    requires forall j | 0 <= j < |items| :: Valid(items[j], Uncapped(inner))
    ensures Spoils(name, Arr(items), ListSchema(limit, Some(inner)), trim)
  {
    var list := ListSchema(limit, Some(inner));
    FieldVerdict(name, Arr(items), list, trim);
    assert Uncapped(list).items == Some(Uncapped(inner));
    assert !CutReaches(Arr(items), list);
  }

  /** Nested ceilings, as between `proposals` and `scope`. */
  lemma NestedCapIsMissed(trim: Trimmer)
    ensures var long := Arr([Null, Null]);
            Spoils("proposals", Arr([long, long]), ListSchema(1, Some(ListSchema(1, None))), trim)
  {
    var scope, long := ListSchema(1, None), Arr([Null, Null]);
    assert !CountOk(long, scope) && Valid(long, Uncapped(scope));
    NestedSpoils("proposals", [long, long], 1, scope, trim, 0);
  }
}
