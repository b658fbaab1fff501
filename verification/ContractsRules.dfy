/** What a valid reply is (skynet/model_contracts.py), place by place: a value is valid exactly when no
    place in it that the schema speaks of breaks a rule of its own. */
module ContractsRules {
  import opened Options
  import opened Contracts

  /** The value at this place and the schema it has to meet; None where there is no value or the
      schema says nothing. */
  function At(v: Value, s: Schema, path: Path): Option<(Value, Schema)>
    decreases v
  {
    if path == [] then Some((v, s))
    else
      match (v, path[0])
      case (Obj(fields), Key(k)) =>
        if k in fields && k in s.properties then At(fields[k], s.properties[k], path[1..]) else None
      case (Arr(items), Index(i)) =>
        if s.items.Some? && i < |items| then At(items[i], s.items.value, path[1..]) else None
      case _ => None
  }

  /** The schema accepts values of this type: booleans are not numbers, integers are. */
  predicate TypeFits(v: Value, s: Schema) {
    s.kind.Some? ==>
      match v
      case Obj(_) => s.kind.value == ObjectKind
      case Arr(_) => s.kind.value == ArrayKind
      case Str(_) => s.kind.value == StringKind
      case Int(_) => s.kind.value == NumberKind || s.kind.value == IntegerKind
      case Float(_) => s.kind.value == NumberKind
      case Bool(_) => s.kind.value == BooleanKind
      case Null => false
  }

  /** Nothing but what it holds is wrong with the value: its type, its membership in the enumeration,
      its length or count, and the names of its fields. */
  predicate OwnRules(v: Value, s: Schema) {
    && TypeFits(v, s)
    && (s.enum.Some? ==> v.Str? && v.text in s.enum.value)
    && (v.Str? ==> |v.text| >= s.minLength && (s.maxLength.Some? ==> |v.text| <= s.maxLength.value))
    && (v.Arr? ==> |v.items| >= s.minItems && (s.maxItems.Some? ==> |v.items| <= s.maxItems.value))
    && (v.Obj? ==> (forall k | k in s.required :: k in v.fields) && (s.closed ==> forall k | k in v.fields :: k in s.properties))
  }

  predicate Fine(v: Value, s: Schema, path: Path) {
    At(v, s, path).Some? ==> OwnRules(At(v, s, path).value.0, At(v, s, path).value.1)
  }

  lemma {:induction false} ValidIsFine(v: Value, s: Schema, path: Path)
    requires Valid(v, s)
    ensures Fine(v, s, path)
    decreases v
  {
    if path != [] && At(v, s, path).Some? {
      match (v, path[0])
      case (Obj(fields), Key(k)) => ValidIsFine(fields[k], s.properties[k], path[1..]);
      case (Arr(items), Index(i)) => ValidIsFine(items[i], s.items.value, path[1..]);
    }
  }

  lemma {:induction false} FineIsValid(v: Value, s: Schema)
    requires forall path :: Fine(v, s, path)
    ensures Valid(v, s)
    decreases v
  {
    assert Fine(v, s, []);
    match v {
      case Obj(fields) =>
        forall k | k in fields && k in s.properties ensures Valid(fields[k], s.properties[k]) {
          forall path: Path ensures Fine(fields[k], s.properties[k], path) {
            assert Fine(v, s, [Key(k)] + path);
            assert ([Key(k)] + path)[1..] == path;
          }
          FineIsValid(fields[k], s.properties[k]);
        }
      case Arr(items) =>
        forall i | 0 <= i < |items| && s.items.Some? ensures Valid(items[i], s.items.value) {
          forall path: Path ensures Fine(items[i], s.items.value, path) {
            assert Fine(v, s, [Index(i)] + path);
            assert ([Index(i)] + path)[1..] == path;
          }
          FineIsValid(items[i], s.items.value);
        }
      case _ =>
    }
  }

  /** A value is valid exactly when every place in it keeps its own rules. */
  lemma {:induction false} ValidIff(v: Value, s: Schema)
    ensures Valid(v, s) <==> forall path :: Fine(v, s, path)
  {
    if Valid(v, s) {
      forall path: Path ensures Fine(v, s, path) { ValidIsFine(v, s, path); }
    }
    if forall path :: Fine(v, s, path) { FineIsValid(v, s); }
  }

  // ------------------------------------------------------------------------------------------
  // Boundaries of a trim
  // ------------------------------------------------------------------------------------------

  /** The code points that Python's `str.isspace` accepts. */
  const SPACES: set<int> := {
    0x9, 0xa, 0xb, 0xc, 0xd, 0x1c, 0x1d, 0x1e, 0x1f, 0x20, 0x85, 0xa0, 0x1680,
    0x2000, 0x2001, 0x2002, 0x2003, 0x2004, 0x2005, 0x2006, 0x2007, 0x2008, 0x2009, 0x200a,
    0x2028, 0x2029, 0x202f, 0x205f, 0x3000
  }

  lemma SpaceIff(c: char)
    ensures IsSpace(c) <==> c as int in SPACES
  {
  }

  lemma SentenceEndIff(c: char)
    ensures IsSentenceEnd(c) <==> c as int in {0x21, 0x2e, 0x3f, 0x2026}
  {
  }

  /** A boundary is looked for in the second half of the limit, and never at the first character. */
  lemma KeptHalf(limit: nat)
    ensures MinKeep(limit) == if limit < 4 then 1 else limit / 2
  {
  }
}
