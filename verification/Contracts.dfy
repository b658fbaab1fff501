/** The contracts of model replies (skynet/model_contracts.py): validating a JSON value against a
    schema, dropping what the schema does not declare, and clamping what is too long. */
module Contracts {
  import opened Options

  datatype Value =
    | Obj(fields: map<string, Value>)
    | Arr(items: seq<Value>)
    | Str(text: string)
    | Int(n: int)
    | Float(x: real)
    | Bool(b: bool)
    | Null

  datatype Kind = ObjectKind | ArrayKind | StringKind | NumberKind | IntegerKind | BooleanKind

  /** `kind` is None for a missing or unknown type name, which accepts everything. */
  datatype Schema = Schema(
    kind: Option<Kind>,
    enum: Option<set<string>>,
    minLength: nat,
    maxLength: Option<nat>,
    minItems: nat,
    maxItems: Option<nat>,
    items: Option<Schema>,
    properties: map<string, Schema>,
    required: set<string>,
    closed: bool)

  // ------------------------------------------------------------------------------------------
  // Validation
  // ------------------------------------------------------------------------------------------

  predicate KindOk(v: Value, s: Schema) {
    match s.kind
    case None => true
    case Some(ObjectKind) => v.Obj?
    case Some(ArrayKind) => v.Arr?
    case Some(StringKind) => v.Str?
    case Some(NumberKind) => v.Int? || v.Float?
    case Some(IntegerKind) => v.Int?
    case Some(BooleanKind) => v.Bool?
  }

  predicate EnumOk(v: Value, s: Schema) {
    s.enum.Some? ==> v.Str? && v.text in s.enum.value
  }

  /** `_validate_value` raises nothing. */
  predicate Valid(v: Value, s: Schema)
    decreases v
  {
    && KindOk(v, s)
    && EnumOk(v, s)
    && match v
       case Str(text) => s.minLength <= |text| && (s.maxLength.Some? ==> |text| <= s.maxLength.value)
       case Arr(items) =>
         && s.minItems <= |items|
         && (s.maxItems.Some? ==> |items| <= s.maxItems.value)
         && (s.items.Some? ==> forall i | 0 <= i < |items| :: Valid(items[i], s.items.value))
       case Obj(fields) =>
         && s.required <= fields.Keys
         && (s.closed ==> fields.Keys <= s.properties.Keys)
         && forall k | k in fields && k in s.properties :: Valid(fields[k], s.properties[k])
       case _ => true
  }

  // ------------------------------------------------------------------------------------------
  // Dropping undeclared fields
  // ------------------------------------------------------------------------------------------

  datatype Place = Key(key: string) | Index(index: nat)
  type Path = seq<Place>

  function Drop(v: Value, s: Schema): Value
    decreases v
  {
    match v
    case Obj(fields) =>
      Obj(map k | k in fields && (s.closed ==> k in s.properties) ::
            if k in s.properties then Drop(fields[k], s.properties[k]) else fields[k])
    case Arr(items) =>
      if s.items.None? then v
      else Arr(seq(|items|, i requires 0 <= i < |items| => Drop(items[i], s.items.value)))
    case _ => v
  }

  /** The paths reported as dropped. */
  function DroppedPaths(v: Value, s: Schema): set<Path>
    decreases v
  {
    match v
    case Obj(fields) =>
      (set k | k in fields && s.closed && k !in s.properties :: [Key(k)])
      + (set k, p | k in fields && k in s.properties && p in DroppedPaths(fields[k], s.properties[k]) :: [Key(k)] + p)
    case Arr(items) =>
      if s.items.None? then {}
      else set i, p | 0 <= i < |items| && p in DroppedPaths(items[i], s.items.value) :: [Index(i)] + p
    case _ => {}
  }

  // ------------------------------------------------------------------------------------------
  // Trimming
  // ------------------------------------------------------------------------------------------

  const TRUNCATION_MARK := " \U{2026}"

  predicate IsSentenceEnd(c: char) {
    c == '.' || c == '!' || c == '?' || c == '\U{2026}'
  }

  /** `str.isspace` */
  predicate IsSpace(c: char) {
    var n := c as int;
    9 <= n <= 13 || 28 <= n <= 32 || n == 0x85 || n == 0xa0 || n == 0x1680 || 0x2000 <= n <= 0x200a
    || n == 0x2028 || n == 0x2029 || n == 0x202f || n == 0x205f || n == 0x3000
  }

  function StripRight(s: string): string {
    if s != [] && IsSpace(s[|s| - 1]) then StripRight(s[..|s| - 1]) else s
  }

  /** At least half of the limit is kept. */
  function MinKeep(limit: nat): nat {
    if limit / 2 > 1 then limit / 2 else 1
  }

  /** The last place in s, from `keep` on, that satisfies p. */
  function LastPlace(s: string, keep: nat, p: char -> bool): (r: Option<nat>)
    ensures r.Some? ==> keep <= r.value < |s| && p(s[r.value]) && forall i | r.value < i < |s| :: !p(s[i])
    ensures r.None? ==> forall i | keep <= i < |s| :: !p(s[i])
  {
    if |s| <= keep then None
    else if p(s[|s| - 1]) then Some(|s| - 1)
    else LastPlace(s[..|s| - 1], keep, p)
  }

  /** The cut at `limit`, moved back to the last boundary among its first `room` characters. */
  function TrimWithin(text: string, limit: nat, room: nat): string {
    if |text| <= limit || room > limit then text
    else
      var window := text[..room];
      match LastPlace(window, MinKeep(limit), IsSentenceEnd)
      case Some(i) => window[..i + 1] + TRUNCATION_MARK
      case None =>
        match LastPlace(window, MinKeep(limit), IsSpace)
        case Some(i) => StripRight(window[..i]) + TRUNCATION_MARK
        case None => text[..limit]
  }

  /** `trim_to_limit` as shipped: boundaries are looked for up to the limit itself, so the mark
      may not fit. */
  function Trim(text: string, limit: nat): string {
    TrimWithin(text, limit, limit)
  }

  /** `trim_to_limit` as its documentation means it: room for the mark is kept back. */
  function IntendedTrim(text: string, limit: nat): string {
    TrimWithin(text, limit, if limit >= |TRUNCATION_MARK| then limit - |TRUNCATION_MARK| else 0)
  }

  method TrimToLimit(text: string, limit: nat) returns (trimmed: string)
    ensures trimmed == Trim(text, limit)
  {
    if |text| <= limit {
      return text;
    }
    var cut := text[..limit];
    var keep := MinKeep(limit);
    var index := |cut| - 1;
    while index >= keep
      invariant index < |cut| && (index >= keep || LastPlace(cut, keep, IsSentenceEnd).None?)
      invariant forall i | index < i < |cut| && i >= keep :: !IsSentenceEnd(cut[i])
    {
      if IsSentenceEnd(cut[index]) {
        return cut[..index + 1] + TRUNCATION_MARK;
      }
      index := index - 1;
    }
    index := |cut| - 1;
    while index >= keep
      invariant index < |cut| && (index >= keep || LastPlace(cut, keep, IsSpace).None?)
      invariant forall i | index < i < |cut| && i >= keep :: !IsSpace(cut[i])
    {
      if IsSpace(cut[index]) {
        return StripRight(cut[..index]) + TRUNCATION_MARK;
      }
      index := index - 1;
    }
    return cut;
  }

  // ------------------------------------------------------------------------------------------
  // Clamping
  // ------------------------------------------------------------------------------------------

  type Trimmer = (string, nat) -> string

  predicate TooLong(v: Value, s: Schema) {
    v.Str? && s.maxLength.Some? && |v.text| > s.maxLength.value
  }

  predicate TooMany(v: Value, s: Schema) {
    v.Arr? && s.maxItems.Some? && |v.items| > s.maxItems.value
  }

  /** `clamp_lengths`; the value itself is never trimmed, only what it holds. */
  function ClampLengths(v: Value, s: Schema, trim: Trimmer): Value
    decreases v, 0
  {
    match v
    case Obj(fields) =>
      Obj(map k | k in fields :: if k in s.properties then ClampLength(fields[k], s.properties[k], trim) else fields[k])
    case Arr(items) =>
      if s.items.None? then v
      else Arr(seq(|items|, i requires 0 <= i < |items| => ClampLength(items[i], s.items.value, trim)))
    case _ => v
  }

  function ClampLength(v: Value, s: Schema, trim: Trimmer): Value
    decreases v, 1
  {
    if TooLong(v, s) then Str(trim(v.text, s.maxLength.value)) else ClampLengths(v, s, trim)
  }

  /** `clamp_items`; an array that is cut is not looked into. */
  function ClampItems(v: Value, s: Schema): Value
    decreases v, 0
  {
    match v
    case Obj(fields) =>
      Obj(map k | k in fields :: if k in s.properties then ClampCount(fields[k], s.properties[k]) else fields[k])
    case Arr(items) =>
      if s.items.None? then v
      else Arr(seq(|items|, i requires 0 <= i < |items| => ClampCount(items[i], s.items.value)))
    case _ => v
  }

  function ClampCount(v: Value, s: Schema): Value
    decreases v, 1
  {
    if TooMany(v, s) then Arr(v.items[..s.maxItems.value]) else ClampItems(v, s)
  }

  function ClampToSchema(v: Value, s: Schema, trim: Trimmer): Value {
    ClampItems(ClampLengths(v, s, trim), s)
  }

  function LengthPaths(v: Value, s: Schema): set<Path>
    decreases v
  {
    match v
    case Obj(fields) =>
      (set k | k in fields && k in s.properties && TooLong(fields[k], s.properties[k]) :: [Key(k)])
      + (set k, p | k in fields && k in s.properties && p in LengthPaths(fields[k], s.properties[k]) :: [Key(k)] + p)
    case Arr(items) =>
      if s.items.None? then {}
      else
        (set i | 0 <= i < |items| && TooLong(items[i], s.items.value) :: [Index(i)])
        + set i, p | 0 <= i < |items| && p in LengthPaths(items[i], s.items.value) :: [Index(i)] + p
    case _ => {}
  }

  function CountPaths(v: Value, s: Schema): set<Path>
    decreases v
  {
    match v
    case Obj(fields) =>
      (set k | k in fields && k in s.properties && TooMany(fields[k], s.properties[k]) :: [Key(k)])
      + (set k, p | k in fields && k in s.properties && !TooMany(fields[k], s.properties[k])
                    && p in CountPaths(fields[k], s.properties[k]) :: [Key(k)] + p)
    case Arr(items) =>
      if s.items.None? then {}
      else
        (set i | 0 <= i < |items| && TooMany(items[i], s.items.value) :: [Index(i)])
        + set i, p | 0 <= i < |items| && !TooMany(items[i], s.items.value)
                     && p in CountPaths(items[i], s.items.value) :: [Index(i)] + p
    case _ => {}
  }

  /** The paths `clamp_to_schema` reports: counts are looked at once the lengths are clamped. */
  function ClampPaths(v: Value, s: Schema, trim: Trimmer): set<Path> {
    LengthPaths(v, s) + CountPaths(ClampLengths(v, s, trim), s)
  }
}
