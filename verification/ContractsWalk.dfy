/** The walks of skynet/model_contracts.py over a reply: each visits what the schema declares, key
    by key and item by item, changes what it holds, and lists the paths it touched. */
module ContractsWalk {
  import opened Options
  import opened Contracts

  /** What was reported for a child, seen from its parent. */
  function Under(place: Place, paths: seq<Path>): (r: seq<Path>)
    ensures |r| == |paths|
  {
    seq(|paths|, i requires 0 <= i < |paths| => [place] + paths[i])
  }

  lemma UnderMembers(place: Place, paths: seq<Path>)
    ensures forall p :: p in Under(place, paths) <==> p != [] && p[0] == place && p[1..] in paths
  {
    var r := Under(place, paths);
    forall p ensures p in r <==> p != [] && p[0] == place && p[1..] in paths {
      if p in r {
        var i :| 0 <= i < |r| && r[i] == p;
        assert p[1..] == paths[i];
      }
      if p != [] && p[0] == place && p[1..] in paths {
        var i :| 0 <= i < |paths| && paths[i] == p[1..];
        assert p == [p[0]] + p[1..];
        assert r[i] == p;
      }
    }
  }

  // ------------------------------------------------------------------------------------------
  // Dropping
  // ------------------------------------------------------------------------------------------

  lemma DroppedInObject(fields: map<string, Value>, s: Schema, p: Path)
    ensures p in DroppedPaths(Obj(fields), s) <==>
            p != [] && p[0].Key? && p[0].key in fields
            && if p[0].key in s.properties then p[1..] in DroppedPaths(fields[p[0].key], s.properties[p[0].key])
               else s.closed && |p| == 1
  {
    if p != [] { assert p == [p[0]] + p[1..]; }
    if |p| == 1 { assert p == [p[0]]; }
  }

  lemma DroppedInArray(items: seq<Value>, s: Schema, p: Path)
    requires s.items.Some?
    ensures p in DroppedPaths(Arr(items), s) <==>
            p != [] && p[0].Index? && p[0].index < |items| && p[1..] in DroppedPaths(items[p[0].index], s.items.value)
  {
    if p != [] { assert p == [p[0]] + p[1..]; }
  }

  predicate StartsIn(p: Path, keys: set<string>) {
    p != [] && p[0].Key? && p[0].key in keys
  }

  /** Between two declared keys: those still pending are as they were. */
  ghost predicate DropUnderway(fields: map<string, Value>, s: Schema, now: map<string, Value>, paths: seq<Path>,
                               pending: set<string>)
  {
    && (forall k :: k in now <==> k in fields && (s.closed ==> k in s.properties))
    && (forall k | k in now ::
          now[k] == if k in s.properties && k !in pending then Drop(fields[k], s.properties[k]) else fields[k])
    && (forall p: Path :: p in paths <==> p in DroppedPaths(Obj(fields), s) && !StartsIn(p, pending))
  }

  /** The keys a closed schema does not declare go first. */
  method DropUndeclared(fields: map<string, Value>, s: Schema) returns (now: map<string, Value>, paths: seq<Path>)
    ensures DropUnderway(fields, s, now, paths, s.properties.Keys)
  {
    now, paths := fields, [];
    if s.closed {
      var pending := fields.Keys;
      while pending != {}
        invariant pending <= fields.Keys
        invariant forall k :: k in now <==> k in fields && (k in pending || k in s.properties)
        invariant forall k | k in now :: now[k] == fields[k]
        invariant forall p: Path :: p in paths <==>
          |p| == 1 && p[0].Key? && p[0].key in fields && p[0].key !in pending && p[0].key !in s.properties
        decreases |pending|
      {
        var key :| key in pending;
        assert forall p: Path | |p| == 1 && p[0] == Key(key) :: p == [Key(key)];
        if key !in s.properties {
          now := now - {key};
          paths := paths + [[Key(key)]];
        }
        pending := pending - {key};
      }
    }
    forall p: Path ensures p in paths <==> p in DroppedPaths(Obj(fields), s) && !StartsIn(p, s.properties.Keys) {
      DroppedInObject(fields, s, p);
    }
  }

  lemma DropOneKey(fields: map<string, Value>, s: Schema, now: map<string, Value>, paths: seq<Path>, pending: set<string>,
                   key: string, found: seq<Path>)
    requires DropUnderway(fields, s, now, paths, pending) && key in pending && key in s.properties && key in fields
    requires forall q :: q in found <==> q in DroppedPaths(fields[key], s.properties[key])
    ensures DropUnderway(fields, s, now[key := Drop(fields[key], s.properties[key])], paths + Under(Key(key), found),
                         pending - {key})
  {
    UnderMembers(Key(key), found);
    forall p: Path
      ensures p in paths + Under(Key(key), found) <==>
        p in DroppedPaths(Obj(fields), s) && !StartsIn(p, pending - {key})
    {
      DroppedInObject(fields, s, p);
    }
  }

  lemma DropMissingKey(fields: map<string, Value>, s: Schema, now: map<string, Value>, paths: seq<Path>,
                       pending: set<string>, key: string)
    requires DropUnderway(fields, s, now, paths, pending) && key in pending && key in s.properties && key !in fields
    ensures DropUnderway(fields, s, now, paths, pending - {key})
  {
    forall p: Path | p in DroppedPaths(Obj(fields), s) ensures StartsIn(p, pending) <==> StartsIn(p, pending - {key}) {
      DroppedInObject(fields, s, p);
    }
  }

  /** `drop_unknown_fields`: what is left, and the paths deleted, each of them. */
  method DropUnknownFields(v: Value, s: Schema) returns (left: Value, dropped: seq<Path>)
    ensures left == Drop(v, s)
    ensures forall p :: p in dropped <==> p in DroppedPaths(v, s)
    decreases v
  {
    match v {
      case Obj(fields) =>
        var now, paths := DropUndeclared(fields, s);
        var pending := s.properties.Keys;
        while pending != {}
          invariant pending <= s.properties.Keys && DropUnderway(fields, s, now, paths, pending)
          decreases |pending|
        {
          var key :| key in pending;
          if key in now {
            assert now[key] == fields[key];
            var child, found := DropUnknownFields(fields[key], s.properties[key]);
            DropOneKey(fields, s, now, paths, pending, key, found);
            now, paths := now[key := child], paths + Under(Key(key), found);
          } else {
            DropMissingKey(fields, s, now, paths, pending, key);
          }
          pending := pending - {key};
        }
        left, dropped := Obj(now), paths;
        assert forall p: Path :: !StartsIn(p, {});
        assert now == Drop(v, s).fields;
      case Arr(items) =>
        left, dropped := v, [];
        if s.items.None? { return; }
        var now := items;
        var i := 0;
        while i < |items|
          invariant 0 <= i <= |items| == |now|
          invariant forall k | 0 <= k < |items| :: now[k] == if k < i then Drop(items[k], s.items.value) else items[k]
          invariant forall p: Path :: p in dropped <==> p in DroppedPaths(v, s) && !(p != [] && p[0].Index? && p[0].index >= i)
        {
          var child, found := DropUnknownFields(items[i], s.items.value);
          UnderMembers(Index(i), found);
          forall p: Path
            ensures p in dropped + Under(Index(i), found) <==>
              p in DroppedPaths(v, s) && !(p != [] && p[0].Index? && p[0].index >= i + 1)
          {
            DroppedInArray(items, s, p);
          }
          now, dropped := now[i := child], dropped + Under(Index(i), found);
          i := i + 1;
        }
        left := Arr(now);
        forall p: Path | p in DroppedPaths(v, s) ensures !(p != [] && p[0].Index? && p[0].index >= |items|) {
          DroppedInArray(items, s, p);
        }
        assert now == Drop(v, s).items;
      case _ =>
        left, dropped := v, [];
    }
  }

  // ------------------------------------------------------------------------------------------
  // Clamping
  // ------------------------------------------------------------------------------------------

  /** The two clamps walk alike: `clamp_lengths` trims strings, `clamp_items` cuts arrays. */
  datatype Clamp = Lengths(trim: Trimmer) | Counts

  predicate Over(c: Clamp, v: Value, s: Schema) {
    if c.Lengths? then TooLong(v, s) else TooMany(v, s)
  }

  function Cut(c: Clamp, v: Value, s: Schema): Value
    requires Over(c, v, s)
  {
    if c.Lengths? then Str(c.trim(v.text, s.maxLength.value)) else Arr(v.items[..s.maxItems.value])
  }

  /** What the walk leaves of a value it starts from, and of one it meets on the way. */
  function Walked(c: Clamp, v: Value, s: Schema): Value {
    if c.Lengths? then ClampLengths(v, s, c.trim) else ClampItems(v, s)
  }

  function Met(c: Clamp, v: Value, s: Schema): Value {
    if c.Lengths? then ClampLength(v, s, c.trim) else ClampCount(v, s)
  }

  function Touched(c: Clamp, v: Value, s: Schema): set<Path> {
    if c.Lengths? then LengthPaths(v, s) else CountPaths(v, s)
  }

  function TouchedFrom(c: Clamp, v: Value, s: Schema): set<Path> {
    if Over(c, v, s) then {[]} else Touched(c, v, s)
  }

  lemma Split(p: Path)
    requires p != []
    ensures p == [p[0]] + p[1..]
    ensures p == [p[0]] <==> p[1..] == []
  {
  }

  lemma TouchedInObject(c: Clamp, fields: map<string, Value>, s: Schema, p: Path)
    ensures p in Touched(c, Obj(fields), s) <==>
            p != [] && p[0].Key? && p[0].key in fields && p[0].key in s.properties
            && p[1..] in TouchedFrom(c, fields[p[0].key], s.properties[p[0].key])
  {
    if p != [] { Split(p); }
    if p != [] && p[0].Key? && p[0].key in fields && p[0].key in s.properties {
      var child, below := fields[p[0].key], s.properties[p[0].key];
      if c.Lengths? && TooLong(child, below) { assert LengthPaths(child, below) == {}; }
    }
  }

  lemma TouchedInArray(c: Clamp, items: seq<Value>, s: Schema, p: Path)
    requires s.items.Some?
    ensures p in Touched(c, Arr(items), s) <==>
            p != [] && p[0].Index? && p[0].index < |items|
            && p[1..] in TouchedFrom(c, items[p[0].index], s.items.value)
  {
    if p != [] { Split(p); }
    if p != [] && p[0].Index? && p[0].index < |items| {
      var child, below := items[p[0].index], s.items.value;
      if c.Lengths? && TooLong(child, below) { assert LengthPaths(child, below) == {}; }
    }
  }

  ghost predicate ClampUnderway(c: Clamp, fields: map<string, Value>, s: Schema, now: map<string, Value>,
                                paths: seq<Path>, pending: set<string>)
  {
    && now.Keys == fields.Keys
    && (forall k | k in now ::
          now[k] == if k in s.properties && k !in pending then Met(c, fields[k], s.properties[k]) else fields[k])
    && (forall p: Path :: p in paths <==> p in Touched(c, Obj(fields), s) && !StartsIn(p, pending))
  }

  lemma ClampStarts(c: Clamp, fields: map<string, Value>, s: Schema)
    ensures ClampUnderway(c, fields, s, fields, [], s.properties.Keys)
  {
    forall p: Path | p in Touched(c, Obj(fields), s) ensures StartsIn(p, s.properties.Keys) {
      TouchedInObject(c, fields, s, p);
    }
  }

  lemma ClampOneKey(c: Clamp, fields: map<string, Value>, s: Schema, now: map<string, Value>, paths: seq<Path>,
                    pending: set<string>, key: string, found: seq<Path>)
    requires ClampUnderway(c, fields, s, now, paths, pending) && key in pending && key in s.properties && key in fields
    requires forall q :: q in found <==> q in TouchedFrom(c, fields[key], s.properties[key])
    ensures ClampUnderway(c, fields, s, now[key := Met(c, fields[key], s.properties[key])],
                          paths + Under(Key(key), found), pending - {key})
  {
    UnderMembers(Key(key), found);
    forall p: Path
      ensures p in paths + Under(Key(key), found) <==>
        p in Touched(c, Obj(fields), s) && !StartsIn(p, pending - {key})
    {
      TouchedInObject(c, fields, s, p);
    }
  }

  lemma ClampMissingKey(c: Clamp, fields: map<string, Value>, s: Schema, now: map<string, Value>, paths: seq<Path>,
                        pending: set<string>, key: string)
    requires ClampUnderway(c, fields, s, now, paths, pending) && key in pending && key in s.properties && key !in fields
    ensures ClampUnderway(c, fields, s, now, paths, pending - {key})
  {
    forall p: Path | p in Touched(c, Obj(fields), s) ensures StartsIn(p, pending) <==> StartsIn(p, pending - {key}) {
      TouchedInObject(c, fields, s, p);
    }
  }

  /** A value the walk meets: cut and reported if it is over its limit, walked otherwise. */
  method Meet(c: Clamp, v: Value, s: Schema) returns (left: Value, paths: seq<Path>)
    ensures left == Met(c, v, s)
    ensures forall p :: p in paths <==> p in TouchedFrom(c, v, s)
    decreases v, 1
  {
    if Over(c, v, s) {
      return Cut(c, v, s), [[]];
    }
    left, paths := Walk(c, v, s);
  }

  /** `clamp_lengths` and `clamp_items`: what is left, and the paths clamped, each of them. */
  method Walk(c: Clamp, v: Value, s: Schema) returns (left: Value, clamped: seq<Path>)
    ensures left == Walked(c, v, s)
    ensures forall p :: p in clamped <==> p in Touched(c, v, s)
    decreases v, 0
  {
    match v {
      case Obj(fields) =>
        var now, paths: seq<Path> := fields, [];
        var pending := s.properties.Keys;
        ClampStarts(c, fields, s);
        while pending != {}
          invariant pending <= s.properties.Keys && ClampUnderway(c, fields, s, now, paths, pending)
          decreases |pending|
        {
          var key :| key in pending;
          if key in now {
            assert now[key] == fields[key];
            var child, found := Meet(c, fields[key], s.properties[key]);
            ClampOneKey(c, fields, s, now, paths, pending, key, found);
            now, paths := now[key := child], paths + Under(Key(key), found);
          } else {
            ClampMissingKey(c, fields, s, now, paths, pending, key);
          }
          pending := pending - {key};
        }
        left, clamped := Obj(now), paths;
        assert forall p: Path :: !StartsIn(p, {});
        assert now == Walked(c, v, s).fields;
      case Arr(items) =>
        left, clamped := v, [];
        if s.items.None? { return; }
        var now := items;
        var i := 0;
        while i < |items|
          invariant 0 <= i <= |items| == |now|
          invariant forall k | 0 <= k < |items| :: now[k] == if k < i then Met(c, items[k], s.items.value) else items[k]
          invariant forall p: Path :: p in clamped <==> p in Touched(c, v, s) && !(p != [] && p[0].Index? && p[0].index >= i)
        {
          var child, found := Meet(c, items[i], s.items.value);
          UnderMembers(Index(i), found);
          forall p: Path
            ensures p in clamped + Under(Index(i), found) <==>
              p in Touched(c, v, s) && !(p != [] && p[0].Index? && p[0].index >= i + 1)
          {
            TouchedInArray(c, items, s, p);
          }
          now, clamped := now[i := child], clamped + Under(Index(i), found);
          i := i + 1;
        }
        left := Arr(now);
        forall p: Path | p in Touched(c, v, s) ensures !(p != [] && p[0].Index? && p[0].index >= |items|) {
          TouchedInArray(c, items, s, p);
        }
        assert now == Walked(c, v, s).items;
      case _ =>
        left, clamped := v, [];
    }
  }

  /** `clamp_to_schema`: lengths first, then counts, and one list of paths. */
  method ClampReply(v: Value, s: Schema, trim: Trimmer) returns (left: Value, clamped: seq<Path>)
    ensures left == ClampToSchema(v, s, trim)
    ensures forall p :: p in clamped <==> p in ClampPaths(v, s, trim)
  {
    var trimmed, long := Walk(Lengths(trim), v, s);
    var many;
    left, many := Walk(Counts, trimmed, s);
    clamped := long + many;
  }
}
