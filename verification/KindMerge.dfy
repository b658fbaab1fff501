/** The memories table and its search projection (skynet/memory_store.py), and the migration
    that rewrites legacy kinds to canonical ones and merges the duplicates this makes. */
module KindMerge {
  import opened Options

  type Id = int
  type Kind = string

  datatype Row = Row(kind: Kind, content: string, confidence: real)
  datatype FtsRow = FtsRow(id: Id, kind: Kind, content: string)

  /** `memory_id` is the table's primary key. */
  type Memories = map<Id, Row>
  type Aliases = Kind -> Option<Kind>

  const MEMORY_KINDS: set<Kind> := {
    "fact", "lesson", "constraint", "outcome", "hypothesis", "measurement", "risk", "procedure", "observation"
  }

  // The aliases of each canonical kind.
  const FACT_ALIASES: set<Kind> := {
    "durable_fact", "technical_fact", "code_fact", "runtime_fact", "engineering_fact", "engineering",
    "answer", "user_dialogue", "dialogue", "system_logic", "root_cause"
  }

  const RISK_ALIASES: set<Kind> := {
    "blocker", "blocked", "blockage", "error", "failure", "bottleneck"
  }

  const OBSERVATION_ALIASES: set<Kind> := {
    "question", "technical_observation", "strategic_observation", "bug_observation", "operational_note",
    "harness_behavior", "bug_report", "follow_up", "artifact", "history", "pattern", "insight"
  }

  const OUTCOME_ALIASES: set<Kind> := {
    "decision", "result", "episode_outcome", "run_outcome", "bug_fix", "strategic_decision"
  }

  const LESSON_ALIASES: set<Kind> := {
    "lesson_learned", "operational_lesson"
  }

  const PROCEDURE_ALIASES: set<Kind> := {
    "operational_guideline", "operational_knowledge", "best_practice", "strategy", "tooling"
  }

  const CONSTRAINT_ALIASES: set<Kind> := {
    "design_constraint", "system_constraint", "technical_constraint", "tool_constraint", "test_constraint",
    "system_invariant", "invariant"
  }

  const MEASUREMENT_ALIASES: set<Kind> := {
    "measurement_limitation"
  }

  const HYPOTHESIS_ALIASES: set<Kind> := {
    "validated_hypothesis"
  }

  function AliasOf(kind: Kind): Option<Kind> {
    if kind in FACT_ALIASES then Some("fact")
    else if kind in RISK_ALIASES then Some("risk")
    else if kind in OBSERVATION_ALIASES then Some("observation")
    else if kind in OUTCOME_ALIASES then Some("outcome")
    else if kind in LESSON_ALIASES then Some("lesson")
    else if kind in PROCEDURE_ALIASES then Some("procedure")
    else if kind in CONSTRAINT_ALIASES then Some("constraint")
    else if kind in MEASUREMENT_ALIASES then Some("measurement")
    else if kind in HYPOTHESIS_ALIASES then Some("hypothesis")
    else None
  }

  /** No alias stands for a kind that is itself an alias. */
  ghost predicate Settled(aliases: Aliases) {
    forall k :: aliases(k).Some? ==> aliases(aliases(k).value).None?
  }

  lemma KindsAreNoAliases1()
    ensures AliasOf("fact").None? && AliasOf("lesson").None? && AliasOf("constraint").None?
  {
  }

  lemma KindsAreNoAliases2()
    ensures AliasOf("outcome").None? && AliasOf("hypothesis").None? && AliasOf("measurement").None?
  {
  }

  lemma KindsAreNoAliases3()
    ensures AliasOf("risk").None? && AliasOf("procedure").None? && AliasOf("observation").None?
  {
  }

  /** The shipped aliases all lead to canonical kinds, and no canonical kind is an alias. */
  lemma ShippedAliasesAreSettled()
    ensures Settled(AliasOf)
    ensures forall k | k in MEMORY_KINDS :: AliasOf(k).None?
    ensures forall k | AliasOf(k).Some? :: AliasOf(k).value in MEMORY_KINDS
  {
    KindsAreNoAliases1();
    KindsAreNoAliases2();
    KindsAreNoAliases3();
    forall k | AliasOf(k).Some? ensures AliasOf(k).value in MEMORY_KINDS {
    }
  }

  // One alias of each canonical kind.

  lemma AliasSamples1()
    ensures AliasOf("durable_fact") == Some("fact") && AliasOf("blocker") == Some("risk") && AliasOf("question") == Some("observation")
  {
  }

  lemma AliasSamples2()
    ensures AliasOf("decision") == Some("outcome") && AliasOf("lesson_learned") == Some("lesson")
    ensures AliasOf("best_practice") == Some("procedure") && AliasOf("invariant") == Some("constraint")
  {
  }

  lemma AliasSamples3()
    ensures AliasOf("measurement_limitation") == Some("measurement") && AliasOf("validated_hypothesis") == Some("hypothesis")
  {
  }

  function NormalizeMemoryKind(kind: Kind): Kind {
    if kind in MEMORY_KINDS then kind
    else
      match AliasOf(kind)
      case Some(canonical) => canonical
      case None => "observation"
  }

  /** The vocabulary is closed, its own kinds stay, unknown ones are observations, and normalising
      twice is normalising once. */
  lemma NormalizedKindIsCanonical(kind: Kind)
    ensures NormalizeMemoryKind(kind) in MEMORY_KINDS
    ensures kind in MEMORY_KINDS ==> NormalizeMemoryKind(kind) == kind
    ensures kind !in MEMORY_KINDS ==>
              NormalizeMemoryKind(kind) == if AliasOf(kind).Some? then AliasOf(kind).value else "observation"
    ensures NormalizeMemoryKind(NormalizeMemoryKind(kind)) == NormalizeMemoryKind(kind)
  {
    ShippedAliasesAreSettled();
  }

  function Canonical(aliases: Aliases, kind: Kind): Kind {
    match aliases(kind)
    case Some(canonical) => canonical
    case None => kind
  }

  /** `UNIQUE(kind, content)`. */
  ghost predicate Unique(m: Memories) {
    forall i, j | i in m && j in m && i != j :: m[i].kind != m[j].kind || m[i].content != m[j].content
  }

  function Legacy(aliases: Aliases, m: Memories): set<Id> {
    set id | id in m && aliases(m[id].kind).Some?
  }

  ghost predicate SameClass(aliases: Aliases, a: Row, b: Row) {
    Canonical(aliases, a.kind) == Canonical(aliases, b.kind) && a.content == b.content
  }

  /** `id`'s class has a survivor at least as confident as `id` was, and a row that already had
      the canonical kind only gives way to a more confident one. */
  ghost predicate Represented(aliases: Aliases, before: Memories, after: Memories, id: Id, rep: Id)
    requires id in before
  {
    && rep in after && rep in before
    && SameClass(aliases, before[rep], before[id])
    && before[rep].confidence >= before[id].confidence
    && (aliases(before[id].kind).None? ==> rep == id || before[rep].confidence > before[id].confidence)
  }

  /** What the migration does: every surviving row is an old one under its canonical kind, every
      class of old rows has a survivor, and no two survivors are duplicates. */
  ghost predicate Merged(aliases: Aliases, before: Memories, after: Memories) {
    && (forall id | id in after :: id in before && after[id] == before[id].(kind := Canonical(aliases, before[id].kind)))
    && (forall id {:trigger HasRep(aliases, before, after, {}, id)} | id in before ::
          HasRep(aliases, before, after, {}, id))
    && Unique(after)
  }

  ghost predicate HasRep(aliases: Aliases, before: Memories, after: Memories, pending: set<Id>, id: Id)
    requires id in before
  {
    exists rep :: rep !in pending && Represented(aliases, before, after, id, rep)
  }

  /** One index entry per memory, with its kind and content, and no entry besides. */
  ghost predicate Agree(m: Memories, fts: seq<FtsRow>) {
    && (forall i | 0 <= i < |fts| :: fts[i].id in m && fts[i] == FtsRow(fts[i].id, m[fts[i].id].kind, m[fts[i].id].content))
    && (forall i, j | 0 <= i < j < |fts| :: fts[i].id != fts[j].id)
    && (forall id | id in m :: FtsRow(id, m[id].kind, m[id].content) in fts)
  }

  function Without(fts: seq<FtsRow>, id: Id): seq<FtsRow> {
    if fts == [] then []
    else
      var before, last := Without(fts[..|fts| - 1], id), fts[|fts| - 1];
      if last.id == id then before else before + [last]
  }

  lemma {:induction false} WithoutMembers(fts: seq<FtsRow>, id: Id)
    ensures forall r :: r in Without(fts, id) <==> r in fts && r.id != id
  {
    if fts == [] {
    } else {
      WithoutMembers(fts[..|fts| - 1], id);
    }
  }

  lemma {:induction false} WithoutKeepsIdsApart(fts: seq<FtsRow>, id: Id)
    requires forall i, j | 0 <= i < j < |fts| :: fts[i].id != fts[j].id
    ensures forall i, j | 0 <= i < j < |Without(fts, id)| :: Without(fts, id)[i].id != Without(fts, id)[j].id
  {
    if fts == [] {
    } else {
      var before := fts[..|fts| - 1];
      WithoutKeepsIdsApart(before, id);
      WithoutMembers(before, id);
      forall r | r in Without(before, id) ensures r.id != fts[|fts| - 1].id {
        var i :| 0 <= i < |before| && before[i] == r;
        assert fts[i] == r;
      }
    }
  }

  /** Deleting a row and its entry keeps the two tables in step. */
  lemma DeleteAgrees(m: Memories, fts: seq<FtsRow>, id: Id)
    requires Agree(m, fts)
    ensures Agree(m - {id}, Without(fts, id))
  {
    var m', fts' := m - {id}, Without(fts, id);
    WithoutMembers(fts, id);
    WithoutKeepsIdsApart(fts, id);
    forall i | 0 <= i < |fts'| ensures fts'[i].id in m' && fts'[i] == FtsRow(fts'[i].id, m'[fts'[i].id].kind, m'[fts'[i].id].content) {
      assert fts'[i] in fts';
      var j :| 0 <= j < |fts| && fts[j] == fts'[i];
    }
  }

  /** Rewriting a row and re-indexing it keeps the two tables in step. */
  lemma ReindexAgrees(m: Memories, fts: seq<FtsRow>, id: Id, row: Row)
    requires Agree(m, fts)
    ensures Agree(m[id := row], Without(fts, id) + [FtsRow(id, row.kind, row.content)])
  {
    DeleteAgrees(m, fts, id);
    WithoutMembers(fts, id);
    var rest := Without(fts, id);
    assert forall k | 0 <= k < |rest| :: rest[k] in rest && rest[k].id != id;
    var m', fts' := m[id := row], rest + [FtsRow(id, row.kind, row.content)];
    forall k | k in m' ensures FtsRow(k, m'[k].kind, m'[k].content) in fts' {
      if k == id {
        assert fts'[|rest|] == FtsRow(k, m'[k].kind, m'[k].content);
      } else {
        assert k in m - {id};
        assert FtsRow(k, m'[k].kind, m'[k].content) in rest;
      }
    }
  }

  /** An index in step with its memories has as many entries. */
  lemma {:induction false} AgreeCounts(m: Memories, fts: seq<FtsRow>)
    requires Agree(m, fts)
    ensures |fts| == |m|
    decreases |fts|
  {
    if fts == [] {
      assert m.Keys == {};
    } else {
      var front, last := fts[..|fts| - 1], fts[|fts| - 1];
      var rest := m - {last.id};
      forall id | id in rest ensures FtsRow(id, rest[id].kind, rest[id].content) in front {
        var i :| 0 <= i < |fts| && fts[i] == FtsRow(id, m[id].kind, m[id].content);
        assert fts[i] == front[i];
      }
      AgreeCounts(rest, front);
      assert rest.Keys == m.Keys - {last.id};
    }
  }

  lemma NotInStep(m: Memories, fts: seq<FtsRow>)
    requires |fts| != |m|
    ensures !Agree(m, fts)
  {
    if Agree(m, fts) { AgreeCounts(m, fts); }
  }

  /** What SQLite does at startup: whether the search extension can create the table, and where a
      rebuild of the index fails, if it does. */
  datatype Fault = NoFault | ClearFails | FillFails

  class MemoryStore {
    const aliases: Aliases
    const ftsAvailable: bool
    var memories: Memories
    var fts: seq<FtsRow>

    ghost predicate Valid()
      reads this
    {
      Settled(aliases) && Unique(memories)
    }

    /** The search projection is not kept, or it agrees with the memories. */
    ghost predicate InStep()
      reads this
    {
      ftsAvailable ==> Agree(memories, fts)
    }

    /** `_ensure_fts`: an index found is trusted when its count is right, rebuilt when it is not;
        one that is not there is created. It is in step afterwards exactly when an index of the
        right count was, or one of the wrong count could be rebuilt. */
    constructor (aliases: Aliases, memories: Memories, found: Option<seq<FtsRow>>, canCreate: bool, fault: Fault)
      requires Settled(aliases) && Unique(memories)
      ensures Valid() && this.aliases == aliases && this.memories == memories
      ensures ftsAvailable <==> found.Some? || canCreate
      ensures ftsAvailable ==>
                var table := if found.Some? then found.value else [];
                if |table| == |memories| then fts == table
                else InStep() <==> fault.NoFault? || (fault.FillFails? && memories == map[])
    {
      this.aliases := aliases;
      this.ftsAvailable := found.Some? || canCreate;
      this.memories := memories;
      fts := if found.Some? then found.value else [];
      new;
      if ftsAvailable && |memories| != |fts| {
        match fault {
          case NoFault =>
            RebuildIndex();
          case ClearFails =>
            NotInStep(memories, fts);
          case FillFails =>
            fts := [];
            if memories != map[] { NotInStep(memories, fts); }
        }
      }
    }

    method RebuildIndex()
      modifies this`fts
      ensures ftsAvailable ==> Agree(memories, fts)
      ensures !ftsAvailable ==> fts == old(fts)
    {
      if !ftsAvailable { return; }
      fts := [];
      var pending := memories.Keys;
      ghost var done: Memories := map[];
      while pending != {}
        invariant pending <= memories.Keys
        invariant done == map id | id in memories && id !in pending :: memories[id]
        invariant Agree(done, fts)
        decreases |pending|
      {
        if forall x :: x !in pending { assert false; }
        var id :| id in pending;
        ghost var row := memories[id];
        ReindexAgrees(done, fts, id, row);
        NotIndexed(done, fts, id);
        fts := fts + [FtsRow(id, memories[id].kind, memories[id].content)];
        done := done[id := row];
        pending := pending - {id};
      }
      assert done == memories;
    }

    method IndexMemory(id: Id, kind: Kind, content: string)
      modifies this`fts
      ensures fts == if ftsAvailable then Without(old(fts), id) + [FtsRow(id, kind, content)] else old(fts)
    {
      if !ftsAvailable { return; }
      fts := Without(fts, id);
      fts := fts + [FtsRow(id, kind, content)];
    }

    method DeleteMemory(id: Id)
      modifies this`memories, this`fts
      ensures memories == old(memories) - {id}
      ensures fts == if ftsAvailable then Without(old(fts), id) else old(fts)
    {
      memories := memories - {id};
      if ftsAvailable {
        fts := Without(fts, id);
      }
    }

    /** The row holding (kind, content), if there is one: `UNIQUE` allows no second. */
    method Find(kind: Kind, content: string) returns (found: Option<Id>)
      ensures found.None? ==> forall id | id in memories :: memories[id].kind != kind || memories[id].content != content
      ensures found.Some? ==>
                found.value in memories && memories[found.value].kind == kind && memories[found.value].content == content
    {
      if id :| id in memories && memories[id].kind == kind && memories[id].content == content {
        return Some(id);
      }
      return None;
    }

    method NormalizeLegacyKinds() returns (changed: nat)
      requires Valid()
      modifies this`memories, this`fts
      ensures Valid() && (old(InStep()) ==> InStep())
      ensures Merged(aliases, old(memories), memories)
      ensures changed == |Legacy(aliases, old(memories))|
    {
      ghost var before := memories;
      var pending := Legacy(aliases, memories);
      changed := 0;
      forall id | id in before && id !in pending
        ensures HasRep(aliases, before, memories, pending, id)
      {
        assert Represented(aliases, before, memories, id, id);
      }
      while pending != {}
        invariant Valid() && (old(InStep()) ==> InStep())
        invariant Migrating(aliases, before, memories, pending)
        invariant changed + |pending| == |Legacy(aliases, before)|
        decreases |pending|
      {
        if forall x :: x !in pending { assert false; }
        var id :| id in pending;
        NormalizeOne(before, pending, id);
        pending := pending - {id};
        changed := changed + 1;
      }
    }

    /** One turn of the loop, for the fetched row `id`. */
    method NormalizeOne(ghost before: Memories, ghost pending: set<Id>, id: Id)
      requires Valid() && id in pending && Migrating(aliases, before, memories, pending)
      modifies this`memories, this`fts
      ensures Valid() && Migrating(aliases, before, memories, pending - {id}) && (old(InStep()) ==> InStep())
    {
      var row := memories[id];
      var canonical := aliases(row.kind).value;
      var existing := Find(canonical, row.content);
      if existing.Some? && memories[existing.value].confidence >= row.confidence {
        DropKeepsMigrating(aliases, before, memories, pending, id, existing.value);
        if ftsAvailable && InStep() { DeleteAgrees(memories, fts, id); }
        DeleteMemory(id);
      } else {
        RekindKeepsMigrating(aliases, before, memories, pending, id, existing);
        if existing.Some? {
          if ftsAvailable && InStep() { DeleteAgrees(memories, fts, existing.value); }
          DeleteMemory(existing.value);
        }
        if ftsAvailable && InStep() { ReindexAgrees(memories, fts, id, row.(kind := canonical)); }
        memories := memories[id := memories[id].(kind := canonical)];
        IndexMemory(id, canonical, row.content);
      }
    }
  }

  /** An index of the right count is taken as it is found, whatever it holds. */
  method StaleIndexStays(row: Row, stale: FtsRow, fault: Fault) returns (store: MemoryStore)
    requires stale != FtsRow(stale.id, row.kind, row.content)
    ensures fresh(store) && store.Valid() && !store.InStep()
  {
    ShippedAliasesAreSettled();
    store := new MemoryStore(AliasOf, map[stale.id := row], Some([stale]), true, fault);
    assert stale.id in store.memories && store.fts[0] == stale;
  }

  /** The table between two turns: the fetched rows still to come are as they were, and every
      other row is a survivor under its canonical kind. */
  ghost predicate Migrating(aliases: Aliases, before: Memories, m: Memories, pending: set<Id>) {
    && pending <= Legacy(aliases, before)
    && (forall id | id in pending :: id in m)
    && (forall id | id in m :: id in before
          && m[id] == if id in pending then before[id] else before[id].(kind := Canonical(aliases, before[id].kind)))
    && (forall id {:trigger HasRep(aliases, before, m, pending, id)} | id in before && id !in pending ::
          HasRep(aliases, before, m, pending, id))
  }

  /** A row that is not pending stands under a kind that is no alias. */
  lemma OnlyPendingAreLegacy(aliases: Aliases, before: Memories, m: Memories, pending: set<Id>, id: Id)
    requires Settled(aliases) && Migrating(aliases, before, m, pending) && id in m
    ensures id in pending <==> aliases(m[id].kind).Some?
  {
    if id in pending {
      assert id in Legacy(aliases, before);
    } else if aliases(before[id].kind).Some? {
      assert aliases(aliases(before[id].kind).value).None?;
    }
  }

  /** The fetched row is dropped: `keeper` already holds its content under the canonical kind,
      no less confident. */
  lemma DropKeepsMigrating(aliases: Aliases, before: Memories, m: Memories, pending: set<Id>, id: Id, keeper: Id)
    requires Settled(aliases) && Migrating(aliases, before, m, pending) && id in pending
    requires keeper in m && m[keeper].kind == Canonical(aliases, m[id].kind) && m[keeper].content == m[id].content
    requires m[keeper].confidence >= m[id].confidence
    ensures Migrating(aliases, before, m - {id}, pending - {id})
  {
    var m' := m - {id};
    OnlyPendingAreLegacy(aliases, before, m, pending, id);
    OnlyPendingAreLegacy(aliases, before, m, pending, keeper);
    assert aliases(aliases(m[id].kind).value).None?;
    forall x | x in before && x !in pending - {id}
      ensures HasRep(aliases, before, m', pending - {id}, x)
    {
      if x == id {
        assert Represented(aliases, before, m', x, keeper);
      } else {
        assert HasRep(aliases, before, m, pending, x);
        var rep :| rep !in pending && Represented(aliases, before, m, x, rep);
        assert Represented(aliases, before, m', x, rep);
      }
    }
  }

  /** The fetched row takes the canonical kind, in place of the less confident row that held it. */
  lemma RekindKeepsMigrating(aliases: Aliases, before: Memories, m: Memories, pending: set<Id>, id: Id, existing: Option<Id>)
    requires Settled(aliases) && Migrating(aliases, before, m, pending) && id in pending && Unique(m)
    requires existing.None? ==>
               forall k | k in m :: m[k].kind != Canonical(aliases, m[id].kind) || m[k].content != m[id].content
    requires existing.Some? ==>
               && existing.value in m && m[existing.value].kind == Canonical(aliases, m[id].kind)
               && m[existing.value].content == m[id].content && m[existing.value].confidence < m[id].confidence
    ensures var kept := if existing.Some? then m - {existing.value} else m;
            var m' := kept[id := m[id].(kind := Canonical(aliases, m[id].kind))];
            id in kept && Unique(m') && Migrating(aliases, before, m', pending - {id})
  {
    var kept := if existing.Some? then m - {existing.value} else m;
    var m' := kept[id := m[id].(kind := Canonical(aliases, m[id].kind))];
    OnlyPendingAreLegacy(aliases, before, m, pending, id);
    assert aliases(aliases(m[id].kind).value).None?;
    if existing.Some? {
      OnlyPendingAreLegacy(aliases, before, m, pending, existing.value);
    }
    forall x | x in before && x !in pending - {id}
      ensures HasRep(aliases, before, m', pending - {id}, x)
    {
      if x == id {
        assert Represented(aliases, before, m', x, id);
      } else {
        assert HasRep(aliases, before, m, pending, x);
        var rep :| rep !in pending && Represented(aliases, before, m, x, rep);
        if existing == Some(rep) {
          assert Represented(aliases, before, m', x, id);
        } else {
          assert Represented(aliases, before, m', x, rep);
        }
      }
    }
  }

  lemma NotIndexed(m: Memories, fts: seq<FtsRow>, id: Id)
    requires Agree(m, fts) && id !in m
    ensures Without(fts, id) == fts
  {
    WithoutNothing(fts, id);
  }

  lemma {:induction false} WithoutNothing(fts: seq<FtsRow>, id: Id)
    requires forall i | 0 <= i < |fts| :: fts[i].id != id
    ensures Without(fts, id) == fts
  {
    if fts == [] {
    } else {
      WithoutNothing(fts[..|fts| - 1], id);
    }
  }

  // ------------------------------------------------------------------------------------------
  // What a migration means
  // ------------------------------------------------------------------------------------------

  /** The rows of one (canonical kind, content) class. */
  ghost function ClassOf(aliases: Aliases, m: Memories, row: Row): set<Id> {
    set id | id in m && SameClass(aliases, m[id], row)
  }

  /** Each class that had rows has exactly one afterwards: an old row of the class, as confident
      as any of them was. */
  lemma OneSurvivorPerClass(aliases: Aliases, before: Memories, after: Memories, row: Row) returns (survivor: Id)
    requires Settled(aliases) && Merged(aliases, before, after)
    requires ClassOf(aliases, before, row) != {}
    ensures ClassOf(aliases, after, row) == {survivor}
    ensures survivor in ClassOf(aliases, before, row)
    ensures forall id | id in ClassOf(aliases, before, row) :: before[id].confidence <= after[survivor].confidence
    ensures forall id | id in ClassOf(aliases, before, row) && aliases(before[id].kind).None? ::
              id == survivor || before[id].confidence < after[survivor].confidence
  {
    var members := ClassOf(aliases, before, row);
    if forall x :: x !in members { assert false; }
    var id :| id in members;
    assert HasRep(aliases, before, after, {}, id);
    survivor :| Represented(aliases, before, after, id, survivor);
    forall other | other in ClassOf(aliases, after, row) ensures other == survivor {
      assert after[other].kind == after[survivor].kind && after[other].content == after[survivor].content;
    }
    forall x | x in members
      ensures before[x].confidence <= after[survivor].confidence
      ensures aliases(before[x].kind).None? ==> x == survivor || before[x].confidence < after[survivor].confidence
    {
      assert HasRep(aliases, before, after, {}, x);
      var rep :| Represented(aliases, before, after, x, rep);
      assert rep in ClassOf(aliases, after, row);
    }
  }

  /** No aliased kind is left. */
  lemma NoLegacyLeft(aliases: Aliases, before: Memories, after: Memories)
    requires Settled(aliases) && Merged(aliases, before, after)
    ensures Legacy(aliases, after) == {}
  {
    forall id | id in after ensures aliases(after[id].kind).None? {
      if aliases(before[id].kind).Some? {
        assert aliases(aliases(before[id].kind).value).None?;
      }
    }
  }

  /** A table without legacy kinds is left exactly as it is, so a second run changes nothing. */
  lemma SecondRunIsIdle(aliases: Aliases, before: Memories, after: Memories)
    requires Unique(before) && Legacy(aliases, before) == {} && Merged(aliases, before, after)
    ensures after == before
  {
    forall id | id in before ensures aliases(before[id].kind).None? {
      assert id !in Legacy(aliases, before);
    }
    forall id | id in before ensures id in after && after[id] == before[id] {
      assert HasRep(aliases, before, after, {}, id);
      var rep :| Represented(aliases, before, after, id, rep);
      assert before[rep].kind == before[id].kind && before[rep].content == before[id].content;
    }
    forall id | id in after ensures id in before && after[id] == before[id] {
    }
    assert forall id :: id in after <==> id in before;
    assert after.Keys == before.Keys;
  }
}
