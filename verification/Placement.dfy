/** The bounded page placement of the memory search (skynet/memory_store.py): fused scores are
    ranked, and every lexically ranked memory may rise at most `maxLift` slots above its own
    lexical rank. */
module Placement {
  import opened Options

  /** Memory ids enter only through equality and their order, which breaks score ties. */
  type Id = int
  type Slot = Option<Id>
  type Slots = seq<Slot>

  // ------------------------------------------------------------------------------------------
  // Score fusion
  // ------------------------------------------------------------------------------------------

  const RRF_K := 60

  /** One fusion axis: its ids in rank order, and its weight. */
  datatype Axis = Axis(ids: seq<Id>, weight: real)

  function Get(scores: map<Id, real>, id: Id): real {
    if id in scores then scores[id] else 0.0
  }

  /** What an axis adds to an id: weight / (60 + rank) for every place the id has on it. */
  function Share(axis: Axis, upTo: nat, id: Id): real
    requires upTo <= |axis.ids|
  {
    if upTo == 0 then 0.0
    else Share(axis, upTo - 1, id)
         + if axis.ids[upTo - 1] == id then axis.weight / (RRF_K + upTo) as real else 0.0
  }

  function Total(axes: seq<Axis>, id: Id): real {
    if axes == [] then 0.0
    else Total(axes[..|axes| - 1], id) + Share(axes[|axes| - 1], |axes[|axes| - 1].ids|, id)
  }

  /** Every id some axis returned is scored, with the sum of what the axes give it. */
  method FuseScores(axes: seq<Axis>) returns (scores: map<Id, real>)
    ensures forall id :: id in scores <==> exists a :: 0 <= a < |axes| && id in axes[a].ids
    ensures forall id :: Get(scores, id) == Total(axes, id)
  {
    scores := map[];
    var a := 0;
    while a < |axes|
      invariant 0 <= a <= |axes|
      invariant forall id :: id in scores <==> exists b :: 0 <= b < a && id in axes[b].ids
      invariant forall id :: Get(scores, id) == Total(axes[..a], id)
    {
      scores := AddAxis(scores, axes[a]);
      assert axes[..a + 1][..a] == axes[..a];
      a := a + 1;
    }
    assert axes[..a] == axes;
  }

  method AddAxis(before: map<Id, real>, axis: Axis) returns (scores: map<Id, real>)
    ensures forall id :: id in scores <==> id in before || id in axis.ids
    ensures forall id :: Get(scores, id) == Get(before, id) + Share(axis, |axis.ids|, id)
  {
    scores := before;
    var r := 0;
    while r < |axis.ids|
      invariant 0 <= r <= |axis.ids|
      invariant forall id :: id in scores <==> id in before || id in axis.ids[..r]
      invariant forall id :: Get(scores, id) == Get(before, id) + Share(axis, r, id)
    {
      var id := axis.ids[r];
      scores := scores[id := Get(scores, id) + axis.weight / (RRF_K + r + 1) as real];
      assert axis.ids[..r + 1] == axis.ids[..r] + [id];
      r := r + 1;
    }
    assert axis.ids[..r] == axis.ids;
  }

  // ------------------------------------------------------------------------------------------
  // Ranking
  // ------------------------------------------------------------------------------------------

  /** Higher scores first; equal scores in id order. */
  predicate Before(scores: map<Id, real>, a: Id, b: Id)
    requires a in scores && b in scores
  {
    scores[a] > scores[b] || (scores[a] == scores[b] && a < b)
  }

  ghost predicate Distinct(ids: seq<Id>) {
    forall i, j | 0 <= i < j < |ids| :: ids[i] != ids[j]
  }

  /** All the scored ids, each once, best first. */
  ghost predicate IsRanking(scores: map<Id, real>, ranked: seq<Id>) {
    && (forall id :: id in ranked <==> id in scores)
    && (forall i, j | 0 <= i < j < |ranked| ::
          ranked[i] in scores && ranked[j] in scores && Before(scores, ranked[i], ranked[j]))
  }

  ghost predicate IsBest(scores: map<Id, real>, ids: set<Id>, x: Id)
    requires ids <= scores.Keys
  {
    x in ids && forall y | y in ids && y != x :: Before(scores, x, y)
  }

  lemma HasBest(scores: map<Id, real>, ids: set<Id>)
    requires ids != {} && ids <= scores.Keys
    ensures exists x :: IsBest(scores, ids, x)
    decreases |ids|
  {
    if forall x :: x !in ids {
      assert false;
    }
    var x :| x in ids;
    var rest := ids - {x};
    assert forall y | y in ids :: y == x || y in rest;
    if rest == {} {
      assert IsBest(scores, ids, x);
    } else {
      HasBest(scores, rest);
      var z :| IsBest(scores, rest, z);
      assert IsBest(scores, ids, if Before(scores, x, z) then x else z);
    }
  }

  lemma OnlyOneBest(scores: map<Id, real>, ids: set<Id>, x: Id, y: Id)
    requires ids <= scores.Keys && IsBest(scores, ids, x) && IsBest(scores, ids, y)
    ensures x == y
  {
    if x != y {
      assert false;
    }
  }

  ghost function Best(scores: map<Id, real>, ids: set<Id>): (x: Id)
    requires ids != {} && ids <= scores.Keys
    ensures IsBest(scores, ids, x)
  {
    HasBest(scores, ids);
    var x :| IsBest(scores, ids, x);
    x
  }

  ghost function Ranking(scores: map<Id, real>, ids: set<Id>): seq<Id>
    requires ids <= scores.Keys
    decreases |ids|
  {
    if ids == {} then []
    else
      var best := Best(scores, ids);
      [best] + Ranking(scores, ids - {best})
  }

  ghost function Ranked(scores: map<Id, real>): seq<Id> {
    Ranking(scores, scores.Keys)
  }

  lemma {:induction false} RankingLists(scores: map<Id, real>, ids: set<Id>)
    requires ids <= scores.Keys
    ensures forall id :: id in Ranking(scores, ids) <==> id in ids
    ensures forall i, j | 0 <= i < j < |Ranking(scores, ids)| ::
              Ranking(scores, ids)[i] in ids && Ranking(scores, ids)[j] in ids
              && Before(scores, Ranking(scores, ids)[i], Ranking(scores, ids)[j])
    decreases |ids|
  {
    if ids == {} {
    } else {
      var best := Best(scores, ids);
      RankingLists(scores, ids - {best});
      var rest := Ranking(scores, ids - {best});
      assert Ranking(scores, ids) == [best] + rest;
      forall j | 0 <= j < |rest| ensures Before(scores, best, rest[j]) {
        assert rest[j] in rest;
      }
    }
  }

  lemma RankedIsRanking(scores: map<Id, real>)
    ensures IsRanking(scores, Ranked(scores))
  {
    RankingLists(scores, scores.Keys);
  }

  /** The best of what is left: there is one, and only one. */
  method PickBest(scores: map<Id, real>, ids: set<Id>) returns (x: Id)
    requires ids != {} && ids <= scores.Keys
    ensures x == Best(scores, ids)
  {
    HasBest(scores, ids);
    x :| x in ids && forall y | y in ids && y != x :: Before(scores, x, y);
    OnlyOneBest(scores, ids, x, Best(scores, ids));
  }

  /** `sorted(scores.items(), key=(-score, id))`, as repeated selection of the best. */
  method Rank(scores: map<Id, real>) returns (ranked: seq<Id>)
    ensures ranked == Ranked(scores)
  {
    ranked := [];
    var pending := scores.Keys;
    while pending != {}
      invariant pending <= scores.Keys
      invariant ranked + Ranking(scores, pending) == Ranked(scores)
      decreases |pending|
    {
      var best := PickBest(scores, pending);
      ghost var rest := Ranking(scores, pending - {best});
      assert Ranking(scores, pending) == [best] + rest;
      assert ranked + ([best] + rest) == (ranked + [best]) + rest;
      ranked := ranked + [best];
      pending := pending - {best};
    }
  }

  // ------------------------------------------------------------------------------------------
  // First fit
  // ------------------------------------------------------------------------------------------

  /** The first empty slot from `start` on, or the page's length. */
  function FirstFree(slots: Slots, start: nat): (k: nat)
    ensures k < |slots| ==> start <= k && slots[k].None?
    decreases |slots| - start
  {
    if start >= |slots| then |slots|
    else if slots[start].None? then start
    else FirstFree(slots, start + 1)
  }

  lemma {:induction false} NoneFreeBefore(slots: Slots, start: nat)
    ensures FirstFree(slots, start) <= |slots|
    ensures forall i | start <= i < FirstFree(slots, start) :: slots[i].Some?
    decreases |slots| - start
  {
    if start >= |slots| || slots[start].None? {
    } else {
      NoneFreeBefore(slots, start + 1);
    }
  }

  function Put(slots: Slots, start: nat, id: Id): Slots {
    var k := FirstFree(slots, start);
    if k < |slots| then slots[k := Some(id)] else slots
  }

  /** Where the bounded lift lets each lexical id start: its own rank less the lift. */
  function Start(rank: map<Id, nat>, maxLift: nat, id: Id): nat {
    if id in rank && rank[id] > maxLift + 1 then rank[id] - 1 - maxLift else 0
  }

  function PutAll(slots: Slots, ids: seq<Id>, rank: map<Id, nat>, maxLift: nat): (r: Slots)
    ensures |r| == |slots|
  {
    if ids == [] then slots
    else
      var id := ids[|ids| - 1];
      Put(PutAll(slots, ids[..|ids| - 1], rank, maxLift), Start(rank, maxLift, id), id)
  }

  function Keep(ids: seq<Id>, wanted: set<Id>): seq<Id>
  {
    if ids == [] then []
    else
      var before, id := Keep(ids[..|ids| - 1], wanted), ids[|ids| - 1];
      if id in wanted then before + [id] else before
  }

  function Drop(ids: seq<Id>, unwanted: set<Id>): seq<Id>
  {
    if ids == [] then []
    else
      var before, id := Drop(ids[..|ids| - 1], unwanted), ids[|ids| - 1];
      if id in unwanted then before else before + [id]
  }

  function Empty(limit: nat): Slots {
    seq(limit, _ => None)
  }

  function Filled(slots: Slots): (r: seq<Id>) {
    if slots == [] then []
    else Filled(slots[..|slots| - 1])
         + match slots[|slots| - 1] case None => [] case Some(id) => [id]
  }

  function Placed(slots: Slots): set<Id> {
    set s <- slots | s.Some? :: s.value
  }

  /** The lexical axis in rank order, ranks counted from 1. */
  function Ranks(lexical: seq<Id>): map<Id, nat>
  {
    if lexical == [] then map[]
    else Ranks(lexical[..|lexical| - 1])[lexical[|lexical| - 1] := |lexical|]
  }

  function LexicalPass(ranked: seq<Id>, lexical: seq<Id>, limit: nat, maxLift: nat): Slots {
    PutAll(Empty(limit), Keep(ranked, Ranks(lexical).Keys), Ranks(lexical), maxLift)
  }

  function FillPass(slots: Slots, ranked: seq<Id>, lexical: seq<Id>): Slots {
    PutAll(slots, Drop(ranked, Ranks(lexical).Keys), map[], 0)
  }

  function RescuePass(slots: Slots, ranked: seq<Id>): Slots {
    PutAll(slots, Drop(ranked, Placed(slots)), map[], 0)
  }

  function Page(ranked: seq<Id>, lexical: seq<Id>, limit: nat, maxLift: nat): seq<Id> {
    Filled(RescuePass(FillPass(LexicalPass(ranked, lexical, limit, maxLift), ranked, lexical), ranked))
  }

  // ------------------------------------------------------------------------------------------
  // The placement itself, in place over an array of slots
  // ------------------------------------------------------------------------------------------

  /** The inner loop of every pass: the id goes into the first empty slot from `start` on. */
  method PlaceFrom(slots: array<Slot>, start: nat, id: Id)
    modifies slots
    ensures slots[..] == Put(old(slots[..]), start, id)
  {
    var index := start;
    while index < slots.Length
      invariant start <= index
      invariant slots[..] == old(slots[..])
      invariant FirstFree(slots[..], start) == FirstFree(slots[..], index)
    {
      if slots[index].None? {
        slots[index] := Some(id);
        return;
      }
      index := index + 1;
    }
  }

  lemma Snoc(slots: Slots, ids: seq<Id>, id: Id, rank: map<Id, nat>, maxLift: nat)
    ensures PutAll(slots, ids + [id], rank, maxLift)
            == Put(PutAll(slots, ids, rank, maxLift), Start(rank, maxLift, id), id)
  {
    assert (ids + [id])[..|ids|] == ids;
  }

  lemma KeepDropSnoc(ids: seq<Id>, id: Id, s: set<Id>)
    ensures Keep(ids + [id], s) == if id in s then Keep(ids, s) + [id] else Keep(ids, s)
    ensures Drop(ids + [id], s) == if id in s then Drop(ids, s) else Drop(ids, s) + [id]
  {
    assert (ids + [id])[..|ids|] == ids;
  }

  lemma KeepStep(slots: Slots, order: seq<Id>, i: nat, rank: map<Id, nat>, maxLift: nat)
    requires i < |order|
    ensures PutAll(slots, Keep(order[..i + 1], rank.Keys), rank, maxLift)
         == if order[i] in rank
            then Put(PutAll(slots, Keep(order[..i], rank.Keys), rank, maxLift), Start(rank, maxLift, order[i]), order[i])
            else PutAll(slots, Keep(order[..i], rank.Keys), rank, maxLift)
  {
    assert order[..i + 1] == order[..i] + [order[i]];
    KeepDropSnoc(order[..i], order[i], rank.Keys);
    Snoc(slots, Keep(order[..i], rank.Keys), order[i], rank, maxLift);
  }

  method PlaceLexical(slots: array<Slot>, order: seq<Id>, rank: map<Id, nat>, maxLift: nat)
    modifies slots
    ensures slots[..] == PutAll(old(slots[..]), Keep(order, rank.Keys), rank, maxLift)
  {
    ghost var before := slots[..];
    ghost var now := before;
    var i := 0;
    while i < |order|
      invariant 0 <= i <= |order|
      invariant slots[..] == now == PutAll(before, Keep(order[..i], rank.Keys), rank, maxLift)
    {
      KeepStep(before, order, i, rank, maxLift);
      if order[i] in rank {
        PlaceFrom(slots, Start(rank, maxLift, order[i]), order[i]);
        now := Put(now, Start(rank, maxLift, order[i]), order[i]);
      }
      i := i + 1;
    }
    assert order[..i] == order;
  }

  lemma DropStep(slots: Slots, order: seq<Id>, i: nat, skipped: set<Id>)
    requires i < |order|
    ensures PutAll(slots, Drop(order[..i + 1], skipped), map[], 0)
         == if order[i] in skipped then PutAll(slots, Drop(order[..i], skipped), map[], 0)
            else Put(PutAll(slots, Drop(order[..i], skipped), map[], 0), 0, order[i])
  {
    assert order[..i + 1] == order[..i] + [order[i]];
    KeepDropSnoc(order[..i], order[i], skipped);
    Snoc(slots, Drop(order[..i], skipped), order[i], map[], 0);
  }

  /** One turn of passes 2 and 3. */
  method PlaceUnless(slots: array<Slot>, ghost now: Slots, id: Id, skipped: set<Id>) returns (ghost next: Slots)
    requires slots[..] == now
    modifies slots
    ensures slots[..] == next == if id in skipped then now else Put(now, 0, id)
  {
    next := now;
    if id !in skipped {
      PlaceFrom(slots, 0, id);
      next := Put(now, 0, id);
    }
  }

  method PlaceOthers(slots: array<Slot>, order: seq<Id>, skipped: set<Id>)
    modifies slots
    ensures slots[..] == PutAll(old(slots[..]), Drop(order, skipped), map[], 0)
  {
    ghost var before := slots[..];
    ghost var now := before;
    var i := 0;
    while i < |order|
      invariant 0 <= i <= |order|
      invariant slots[..] == now == PutAll(before, Drop(order[..i], skipped), map[], 0)
    {
      DropStep(before, order, i, skipped);
      now := PlaceUnless(slots, now, order[i], skipped);
      i := i + 1;
    }
    assert order[..i] == order;
  }

  lemma PutAdds(slots: Slots, start: nat, id: Id)
    ensures Placed(Put(slots, start, id)) <= Placed(slots) + {id}
  {
    var r := Put(slots, start, id);
    forall x | x in Placed(r) ensures x in Placed(slots) + {id} {
      var j :| 0 <= j < |r| && r[j] == Some(x);
      assert slots[j] == r[j] || x == id;
    }
  }

  lemma {:induction false} OnlyGivenIds(slots: Slots, ids: seq<Id>, rank: map<Id, nat>, maxLift: nat)
    ensures forall x | x in Placed(PutAll(slots, ids, rank, maxLift)) :: x in Placed(slots) || x in ids
  {
    if ids == [] {
    } else {
      var last := ids[|ids| - 1];
      OnlyGivenIds(slots, ids[..|ids| - 1], rank, maxLift);
      PutAdds(PutAll(slots, ids[..|ids| - 1], rank, maxLift), Start(rank, maxLift, last), last);
    }
  }

  lemma {:induction false} KeepDropMembers(ids: seq<Id>, s: set<Id>)
    ensures forall id :: id in Keep(ids, s) <==> id in ids && id in s
    ensures forall id :: id in Drop(ids, s) <==> id in ids && id !in s
  {
    if ids == [] {
    } else {
      KeepDropMembers(ids[..|ids| - 1], s);
    }
  }

  lemma {:induction false} OnlyRankedIds(slots: Slots, order: seq<Id>, rank: map<Id, nat>, maxLift: nat, s: set<Id>)
    ensures forall x | x in Placed(PutAll(slots, Keep(order, s), rank, maxLift)) :: x in Placed(slots) || x in order
    ensures forall x | x in Placed(PutAll(slots, Drop(order, s), rank, maxLift)) :: x in Placed(slots) || x in order
  {
    KeepDropMembers(order, s);
    OnlyGivenIds(slots, Keep(order, s), rank, maxLift);
    OnlyGivenIds(slots, Drop(order, s), rank, maxLift);
  }

  method PlaceBounded(scores: map<Id, real>, lexical: seq<Id>, limit: nat, maxLift: nat)
    returns (page: seq<(Id, real)>)
    ensures forall entry | entry in page :: entry.0 in scores && entry.1 == scores[entry.0]
    ensures Ids(page) == Page(Ranked(scores), lexical, limit, maxLift)
  {
    var rank := Ranks(lexical);
    var order := Rank(scores);
    RankedIsRanking(scores);
    var slots := new Slot[limit](_ => None);
    assert slots[..] == Empty(limit);
    OnlyRankedIds(Empty(limit), order, rank, maxLift, rank.Keys);
    PlaceLexical(slots, order, rank, maxLift);
    ghost var first := slots[..];
    OnlyRankedIds(first, order, map[], 0, rank.Keys);
    PlaceOthers(slots, order, rank.Keys);
    ghost var second := slots[..];
    var placed := Placed(slots[..]);
    OnlyRankedIds(second, order, map[], 0, placed);
    PlaceOthers(slots, order, placed);
    assert Placed(Empty(limit)) == {};
    assert forall x | x in Placed(slots[..]) :: x in order;
    page := ReadPage(slots[..], scores);
  }

  function Ids(page: seq<(Id, real)>): seq<Id> {
    seq(|page|, i requires 0 <= i < |page| => page[i].0)
  }

  method ReadPage(slots: Slots, scores: map<Id, real>) returns (page: seq<(Id, real)>)
    requires Placed(slots) <= scores.Keys
    ensures forall entry | entry in page :: entry.0 in scores && entry.1 == scores[entry.0]
    ensures Ids(page) == Filled(slots)
  {
    page := [];
    var i := 0;
    while i < |slots|
      invariant 0 <= i <= |slots|
      invariant forall entry | entry in page :: entry.0 in scores && entry.1 == scores[entry.0]
      invariant Ids(page) == Filled(slots[..i])
    {
      assert slots[..i + 1][..i] == slots[..i];
      if slots[i].Some? {
        assert slots[i].value in Placed(slots);
        page := page + [(slots[i].value, scores[slots[i].value])];
      }
      i := i + 1;
    }
    assert slots[..i] == slots;
  }
}
