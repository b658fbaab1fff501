/** What every search page looks like: the lexical pass parks its ids. */
module PlacementProofs {
  import opened Options
  import opened Placement

  function Min(a: nat, b: nat): nat {
    if a <= b then a else b
  }

  // ------------------------------------------------------------------------------------------
  // Counting
  // ------------------------------------------------------------------------------------------

  lemma {:induction false} DistinctCount(ids: seq<Id>)
    requires Distinct(ids)
    ensures |set id | id in ids| == |ids|
  {
    if ids == [] {
    } else {
      var before, last := ids[..|ids| - 1], ids[|ids| - 1];
      DistinctCount(before);
      assert ids == before + [last];
      assert (set id | id in ids) == (set id | id in before) + {last};
    }
  }

  lemma {:induction false} PlacedCount(slots: Slots)
    ensures |Placed(slots)| <= |slots|
  {
    if slots == [] {
    } else {
      var before, last := slots[..|slots| - 1], slots[|slots| - 1];
      PlacedCount(before);
      assert slots == before + [last];
      assert Placed(slots) == Placed(before) + if last.Some? then {last.value} else {};
    }
  }

  lemma Inclusion<T>(a: set<T>, b: set<T>)
    requires a <= b
    ensures |a| <= |b|
  {
    assert b == a + (b - a);
  }

  // ------------------------------------------------------------------------------------------
  // Ranks
  // ------------------------------------------------------------------------------------------

  lemma {:induction false} RanksCountFromOne(lexical: seq<Id>)
    requires Distinct(lexical)
    ensures forall id :: id in Ranks(lexical) <==> id in lexical
    ensures forall i | 0 <= i < |lexical| :: Ranks(lexical)[lexical[i]] == i + 1
  {
    if lexical == [] {
    } else {
      RanksCountFromOne(lexical[..|lexical| - 1]);
    }
  }

  lemma {:induction false} KeepIsDistinct(ids: seq<Id>, s: set<Id>)
    requires Distinct(ids)
    ensures Distinct(Keep(ids, s)) && Distinct(Drop(ids, s))
    ensures |Keep(ids, s)| + |Drop(ids, s)| == |ids|
  {
    if ids == [] {
    } else {
      KeepIsDistinct(ids[..|ids| - 1], s);
      KeepDropMembers(ids[..|ids| - 1], s);
    }
  }

  // ------------------------------------------------------------------------------------------
  // First fit
  // ------------------------------------------------------------------------------------------

  /** Slots hold given ids, each at most once and none below its start; and an id whose start
      is at or below an empty slot sits below that slot. */
  ghost predicate Parked(slots: Slots, ids: seq<Id>, rank: map<Id, nat>, maxLift: nat) {
    && (forall i, j | 0 <= i < j < |slots| && slots[i].Some? :: slots[i] != slots[j])
    && (forall i | 0 <= i < |slots| && slots[i].Some? ::
          slots[i].value in ids && Start(rank, maxLift, slots[i].value) <= i)
    && (forall x, j | x in ids && 0 <= j < |slots| && slots[j].None? && Start(rank, maxLift, x) <= j ::
          Some(x) in slots[..j])
  }

  lemma PutParks(slots: Slots, ids: seq<Id>, rank: map<Id, nat>, maxLift: nat, id: Id)
    requires Parked(slots, ids, rank, maxLift) && id !in ids
    ensures Parked(Put(slots, Start(rank, maxLift, id), id), ids + [id], rank, maxLift)
  {
    var start := Start(rank, maxLift, id);
    var k := FirstFree(slots, start);
    NoneFreeBefore(slots, start);
    var r := Put(slots, start, id);
    forall x, j | x in ids + [id] && 0 <= j < |r| && r[j].None? && Start(rank, maxLift, x) <= j
      ensures Some(x) in r[..j]
    {
      if x == id {
        assert k < j && r[..j][k] == Some(id);
      } else {
        assert slots[j].None? && Some(x) in slots[..j];
        var p :| 0 <= p < j && slots[..j][p] == Some(x);
        assert r[..j][p] == Some(x);
      }
    }
  }

  lemma {:induction false} PassParks(limit: nat, ids: seq<Id>, rank: map<Id, nat>, maxLift: nat)
    requires Distinct(ids)
    ensures Parked(PutAll(Empty(limit), ids, rank, maxLift), ids, rank, maxLift)
  {
    if ids == [] {
    } else {
      var before, last := ids[..|ids| - 1], ids[|ids| - 1];
      PassParks(limit, before, rank, maxLift);
      PutParks(PutAll(Empty(limit), before, rank, maxLift), before, rank, maxLift, last);
      assert ids == before + [last];
    }
  }

  /** The pigeonhole: were slot j empty, the j + 1 best-ranked ids would share the j slots below. */
  lemma {:induction false} NoGap(slots: Slots, ids: seq<Id>, lexical: seq<Id>, maxLift: nat, j: nat)
    requires Distinct(lexical) && (forall id | id in lexical :: id in ids)
    requires Parked(slots, ids, Ranks(lexical), maxLift)
    requires j < |slots| && j < |lexical|
    ensures slots[j].Some?
  {
    if slots[j].None? {
      RanksCountFromOne(lexical);
      var best := lexical[..j + 1];
      forall x | x in best ensures x in Placed(slots[..j]) {
        var i :| 0 <= i <= j && lexical[i] == x;
        assert Start(Ranks(lexical), maxLift, x) <= j;
        assert Some(x) in slots[..j];
      }
      DistinctCount(best);
      PlacedCount(slots[..j]);
      Inclusion((set id | id in best), Placed(slots[..j]));
      assert false;
    }
  }

  /** No lexical id is left for a slot past the lexical count. */
  lemma {:induction false} NothingAbove(slots: Slots, ids: seq<Id>, lexical: seq<Id>, maxLift: nat, j: nat)
    requires Distinct(lexical) && (forall id :: id in lexical <==> id in ids)
    requires Parked(slots, ids, Ranks(lexical), maxLift)
    requires |lexical| <= j < |slots|
    ensures slots[j].None?
  {
    if slots[j].Some? {
      var n := |lexical|;
      forall i | 0 <= i < n ensures slots[i].Some? {
        NoGap(slots, ids, lexical, maxLift, i);
      }
      var held := seq(n + 1, i requires 0 <= i <= n => if i < n then slots[i].value else slots[j].value);
      assert Distinct(held);
      DistinctCount(held);
      DistinctCount(lexical);
      Inclusion((set id | id in held), (set id | id in lexical));
      assert false;
    }
  }

  // ------------------------------------------------------------------------------------------
  // Pages without gaps
  // ------------------------------------------------------------------------------------------

  /** The page holding these ids from slot 0 on, cut at its length. */
  function Packed(ids: seq<Id>, limit: nat): Slots {
    seq(limit, i requires 0 <= i < limit => if i < |ids| then Some(ids[i]) else None)
  }

  lemma PutPacked(ids: seq<Id>, limit: nat, id: Id)
    ensures Put(Packed(ids, limit), 0, id) == Packed(ids + [id], limit)
  {
    var slots := Packed(ids, limit);
    var k := FirstFree(slots, 0);
    NoneFreeBefore(slots, 0);
    if |ids| < limit {
      assert slots[|ids|].None?;
      assert k == |ids|;
    } else {
      assert k == limit;
    }
  }

  lemma {:induction false} PutAllPacked(front: seq<Id>, limit: nat, ids: seq<Id>)
    ensures PutAll(Packed(front, limit), ids, map[], 0) == Packed(front + ids, limit)
  {
    if ids == [] {
      assert front + ids == front;
    } else {
      var before, last := ids[..|ids| - 1], ids[|ids| - 1];
      PutAllPacked(front, limit, before);
      PutPacked(front + before, limit, last);
      assert front + ids == (front + before) + [last];
    }
  }

  lemma {:induction false} FilledPacked(ids: seq<Id>, limit: nat)
    ensures Filled(Packed(ids, limit)) == ids[..Min(|ids|, limit)]
  {
    if limit == 0 {
    } else {
      FilledPacked(ids, limit - 1);
      var slots := Packed(ids, limit);
      assert slots[..limit - 1] == Packed(ids, limit - 1);
    }
  }

  lemma {:induction false} SameStarts(slots: Slots, ids: seq<Id>, rank: map<Id, nat>, maxLift: nat)
    requires forall id | id in ids :: Start(rank, maxLift, id) == 0
    ensures PutAll(slots, ids, rank, maxLift) == PutAll(slots, ids, map[], 0)
  {
    if ids == [] {
    } else {
      SameStarts(slots, ids[..|ids| - 1], rank, maxLift);
    }
  }

  // ------------------------------------------------------------------------------------------
  // The page
  // ------------------------------------------------------------------------------------------

  /** What the caller gives: a ranking without repeats holding every lexical id once. */
  ghost predicate Inputs(ranked: seq<Id>, lexical: seq<Id>) {
    Distinct(ranked) && Distinct(lexical) && forall id | id in lexical :: id in ranked
  }

  /** The id at slot s has lexical rank at most s + 1 + maxLift (r counts from 0). */
  ghost predicate LiftedBy(page: seq<Id>, lexical: seq<Id>, s: nat, maxLift: nat)
    requires s < |page|
  {
    exists r :: 0 <= r < |lexical| && lexical[r] == page[s] && r <= s + maxLift
  }

  function LexicalHead(ranked: seq<Id>, lexical: seq<Id>, limit: nat, maxLift: nat): seq<Id> {
    Filled(LexicalPass(ranked, lexical, limit, maxLift))
  }

  function Others(ranked: seq<Id>, lexical: seq<Id>): seq<Id> {
    Drop(ranked, Ranks(lexical).Keys)
  }

  lemma {:induction false} StartIsLift(held: seq<Id>, lexical: seq<Id>, s: nat, maxLift: nat)
    requires Distinct(lexical) && s < |held| && held[s] in lexical
    requires Start(Ranks(lexical), maxLift, held[s]) <= s
    ensures LiftedBy(held, lexical, s, maxLift)
  {
    RanksCountFromOne(lexical);
    var r :| 0 <= r < |lexical| && lexical[r] == held[s];
    assert Ranks(lexical)[held[s]] == r + 1;
  }

  /** Pass 1 fills slots 0 to min(lexical count, limit) - 1 and no other, with lexical ids, each
      at most maxLift slots above its own lexical rank. */
  lemma LexicalPassFillsFront(ranked: seq<Id>, lexical: seq<Id>, limit: nat, maxLift: nat)
    requires Inputs(ranked, lexical)
    ensures var slots, head := LexicalPass(ranked, lexical, limit, maxLift), LexicalHead(ranked, lexical, limit, maxLift);
            && |head| == Min(|lexical|, limit)
            && slots == Packed(head, limit)
            && Distinct(head)
            && forall s: nat | s < |head| :: LiftedBy(head, lexical, s, maxLift)
  {
    var rank := Ranks(lexical);
    var ids := Keep(ranked, rank.Keys);
    var slots := LexicalPass(ranked, lexical, limit, maxLift);
    RanksCountFromOne(lexical);
    KeepIsDistinct(ranked, rank.Keys);
    KeepDropMembers(ranked, rank.Keys);
    PassParks(limit, ids, rank, maxLift);
    ParkedIsPacked(slots, ids, lexical, maxLift);
  }

  /** Slots in which the lexical ids are parked hold them packed at the front. */
  lemma {:induction false} ParkedIsPacked(slots: Slots, ids: seq<Id>, lexical: seq<Id>, maxLift: nat)
    requires Distinct(lexical) && (forall id :: id in lexical <==> id in ids)
    requires Parked(slots, ids, Ranks(lexical), maxLift)
    ensures var head := Filled(slots);
            && |head| == Min(|lexical|, |slots|) && slots == Packed(head, |slots|) && Distinct(head)
            && forall s: nat | s < |head| :: LiftedBy(head, lexical, s, maxLift)
  {
    FrontIsFilled(slots, ids, lexical, maxLift);
    var m := Min(|lexical|, |slots|);
    var held := seq(m, i requires 0 <= i < m => slots[i].value);
    assert slots == Packed(held, |slots|);
    FilledPacked(held, |slots|);
    assert held[..Min(|held|, |slots|)] == held;
    forall s: nat | s < m ensures LiftedBy(held, lexical, s, maxLift) {
      StartIsLift(held, lexical, s, maxLift);
    }
  }

  lemma {:induction false} FrontIsFilled(slots: Slots, ids: seq<Id>, lexical: seq<Id>, maxLift: nat)
    requires Distinct(lexical) && (forall id :: id in lexical <==> id in ids)
    requires Parked(slots, ids, Ranks(lexical), maxLift)
    ensures forall j: nat | j < |slots| :: slots[j].Some? <==> j < |lexical|
  {
    forall j: nat | j < |slots| ensures slots[j].Some? <==> j < |lexical| {
      if j < |lexical| {
        NoGap(slots, ids, lexical, maxLift, j);
      } else {
        NothingAbove(slots, ids, lexical, maxLift, j);
      }
    }
  }

  lemma CountsAddUp(ranked: seq<Id>, lexical: seq<Id>)
    requires Inputs(ranked, lexical)
    ensures |lexical| + |Others(ranked, lexical)| == |ranked|
    ensures Distinct(Others(ranked, lexical))
    ensures forall x :: x in Others(ranked, lexical) <==> x in ranked && x !in lexical
  {
    RanksCountFromOne(lexical);
    KeepIsDistinct(ranked, Ranks(lexical).Keys);
    KeepDropMembers(ranked, Ranks(lexical).Keys);
    KeptCount(ranked, lexical);
  }

  lemma NothingLeft(ranked: seq<Id>, ids: seq<Id>, limit: nat)
    requires |ids| <= limit && forall x | x in ranked :: x in ids
    ensures Drop(ranked, Placed(Packed(ids, limit))) == []
  {
    var slots := Packed(ids, limit);
    forall x | x in ranked ensures x in Placed(slots) {
      var i :| 0 <= i < |ids| && ids[i] == x;
      assert slots[i] == Some(x);
    }
    DropAll(ranked, Placed(slots));
  }

  lemma {:induction false} DropAll(ids: seq<Id>, s: set<Id>)
    requires forall x | x in ids :: x in s
    ensures Drop(ids, s) == []
  {
    if ids == [] {
    } else {
      DropAll(ids[..|ids| - 1], s);
    }
  }

  /** The rescue pass never places anything: a page with an empty slot already holds every id. */
  lemma RescueIsIdle(ranked: seq<Id>, lexical: seq<Id>, limit: nat, maxLift: nat)
    requires Inputs(ranked, lexical)
    ensures var ids := LexicalHead(ranked, lexical, limit, maxLift) + Others(ranked, lexical);
            var filled := FillPass(LexicalPass(ranked, lexical, limit, maxLift), ranked, lexical);
            && Min(|ids|, limit) == Min(|ranked|, limit)
            && filled == Packed(ids, limit)
            && RescuePass(filled, ranked) == filled
  {
    LexicalPassFillsFront(ranked, lexical, limit, maxLift);
    CountsAddUp(ranked, lexical);
    var head, others := LexicalHead(ranked, lexical, limit, maxLift), Others(ranked, lexical);
    var ids := head + others;
    PutAllPacked(head, limit, others);
    forall x | x in head ensures x in lexical {
      var i: nat :| i < |head| && head[i] == x;
      assert LiftedBy(head, lexical, i, maxLift);
    }
    NoRoomForMore(ranked, lexical, head, limit);
    PutAllPacked(ids, limit, Drop(ranked, Placed(Packed(ids, limit))));
  }

  /** Behind the head and the others either there is no slot left or there is no id left. */
  lemma NoRoomForMore(ranked: seq<Id>, lexical: seq<Id>, head: seq<Id>, limit: nat)
    requires Inputs(ranked, lexical) && Distinct(head) && |head| == Min(|lexical|, limit)
    requires forall x | x in head :: x in lexical
    ensures var ids := head + Others(ranked, lexical);
            && Packed(ids + Drop(ranked, Placed(Packed(ids, limit))), limit) == Packed(ids, limit)
            && Min(|ids|, limit) == Min(|ranked|, limit)
  {
    CountsAddUp(ranked, lexical);
    var ids := head + Others(ranked, lexical);
    if |ids| < limit {
      HeadHoldsAll(head, lexical);
      NothingLeft(ranked, ids, limit);
      assert ids + [] == ids;
    }
  }

  lemma KeptCount(ranked: seq<Id>, lexical: seq<Id>)
    requires Inputs(ranked, lexical)
    ensures |Keep(ranked, Ranks(lexical).Keys)| == |lexical|
  {
    var ids := Keep(ranked, Ranks(lexical).Keys);
    RanksCountFromOne(lexical);
    KeepIsDistinct(ranked, Ranks(lexical).Keys);
    KeepDropMembers(ranked, Ranks(lexical).Keys);
    DistinctCount(ids);
    DistinctCount(lexical);
    assert (set id | id in ids) == (set id | id in lexical);
  }

  lemma HeadHoldsAll(head: seq<Id>, lexical: seq<Id>)
    requires Distinct(head) && Distinct(lexical) && |head| == |lexical| && (forall x | x in head :: x in lexical)
    ensures forall x | x in lexical :: x in head
  {
    var a, b := (set x | x in head), (set x | x in lexical);
    DistinctCount(head);
    DistinctCount(lexical);
    forall x | x in lexical ensures x in head {
      if x !in head {
        Inclusion(a, b - {x});
        assert false;
      }
    }
  }

  /** The shape of every page: first min(lexical count, limit) lexical ids, each with lexical
      rank at most slot + 1 + maxLift, then the other ids in fused order; no id twice; and
      exactly min(limit, number of scored ids) entries. */
  lemma PageShape(ranked: seq<Id>, lexical: seq<Id>, limit: nat, maxLift: nat)
    requires Inputs(ranked, lexical)
    ensures var page, m := Page(ranked, lexical, limit, maxLift), Min(|lexical|, limit);
            && m <= |page| == Min(|ranked|, limit)
            && Distinct(page)
            && (forall s: nat | s < m :: LiftedBy(page, lexical, s, maxLift))
            && page[m..] <= Others(ranked, lexical)
            && (forall x | x in page[m..] :: x !in lexical)
  {
    LexicalPassFillsFront(ranked, lexical, limit, maxLift);
    RescueIsIdle(ranked, lexical, limit, maxLift);
    CountsAddUp(ranked, lexical);
    var head, others := LexicalHead(ranked, lexical, limit, maxLift), Others(ranked, lexical);
    FilledPacked(head + others, limit);
    PageOf(head, others, lexical, limit, maxLift, Page(ranked, lexical, limit, maxLift));
  }

  lemma PageOf(head: seq<Id>, others: seq<Id>, lexical: seq<Id>, limit: nat, maxLift: nat, page: seq<Id>)
    requires page == (head + others)[..Min(|head + others|, limit)]
    requires |head| == Min(|lexical|, limit) && Distinct(head) && Distinct(others)
    requires forall s: nat | s < |head| :: LiftedBy(head, lexical, s, maxLift)
    requires forall x | x in others :: x !in lexical
    ensures |head| <= |page| && page[..|head|] == head && page[|head|..] <= others
    ensures Distinct(page)
    ensures forall s: nat | s < |head| :: LiftedBy(page, lexical, s, maxLift)
    ensures forall x | x in page[|head|..] :: x !in lexical
  {
    assert page[..|head|] == head;
    assert page[|head|..] == others[..|page| - |head|];
    forall s: nat | s < |head| ensures LiftedBy(page, lexical, s, maxLift) && page[s] in lexical {
      assert LiftedBy(head, lexical, s, maxLift);
    }
    forall i, j | 0 <= i < j < |page| ensures page[i] != page[j] {
      if j >= |head| {
        assert page[j] == others[j - |head|] && page[j] in others;
      }
    }
  }

  /** No lift at all: the page opens with the lexical order itself. */
  lemma NoLiftKeepsLexicalOrder(ranked: seq<Id>, lexical: seq<Id>, limit: nat)
    requires Inputs(ranked, lexical)
    ensures var page, m := Page(ranked, lexical, limit, 0), Min(|lexical|, limit);
            m <= |page| && page[..m] == lexical[..m]
  {
    PageShape(ranked, lexical, limit, 0);
    NoLiftAt(Page(ranked, lexical, limit, 0), lexical, Min(|lexical|, limit));
  }

  lemma {:induction false} NoLiftAt(page: seq<Id>, lexical: seq<Id>, m: nat)
    requires m <= |page| && m <= |lexical| && Distinct(page)
    requires forall s: nat | s < m :: LiftedBy(page, lexical, s, 0)
    ensures page[..m] == lexical[..m]
  {
    if m == 0 {
    } else {
      NoLiftAt(page, lexical, m - 1);
      assert LiftedBy(page, lexical, m - 1, 0);
      var r :| 0 <= r < |lexical| && lexical[r] == page[m - 1] && r <= m - 1;
      assert forall i | 0 <= i < m - 1 :: page[i] == page[..m - 1][i] == lexical[i];
    }
  }

  /** A lift past every rank: the page opens with the lexical ids in fused order. */
  lemma {:induction false} FullLiftKeepsFusedOrder(ranked: seq<Id>, lexical: seq<Id>, limit: nat, maxLift: nat)
    requires Inputs(ranked, lexical) && maxLift >= |lexical| - 1
    ensures var page, m := Page(ranked, lexical, limit, maxLift), Min(|lexical|, limit);
            var fused := Keep(ranked, Ranks(lexical).Keys);
            m <= |page| && m <= |fused| && page[..m] == fused[..m]
  {
    PageShape(ranked, lexical, limit, maxLift);
    LexicalPassFillsFront(ranked, lexical, limit, maxLift);
    RescueIsIdle(ranked, lexical, limit, maxLift);
    KeptCount(ranked, lexical);
    RanksCountFromOne(lexical);
    var rank := Ranks(lexical);
    var fused := Keep(ranked, rank.Keys);
    forall id | id in fused ensures Start(rank, maxLift, id) == 0 {
      KeepDropMembers(ranked, rank.Keys);
      var i :| 0 <= i < |lexical| && lexical[i] == id;
    }
    SameStarts(Empty(limit), fused, rank, maxLift);
    assert Empty(limit) == Packed([], limit);
    PutAllPacked([], limit, fused);
    assert [] + fused == fused;
    FilledPacked(fused, limit);
    var head, others := LexicalHead(ranked, lexical, limit, maxLift), Others(ranked, lexical);
    FilledPacked(head + others, limit);
    var m := Min(|lexical|, limit);
    assert Page(ranked, lexical, limit, maxLift)[..m] == head == fused[..m];
  }

  /** The search's own call: the ranking of fused scores, with every lexical id scored. */
  lemma SearchPage(scores: map<Id, real>, lexical: seq<Id>, limit: nat, maxLift: nat)
    requires Distinct(lexical) && forall id | id in lexical :: id in scores
    ensures Inputs(Ranked(scores), lexical)
    ensures |Page(Ranked(scores), lexical, limit, maxLift)| == Min(limit, |scores|)
  {
    RankedIsRanking(scores);
    var ranked := Ranked(scores);
    forall i, j | 0 <= i < j < |ranked| ensures ranked[i] != ranked[j] {
      assert Before(scores, ranked[i], ranked[j]);
    }
    PageShape(ranked, lexical, limit, maxLift);
    DistinctCount(ranked);
    assert forall id :: id in (set id | id in ranked) <==> id in scores.Keys;
    assert (set id | id in ranked) == scores.Keys;
  }

  // ------------------------------------------------------------------------------------------
  // Scores
  // ------------------------------------------------------------------------------------------

  predicate Comes(scores: map<Id, real>, a: Id, b: Id) {
    a in scores && b in scores && (scores[a] > scores[b] || (scores[a] == scores[b] && a < b))
  }

  /** Scores fall along the list, and equal ones are in id order. */
  ghost predicate Falling(scores: map<Id, real>, ids: seq<Id>) {
    forall i, j | 0 <= i < j < |ids| :: Comes(scores, ids[i], ids[j])
  }

  lemma {:induction false} DropFalls(scores: map<Id, real>, ids: seq<Id>, s: set<Id>)
    requires Falling(scores, ids)
    ensures Falling(scores, Drop(ids, s)) && forall x | x in Drop(ids, s) :: x in ids
  {
    if ids == [] {
    } else {
      var n := |ids| - 1;
      forall i, j | 0 <= i < j < n ensures Comes(scores, ids[..n][i], ids[..n][j]) {
        assert Comes(scores, ids[i], ids[j]);
      }
      DropFalls(scores, ids[..n], s);
      forall x | x in Drop(ids[..n], s) ensures Comes(scores, x, ids[n]) {
        var i :| 0 <= i < n && ids[..n][i] == x;
        assert ids[i] == x;
      }
    }
  }

  lemma FrontFalls(scores: map<Id, real>, ids: seq<Id>, front: seq<Id>, x: Id)
    requires Falling(scores, ids) && front <= ids
    ensures Falling(scores, front) && (x in ids && x !in front ==> Falling(scores, front + [x]))
  {
    if x in ids && x !in front {
      var j :| 0 <= j < |ids| && ids[j] == x;
      assert j >= |front|;
    }
  }

  lemma OthersFall(scores: map<Id, real>, lexical: seq<Id>)
    requires Distinct(lexical)
    ensures Falling(scores, Others(Ranked(scores), lexical))
    ensures forall x | x in scores && x !in lexical :: x in Others(Ranked(scores), lexical)
  {
    RankedIsRanking(scores);
    DropFalls(scores, Ranked(scores), Ranks(lexical).Keys);
    KeepDropMembers(Ranked(scores), Ranks(lexical).Keys);
    RanksCountFromOne(lexical);
  }

  /** Behind the lexical ids the scores of a page fall, and no scored id that is left out would have
      come before any of them. */
  lemma ScoresFall(scores: map<Id, real>, lexical: seq<Id>, limit: nat, maxLift: nat)
    requires Distinct(lexical) && forall id | id in lexical :: id in scores
    ensures var page, m := Page(Ranked(scores), lexical, limit, maxLift), Min(|lexical|, limit);
            && m <= |page| && Falling(scores, page[m..])
            && forall x | x in scores && x !in lexical && x !in page :: Falling(scores, page[m..] + [x])
  {
    RankedIsRanking(scores);
    SearchPage(scores, lexical, limit, maxLift);
    var page, m, others := Page(Ranked(scores), lexical, limit, maxLift), Min(|lexical|, limit), Others(Ranked(scores), lexical);
    PageShape(Ranked(scores), lexical, limit, maxLift);
    OthersFall(scores, lexical);
    FrontFalls(scores, others, page[m..], 0);
    forall x | x in scores && x !in lexical && x !in page ensures Falling(scores, page[m..] + [x]) {
      FrontFalls(scores, others, page[m..], x);
    }
  }

  /** What one axis gives an id: its weight over sixty and the rank, counted from one. */
  lemma {:induction false} ShareIs(axis: Axis, upTo: nat, id: Id)
    requires upTo <= |axis.ids| && Distinct(axis.ids)
    ensures forall r | 0 <= r < upTo && axis.ids[r] == id :: Share(axis, upTo, id) == axis.weight / (61 + r) as real
    ensures id !in axis.ids[..upTo] ==> Share(axis, upTo, id) == 0.0
  {
    if upTo == 0 {
    } else {
      ShareIs(axis, upTo - 1, id);
      assert axis.ids[..upTo] == axis.ids[..upTo - 1] + [axis.ids[upTo - 1]];
      if axis.ids[upTo - 1] == id {
        assert id !in axis.ids[..upTo - 1];
      }
    }
  }

  /** On this axis x comes before y, or y is not there. */
  ghost predicate Ahead(axis: Axis, x: Id, y: Id) {
    y in axis.ids ==> exists i, j :: 0 <= i < j < |axis.ids| && axis.ids[i] == x && axis.ids[j] == y
  }

  lemma AheadGetsMore(axis: Axis, x: Id, y: Id)
    requires Distinct(axis.ids) && axis.weight > 0.0 && Ahead(axis, x, y)
    ensures var n := |axis.ids|;
            Share(axis, n, x) >= Share(axis, n, y) >= 0.0 && (x in axis.ids ==> Share(axis, n, x) > Share(axis, n, y))
  {
    var n := |axis.ids|;
    assert axis.ids[..n] == axis.ids;
    ShareIs(axis, n, x);
    ShareIs(axis, n, y);
    if x in axis.ids {
      var i :| 0 <= i < n && axis.ids[i] == x;
      if y in axis.ids {
        var j :| 0 <= j < n && axis.ids[j] == y;
        assert i < j;
        MoreForLess(axis.weight, (61 + i) as real, (61 + j) as real);
      }
    }
  }

  lemma MoreForLess(w: real, a: real, b: real)
    requires w > 0.0 && 0.0 < a < b
    ensures w / a > w / b > 0.0
  {
    var p, q := w / a, w / b;
    assert p * a == w && q * b == w;
    assert p > 0.0 && q > 0.0;
    assert (p - q) * a == q * (b - a);
    assert (p - q) * a > 0.0;
  }

  /** An id that comes before another on every axis, and is on one of them, is ranked before it. */
  lemma {:induction false} AheadEverywhereFusesHigher(axes: seq<Axis>, x: Id, y: Id)
    requires forall a | a in axes :: Distinct(a.ids) && a.weight > 0.0 && Ahead(a, x, y)
    ensures Total(axes, x) >= Total(axes, y)
    ensures (exists a :: a in axes && x in a.ids) ==> Total(axes, x) > Total(axes, y)
  {
    if axes == [] {
    } else {
      var n := |axes| - 1;
      assert forall a | a in axes[..n] :: a in axes;
      AheadEverywhereFusesHigher(axes[..n], x, y);
      AheadGetsMore(axes[n], x, y);
      assert forall a | a in axes :: a in axes[..n] || a == axes[n];
    }
  }
}
