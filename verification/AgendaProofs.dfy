/** What the agenda guarantees over whole runs: pace, identity, fairness. */
module AgendaProofs {
  import opened Options
  import opened Agenda

  // ------------------------------------------------------------------------------------------
  // Runs
  // ------------------------------------------------------------------------------------------

  /** What happens to the ledger: a call, or the rest of the organism moving rounds along. */
  datatype Event = Call(turn: Turn) | Work(statuses: seq<Status>)

  function Moved(tasks: Tasks, statuses: seq<Status>): (r: Tasks)
    ensures |r| == |tasks|
  {
    seq(|tasks|, i requires 0 <= i < |tasks| =>
      if i < |statuses| then tasks[i].(status := statuses[i]) else tasks[i])
  }

  function Apply(items: seq<string>, tasks: Tasks, interval: real, event: Event): Tasks
    requires event.Call? ==> |event.turn.stamps| == |items|
  {
    match event
    case Call(turn) => Seed(items, tasks, interval, turn)
    case Work(statuses) => Moved(tasks, statuses)
  }

  /** No round is stamped before the call that creates it looked at the clock. */
  predicate InOrder(turn: Turn) {
    forall k | 0 <= k < |turn.stamps| :: turn.stamps[k] >= turn.gate
  }

  predicate Events(items: seq<string>, events: seq<Event>) {
    forall e | 0 <= e < |events| && events[e].Call? ::
      |events[e].turn.stamps| == |items| && InOrder(events[e].turn)
  }

  function Run(items: seq<string>, interval: real, events: seq<Event>): Tasks
    requires Events(items, events)
  {
    if events == [] then []
    else Apply(items, Run(items, interval, events[..|events| - 1]), interval, events[|events| - 1])
  }

  /** The same rounds in the same order; only their statuses may differ. */
  predicate SameRounds(a: Tasks, b: Tasks) {
    |a| == |b| && forall i | 0 <= i < |a| ::
      a[i].title == b[i].title && a[i].round == b[i].round && a[i].createdAt == b[i].createdAt
  }

  lemma {:induction false} SameLedger(a: Tasks, b: Tasks, title: string)
    requires SameRounds(a, b)
    ensures Rounds(a, title) == Rounds(b, title) && Latest(a, title) == Latest(b, title) && Newest(a) == Newest(b)
  {
    if a == [] {
    } else {
      SameLedger(a[..|a| - 1], b[..|b| - 1], title);
    }
  }

  // ------------------------------------------------------------------------------------------
  // What a ledger's readings mean
  // ------------------------------------------------------------------------------------------

  lemma {:induction false} NewestIsLatestOfAll(tasks: Tasks)
    ensures tasks == [] <==> Newest(tasks).None?
    ensures forall i | 0 <= i < |tasks| :: tasks[i].createdAt <= Newest(tasks).value
  {
    if tasks == [] {
    } else {
      NewestIsLatestOfAll(tasks[..|tasks| - 1]);
    }
  }

  lemma {:induction false} LatestWithinNewest(tasks: Tasks, title: string)
    ensures Latest(tasks, title).None? <==> Rounds(tasks, title) == 0
    ensures Latest(tasks, title).Some? ==> Newest(tasks).Some? && Latest(tasks, title).value <= Newest(tasks).value
  {
    if tasks == [] {
    } else {
      LatestWithinNewest(tasks[..|tasks| - 1], title);
    }
  }

  lemma LatestSnoc(tasks: Tasks, task: Task, title: string)
    ensures Latest(tasks + [task], title)
         == if task.title == title then Later(Latest(tasks, title), task.createdAt) else Latest(tasks, title)
  {
    assert (tasks + [task])[..|tasks|] == tasks;
  }

  lemma {:induction false} UnaskedHadNone(items: seq<string>, tasks: Tasks, n: nat, title: string)
    requires n <= |items|
    ensures title in Unasked(items, tasks, n) ==> Latest(tasks, title).None?
  {
    if n == 0 {
    } else {
      UnaskedHadNone(items, tasks, n - 1, title);
    }
  }

  /** Each created round belongs to a due item and carries its next number and its stamp. */
  lemma {:induction false} CreatedAt(items: seq<string>, tasks: Tasks, due: seq<string>, stamps: seq<real>, n: nat, m: nat)
    returns (k: nat)
    requires n <= |items| == |stamps| && m < |Created(items, tasks, due, stamps, n)|
    ensures k < n && items[k] in due
    ensures Created(items, tasks, due, stamps, n)[m] == Task(items[k], Rounds(tasks, items[k]), Pending, stamps[k])
  {
    if m == |Created(items, tasks, due, stamps, n - 1)| {
      k := n - 1;
    } else {
      k := CreatedAt(items, tasks, due, stamps, n - 1, m);
    }
  }

  /** No item gets two rounds in one call. */
  lemma {:induction false} CreatedOnce(items: seq<string>, tasks: Tasks, due: seq<string>, stamps: seq<real>, n: nat,
                                       i: nat, j: nat)
    requires Distinct(items) && n <= |items| == |stamps| && i < j < |Created(items, tasks, due, stamps, n)|
    ensures Created(items, tasks, due, stamps, n)[i].title != Created(items, tasks, due, stamps, n)[j].title
  {
    if j < |Created(items, tasks, due, stamps, n - 1)| {
      CreatedOnce(items, tasks, due, stamps, n - 1, i, j);
    } else {
      var k := CreatedAt(items, tasks, due, stamps, n - 1, i);
      assert items[k] != items[n - 1];
    }
  }

  /** After a call no pending round is left off the agenda, and every earlier round that is on it,
      or no longer pending, is as it was; what the call adds is pending and on the agenda. */
  lemma CallRetiresStrays(items: seq<string>, tasks: Tasks, interval: real, turn: Turn)
    requires |turn.stamps| == |items|
    ensures var after := Seed(items, tasks, interval, turn);
            |after| == |tasks| + |Added(items, tasks, interval, turn)|
            && (items != [] ==> forall i | 0 <= i < |after| && after[i].status == Pending :: after[i].title in items)
            && (items == [] ==> after == tasks)
            && (items != [] ==> forall i | 0 <= i < |tasks| && tasks[i].title !in items && tasks[i].status == Pending ::
                  after[i] == tasks[i].(status := Cancelled))
            && (forall i | 0 <= i < |tasks| && (tasks[i].title in items || tasks[i].status != Pending) :: after[i] == tasks[i])
            && after[|tasks|..] == Added(items, tasks, interval, turn)
  {
    var added := Added(items, tasks, interval, turn);
    var after := Seed(items, tasks, interval, turn);
    forall i | 0 <= i < |added| ensures after[|tasks| + i] == added[i] {
      var k := CreatedAt(items, tasks, DueOf(items, tasks, interval, turn), turn.stamps, |items|, i);
    }
  }

  // ------------------------------------------------------------------------------------------
  // What is due
  // ------------------------------------------------------------------------------------------

  /** The newest round of this item was created at t. */
  predicate LastAskedAt(tasks: Tasks, title: string, t: real) {
    && (exists i :: 0 <= i < |tasks| && tasks[i].title == title && tasks[i].createdAt == t)
    && forall i | 0 <= i < |tasks| && tasks[i].title == title :: tasks[i].createdAt <= t
  }

  predicate NeverAsked(tasks: Tasks, title: string) {
    forall i | 0 <= i < |tasks| :: tasks[i].title != title
  }

  /** A round of this item is waiting or under way. */
  predicate AtWork(tasks: Tasks, title: string) {
    exists i :: 0 <= i < |tasks| && tasks[i].title == title && (tasks[i].status == Pending || tasks[i].status == Running)
  }

  lemma {:induction false} LatestIff(tasks: Tasks, title: string)
    ensures Latest(tasks, title).None? <==> NeverAsked(tasks, title)
    ensures forall t :: Latest(tasks, title) == Some(t) <==> LastAskedAt(tasks, title, t)
  {
    if tasks == [] {
    } else {
      var n := |tasks| - 1;
      var front, last := tasks[..n], tasks[n];
      LatestIff(front, title);
      assert forall i | 0 <= i < n :: tasks[i] == front[i];
      if Latest(front, title).Some? {
        var t := Latest(front, title).value;
        var i :| 0 <= i < n && front[i].title == title && front[i].createdAt == t;
        assert tasks[i].createdAt == t;
      }
      if last.title == title { assert Latest(tasks, title) == Later(Latest(front, title), last.createdAt); }
      if Latest(tasks, title).Some? { assert LastAskedAt(tasks, title, Latest(tasks, title).value); }
    }
  }

  lemma {:induction false} NewestIsARound(tasks: Tasks)
    requires tasks != []
    ensures Newest(tasks).Some? && exists i :: 0 <= i < |tasks| && tasks[i].createdAt == Newest(tasks).value
  {
    var n := |tasks| - 1;
    if n == 0 {
      assert tasks[0].createdAt == Newest(tasks).value;
    } else {
      NewestIsARound(tasks[..n]);
      var i :| 0 <= i < n && tasks[..n][i].createdAt == Newest(tasks[..n]).value;
      assert tasks[i].createdAt == Newest(tasks[..n]).value;
      assert tasks[n].createdAt == Newest(tasks).value || tasks[i].createdAt == Newest(tasks).value;
    }
  }

  /** The wheel opens when every round there is was created an interval ago. */
  lemma WheelOpensIff(tasks: Tasks, interval: real, now: real)
    ensures WheelOpen(tasks, interval, now) <==> forall i | 0 <= i < |tasks| :: now - tasks[i].createdAt >= interval
  {
    NewestIsLatestOfAll(tasks);
    if tasks != [] {
      NewestIsARound(tasks);
      var i :| 0 <= i < |tasks| && tasks[i].createdAt == Newest(tasks).value;
      assert !WheelOpen(tasks, interval, now) ==> now - tasks[i].createdAt < interval;
    }
  }

  /** Item x was asked before, is not at work, and of all such items it has rested longest; of those
      that rested as long it is the first on the agenda. */
  ghost predicate RestedLongest(items: seq<string>, tasks: Tasks, x: nat)
    requires x < |items|
  {
    && !NeverAsked(tasks, items[x]) && !AtWork(tasks, items[x])
    && forall y: nat, s, t | y < |items| && !AtWork(tasks, items[y]) && LastAskedAt(tasks, items[x], s) && LastAskedAt(tasks, items[y], t) ::
         s < t || (s == t && x <= y)
  }

  lemma {:induction false} OldestIs(items: seq<string>, tasks: Tasks, n: nat)
    requires n <= |items|
    ensures Oldest(items, tasks, n).None? <==>
              forall y: nat | y < n :: Latest(tasks, items[y]).None? || HasLiveRound(tasks, items[y])
    ensures Oldest(items, tasks, n).Some? ==>
              var x := Oldest(items, tasks, n).value;
              && Latest(tasks, items[x]).Some? && !HasLiveRound(tasks, items[x])
              && forall y: nat | y < n && Latest(tasks, items[y]).Some? && !HasLiveRound(tasks, items[y]) ::
                   var s, t := Latest(tasks, items[x]).value, Latest(tasks, items[y]).value; s < t || (s == t && x <= y)
  {
    if n == 0 {
    } else {
      OldestIs(items, tasks, n - 1);
    }
  }

  lemma OldestIff(items: seq<string>, tasks: Tasks, x: nat)
    requires x < |items|
    ensures Oldest(items, tasks, |items|) == Some(x) <==> RestedLongest(items, tasks, x)
  {
    OldestIs(items, tasks, |items|);
    forall y: nat | y < |items| ensures HasLiveRound(tasks, items[y]) <==> AtWork(tasks, items[y]) {
    }
    forall y: nat | y < |items|
      ensures Latest(tasks, items[y]).None? <==> NeverAsked(tasks, items[y])
      ensures forall t :: Latest(tasks, items[y]) == Some(t) <==> LastAskedAt(tasks, items[y], t)
    {
      LatestIff(tasks, items[y]);
    }
  }

  lemma {:induction false} UnaskedIff(items: seq<string>, tasks: Tasks, n: nat, title: string)
    requires n <= |items|
    ensures title in Unasked(items, tasks, n) <==> title in items[..n] && NeverAsked(tasks, title)
  {
    if n == 0 {
    } else {
      UnaskedIff(items, tasks, n - 1, title);
      LatestIff(tasks, items[n - 1]);
      assert items[..n] == items[..n - 1] + [items[n - 1]];
    }
  }

  /** What is due when the caller sets no limit, read off the ledger: every item that never had a
      round, and, if every round there is was created an interval ago, the one that has rested
      longest. */
  lemma DueIff(items: seq<string>, tasks: Tasks, interval: real, now: real, x: nat)
    requires Distinct(items) && x < |items|
    ensures items[x] in Due(items, tasks, interval, now, None) <==>
              || NeverAsked(tasks, items[x])
              || ((forall i | 0 <= i < |tasks| :: now - tasks[i].createdAt >= interval) && RestedLongest(items, tasks, x))
  {
    UnaskedIff(items, tasks, |items|, items[x]);
    assert items[..|items|] == items;
    WheelOpensIff(tasks, interval, now);
    OldestIff(items, tasks, x);
    var oldest := Oldest(items, tasks, |items|);
    assert oldest.Some? ==> (items[oldest.value] == items[x] <==> oldest.value == x);
  }

  /** A limit keeps that many of the due items from the front, the unasked ones first; a negative one
      drops that many from the end. */
  lemma LimitKeeps(items: seq<string>, tasks: Tasks, interval: real, now: real, limit: int)
    ensures var all := Due(items, tasks, interval, now, None);
            var kept := if limit >= 0 then limit else |all| + limit;
            Due(items, tasks, interval, now, Some(limit)) == if kept >= |all| then all else if kept >= 0 then all[..kept] else []
  {
  }

  // ------------------------------------------------------------------------------------------
  // Pacing
  // ------------------------------------------------------------------------------------------

  /** Only the wheel's choice can be due a second time, and only while the wheel is open. */
  lemma DueAgain(items: seq<string>, tasks: Tasks, interval: real, turn: Turn, title: string)
    requires title in DueOf(items, tasks, interval, turn) && Rounds(tasks, title) > 0
    ensures WheelOpen(tasks, interval, turn.gate) && Rotated(items, tasks, interval, turn.gate) == [title]
  {
    LatestWithinNewest(tasks, title);
    UnaskedHadNone(items, tasks, |items|, title);
  }

  /** However much the caller asks for, one call asks at most one item again. */
  lemma OneRotationPerCall(items: seq<string>, tasks: Tasks, interval: real, turn: Turn, i: nat, j: nat)
    requires Distinct(items) && |turn.stamps| == |items|
    requires i < |Added(items, tasks, interval, turn)| && j < |Added(items, tasks, interval, turn)|
    requires Added(items, tasks, interval, turn)[i].round > 0 && Added(items, tasks, interval, turn)[j].round > 0
    ensures i == j
  {
    var due := DueOf(items, tasks, interval, turn);
    var a := CreatedAt(items, tasks, due, turn.stamps, |items|, i);
    var b := CreatedAt(items, tasks, due, turn.stamps, |items|, j);
    DueAgain(items, tasks, interval, turn, items[a]);
    DueAgain(items, tasks, interval, turn, items[b]);
    if i < j { CreatedOnce(items, tasks, due, turn.stamps, |items|, i, j); }
    if j < i { CreatedOnce(items, tasks, due, turn.stamps, |items|, j, i); }
  }

  lemma {:induction false} MembersAtMost(a: seq<string>, b: seq<string>)
    requires Distinct(a) && forall t | t in a :: t in b
    ensures |a| <= |b|
    decreases |a|
  {
    if a == [] {
    } else {
      var last, front := a[|a| - 1], a[..|a| - 1];
      assert last in a;
      var i :| 0 <= i < |b| && b[i] == last;
      var others := b[..i] + b[i + 1..];
      forall t | t in front ensures t in others {
        var k :| 0 <= k < |front| && front[k] == t;
        assert a[k] != last && a[k] in a;
        var j :| 0 <= j < |b| && b[j] == t;
        assert if j < i then others[j] == t else others[j - 1] == t;
      }
      MembersAtMost(front, others);
    }
  }

  /** One call opens at most as many rounds as its limit says. */
  lemma CallKeepsToLimit(items: seq<string>, tasks: Tasks, interval: real, turn: Turn)
    requires Distinct(items) && |turn.stamps| == |items| && turn.limit.Some? && turn.limit.value >= 0
    ensures |Added(items, tasks, interval, turn)| <= turn.limit.value
  {
    var due, added := DueOf(items, tasks, interval, turn), Added(items, tasks, interval, turn);
    var titles := seq(|added|, i requires 0 <= i < |added| => added[i].title);
    forall i: nat, j: nat | i < j < |titles| ensures titles[i] != titles[j] {
      CreatedOnce(items, tasks, due, turn.stamps, |items|, i, j);
    }
    forall t | t in titles ensures t in due {
      var m: nat :| m < |titles| && titles[m] == t;
      var k := CreatedAt(items, tasks, due, turn.stamps, |items|, m);
    }
    MembersAtMost(titles, due);
  }

  /** An item asked again is asked at least one interval after every round before this call. */
  lemma RotationWaits(items: seq<string>, tasks: Tasks, interval: real, turn: Turn, i: nat, j: nat)
    requires |turn.stamps| == |items| && InOrder(turn)
    requires i < |tasks| && j < |Added(items, tasks, interval, turn)|
    requires Added(items, tasks, interval, turn)[j].round > 0
    ensures Added(items, tasks, interval, turn)[j].createdAt - tasks[i].createdAt >= interval
  {
    var k := CreatedAt(items, tasks, DueOf(items, tasks, interval, turn), turn.stamps, |items|, j);
    DueAgain(items, tasks, interval, turn, items[k]);
    NewestIsLatestOfAll(tasks);
  }

  /** Any two rotated rounds are at least one interval apart. */
  predicate Paced(tasks: Tasks, interval: real) {
    forall i, j :: 0 <= i < j < |tasks| && tasks[i].round > 0 && tasks[j].round > 0 ==>
      tasks[j].createdAt - tasks[i].createdAt >= interval
  }

  /** Every round is numbered by the rounds of its item before it. */
  predicate Numbered(tasks: Tasks) {
    forall j :: 0 <= j < |tasks| ==> tasks[j].round == Rounds(tasks[..j], tasks[j].title)
  }

  lemma CallKeepsPace(items: seq<string>, tasks: Tasks, interval: real, turn: Turn)
    requires Distinct(items) && |turn.stamps| == |items| && InOrder(turn) && Paced(tasks, interval)
    ensures Paced(Seed(items, tasks, interval, turn), interval)
  {
    var added := Added(items, tasks, interval, turn);
    var after := Seed(items, tasks, interval, turn);
    forall i, j | 0 <= i < j < |after| && after[i].round > 0 && after[j].round > 0
      ensures after[j].createdAt - after[i].createdAt >= interval
    {
      if i >= |tasks| {
        OneRotationPerCall(items, tasks, interval, turn, i - |tasks|, j - |tasks|);
      } else if j >= |tasks| {
        RotationWaits(items, tasks, interval, turn, i, j - |tasks|);
      }
    }
  }

  lemma {:induction false} NoRounds(tasks: Tasks, title: string)
    requires forall i :: 0 <= i < |tasks| ==> tasks[i].title != title
    ensures Rounds(tasks, title) == 0
  {
    if tasks == [] {
    } else {
      NoRounds(tasks[..|tasks| - 1], title);
    }
  }

  lemma CallKeepsNumbers(items: seq<string>, tasks: Tasks, interval: real, turn: Turn)
    requires Distinct(items) && |turn.stamps| == |items| && Numbered(tasks)
    ensures Numbered(Seed(items, tasks, interval, turn))
  {
    var due := DueOf(items, tasks, interval, turn);
    var added := Added(items, tasks, interval, turn);
    var after := Seed(items, tasks, interval, turn);
    forall j | 0 <= j < |after| ensures after[j].round == Rounds(after[..j], after[j].title) {
      var both := tasks + added;
      SameLedger(after[..j], both[..j], after[j].title);
      if j < |tasks| {
        assert both[..j] == tasks[..j];
      } else {
        var m := j - |tasks|;
        assert both[..j] == tasks + added[..m];
        var k := CreatedAt(items, tasks, due, turn.stamps, |items|, m);
        forall i | 0 <= i < m ensures added[..m][i].title != added[m].title {
          CreatedOnce(items, tasks, due, turn.stamps, |items|, i, m);
        }
        NoRounds(added[..m], added[m].title);
        RoundsJoin(tasks, added[..m], added[m].title);
      }
    }
  }

  lemma MovedKeeps(tasks: Tasks, statuses: seq<Status>, interval: real)
    requires Paced(tasks, interval) && Numbered(tasks)
    ensures Paced(Moved(tasks, statuses), interval) && Numbered(Moved(tasks, statuses))
  {
    var after := Moved(tasks, statuses);
    forall j | 0 <= j < |after| ensures after[j].round == Rounds(after[..j], after[j].title) {
      SameLedger(after[..j], tasks[..j], after[j].title);
    }
  }

  /** Along every run of calls and of work in between, whatever limits the callers give. */
  lemma {:induction false} EveryRunIsPaced(items: seq<string>, interval: real, events: seq<Event>)
    requires Distinct(items) && Events(items, events)
    ensures Paced(Run(items, interval, events), interval) && Numbered(Run(items, interval, events))
  {
    if events != [] {
      var before := Run(items, interval, events[..|events| - 1]);
      EveryRunIsPaced(items, interval, events[..|events| - 1]);
      match events[|events| - 1]
      case Call(turn) =>
        CallKeepsPace(items, before, interval, turn);
        CallKeepsNumbers(items, before, interval, turn);
      case Work(statuses) =>
        MovedKeeps(before, statuses, interval);
    }
  }

  lemma {:induction false} RoundsGrow(tasks: Tasks, i: nat, j: nat, title: string)
    requires i <= j <= |tasks|
    ensures Rounds(tasks[..i], title) <= Rounds(tasks[..j], title)
  {
    if i >= j {
    } else {
      RoundsGrow(tasks, i, j - 1, title);
      assert tasks[..j][..j - 1] == tasks[..j - 1];
    }
  }

  /** No two rounds share an identity: a repair that closes one by its fingerprint leaves the
      other alone. */
  lemma IdentitiesAreUnique(items: seq<string>, interval: real, events: seq<Event>, i: nat, j: nat)
    requires Distinct(items) && Events(items, events) && i < j < |Run(items, interval, events)|
    ensures var tasks := Run(items, interval, events);
            tasks[i].title == tasks[j].title ==> tasks[i].round < tasks[j].round
  {
    var tasks := Run(items, interval, events);
    EveryRunIsPaced(items, interval, events);
    assert tasks[..i + 1][..i] == tasks[..i];
    RoundsGrow(tasks, i + 1, j, tasks[i].title);
  }

  // ------------------------------------------------------------------------------------------
  // Fairness
  // ------------------------------------------------------------------------------------------

  /** Item i comes before item j: never asked first, then longest rested, then the agenda's order. */
  predicate Before(items: seq<string>, tasks: Tasks, i: nat, j: nat)
    requires i < |items| && j < |items|
  {
    var a, b := Latest(tasks, items[i]), Latest(tasks, items[j]);
    if a.None? then b.Some? || i < j
    else b.Some? && (a.value < b.value || (a.value == b.value && i < j))
  }

  /** The items that come before this one. */
  function Ahead(items: seq<string>, tasks: Tasks, x: nat): set<nat>
    requires x < |items|
  {
    set i: nat | i < |items| && Before(items, tasks, i, x)
  }

  /** A turn that finds every item's last round closed and the wheel come round, from a caller who
      lets at least one item through. */
  predicate Calm(items: seq<string>, tasks: Tasks, interval: real, turn: Turn) {
    && |turn.stamps| == |items| && InOrder(turn)
    && (forall k | 0 <= k < |items| :: !HasLiveRound(tasks, items[k]))
    && WheelOpen(tasks, interval, turn.gate)
    && (turn.limit.None? || turn.limit.value >= 1)
  }

  /** Every round the turn can create is stamped later than every earlier one. */
  predicate Advances(tasks: Tasks, turn: Turn) {
    Newest(tasks).Some? ==> forall k | 0 <= k < |turn.stamps| :: turn.stamps[k] > Newest(tasks).value
  }

  /** With a positive interval the wheel itself sees to that. */
  lemma WheelAdvances(items: seq<string>, tasks: Tasks, interval: real, turn: Turn)
    requires interval > 0.0 && Calm(items, tasks, interval, turn)
    ensures Advances(tasks, turn)
  {
    forall k | 0 <= k < |turn.stamps| && Newest(tasks).Some? ensures turn.stamps[k] > Newest(tasks).value {
      assert turn.stamps[k] >= turn.gate;
    }
  }

  lemma {:induction false} FirstUnasked(items: seq<string>, tasks: Tasks, n: nat) returns (h: nat)
    requires n <= |items|
    ensures Unasked(items, tasks, n) == [] ==> forall y :: 0 <= y < n ==> Latest(tasks, items[y]).Some?
    ensures Unasked(items, tasks, n) != [] ==>
      h < n && Unasked(items, tasks, n)[0] == items[h] && Latest(tasks, items[h]).None?
      && forall y :: 0 <= y < h ==> Latest(tasks, items[y]).Some?
  {
    h := 0;
    if n == 0 {
    } else {
      h := FirstUnasked(items, tasks, n - 1);
      if Unasked(items, tasks, n - 1) == [] { h := n - 1; }
    }
  }

  lemma {:induction false} OldestIsFirst(items: seq<string>, tasks: Tasks, n: nat)
    requires 0 < n <= |items|
    requires forall k | 0 <= k < n :: !HasLiveRound(tasks, items[k]) && Latest(tasks, items[k]).Some?
    ensures Oldest(items, tasks, n).Some?
    ensures forall y: nat :: y < n && y != Oldest(items, tasks, n).value ==>
      Before(items, tasks, Oldest(items, tasks, n).value, y)
  {
    assert !HasLiveRound(tasks, items[n - 1]) && Latest(tasks, items[n - 1]).Some?;
    if n <= 1 {
    } else {
      OldestIsFirst(items, tasks, n - 1);
      var before := Oldest(items, tasks, n - 1).value;
      forall y: nat | y < n && y != Oldest(items, tasks, n).value
        ensures Before(items, tasks, Oldest(items, tasks, n).value, y)
      {
        assert y < n - 1 && y != before ==> Before(items, tasks, before, y);
      }
    }
  }

  /** In a calm turn the item that comes before all others gets a round. */
  lemma FirstIsDue(items: seq<string>, tasks: Tasks, interval: real, turn: Turn) returns (h: nat)
    requires |items| > 0 && Calm(items, tasks, interval, turn)
    ensures h < |items| && items[h] in DueOf(items, tasks, interval, turn)
    ensures forall y: nat :: y < |items| && y != h ==> Before(items, tasks, h, y)
  {
    h := FirstUnasked(items, tasks, |items|);
    var unasked := Unasked(items, tasks, |items|);
    if unasked == [] {
      OldestIsFirst(items, tasks, |items|);
      h := Oldest(items, tasks, |items|).value;
    }
    var all := unasked + Rotated(items, tasks, interval, turn.gate);
    assert all[0] == items[h];
    assert DueOf(items, tasks, interval, turn)[0] == all[0];
  }

  lemma CreatedSnoc(items: seq<string>, tasks: Tasks, due: seq<string>, stamps: seq<real>, n: nat)
    requires 0 < n <= |items| == |stamps|
    ensures tasks + Created(items, tasks, due, stamps, n)
         == (tasks + Created(items, tasks, due, stamps, n - 1))
          + (if items[n - 1] in due then [Task(items[n - 1], Rounds(tasks, items[n - 1]), Pending, stamps[n - 1])] else [])
  {
  }

  /** A created round is now its item's latest; other items keep theirs. */
  lemma {:induction false} LatestAfter(items: seq<string>, tasks: Tasks, due: seq<string>, stamps: seq<real>, n: nat, k: nat)
    requires Distinct(items) && n <= |items| == |stamps| && k < |items|
    requires Latest(tasks, items[k]).Some? ==> Latest(tasks, items[k]).value < stamps[k]
    ensures Latest(tasks + Created(items, tasks, due, stamps, n), items[k])
         == if k < n && items[k] in due then Some(stamps[k]) else Latest(tasks, items[k])
  {
    if n == 0 {
      assert tasks + [] == tasks;
    } else {
      var before := Created(items, tasks, due, stamps, n - 1);
      LatestAfter(items, tasks, due, stamps, n - 1, k);
      assert k != n - 1 ==> items[n - 1] != items[k];
      CreatedSnoc(items, tasks, due, stamps, n);
      if items[n - 1] in due {
        LatestSnoc(tasks + before, Task(items[n - 1], Rounds(tasks, items[n - 1]), Pending, stamps[n - 1]), items[k]);
      } else {
        assert tasks + before + [] == tasks + before;
      }
    }
  }

  /** What a calm turn does to the order: its own rounds become the latest, nothing else moves. */
  lemma {:induction false} LatestAfterTurn(items: seq<string>, tasks: Tasks, interval: real, turn: Turn, after: Tasks, k: nat)
    requires Distinct(items) && Calm(items, tasks, interval, turn) && Advances(tasks, turn) && k < |items|
    requires SameRounds(after, Seed(items, tasks, interval, turn))
    ensures Latest(after, items[k])
         == if items[k] in DueOf(items, tasks, interval, turn) then Some(turn.stamps[k]) else Latest(tasks, items[k])
    ensures forall y: nat :: y < |items| && Latest(tasks, items[y]).Some? ==> Latest(tasks, items[y]).value < turn.stamps[k]
  {
    forall y: nat | y < |items| && Latest(tasks, items[y]).Some?
      ensures Latest(tasks, items[y]).value < turn.stamps[k]
    {
      LatestWithinNewest(tasks, items[y]);
    }
    SameLedger(after, Seed(items, tasks, interval, turn), items[k]);
    SameLedger(Seed(items, tasks, interval, turn), tasks + Added(items, tasks, interval, turn), items[k]);
    LatestAfter(items, tasks, DueOf(items, tasks, interval, turn), turn.stamps, |items|, k);
  }

  /** An item that is passed over in a calm turn has strictly fewer items ahead of it afterwards. */
  lemma QueueShortens(items: seq<string>, tasks: Tasks, interval: real, turn: Turn, after: Tasks, x: nat)
    requires Distinct(items) && Calm(items, tasks, interval, turn) && Advances(tasks, turn) && x < |items|
    requires SameRounds(after, Seed(items, tasks, interval, turn))
    requires items[x] !in DueOf(items, tasks, interval, turn)
    ensures Ahead(items, after, x) < Ahead(items, tasks, x)
  {
    var h := FirstIsDue(items, tasks, interval, turn);
    LatestAfterTurn(items, tasks, interval, turn, after, x);
    forall y | y in Ahead(items, after, x) ensures y in Ahead(items, tasks, x) && y != h {
      LatestAfterTurn(items, tasks, interval, turn, after, y);
    }
    assert h in Ahead(items, tasks, x) && h !in Ahead(items, after, x);
  }

  lemma {:induction false} CardinalityBelow(s: set<nat>, bound: nat)
    requires forall i :: i in s ==> i < bound
    ensures |s| <= bound
  {
    if bound == 0 {
      assert s == {};
    } else {
      CardinalityBelow(s - {bound - 1}, bound - 1);
    }
  }

  lemma ProperSubsetIsSmaller(a: set<nat>, b: set<nat>)
    requires a < b
    ensures |a| < |b|
  {
    var rest := b - a;
    assert b == a + rest;
    assert rest != {};
  }

  /** Calm turns one after another; in between, rounds may only change status. */
  predicate Steady(items: seq<string>, interval: real, ledgers: seq<Tasks>, turns: seq<Turn>) {
    && |ledgers| == |turns| + 1
    && forall k | 0 <= k < |turns| ::
         Calm(items, ledgers[k], interval, turns[k])
         && SameRounds(ledgers[k + 1], Seed(items, ledgers[k], interval, turns[k]))
  }

  predicate Advancing(ledgers: seq<Tasks>, turns: seq<Turn>) {
    |ledgers| == |turns| + 1 && forall k | 0 <= k < |turns| :: Advances(ledgers[k], turns[k])
  }

  lemma {:induction false} RoundsAfterTurn(items: seq<string>, tasks: Tasks, interval: real, turn: Turn, after: Tasks, x: nat)
    requires Distinct(items) && |turn.stamps| == |items| && x < |items|
    requires SameRounds(after, Seed(items, tasks, interval, turn))
    ensures Rounds(after, items[x])
         == Rounds(tasks, items[x]) + (if items[x] in DueOf(items, tasks, interval, turn) then 1 else 0)
  {
    var due := DueOf(items, tasks, interval, turn);
    SameLedger(after, Seed(items, tasks, interval, turn), items[x]);
    SameLedger(Seed(items, tasks, interval, turn), tasks + Added(items, tasks, interval, turn), items[x]);
    RoundsCreated(items, tasks, due, turn.stamps, |items|, x);
    RoundsJoin(tasks, Added(items, tasks, interval, turn), items[x]);
  }

  lemma {:induction false} ComesRoundWithin(items: seq<string>, interval: real, ledgers: seq<Tasks>, turns: seq<Turn>, x: nat)
    requires Distinct(items) && x < |items| && Steady(items, interval, ledgers, turns) && Advancing(ledgers, turns)
    ensures Rounds(ledgers[|turns|], items[x]) >= Rounds(ledgers[0], items[x])
    ensures |turns| > |Ahead(items, ledgers[0], x)| ==> Rounds(ledgers[|turns|], items[x]) > Rounds(ledgers[0], items[x])
    decreases |turns|
  {
    if turns == [] {
    } else {
      assert Calm(items, ledgers[0], interval, turns[0]) && Advances(ledgers[0], turns[0]);
      assert Advancing(ledgers[1..], turns[1..]) by {
        forall k | 0 <= k < |turns| - 1 ensures Advances(ledgers[1..][k], turns[1..][k]) {
          assert Advances(ledgers[k + 1], turns[k + 1]);
        }
      }
      assert Steady(items, interval, ledgers[1..], turns[1..]) by {
        forall k | 0 <= k < |turns| - 1
          ensures Calm(items, ledgers[1..][k], interval, turns[1..][k])
            && SameRounds(ledgers[1..][k + 1], Seed(items, ledgers[1..][k], interval, turns[1..][k]))
        {
          assert Calm(items, ledgers[k + 1], interval, turns[k + 1]);
        }
      }
      ComesRoundWithin(items, interval, ledgers[1..], turns[1..], x);
      RoundsAfterTurn(items, ledgers[0], interval, turns[0], ledgers[1], x);
      if items[x] !in DueOf(items, ledgers[0], interval, turns[0]) {
        QueueShortens(items, ledgers[0], interval, turns[0], ledgers[1], x);
        ProperSubsetIsSmaller(Ahead(items, ledgers[1], x), Ahead(items, ledgers[0], x));
      }
    }
  }

  /** If rounds close between turns, N consecutive turns ask every one of the N items again,
      whatever the ledger held before: with a rotation, and without one as long as the clock has
      moved on since the last round. */
  lemma EveryItemComesRound(items: seq<string>, rotationHours: real, ledgers: seq<Tasks>, turns: seq<Turn>, x: nat)
    requires Distinct(items) && x < |items| && (rotationHours > 0.0 || Advancing(ledgers, turns))
    requires Steady(items, WheelInterval(rotationHours, |items|), ledgers, turns) && |turns| >= |items|
    ensures Rounds(ledgers[|turns|], items[x]) > Rounds(ledgers[0], items[x])
  {
    var interval := WheelInterval(rotationHours, |items|);
    if rotationHours > 0.0 {
      IntervalFillsRotation(rotationHours, |items|);
      forall k | 0 <= k < |turns| ensures Advances(ledgers[k], turns[k]) {
        WheelAdvances(items, ledgers[k], interval, turns[k]);
      }
    }
    var ahead := Ahead(items, ledgers[0], x);
    assert x !in ahead;
    CardinalityBelow(ahead + {x}, |items|);
    ComesRoundWithin(items, interval, ledgers, turns, x);
  }

  /** N intervals are exactly the rotation, so a whole turn of the agenda takes rotationHours. */
  lemma IntervalFillsRotation(rotationHours: real, n: nat)
    requires rotationHours > 0.0 && n >= 1
    ensures WheelInterval(rotationHours, n) > 0.0 && WheelInterval(rotationHours, n) * n as real == rotationHours * 3600.0
    ensures WheelInterval(rotationHours, 0) == rotationHours * 3600.0 && WheelInterval(-rotationHours, n) == 0.0
  {
    var share := WheelInterval(rotationHours, n);
    assert share * n as real == rotationHours * 3600.0;
    assert share <= 0.0 ==> share * n as real <= 0.0;
  }

  // ------------------------------------------------------------------------------------------
  // Without a rotation
  // ------------------------------------------------------------------------------------------

  /** Every item has been asked, every round is closed, and all at the same moment. */
  predicate AllAsked(items: seq<string>, tasks: Tasks, t: real) {
    && (forall k | 0 <= k < |items| :: Rounds(tasks, items[k]) > 0)
    && forall i | 0 <= i < |tasks| :: tasks[i].createdAt == t && tasks[i].status == Completed
  }

  lemma {:induction false} LatestIsThen(tasks: Tasks, title: string, t: real)
    requires forall i | 0 <= i < |tasks| :: tasks[i].createdAt == t
    ensures Latest(tasks, title) == if Rounds(tasks, title) > 0 then Some(t) else None
    ensures Newest(tasks) == if tasks == [] then None else Some(t)
  {
    if tasks == [] {
    } else {
      LatestIsThen(tasks[..|tasks| - 1], title, t);
    }
  }

  lemma {:induction false} FirstIsOldest(items: seq<string>, tasks: Tasks, t: real, n: nat)
    requires 0 < n <= |items| && AllAsked(items, tasks, t)
    ensures Oldest(items, tasks, n) == Some(0) && Unasked(items, tasks, n) == []
  {
    LatestIsThen(tasks, items[n - 1], t);
    assert Rounds(tasks, items[n - 1]) > 0;
    LatestIsThen(tasks, items[0], t);
    assert Rounds(tasks, items[0]) > 0;
    if n <= 1 {
    } else {
      FirstIsOldest(items, tasks, t, n - 1);
    }
  }

  function Closed(tasks: Tasks): (r: Tasks)
    ensures SameRounds(r, tasks)
  {
    seq(|tasks|, i requires 0 <= i < |tasks| => tasks[i].(status := Completed))
  }

  function StoppedTurn(items: seq<string>, t: real): Turn {
    Turn(t, seq(|items|, i => t), None)
  }

  lemma StoppedTurnDue(items: seq<string>, tasks: Tasks, t: real)
    requires |items| > 0 && AllAsked(items, tasks, t)
    ensures DueOf(items, tasks, 0.0, StoppedTurn(items, t)) == [items[0]]
    ensures Calm(items, tasks, 0.0, StoppedTurn(items, t))
  {
    FirstIsOldest(items, tasks, t, |items|);
    LatestIsThen(tasks, items[0], t);
  }

  lemma StoppedTurnAsksFirst(items: seq<string>, tasks: Tasks, t: real, x: nat)
    requires Distinct(items) && 0 < x < |items| && AllAsked(items, tasks, t)
    ensures var after := Closed(Seed(items, tasks, 0.0, StoppedTurn(items, t)));
            AllAsked(items, after, t) && Rounds(after, items[x]) == Rounds(tasks, items[x])
  {
    var turn := StoppedTurn(items, t);
    StoppedTurnDue(items, tasks, t);
    var after := Closed(Seed(items, tasks, 0.0, turn));
    forall k | 0 <= k < |items| ensures Rounds(after, items[k]) > 0 {
      RoundsAfterTurn(items, tasks, 0.0, turn, after, k);
    }
    forall i | 0 <= i < |after| ensures after[i].createdAt == t {
      if i >= |tasks| {
        var k := CreatedAt(items, tasks, [items[0]], turn.stamps, |items|, i - |tasks|);
      }
    }
    RoundsAfterTurn(items, tasks, 0.0, turn, after, x);
  }

  lemma SteadyCons(items: seq<string>, interval: real, tasks: Tasks, turn: Turn, ledgers: seq<Tasks>, turns: seq<Turn>)
    requires Steady(items, interval, ledgers, turns) && Calm(items, tasks, interval, turn)
    requires SameRounds(ledgers[0], Seed(items, tasks, interval, turn))
    ensures Steady(items, interval, [tasks] + ledgers, [turn] + turns)
  {
    forall k | 0 <= k < |turns| + 1
      ensures Calm(items, ([tasks] + ledgers)[k], interval, ([turn] + turns)[k])
        && SameRounds(([tasks] + ledgers)[k + 1], Seed(items, ([tasks] + ledgers)[k], interval, ([turn] + turns)[k]))
    {
      if k > 0 { assert Calm(items, ledgers[k - 1], interval, turns[k - 1]); }
    }
  }

  lemma {:induction false} StoppedTurnsStarve(items: seq<string>, tasks: Tasks, t: real, n: nat, x: nat)
    returns (ledgers: seq<Tasks>, turns: seq<Turn>)
    requires Distinct(items) && 0 < x < |items| && AllAsked(items, tasks, t)
    ensures |turns| == n && Steady(items, 0.0, ledgers, turns) && ledgers[0] == tasks
    ensures Rounds(ledgers[n], items[x]) == Rounds(tasks, items[x])
    decreases n
  {
    ledgers, turns := [tasks], [];
    if n == 0 {
    } else {
      var turn := StoppedTurn(items, t);
      var after := Closed(Seed(items, tasks, 0.0, turn));
      StoppedTurnDue(items, tasks, t);
      StoppedTurnAsksFirst(items, tasks, t, x);
      ledgers, turns := StoppedTurnsStarve(items, after, t, n - 1, x);
      SteadyCons(items, 0.0, tasks, turn, ledgers, turns);
      ledgers, turns := [tasks] + ledgers, [turn] + turns;
    }
  }

  /** With no rotation configured the interval is zero, and while the clock reads the same the
      first item is asked every turn and no other ever is: the guarantee needs a positive one, or a
      clock that moves. */
  lemma NoRotationStarves(items: seq<string>, tasks: Tasks, t: real, rotationHours: real, n: nat, x: nat)
    returns (ledgers: seq<Tasks>, turns: seq<Turn>)
    requires Distinct(items) && 0 < x < |items| && rotationHours <= 0.0 && AllAsked(items, tasks, t)
    ensures |turns| == n && Steady(items, WheelInterval(rotationHours, |items|), ledgers, turns) && ledgers[0] == tasks
    ensures Rounds(ledgers[n], items[x]) == Rounds(tasks, items[x])
  {
    ledgers, turns := StoppedTurnsStarve(items, tasks, t, n, x);
    assert WheelInterval(rotationHours, |items|) == 0.0;
  }
}
