/** The rotating agenda (skynet/handoff.py): standing items that are asked again and again, one
    round a wheel turn, least recently asked first. The
    limit, the pace and the turn of every item are proved over whole runs in AgendaProofs. */
module Agenda {
  import opened Options

  datatype Status = Pending | Running | Completed | Blocked | Failed | Cancelled

  /** One round of a standing item, as a row of the roadmap's tasks. The title and the round
      number are what its fingerprints are made of. */
  datatype Task = Task(title: string, round: nat, status: Status, createdAt: real)

  type Tasks = seq<Task>

  predicate IsLive(status: Status) {
    status == Pending || status == Running
  }

  predicate Distinct(items: seq<string>) {
    forall i, j :: 0 <= i < j < |items| ==> items[i] != items[j]
  }

  // ------------------------------------------------------------------------------------------
  // Reading the ledger
  // ------------------------------------------------------------------------------------------

  function Later(a: Option<real>, b: real): Option<real> {
    if a.Some? && a.value >= b then a else Some(b)
  }

  /** When the newest round of any item was created. */
  function Newest(tasks: Tasks): Option<real> {
    if tasks == [] then None else Later(Newest(tasks[..|tasks| - 1]), tasks[|tasks| - 1].createdAt)
  }

  /** When the newest round of this item was created. */
  function Latest(tasks: Tasks, title: string): Option<real> {
    if tasks == [] then None
    else
      var before, last := Latest(tasks[..|tasks| - 1], title), tasks[|tasks| - 1];
      if last.title == title then Later(before, last.createdAt) else before
  }

  /** How many rounds this item has had. */
  function Rounds(tasks: Tasks, title: string): nat {
    if tasks == [] then 0
    else Rounds(tasks[..|tasks| - 1], title) + (if tasks[|tasks| - 1].title == title then 1 else 0)
  }

  predicate HasLiveRound(tasks: Tasks, title: string) {
    exists i :: 0 <= i < |tasks| && tasks[i].title == title && IsLive(tasks[i].status)
  }

  // ------------------------------------------------------------------------------------------
  // The wheel and what is due
  // ------------------------------------------------------------------------------------------

  /** Seconds between two rounds: the rotation, shared out over the items. */
  function WheelInterval(rotationHours: real, items: nat): real {
    (if rotationHours > 0.0 then rotationHours else 0.0) * 3600.0 / (if items >= 1 then items else 1) as real
  }

  predicate WheelOpen(tasks: Tasks, interval: real, now: real) {
    match Newest(tasks)
    case None => true
    case Some(newest) => now - newest >= interval
  }

  /** Of the first n items, those that never had a round. */
  function Unasked(items: seq<string>, tasks: Tasks, n: nat): seq<string>
    requires n <= |items|
  {
    if n == 0 then []
    else
      var before := Unasked(items, tasks, n - 1);
      if Latest(tasks, items[n - 1]).None? then before + [items[n - 1]] else before
  }

  /** Of the first n items, the one that has rested longest; the agenda's order breaks ties. */
  function Oldest(items: seq<string>, tasks: Tasks, n: nat): (r: Option<nat>)
    requires n <= |items|
    ensures r.Some? ==> r.value < n && Latest(tasks, items[r.value]).Some? && !HasLiveRound(tasks, items[r.value])
  {
    if n == 0 then None
    else
      var before := Oldest(items, tasks, n - 1);
      var latest := Latest(tasks, items[n - 1]);
      if latest.None? || HasLiveRound(tasks, items[n - 1]) then before
      else if before.Some? && Latest(tasks, items[before.value]).value <= latest.value then before
      else Some(n - 1)
  }

  /** A slice from the front; a negative limit counts from the end. */
  function Take(due: seq<string>, limit: Option<int>): (r: seq<string>)
    ensures r <= due
  {
    if limit.None? || limit.value >= |due| then due
    else if limit.value >= 0 then due[..limit.value]
    else if |due| + limit.value >= 0 then due[..|due| + limit.value]
    else []
  }

  /** The item whose turn has come round, if any. */
  function Rotated(items: seq<string>, tasks: Tasks, interval: real, now: real): seq<string> {
    var oldest := Oldest(items, tasks, |items|);
    if oldest.Some? && WheelOpen(tasks, interval, now) then [items[oldest.value]] else []
  }

  /** The items due now: all that never had a round, then at most one whose turn has come round. */
  function Due(items: seq<string>, tasks: Tasks, interval: real, now: real, limit: Option<int>): seq<string> {
    Take(Unasked(items, tasks, |items|) + Rotated(items, tasks, interval, now), limit)
  }

  // ------------------------------------------------------------------------------------------
  // One call
  // ------------------------------------------------------------------------------------------

  /** One call: the clock at the gate, the clock as each item's round would be created, and the
      caller's limit. */
  datatype Turn = Turn(gate: real, stamps: seq<real>, limit: Option<int>)

  /** The rounds created for the first n items of the agenda. */
  function Created(items: seq<string>, tasks: Tasks, due: seq<string>, stamps: seq<real>, n: nat): Tasks
    requires n <= |items| == |stamps|
  {
    if n == 0 then []
    else
      var before := Created(items, tasks, due, stamps, n - 1);
      if items[n - 1] in due then before + [Task(items[n - 1], Rounds(tasks, items[n - 1]), Pending, stamps[n - 1])]
      else before
  }

  /** Pending rounds of items that are no longer on the agenda are cancelled. */
  function Retire(items: seq<string>, tasks: Tasks): (r: Tasks)
    ensures |r| == |tasks|
  {
    if items == [] then tasks
    else
      seq(|tasks|, i requires 0 <= i < |tasks| =>
        if tasks[i].status == Pending && tasks[i].title !in items then tasks[i].(status := Cancelled) else tasks[i])
  }

  function DueOf(items: seq<string>, tasks: Tasks, interval: real, turn: Turn): seq<string> {
    Due(items, tasks, interval, turn.gate, turn.limit)
  }

  /** The rounds one call adds. */
  function Added(items: seq<string>, tasks: Tasks, interval: real, turn: Turn): Tasks
    requires |turn.stamps| == |items|
  {
    Created(items, tasks, DueOf(items, tasks, interval, turn), turn.stamps, |items|)
  }

  /** What one call leaves behind. */
  function Seed(items: seq<string>, tasks: Tasks, interval: real, turn: Turn): Tasks
    requires |turn.stamps| == |items|
  {
    Retire(items, tasks + Added(items, tasks, interval, turn))
  }

  lemma {:induction false} RoundsJoin(tasks: Tasks, more: Tasks, title: string)
    ensures Rounds(tasks + more, title) == Rounds(tasks, title) + Rounds(more, title)
  {
    if more == [] {
      assert tasks + more == tasks;
    } else {
      var front, last := more[..|more| - 1], more[|more| - 1];
      RoundsJoin(tasks, front, title);
      assert tasks + more == (tasks + front) + [last];
    }
  }

  /** A call creates one round for each due item, and none for the items it has not reached. */
  lemma {:induction false} RoundsCreated(items: seq<string>, tasks: Tasks, due: seq<string>, stamps: seq<real>,
                                         n: nat, k: nat)
    requires Distinct(items) && n <= |items| == |stamps| && k < |items|
    ensures Rounds(Created(items, tasks, due, stamps, n), items[k]) == if k < n && items[k] in due then 1 else 0
  {
    if n == 0 {
    } else {
      var before := Created(items, tasks, due, stamps, n - 1);
      RoundsCreated(items, tasks, due, stamps, n - 1, k);
      assert k != n - 1 ==> items[n - 1] != items[k];
    }
  }

  class RoadmapStore {
    const items: seq<string>
    const rotationHours: real
    var tasks: Tasks

    constructor (items: seq<string>, rotationHours: real)
      ensures this.items == items && this.rotationHours == rotationHours && tasks == []
    {
      this.items, this.rotationHours, tasks := items, rotationHours, [];
    }

    /** Which items are due, collected in one walk over the agenda. */
    method SeedableItems(now: real, limit: Option<int>) returns (due: seq<string>)
      ensures due == Due(items, tasks, WheelInterval(rotationHours, |items|), now, limit)
    {
      var open := WheelOpen(tasks, WheelInterval(rotationHours, |items|), now);
      var unasked: seq<string> := [];
      var rotated: Option<nat> := None;
      var index := 0;
      while index < |items|
        invariant 0 <= index <= |items|
        invariant unasked == Unasked(items, tasks, index)
        invariant rotated == if open then Oldest(items, tasks, index) else None
      {
        var latest := Latest(tasks, items[index]);
        if latest.None? {
          unasked := unasked + [items[index]];
        } else if !HasLiveRound(tasks, items[index]) && open {
          if rotated.None? || latest.value < Latest(tasks, items[rotated.value]).value {
            rotated := Some(index);
          }
        }
        index := index + 1;
      }
      due := Take(unasked + (if rotated.Some? then [items[rotated.value]] else []), limit);
    }

    /** Creates a round for every item that is due, then retires what left the agenda. */
    method SeedRounds(turn: Turn) returns (created: Tasks, skipped: seq<string>)
      requires Distinct(items) && |turn.stamps| == |items|
      modifies this`tasks
      ensures tasks == Seed(items, old(tasks), WheelInterval(rotationHours, |items|), turn)
      ensures created == Added(items, old(tasks), WheelInterval(rotationHours, |items|), turn)
      ensures forall title :: title in skipped <==>
        title in items && title !in DueOf(items, old(tasks), WheelInterval(rotationHours, |items|), turn)
    {
      var due := SeedableItems(turn.gate, turn.limit);
      ghost var before := tasks;
      created, skipped := [], [];
      var n := 0;
      while n < |items|
        invariant 0 <= n <= |items|
        invariant created == Created(items, before, due, turn.stamps, n) && tasks == before + created
        invariant forall title :: title in skipped <==> title in items[..n] && title !in due
      {
        if items[n] !in due {
          skipped := skipped + [items[n]];
        } else {
          RoundsCreated(items, before, due, turn.stamps, n, n);
          RoundsJoin(before, created, items[n]);
          var task := Task(items[n], Rounds(tasks, items[n]), Pending, turn.stamps[n]);
          tasks := tasks + [task];
          created := created + [task];
        }
        assert items[..n + 1] == items[..n] + [items[n]];
        n := n + 1;
      }
      assert items[..n] == items;
      tasks := Retire(items, tasks);
    }
  }
}
