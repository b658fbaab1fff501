/** The MCP client over whole runs: its ids, restarts and children. */
module RestartRuns {
  import opened Options
  import opened Restart
  import opened RestartProofs

  /** What a caller may do. */
  datatype Call = Start | Request(rpc: string, allowRestart: bool) | Restart | Notify(rpc: string) | Close

  function Called(st: State, call: Call, attempts: nat): State {
    match call
    case Start => Started(st).0
    case Request(rpc, allowRestart) => Requested(st, rpc, allowRestart, attempts).0
    case Restart => Restarted(st).0
    case Notify(rpc) => if st.process.None? then st else Wrote(st, rpc, None)
    case Close => st.(process := None)
  }

  function Ran(supply: seq<Option<Server>>, calls: seq<Call>, attempts: nat): State {
    if calls == [] then State(0, 1, None, supply, [], [])
    else Called(Ran(supply, calls[..|calls| - 1], attempts), calls[|calls| - 1], attempts)
  }

  // ------------------------------------------------------------------------------------------
  // One method per id
  // ------------------------------------------------------------------------------------------

  lemma CallKeepsIds(st: State, call: Call, attempts: nat)
    requires OneMethodPerId(st.sent, st.nextId)
    ensures OneMethodPerId(Called(st, call, attempts).sent, Called(st, call, attempts).nextId)
  {
    match call {
      case Start =>
        if st.process.None? {
          StartLaunches(st);
        }
      case Request(rpc, allowRestart) =>
        RequestKeepsIds(st, rpc, allowRestart, attempts);
      case Restart =>
        RestartLaunches(st);
      case Notify(rpc) =>
        WriteKeepsIds(st.sent, st.nextId, Sent(None, rpc), st.nextId, rpc);
      case Close =>
    }
  }

  /** Over any run all that was written under one id is one method, and no id was written before it
      was handed out. */
  lemma {:induction false} RunKeepsIds(supply: seq<Option<Server>>, calls: seq<Call>, attempts: nat)
    ensures var st := Ran(supply, calls, attempts); OneMethodPerId(st.sent, st.nextId)
  {
    if calls == [] {
    } else {
      var n := |calls| - 1;
      RunKeepsIds(supply, calls[..n], attempts);
      CallKeepsIds(Ran(supply, calls[..n], attempts), calls[n], attempts);
    }
  }

  // ------------------------------------------------------------------------------------------
  // One call per id
  // ------------------------------------------------------------------------------------------

  /** Since then only messages were added, and under ids handed out since then. */
  predicate Since(before: seq<Sent>, first: nat, st: State) {
    && before <= st.sent && first <= st.nextId
    && forall i | |before| <= i < |st.sent| && st.sent[i].id.Some? :: first <= st.sent[i].id.value < st.nextId
  }

  lemma WriteSince(before: seq<Sent>, first: nat, st: State, after: State, s: Sent)
    requires Since(before, first, st) && after.sent == st.sent + [s] && after.nextId >= st.nextId
    requires s.id.Some? ==> first <= s.id.value < after.nextId
    ensures Since(before, first, after)
  {
  }

  lemma LaunchSince(before: seq<Sent>, first: nat, st: State, after: State, failure: Option<Outcome>)
    requires Launches(st, after, failure) && Since(before, first, st)
    ensures Since(before, first, after)
  {
    var greeting, note := Sent(Some(st.nextId), "initialize"), Sent(None, "notifications/initialized");
    var greeted := after.(sent := st.sent + [greeting]);
    if after.sent != st.sent {
      WriteSince(before, first, st, greeted, greeting);
      if after.sent != greeted.sent {
        assert greeted.sent + [note] == st.sent + [greeting, note];
        WriteSince(before, first, greeted, after, note);
      }
    }
  }

  lemma {:induction false} LoopSince(before: seq<Sent>, first: nat, st: State, rpc: string, id: nat, allowRestart: bool, attempts: nat)
    requires st.process.Some? && Since(before, first, st) && first <= id < st.nextId
    ensures Since(before, first, Looped(st, rpc, id, allowRestart, attempts).0)
    decreases attempts - st.restartCount
  {
    AttemptWritesOnce(st, rpc, id);
    var (tried, outcome) := Attempted(st, rpc, id);
    if !outcome.TransportError? || !RestartAllowed(rpc, allowRestart, tried.restartCount, attempts) {
    } else {
      RestartLaunches(tried);
      LaunchSince(before, first, Counted(tried), Restarted(tried).0, Restarted(tried).1);
      if Restarted(tried).1.None? {
        LoopSince(before, first, Restarted(tried).0, rpc, id, allowRestart, attempts);
      }
    }
  }

  /** A call only adds to what was sent, and only under ids of its own. */
  lemma CallWritesItsOwn(st: State, call: Call, attempts: nat)
    ensures Since(st.sent, st.nextId, Called(st, call, attempts))
  {
    match call {
      case Start =>
        if st.process.None? {
          StartLaunches(st);
          LaunchSince(st.sent, st.nextId, st, Started(st).0, Started(st).1);
        }
      case Request(rpc, allowRestart) =>
        if st.process.Some? {
          LoopSince(st.sent, st.nextId, st.(nextId := st.nextId + 1), rpc, st.nextId, allowRestart, attempts);
        }
      case Restart =>
        RestartLaunches(st);
        LaunchSince(st.sent, st.nextId, Counted(st), Restarted(st).0, Restarted(st).1);
      case Notify(rpc) =>
        if st.process.Some? { WriteSince(st.sent, st.nextId, st, Wrote(st, rpc, None), Sent(None, rpc)); }
      case Close =>
    }
  }

  lemma {:induction false} RunOnlyAdds(supply: seq<Option<Server>>, calls: seq<Call>, attempts: nat, i: nat)
    requires i <= |calls|
    ensures var early, late := Ran(supply, calls[..i], attempts), Ran(supply, calls, attempts);
            early.sent <= late.sent && early.nextId <= late.nextId
    decreases |calls|
  {
    if i == |calls| {
      assert calls[..i] == calls;
    } else {
      var n := |calls| - 1;
      RunOnlyAdds(supply, calls[..n], attempts, i);
      assert calls[..n][..i] == calls[..i];
      CallWritesItsOwn(Ran(supply, calls[..n], attempts), calls[n], attempts);
    }
  }

  /** The x-th message of the run was written by its i-th call. */
  predicate WrittenBy(supply: seq<Option<Server>>, calls: seq<Call>, attempts: nat, i: nat, x: nat)
    requires i < |calls|
  {
    |Ran(supply, calls[..i], attempts).sent| <= x < |Ran(supply, calls[..i + 1], attempts).sent|
  }

  /** Every message of a run was written by one of its calls. */
  lemma {:induction false} EveryMessageHasItsCall(supply: seq<Option<Server>>, calls: seq<Call>, attempts: nat, x: nat)
    returns (i: nat)
    requires x < |Ran(supply, calls, attempts).sent|
    ensures i < |calls| && WrittenBy(supply, calls, attempts, i, x)
  {
    if calls == [] {
      assert false;
    } else {
      i := |calls| - 1;
      assert calls[..i + 1] == calls;
      if x < |Ran(supply, calls[..i], attempts).sent| {
        var before := calls[..i];
        i := EveryMessageHasItsCall(supply, before, attempts, x);
        assert before[..i] == calls[..i] && before[..i + 1] == calls[..i + 1];
      }
    }
  }

  lemma {:induction false} WrittenWithin(supply: seq<Option<Server>>, calls: seq<Call>, attempts: nat, i: nat, x: nat)
    requires i < |calls| && WrittenBy(supply, calls, attempts, i, x)
    ensures var st := Ran(supply, calls, attempts);
            && x < |st.sent|
            && (st.sent[x].id.Some? ==>
                  Ran(supply, calls[..i], attempts).nextId <= st.sent[x].id.value < Ran(supply, calls[..i + 1], attempts).nextId)
  {
    var before, after := Ran(supply, calls[..i], attempts), Ran(supply, calls[..i + 1], attempts);
    assert calls[..i + 1][..i] == calls[..i];
    CallWritesItsOwn(before, calls[i], attempts);
    RunOnlyAdds(supply, calls, attempts, i + 1);
    assert Ran(supply, calls, attempts).sent[x] == after.sent[x];
  }

  /** Over any run no id is written by two calls: what a later call writes is under higher ids. */
  lemma {:induction false} IdsBelongToOneCall(supply: seq<Option<Server>>, calls: seq<Call>, attempts: nat, i: nat, j: nat, x: nat, y: nat)
    requires i < j < |calls| && WrittenBy(supply, calls, attempts, i, x) && WrittenBy(supply, calls, attempts, j, y)
    ensures var sent := Ran(supply, calls, attempts).sent;
            && x < |sent| && y < |sent|
            && (sent[x].id.Some? && sent[y].id.Some? ==> sent[x].id.value < sent[y].id.value)
  {
    WrittenWithin(supply, calls, attempts, i, x);
    WrittenWithin(supply, calls, attempts, j, y);
    RunOnlyAdds(supply, calls[..j], attempts, i + 1);
    assert calls[..j][..i + 1] == calls[..i + 1];
  }

  // ------------------------------------------------------------------------------------------
  // Restarts and children
  // ------------------------------------------------------------------------------------------

  function Starts(calls: seq<Call>): nat {
    if calls == [] then 0 else Starts(calls[..|calls| - 1]) + if calls[|calls| - 1].Start? then 1 else 0
  }

  function Restarts(calls: seq<Call>): nat {
    if calls == [] then 0 else Restarts(calls[..|calls| - 1]) + if calls[|calls| - 1].Restart? then 1 else 0
  }

  /** A run starts from a client that has sent nothing and makes its calls one after the other. */
  lemma RunStep(supply: seq<Option<Server>>, calls: seq<Call>, call: Call, attempts: nat)
    ensures var (before, after) := (Ran(supply, calls, attempts), Ran(supply, calls + [call], attempts));
            && Ran(supply, [], attempts) == State(0, 1, None, supply, [], [])
            && after == Called(before, call, attempts)
            && (call.Start? && before.process.Some? ==> after == before)
            && (call.Notify? && before.process.Some? ==> after.sent == before.sent + [Sent(None, call.rpc)])
    ensures Starts([]) == Restarts([]) == 0
    ensures Starts(calls + [call]) == Starts(calls) + if call == Start then 1 else 0
    ensures Restarts(calls + [call]) == Restarts(calls) + if call == Restart then 1 else 0
  {
    assert (calls + [call])[..|calls|] == calls;
  }

  lemma CallCosts(st: State, call: Call, attempts: nat)
    requires OneMethodPerId(st.sent, st.nextId)
    ensures var after := Called(st, call, attempts);
            && after.restartCount <= (if call.Restart? then st.restartCount + 1 else Ceiling(st.restartCount, attempts))
            && |st.supply| - |after.supply| <= after.restartCount - st.restartCount + (if call.Start? then 1 else 0)
  {
    match call {
      case Start =>
        if st.process.None? { StartLaunches(st); }
      case Request(rpc, allowRestart) =>
        RequestStaysInBudget(st, rpc, allowRestart, attempts);
      case Restart =>
        RestartLaunches(st);
      case Notify(_) =>
      case Close =>
    }
  }

  /** Over any run the restarts are those the caller asked for and at most `attempts` more, and
      every child taken was asked for by a start or a counted restart. */
  lemma {:induction false} RunStaysInBudget(supply: seq<Option<Server>>, calls: seq<Call>, attempts: nat)
    ensures var st := Ran(supply, calls, attempts);
            && st.restartCount <= attempts + Restarts(calls)
            && |supply| - |st.supply| <= st.restartCount + Starts(calls)
  {
    if calls == [] {
    } else {
      var n := |calls| - 1;
      RunStaysInBudget(supply, calls[..n], attempts);
      RunKeepsIds(supply, calls[..n], attempts);
      CallCosts(Ran(supply, calls[..n], attempts), calls[n], attempts);
    }
  }
}
