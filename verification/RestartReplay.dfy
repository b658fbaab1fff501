/** Which requests of the MCP client (skynet/mcp.py) are ever sent again, and when a start succeeds. */
module RestartReplay {
  import opened Options
  import opened Restart
  import opened RestartProofs
  import opened RestartRuns

  /** What may be sent twice: the handshake and the listing of tools. */
  predicate Harmless(rpc: string) {
    rpc == "initialize" || rpc == "tools/list" || rpc == "notifications/initialized"
  }

  // ------------------------------------------------------------------------------------------
  // What is never sent again
  // ------------------------------------------------------------------------------------------

  /** Any other request, `tools/call` above all, and any request that may not restart, is written
      once at most, whatever the child does: nothing is restarted for it and no child is taken. */
  lemma NeverReplayed(st: State, rpc: string, allowRestart: bool, attempts: nat)
    requires Issued(st) && (!allowRestart || !Harmless(rpc))
    ensures var after := Requested(st, rpc, allowRestart, attempts).0;
            && after.restartCount == st.restartCount && after.supply == st.supply
            && after.nextId == (if st.process.None? then st.nextId else st.nextId + 1)
            && (after.sent == st.sent || after.sent == st.sent + [Sent(Some(st.nextId), rpc)])
            && Writes(after.sent, st.nextId) <= 1
  {
    UnissuedIsUnwritten(st.sent, st.nextId);
    WritesOneMore(st.sent, Sent(Some(st.nextId), rpc), st.nextId);
    if st.process.Some? { AttemptWritesOnce(st.(nextId := st.nextId + 1), rpc, st.nextId); }
  }

  /** From here on, what goes out under an id is harmless. */
  predicate HarmlessSince(sent: seq<Sent>, from: nat) {
    forall i | from <= i < |sent| && sent[i].id.Some? :: Harmless(sent[i].rpc)
  }

  lemma LaunchIsHarmless(st: State, after: State, failure: Option<Outcome>, from: nat)
    requires Launches(st, after, failure) && HarmlessSince(st.sent, from)
    ensures HarmlessSince(after.sent, from)
  {
  }

  lemma {:induction false} LoopIsHarmless(st: State, rpc: string, id: nat, allowRestart: bool, attempts: nat, from: nat)
    requires st.process.Some? && HarmlessSince(st.sent, from) && Harmless(rpc)
    ensures HarmlessSince(Looped(st, rpc, id, allowRestart, attempts).0.sent, from)
    decreases attempts - st.restartCount
  {
    AttemptWritesOnce(st, rpc, id);
    var (tried, outcome) := Attempted(st, rpc, id);
    if !outcome.TransportError? || !RestartAllowed(rpc, allowRestart, tried.restartCount, attempts) {
    } else {
      RestartLaunches(tried);
      LaunchIsHarmless(Counted(tried), Restarted(tried).0, Restarted(tried).1, from);
      if Restarted(tried).1.None? {
        LoopIsHarmless(Restarted(tried).0, rpc, id, allowRestart, attempts, from);
      }
    }
  }

  /** A call adds one message at most, or only harmless ones. */
  lemma CallIsHarmless(st: State, call: Call, attempts: nat)
    requires OneMethodPerId(st.sent, st.nextId)
    ensures var after := Called(st, call, attempts).sent;
            |after| <= |st.sent| + 1 || HarmlessSince(after, |st.sent|)
  {
    match call {
      case Start =>
        if st.process.None? {
          StartLaunches(st);
          LaunchIsHarmless(st, Started(st).0, Started(st).1, |st.sent|);
        }
      case Request(rpc, allowRestart) =>
        if !Harmless(rpc) {
          NeverReplayed(st, rpc, allowRestart, attempts);
        } else if st.process.Some? {
          LoopIsHarmless(st.(nextId := st.nextId + 1), rpc, st.nextId, allowRestart, attempts, |st.sent|);
        }
      case Restart =>
        RestartLaunches(st);
        LaunchIsHarmless(Counted(st), Restarted(st).0, Restarted(st).1, |st.sent|);
      case Notify(_) =>
      case Close =>
    }
  }

  /** Two messages under one id are harmless. */
  predicate NoReplay(sent: seq<Sent>) {
    forall i, j | 0 <= i < j < |sent| && sent[i].id.Some? && sent[i].id == sent[j].id :: Harmless(sent[i].rpc) && Harmless(sent[j].rpc)
  }

  /** Over any run, whatever the children do: nothing but the handshake and the listing of tools ever
      goes out twice. */
  lemma {:induction false} RunNeverReplays(supply: seq<Option<Server>>, calls: seq<Call>, attempts: nat)
    ensures NoReplay(Ran(supply, calls, attempts).sent)
  {
    if calls == [] {
    } else {
      var n := |calls| - 1;
      var before := Ran(supply, calls[..n], attempts);
      RunNeverReplays(supply, calls[..n], attempts);
      RunKeepsIds(supply, calls[..n], attempts);
      CallIsHarmless(before, calls[n], attempts);
      CallWritesItsOwn(before, calls[n], attempts);
      AddedUnderNewIds(before, Called(before, calls[n], attempts));
    }
  }

  lemma AddedUnderNewIds(before: State, after: State)
    requires NoReplay(before.sent) && OneMethodPerId(before.sent, before.nextId) && Since(before.sent, before.nextId, after)
    requires |after.sent| <= |before.sent| + 1 || HarmlessSince(after.sent, |before.sent|)
    ensures NoReplay(after.sent)
  {
    var n := |before.sent|;
    forall i, j | 0 <= i < j < |after.sent| && after.sent[i].id.Some? && after.sent[i].id == after.sent[j].id
      ensures Harmless(after.sent[i].rpc) && Harmless(after.sent[j].rpc)
    {
      if i < n {
        assert after.sent[i] == before.sent[i] && before.sent[i].id.value < before.nextId;
        assert j < n && after.sent[j] == before.sent[j];
      }
    }
  }

  // ------------------------------------------------------------------------------------------
  // A start that succeeds
  // ------------------------------------------------------------------------------------------

  /** The k-th message is the reply to `id`, and before it come only replies to others. */
  predicate RepliesAt(inbox: seq<Event>, id: int, k: int) {
    && 0 <= k < |inbox| && inbox[k].Reply? && inbox[k].id == Some(id)
    && forall i | 0 <= i < k :: inbox[i].Reply? && inbox[i].id != Some(id)
  }

  lemma {:induction false} SettledAt(inbox: seq<Event>, id: int, k: int)
    requires RepliesAt(inbox, id, k)
    ensures Settled(inbox, id) == if inbox[k].isError then RemoteError else Result(inbox[k].value)
    ensures Heard(inbox, id) == k + 1
  {
    if k > 0 { SettledAt(inbox[1..], id, k - 1); }
  }

  lemma {:induction false} SettledIff(inbox: seq<Event>, id: int)
    ensures !Settled(inbox, id).TransportError? <==> exists k :: RepliesAt(inbox, id, k)
    ensures !Settled(inbox, id).NotStarted?
  {
    if inbox == [] || !inbox[0].Reply? {
    } else if inbox[0].id == Some(id) {
      assert RepliesAt(inbox, id, 0);
    } else {
      SettledIff(inbox[1..], id);
      if k :| RepliesAt(inbox[1..], id, k) {
        forall i | 0 <= i < k + 1 ensures inbox[i].Reply? && inbox[i].id != Some(id) {
          if i > 0 { assert inbox[i] == inbox[1..][i - 1]; }
        }
        assert RepliesAt(inbox, id, k + 1);
      }
      if k :| RepliesAt(inbox, id, k) {
        forall i | 0 <= i < k - 1 ensures inbox[1..][i].Reply? && inbox[1..][i].id != Some(id) {
          assert inbox[1..][i] == inbox[i + 1];
        }
        assert RepliesAt(inbox[1..], id, k - 1);
      }
    }
  }

  /** The child runs, takes the two messages of a handshake, and answers its request with an object. */
  predicate GreetsAt(server: Server, id: int, k: int) {
    && server.polls >= 1 && server.writes >= 2
    && RepliesAt(server.inbox, id, k) && !server.inbox[k].isError && server.inbox[k].value.isObject
  }

  /** The child when it has been greeted. */
  function Ready(server: Server, k: nat): Server
    requires k < |server.inbox| && server.polls >= 1 && server.writes >= 2
  {
    Server(server.inbox[k + 1..], server.writes - 2, server.polls - 1)
  }

  /** A start gives a child that is ready exactly when the one launched greets; then the handshake and
      its note went out, and all up to the reply was read. */
  lemma StartSucceedsIff(st: State, k: int)
    requires st.process.None?
    ensures Started(st).1.None? <==> st.supply != [] && st.supply[0].Some? && exists k :: GreetsAt(st.supply[0].value, st.nextId, k)
    ensures st.supply != [] && st.supply[0].Some? && GreetsAt(st.supply[0].value, st.nextId, k) ==>
              var server := st.supply[0].value;
              Started(st) == (State(st.restartCount, st.nextId + 1, Some(Ready(server, k)), st.supply[1..],
                                    st.sent + [Sent(Some(st.nextId), "initialize"), Sent(None, "notifications/initialized")],
                                    st.received + server.inbox[..k + 1]), None)
  {
    if st.supply != [] && st.supply[0].Some? {
      var server, id := st.supply[0].value, st.nextId;
      SettledIff(server.inbox, id);
      if GreetsAt(server, id, k) {
        SettledAt(server.inbox, id, k);
        assert st.sent + [Sent(Some(id), "initialize")] + [Sent(None, "notifications/initialized")]
            == st.sent + [Sent(Some(id), "initialize"), Sent(None, "notifications/initialized")];
      }
      if j :| RepliesAt(server.inbox, id, j) {
        SettledAt(server.inbox, id, j);
        assert Started(st).1.None? ==> GreetsAt(server, id, j);
      }
      if j :| GreetsAt(server, id, j) {
        SettledAt(server.inbox, id, j);
      }
    }
  }

  /** A start finds a child that runs and does nothing; a request without one is refused unsent. */
  lemma NothingToDo(st: State, rpc: string, allowRestart: bool, attempts: nat)
    ensures st.process.Some? ==> Started(st) == (st, None)
    ensures st.process.None? ==> Requested(st, rpc, allowRestart, attempts) == (st, NotStarted)
  {
  }

  // ------------------------------------------------------------------------------------------
  // What is sent again
  // ------------------------------------------------------------------------------------------

  /** The child runs, takes one message and answers it. */
  predicate AnswersAt(server: Server, id: int, k: int) {
    server.polls >= 1 && server.writes >= 1 && RepliesAt(server.inbox, id, k)
  }

  lemma AnswerEndsLoop(st: State, rpc: string, id: int, allowRestart: bool, attempts: nat, j: nat)
    requires st.process.Some? && AnswersAt(st.process.value, id, j)
    ensures var (after, outcome) := Looped(st, rpc, id, allowRestart, attempts);
            var reply := st.process.value.inbox[j];
            && outcome == (if reply.isError then RemoteError else Result(reply.value))
            && after == st.(process := after.process, sent := st.sent + [Sent(Some(id), rpc)], received := after.received)
  {
    SettledAt(st.process.value.inbox, id, j);
  }

  /** Any request whose child answers is written once and comes back with that answer. */
  lemma RequestIsAnswered(st: State, rpc: string, allowRestart: bool, attempts: nat, j: nat)
    requires st.process.Some? && AnswersAt(st.process.value, st.nextId, j)
    ensures var (after, outcome) := Requested(st, rpc, allowRestart, attempts);
            var reply := st.process.value.inbox[j];
            && outcome == (if reply.isError then RemoteError else Result(reply.value))
            && after.sent == st.sent + [Sent(Some(st.nextId), rpc)] && after.nextId == st.nextId + 1
            && after.restartCount == st.restartCount && after.supply == st.supply
  {
    AnswerEndsLoop(st.(nextId := st.nextId + 1), rpc, st.nextId, allowRestart, attempts, j);
  }

  lemma SilenceEndsAttempt(st: State, rpc: string, id: int)
    requires st.process.Some? && forall i :: !AnswersAt(st.process.value, id, i)
    ensures var (after, outcome) := Attempted(st, rpc, id);
            && outcome.TransportError?
            && after == st.(process := after.process, received := after.received,
                            sent := if st.process.value.polls == 0 then st.sent else st.sent + [Sent(Some(id), rpc)])
  {
    SettledIff(st.process.value.inbox, id);
    if k :| RepliesAt(st.process.value.inbox, id, k) {
      assert !AnswersAt(st.process.value, id, k);
    }
  }

  /** A harmless request whose child does not answer, with a restart left and a new child that greets
      and answers, comes back with that child's answer: one restart, and the request is on the wire
      again behind the handshake. */
  lemma HarmlessIsSentAgain(st: State, rpc: string, attempts: nat, k: nat, j: nat)
    requires st.process.Some? && Harmless(rpc) && st.restartCount < attempts
    requires forall i :: !AnswersAt(st.process.value, st.nextId, i)
    requires st.supply != [] && st.supply[0].Some? && GreetsAt(st.supply[0].value, st.nextId + 1, k)
    requires AnswersAt(Ready(st.supply[0].value, k), st.nextId, j)
    ensures var (after, outcome) := Requested(st, rpc, true, attempts);
            var own := Sent(Some(st.nextId), rpc);
            var reply := st.supply[0].value.inbox[k + 1 + j];
            && outcome == (if reply.isError then RemoteError else Result(reply.value))
            && after.restartCount == st.restartCount + 1 && after.supply == st.supply[1..]
            && after.sent == st.sent + (if st.process.value.polls == 0 then [] else [own])
                 + [Sent(Some(st.nextId + 1), "initialize"), Sent(None, "notifications/initialized")] + [own]
  {
    var id := st.nextId;
    var first := st.(nextId := id + 1);
    SilenceEndsAttempt(first, rpc, id);
    var tried := Attempted(first, rpc, id).0;
    StartSucceedsIff(Counted(tried), k);
    var again := Restarted(tried).0;
    AnswerEndsLoop(again, rpc, id, true, attempts, j);
    assert Looped(first, rpc, id, true, attempts) == Looped(again, rpc, id, true, attempts);
  }
}
