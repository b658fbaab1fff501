/** What one request of the MCP client may cost and what it may return, whatever its children do. */
module RestartProofs {
  import opened Options
  import opened Restart

  // ------------------------------------------------------------------------------------------
  // The wait for a reply
  // ------------------------------------------------------------------------------------------

  /** A request settles with the first reply that carries its id, if only replies to others come
      before it, and otherwise fails; no other reply can settle it. */
  lemma {:induction false} SettledByOwnReply(inbox: seq<Event>, id: int, k: nat)
    requires k < |inbox| && forall i | 0 <= i < k :: inbox[i].Reply? && inbox[i].id != Some(id)
    ensures inbox[k].Reply? && inbox[k].id == Some(id) ==>
      Settled(inbox, id) == if inbox[k].isError then RemoteError else Result(inbox[k].value)
    ensures !inbox[k].Reply? ==> Settled(inbox, id) == TransportError
  {
    if k == 0 {
    } else {
      SettledByOwnReply(inbox[1..], id, k - 1);
    }
  }

  /** The outcome that an own reply means. */
  predicate IsOwnReply(event: Event, id: int, outcome: Outcome) {
    match outcome
    case Result(value) => event == Reply(Some(id), false, value)
    case RemoteError => event.Reply? && event.id == Some(id) && event.isError
    case _ => false
  }

  lemma {:induction false} HeardEndsWithReply(inbox: seq<Event>, id: int)
    requires !Settled(inbox, id).TransportError?
    ensures Heard(inbox, id) > 0 && IsOwnReply(inbox[Heard(inbox, id) - 1], id, Settled(inbox, id))
  {
    if inbox[0].id == Some(id) {
    } else {
      HeardEndsWithReply(inbox[1..], id);
    }
  }

  // ------------------------------------------------------------------------------------------
  // What goes out
  // ------------------------------------------------------------------------------------------

  /** How often a request id was written. */
  function Writes(sent: seq<Sent>, id: int): nat {
    if sent == [] then 0
    else Writes(sent[..|sent| - 1], id) + if sent[|sent| - 1].id == Some(id) then 1 else 0
  }

  lemma WritesOneMore(sent: seq<Sent>, s: Sent, id: int)
    ensures Writes(sent + [s], id) == Writes(sent, id) + if s.id == Some(id) then 1 else 0
  {
    assert (sent + [s])[..|sent|] == sent;
  }

  /** An attempt writes once at most, and not without writing does it end in a reply: its own. */
  lemma AttemptWritesOnce(st: State, rpc: string, id: int)
    requires st.process.Some?
    ensures var (after, outcome) := Attempted(st, rpc, id);
            && after == st.(process := after.process, sent := after.sent, received := after.received)
            && (after.sent == st.sent || after.sent == st.sent + [Sent(Some(id), rpc)])
            && !outcome.NotStarted?
            && (!outcome.TransportError? ==>
                  && after.sent == st.sent + [Sent(Some(id), rpc)]
                  && after.received != [] && IsOwnReply(after.received[|after.received| - 1], id, outcome))
  {
    var outcome := Attempted(st, rpc, id).1;
    if !outcome.TransportError? {
      HeardEndsWithReply(st.process.value.inbox, id);
    }
  }

  /** What a start may have added to what was sent. */
  predicate Greeted(sent: seq<Sent>, after: seq<Sent>, next: nat) {
    || after == sent
    || after == sent + [Sent(Some(next), "initialize")]
    || after == sent + [Sent(Some(next), "initialize"), Sent(None, "notifications/initialized")]
  }

  /** Starting a child keeps the count, takes at most one child and one id, and writes only under
      that id or none. Only a handshake can fail with a remote error, on its own error reply. */
  predicate Launches(st: State, after: State, failure: Option<Outcome>) {
    && after.restartCount == st.restartCount
    && (failure.None? <==> after.process.Some?)
    && st.nextId <= after.nextId <= st.nextId + 1
    && |after.supply| <= |st.supply| <= |after.supply| + 1
    && Greeted(st.sent, after.sent, st.nextId)
    && (after.sent != st.sent ==> after.nextId == st.nextId + 1)
    && (failure.Some? ==> failure.value.TransportError? || failure.value.RemoteError?)
    && (failure == Some(RemoteError) ==>
          && after.nextId == st.nextId + 1
          && after.sent == st.sent + [Sent(Some(st.nextId), "initialize")]
          && after.received != []
          && IsOwnReply(after.received[|after.received| - 1], st.nextId, RemoteError))
  }

  lemma StartLaunches(st: State)
    requires st.process.None?
    ensures Launches(st, Started(st).0, Started(st).1)
  {
    if st.supply != [] && st.supply[0].Some? {
      var launched := st.(process := st.supply[0], supply := st.supply[1..], nextId := st.nextId + 1);
      AttemptWritesOnce(launched, "initialize", st.nextId);
      assert st.sent + [Sent(Some(st.nextId), "initialize")] + [Sent(None, "notifications/initialized")]
          == st.sent + [Sent(Some(st.nextId), "initialize"), Sent(None, "notifications/initialized")];
    }
  }

  /** A restart is a counted start. */
  function Counted(st: State): State {
    st.(restartCount := st.restartCount + 1, process := None)
  }

  lemma RestartLaunches(st: State)
    ensures Launches(Counted(st), Restarted(st).0, Restarted(st).1)
  {
    StartLaunches(Counted(st));
  }

  lemma {:induction false} HandshakeIsNotCounted(sent: seq<Sent>, after: seq<Sent>, next: nat, id: int)
    requires Greeted(sent, after, next) && id < next
    ensures Writes(after, id) == Writes(sent, id)
  {
    var greeting, note := Sent(Some(next), "initialize"), Sent(None, "notifications/initialized");
    WritesOneMore(sent, greeting, id);
    WritesOneMore(sent + [greeting], note, id);
    assert sent + [greeting] + [note] == sent + [greeting, note];
  }

  lemma RestartDoesNotWrite(st: State, id: int)
    requires id < st.nextId
    ensures var restarted := Restarted(st).0;
            && Writes(restarted.sent, id) == Writes(st.sent, id)
            && restarted.restartCount == st.restartCount + 1 && st.nextId <= restarted.nextId
            && |restarted.supply| <= |st.supply| <= |restarted.supply| + 1
            && (Restarted(st).1.None? <==> restarted.process.Some?)
  {
    RestartLaunches(st);
    LaunchDoesNotWrite(Counted(st), Restarted(st).0, Restarted(st).1, id);
  }

  lemma LaunchDoesNotWrite(st: State, after: State, failure: Option<Outcome>, id: int)
    requires Launches(st, after, failure) && id < st.nextId
    ensures Writes(after.sent, id) == Writes(st.sent, id)
  {
    HandshakeIsNotCounted(st.sent, after.sent, st.nextId, id);
  }

  // ------------------------------------------------------------------------------------------
  // What a request costs
  // ------------------------------------------------------------------------------------------

  /** The restart count after a call: never over the attempts, unless it already was. */
  function Ceiling(count: nat, attempts: nat): nat {
    if count <= attempts then attempts else count
  }

  lemma {:induction false} LoopCosts(st: State, rpc: string, id: nat, allowRestart: bool, attempts: nat)
    requires st.process.Some? && id < st.nextId
    ensures var (after, outcome) := Looped(st, rpc, id, allowRestart, attempts);
            && st.restartCount <= after.restartCount <= Ceiling(st.restartCount, attempts)
            && st.nextId <= after.nextId
            && |st.supply| - |after.supply| <= after.restartCount - st.restartCount
            && Writes(after.sent, id) <= Writes(st.sent, id) + 1 + after.restartCount - st.restartCount
            && (!RestartAllowed(rpc, allowRestart, st.restartCount, attempts) ==>
                  after.restartCount == st.restartCount
                  && (after.sent == st.sent || after.sent == st.sent + [Sent(Some(id), rpc)]))
            && (outcome.TransportError? && after.process.Some? ==>
                  !RestartAllowed(rpc, allowRestart, after.restartCount, attempts))
    decreases attempts - st.restartCount
  {
    AttemptWritesOnce(st, rpc, id);
    WritesOneMore(st.sent, Sent(Some(id), rpc), id);
    var (tried, outcome) := Attempted(st, rpc, id);
    if !outcome.TransportError? || !RestartAllowed(rpc, allowRestart, tried.restartCount, attempts) {
    } else {
      RestartDoesNotWrite(tried, id);
      if Restarted(tried).1.None? {
        LoopCosts(Restarted(tried).0, rpc, id, allowRestart, attempts);
      }
    }
  }

  /** No id that was not handed out yet is on the wire. */
  predicate Issued(st: State) {
    forall i | 0 <= i < |st.sent| && st.sent[i].id.Some? :: st.sent[i].id.value < st.nextId
  }

  lemma {:induction false} UnissuedIsUnwritten(sent: seq<Sent>, id: int)
    requires forall i | 0 <= i < |sent| && sent[i].id.Some? :: sent[i].id.value < id
    ensures Writes(sent, id) == 0
  {
    if sent == [] {
    } else {
      UnissuedIsUnwritten(sent[..|sent| - 1], id);
    }
  }

  /** One request, whatever the children do: the restart count never passes the budget, a child is
      started only for a counted restart, the request is written once plus once per restart at
      most, a method outside the harmless set is written once at most and restarts nothing, and the
      request gives up with a child still there only when no restart is allowed any more. */
  lemma RequestStaysInBudget(st: State, rpc: string, allowRestart: bool, attempts: nat)
    requires Issued(st)
    ensures var (after, outcome) := Requested(st, rpc, allowRestart, attempts);
            && st.restartCount <= after.restartCount <= Ceiling(st.restartCount, attempts)
            && |st.supply| - |after.supply| <= after.restartCount - st.restartCount
            && Writes(after.sent, st.nextId) <= 1 + after.restartCount - st.restartCount
            && (!RestartAllowed(rpc, allowRestart, st.restartCount, attempts) ==>
                  after.restartCount == st.restartCount
                  && (after.sent == st.sent || after.sent == st.sent + [Sent(Some(st.nextId), rpc)]))
            && (outcome.TransportError? && after.process.Some? ==>
                  !RestartAllowed(rpc, allowRestart, after.restartCount, attempts))
  {
    UnissuedIsUnwritten(st.sent, st.nextId);
    if st.process.Some? {
      LoopCosts(st.(nextId := st.nextId + 1), rpc, st.nextId, allowRestart, attempts);
    }
  }

  // ------------------------------------------------------------------------------------------
  // What a request returns
  // ------------------------------------------------------------------------------------------

  /** The last message read settles request `id` with this outcome, right after its own write. */
  predicate EndsOwn(st: State, rpc: string, id: int, outcome: Outcome) {
    && st.received != [] && IsOwnReply(st.received[|st.received| - 1], id, outcome)
    && st.sent != [] && st.sent[|st.sent| - 1] == Sent(Some(id), rpc)
  }

  /** The last message read is the error a restart's handshake met, under an id handed out later. */
  predicate EndsInHandshake(st: State, id: int) {
    st.nextId - 1 > id && EndsOwn(st, "initialize", st.nextId - 1, RemoteError)
  }

  predicate Returns(before: State, after: State, outcome: Outcome, rpc: string, id: int) {
    match outcome
    case Result(_) => after.process.Some? && EndsOwn(after, rpc, id, outcome)
    case RemoteError =>
      if after.process.Some? then EndsOwn(after, rpc, id, outcome)
      else EndsInHandshake(after, id) && after.restartCount > before.restartCount
    case TransportError => true
    case NotStarted => false
  }

  lemma AttemptReturns(st: State, rpc: string, id: nat)
    requires st.process.Some?
    ensures var (tried, outcome) := Attempted(st, rpc, id);
            && Returns(st, tried, outcome, rpc, id)
            && tried.restartCount == st.restartCount && tried.nextId == st.nextId
  {
    AttemptWritesOnce(st, rpc, id);
  }

  lemma FailedRestartReturns(st: State, rpc: string, id: nat)
    requires id < st.nextId && Restarted(st).1.Some?
    ensures var (restarted, failure) := Restarted(st); Returns(st, restarted, failure.value, rpc, id)
  {
    RestartLaunches(st);
  }

  lemma RestartCounts(st: State)
    ensures var (restarted, failure) := Restarted(st);
            && restarted.restartCount == st.restartCount + 1 && st.nextId <= restarted.nextId
            && (failure.None? <==> restarted.process.Some?)
  {
    RestartLaunches(st);
  }

  lemma {:induction false} LoopReturns(st: State, rpc: string, id: nat, allowRestart: bool, attempts: nat)
    requires st.process.Some? && id < st.nextId
    ensures var (after, outcome) := Looped(st, rpc, id, allowRestart, attempts);
            Returns(st, after, outcome, rpc, id)
    decreases attempts - st.restartCount
  {
    AttemptReturns(st, rpc, id);
    var (tried, outcome) := Attempted(st, rpc, id);
    if !outcome.TransportError? || !RestartAllowed(rpc, allowRestart, tried.restartCount, attempts) {
    } else {
      RestartCounts(tried);
      var (restarted, failure) := Restarted(tried);
      if failure.None? {
        LoopReturns(restarted, rpc, id, allowRestart, attempts);
      } else {
        FailedRestartReturns(tried, rpc, id);
      }
    }
  }

  lemma ReturnsOwnIff(before: State, after: State, outcome: Outcome, rpc: string, id: int)
    requires Returns(before, after, outcome, rpc, id)
    ensures outcome.Result? ==> EndsOwn(after, rpc, id, outcome)
    ensures outcome.RemoteError? ==> (EndsOwn(after, rpc, id, outcome) <==> after.process.Some?)
  {
    if outcome.RemoteError? && after.process.None? {
      assert after.sent[|after.sent| - 1].id == Some(after.nextId - 1);
    }
  }

  /** Whose reply it is. A result is the last message read, carries the request's own id and
      follows its own write. A remote error is the request's own if and only if the child is still
      there; otherwise it is the error reply to the handshake of a restart, under an id of its own,
      and the request itself was never answered. */
  lemma ReplyIsOwnIff(st: State, rpc: string, allowRestart: bool, attempts: nat)
    requires st.process.Some?
    ensures var (after, outcome) := Requested(st, rpc, allowRestart, attempts);
            && (outcome.Result? ==> EndsOwn(after, rpc, st.nextId, outcome))
            && (outcome.RemoteError? ==> (EndsOwn(after, rpc, st.nextId, outcome) <==> after.process.Some?))
            && (outcome.RemoteError? && after.process.None? ==>
                  EndsInHandshake(after, st.nextId) && after.restartCount > st.restartCount)
  {
    var (after, outcome) := Requested(st, rpc, allowRestart, attempts);
    LoopReturns(st.(nextId := st.nextId + 1), rpc, st.nextId, allowRestart, attempts);
    ReturnsOwnIff(st.(nextId := st.nextId + 1), after, outcome, rpc, st.nextId);
  }

  /** The case exists: the child closes its output, the restart's child answers the handshake with
      an error, and the caller is told of a remote error although no reply carried its id. */
  lemma HandshakeErrorIsRaised()
    ensures var silent := Server([], 1, 1);
            var refusing := Server([Reply(Some(2), true, Value(false, "no"))], 2, 2);
            var st := State(0, 1, Some(silent), [Some(refusing)], [], []);
            var (after, outcome) := Requested(st, "tools/list", true, 1);
            && outcome.RemoteError? && after.process.None? && after.restartCount == 1
            && after.received == [Reply(Some(2), true, Value(false, "no"))]
            && after.sent == [Sent(Some(1), "tools/list"), Sent(Some(2), "initialize")]
  {
    var silent := Server([], 1, 1);
    var reply := Reply(Some(2), true, Value(false, "no"));
    var refusing := Server([reply], 2, 2);
    var first, second := Sent(Some(1), "tools/list"), Sent(Some(2), "initialize");
    var st := State(0, 2, Some(silent), [Some(refusing)], [], []);
    var tried := Attempted(st, "tools/list", 1).0;
    assert tried.sent == [first] && tried.received == [];
    var launched := State(1, 3, Some(refusing), [], [first], []);
    assert [Some(refusing)][1..] == [];
    assert Heard([reply], 2) == 1 && Settled([reply], 2) == RemoteError;
    var greeted := Attempted(launched, "initialize", 2).0;
    assert greeted.sent == [first, second] && greeted.received == [reply];
    var again := tried.(restartCount := 1, process := None);
    assert again == State(1, 2, None, [Some(refusing)], [first], []);
    assert Started(again) == (greeted.(process := None), Some(RemoteError));
    assert Looped(st, "tools/list", 1, true, 1) == (greeted.(process := None), RemoteError);
  }

  // ------------------------------------------------------------------------------------------
  // Ids
  // ------------------------------------------------------------------------------------------

  predicate OnlyFor(sent: seq<Sent>, id: int, rpc: string) {
    forall i | 0 <= i < |sent| && sent[i].id == Some(id) :: sent[i].rpc == rpc
  }

  /** Ids on the wire were handed out, and each stands for one method. */
  predicate OneMethodPerId(sent: seq<Sent>, nextId: nat) {
    && (forall i | 0 <= i < |sent| && sent[i].id.Some? :: sent[i].id.value < nextId)
    && forall i | 0 <= i < |sent| && sent[i].id.Some? :: OnlyFor(sent, sent[i].id.value, sent[i].rpc)
  }

  lemma WriteKeepsIds(sent: seq<Sent>, nextId: nat, s: Sent, id: int, rpc: string)
    requires OneMethodPerId(sent, nextId) && OnlyFor(sent, id, rpc)
    requires s.id.Some? ==> s.id.value < nextId && OnlyFor(sent, s.id.value, s.rpc)
    requires s.id == Some(id) ==> s.rpc == rpc
    ensures OneMethodPerId(sent + [s], nextId) && OnlyFor(sent + [s], id, rpc)
  {
    var more := sent + [s];
    forall i | 0 <= i < |more| && more[i].id.Some? ensures OnlyFor(more, more[i].id.value, more[i].rpc) {
      if i < |sent| {
        assert OnlyFor(sent, sent[i].id.value, sent[i].rpc);
      }
    }
  }

  /** The ids on the wire are in order, and this one is for this method. */
  predicate IdsInOrder(st: State, id: nat, rpc: string) {
    id < st.nextId && OneMethodPerId(st.sent, st.nextId) && OnlyFor(st.sent, id, rpc)
  }

  lemma RestartKeepsIds(st: State, id: nat, rpc: string)
    requires IdsInOrder(st, id, rpc)
    ensures IdsInOrder(Restarted(st).0, id, rpc)
  {
    RestartLaunches(st);
  }

  lemma {:induction false} LoopKeepsIds(st: State, rpc: string, id: nat, allowRestart: bool, attempts: nat)
    requires st.process.Some? && IdsInOrder(st, id, rpc)
    ensures IdsInOrder(Looped(st, rpc, id, allowRestart, attempts).0, id, rpc)
    decreases attempts - st.restartCount
  {
    var (tried, outcome) := Attempted(st, rpc, id);
    if !outcome.TransportError? || !RestartAllowed(rpc, allowRestart, tried.restartCount, attempts) {
    } else {
      RestartKeepsIds(tried, id, rpc);
      RestartCounts(tried);
      if Restarted(tried).1.None? {
        LoopKeepsIds(Restarted(tried).0, rpc, id, allowRestart, attempts);
      }
    }
  }

  /** One request keeps the ids on the wire in order: all that was written under one id is the same
      method. */
  lemma RequestKeepsIds(st: State, rpc: string, allowRestart: bool, attempts: nat)
    requires OneMethodPerId(st.sent, st.nextId)
    ensures var after := Requested(st, rpc, allowRestart, attempts).0; OneMethodPerId(after.sent, after.nextId)
  {
    if st.process.Some? {
      LoopKeepsIds(st.(nextId := st.nextId + 1), rpc, st.nextId, allowRestart, attempts);
    }
  }
}
