/** The request loop of the MCP client (skynet/mcp.py): one JSON-RPC request over a child process
    that may die at any point, and a budget of restarts that only harmless methods may spend.
    What a request returns, writes and spends is proved in RestartProofs, and over runs in RestartRuns. */
module Restart {
  import opened Options

  /** A JSON-RPC result; the handshake only asks whether it is an object. */
  datatype Value = Value(isObject: bool, text: string)

  /** What one read gives: a message, something that is not an object, or a transport fault
      (timeout, closed stdout, bad framing). */
  datatype Event =
    | Reply(id: Option<int>, isError: bool, value: Value)
    | NotAnObject
    | Fault

  /** A child process: what it will still say, how many writes it takes before its pipe breaks, and
      how many polls still find it running. */
  datatype Server = Server(inbox: seq<Event>, writes: nat, polls: nat)

  datatype Sent = Sent(id: Option<int>, rpc: string)

  /** How a request ends: its result, an MCPRemoteError, any other error, or never started. */
  datatype Outcome = Result(value: Value) | RemoteError | TransportError | NotStarted

  const IDEMPOTENT_METHODS := {"initialize", "tools/list", "notifications/initialized"}

  /** The client, all that was ever written to and read from any child, and the children that
      starting will give, where None is a launch that fails. */
  datatype State = State(
    restartCount: nat,
    nextId: nat,
    process: Option<Server>,
    supply: seq<Option<Server>>,
    sent: seq<Sent>,
    received: seq<Event>)

  // ------------------------------------------------------------------------------------------
  // What the client does, step by step
  // ------------------------------------------------------------------------------------------

  /** The wait for request `id` over what a server will say: replies to other requests are passed
      over, anything that is no reply ends it. */
  function Settled(inbox: seq<Event>, id: int): Outcome {
    if inbox == [] || !inbox[0].Reply? then TransportError
    else if inbox[0].id != Some(id) then Settled(inbox[1..], id)
    else if inbox[0].isError then RemoteError
    else Result(inbox[0].value)
  }

  /** How much of it the wait reads. */
  function Heard(inbox: seq<Event>, id: int): (n: nat)
    ensures n <= |inbox|
  {
    if inbox == [] then 0
    else if inbox[0].Reply? && inbox[0].id != Some(id) then 1 + Heard(inbox[1..], id)
    else 1
  }

  function Awaited(st: State, id: int): State
    requires st.process.Some?
  {
    var server := st.process.value;
    var n := Heard(server.inbox, id);
    st.(process := Some(server.(inbox := server.inbox[n..])), received := st.received + server.inbox[..n])
  }

  /** The message goes out, or the write fails part-way: either way it counts as written. */
  function Wrote(st: State, rpc: string, id: Option<int>): State
    requires st.process.Some?
  {
    var server := st.process.value;
    st.(sent := st.sent + [Sent(id, rpc)],
        process := Some(if server.writes == 0 then server else server.(writes := server.writes - 1)))
  }

  function Polled(st: State): State
    requires st.process.Some?
  {
    var server := st.process.value;
    st.(process := Some(if server.polls == 0 then server else server.(polls := server.polls - 1)))
  }

  /** One turn of the loop: nothing at all if the child has exited, else one write and the wait
      for its reply. */
  function Attempted(st: State, rpc: string, id: int): (r: (State, Outcome))
    requires st.process.Some?
    ensures r.0.process.Some?
  {
    if st.process.value.polls == 0 then (st, TransportError)
    else
      var polled := Polled(st);
      var wrote := Wrote(polled, rpc, Some(id));
      if polled.process.value.writes == 0 then (wrote, TransportError)
      else (Awaited(wrote, id), Settled(wrote.process.value.inbox, id))
  }

  predicate RestartAllowed(rpc: string, allowRestart: bool, restartCount: nat, attempts: nat) {
    allowRestart && rpc in IDEMPOTENT_METHODS && restartCount < attempts
  }

  /** A child is launched and greeted; a handshake that fails closes it again and raises its own
      error, a remote one as a remote one. */
  function Started(st: State): (State, Option<Outcome>) {
    if st.process.Some? then (st, None)
    else if st.supply == [] then (st, Some(TransportError))
    else if st.supply[0].None? then (st.(supply := st.supply[1..]), Some(TransportError))
    else
      var launched := st.(process := st.supply[0], supply := st.supply[1..], nextId := st.nextId + 1);
      var (greeted, outcome) := Attempted(launched, "initialize", st.nextId);
      if !outcome.Result? || !outcome.value.isObject then
        (greeted.(process := None), Some(if outcome.RemoteError? then RemoteError else TransportError))
      else
        var notified := Wrote(greeted, "notifications/initialized", None);
        if greeted.process.value.writes == 0 then (notified.(process := None), Some(TransportError))
        else (notified, None)
  }

  /** The restart is counted before it is tried. */
  function Restarted(st: State): (State, Option<Outcome>) {
    Started(st.(restartCount := st.restartCount + 1, process := None))
  }

  function Looped(st: State, rpc: string, id: int, allowRestart: bool, attempts: nat): (State, Outcome)
    requires st.process.Some?
    decreases attempts - st.restartCount
  {
    var (tried, outcome) := Attempted(st, rpc, id);
    if !outcome.TransportError? || !RestartAllowed(rpc, allowRestart, tried.restartCount, attempts) then (tried, outcome)
    else
      var (restarted, failure) := Restarted(tried);
      if failure.Some? then (restarted, failure.value)
      else Looped(restarted, rpc, id, allowRestart, attempts)
  }

  /** One request: its id is handed out once, however often it is written. */
  function Requested(st: State, rpc: string, allowRestart: bool, attempts: nat): (State, Outcome) {
    if st.process.None? then (st, NotStarted)
    else Looped(st.(nextId := st.nextId + 1), rpc, st.nextId, allowRestart, attempts)
  }

  /** The handshake's own request is a single attempt: it may not restart. */
  lemma HandshakeIsOneAttempt(st: State, attempts: nat)
    requires st.process.Some?
    ensures Requested(st, "initialize", false, attempts)
         == Attempted(st.(nextId := st.nextId + 1), "initialize", st.nextId)
  {
  }

  // ------------------------------------------------------------------------------------------
  // The client
  // ------------------------------------------------------------------------------------------

  class Client {
    const restartAttempts: nat
    var restartCount: nat
    var nextId: nat
    var process: Option<Server>
    var supply: seq<Option<Server>>
    ghost var sent: seq<Sent>
    ghost var received: seq<Event>

    ghost function Now(): State
      reads this
    {
      State(restartCount, nextId, process, supply, sent, received)
    }

    constructor (restartAttempts: nat, supply: seq<Option<Server>>)
      ensures this.restartAttempts == restartAttempts && Now() == State(0, 1, None, supply, [], [])
    {
      this.restartAttempts, this.supply := restartAttempts, supply;
      restartCount, nextId, process, sent, received := 0, 1, None, [], [];
    }

    method Poll() returns (running: bool)
      requires process.Some?
      modifies this`process
      ensures running <==> old(process).value.polls > 0
      ensures Now() == Polled(old(Now()))
    {
      running := process.value.polls > 0;
      if running { process := Some(process.value.(polls := process.value.polls - 1)); }
    }

    method Write(rpc: string, id: Option<int>) returns (ok: bool)
      requires process.Some?
      modifies this`process, this`sent
      ensures ok <==> old(process).value.writes > 0
      ensures Now() == Wrote(old(Now()), rpc, id)
    {
      ok := process.value.writes > 0;
      sent := sent + [Sent(id, rpc)];
      if ok { process := Some(process.value.(writes := process.value.writes - 1)); }
    }

    /** The inner loop: read until a message carries this request's id, or the transport fails. */
    method AwaitReply(id: int) returns (outcome: Outcome)
      requires process.Some?
      modifies this`process, this`received
      ensures Now() == Awaited(old(Now()), id) && outcome == Settled(old(process).value.inbox, id)
    {
      ghost var inbox := process.value.inbox;
      ghost var n := 0;
      while process.value.inbox != []
        invariant n <= |inbox| && process == Some(old(process).value.(inbox := inbox[n..]))
        invariant received == old(received) + inbox[..n]
        invariant Settled(inbox[n..], id) == Settled(inbox, id) && n + Heard(inbox[n..], id) == Heard(inbox, id)
        decreases |inbox| - n
      {
        var event := process.value.inbox[0];
        process := Some(process.value.(inbox := process.value.inbox[1..]));
        received := received + [event];
        assert inbox[..n + 1] == inbox[..n] + [event];
        assert inbox[n..][1..] == inbox[n + 1..];
        n := n + 1;
        if !event.Reply? {
          return TransportError;
        }
        if event.id != Some(id) {
          continue;
        }
        return if event.isError then RemoteError else Result(event.value);
      }
      assert inbox[..n] == inbox;
      return TransportError;
    }

    method Start() returns (failure: Option<Outcome>)
      modifies this
      ensures (Now(), failure) == Started(old(Now()))
      decreases 1
    {
      if process.Some? {
        return None;
      }
      if supply == [] {
        return Some(TransportError);
      }
      process, supply := supply[0], supply[1..];
      if process.None? {
        return Some(TransportError);
      }
      HandshakeIsOneAttempt(Now(), restartAttempts);
      var outcome := Request("initialize", false);
      if !outcome.Result? || !outcome.value.isObject {
        process := None;
        return Some(if outcome.RemoteError? then RemoteError else TransportError);
      }
      var ok := Write("notifications/initialized", None);
      if !ok {
        process := None;
        return Some(TransportError);
      }
      return None;
    }

    method RestartLocked() returns (failure: Option<Outcome>)
      modifies this
      ensures (Now(), failure) == Restarted(old(Now()))
      decreases 2
    {
      restartCount := restartCount + 1;
      process := None;
      failure := Start();
    }

    method Attempt(rpc: string, id: int) returns (outcome: Outcome)
      requires process.Some?
      modifies this`process, this`sent, this`received
      ensures (Now(), outcome) == Attempted(old(Now()), rpc, id)
    {
      var running := Poll();
      if !running {
        return TransportError;
      }
      var written := Write(rpc, Some(id));
      if !written {
        return TransportError;
      }
      outcome := AwaitReply(id);
    }

    /** One request: attempts, with restarts in between while they are allowed; an error of the
        restart itself goes straight to the caller. */
    method Request(rpc: string, allowRestart: bool) returns (outcome: Outcome)
      modifies this
      ensures (Now(), outcome) == Requested(old(Now()), rpc, allowRestart, restartAttempts)
      decreases if allowRestart then 3 else 0
    {
      if process.None? {
        return NotStarted;
      }
      var id := nextId;
      nextId := nextId + 1;
      while true
        invariant process.Some?
        invariant Looped(Now(), rpc, id, allowRestart, restartAttempts)
               == Requested(old(Now()), rpc, allowRestart, restartAttempts)
        decreases restartAttempts - restartCount
      {
        ghost var before := Now();
        outcome := Attempt(rpc, id);
        if !outcome.TransportError? || !RestartAllowed(rpc, allowRestart, restartCount, restartAttempts) {
          return;
        }
        ghost var tried := Now();
        var failure := RestartLocked();
        if failure.Some? {
          return failure.value;
        }
      }
    }
  }
}
