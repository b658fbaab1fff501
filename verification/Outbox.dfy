/** Draining the outbox (skynet/outbox.py, with the queue rows of skynet/store.py): messages are
    claimed, sent, returned to the queue or parked, under one flood window for the whole channel. The
    answers of the transport are an input, numbered by the requests made of it; ghost fields keep
    what a message was charged before its present claim and which requests each window was open for. */
module Outbox {
  import opened Options

  type Id = int

  datatype State = Pending | Delivering | Delivered | Dead

  datatype Row = Row(state: State, attempts: nat, createdAt: real, claimedAt: Option<real>)

  /** What the transport answers to one send. */
  datatype Answer = Accepted | RateLimited(retryAfter: real) | Refused

  /** The transport: its answer to each send, in order. */
  type Transport = nat -> Answer

  /** How `_send_with_rate_limit` ends: it returns, raises the deferral, or raises something else,
      which is the rate limit itself when it has been met once too often. */
  datatype Ending = Sent | Deferred | Failed(refused: bool)

  const LEASE_SECONDS := 300.0
  const RATE_LIMIT_RETRIES := 1

  function Max(a: real, b: real): real {
    if a >= b then a else b
  }

  function Min(a: real, b: real): real {
    if a <= b then a else b
  }

  /** How many of the sends from one number up to another were accepted. */
  function Accepts(transport: Transport, from: nat, to: nat): nat
    requires from <= to
  {
    if from == to then 0
    else Accepts(transport, from, to - 1) + if transport(to - 1).Accepted? then 1 else 0
  }

  lemma {:induction false} AcceptsJoin(transport: Transport, from: nat, mid: nat, to: nat)
    requires from <= mid <= to
    ensures Accepts(transport, from, to) == Accepts(transport, from, mid) + Accepts(transport, mid, to)
  {
    if mid == to {
    } else {
      AcceptsJoin(transport, from, mid, to - 1);
    }
  }

  /** The probes of one flood window, by the numbers of their sends. */
  type Window = seq<nat>

  /** While a window lasts, every probe so far was refused for a reason other than the rate limit. */
  ghost predicate OpenOk(transport: Transport, window: Window) {
    forall i | 0 <= i < |window| :: transport(window[i]).Refused?
  }

  /** A window that is over: every probe but its last was refused so, and its last was not. */
  ghost predicate ClosedOk(transport: Transport, window: Window) {
    forall i | 0 <= i < |window| :: transport(window[i]).Refused? <==> i < |window| - 1
  }

  /** A request made of the transport: for which message, at what time, and whether it is the second
      one for a message that was held for a flood wait. */
  datatype Request = Request(id: Id, at: real, retry: bool)

  /** How long the queue waits after this answer. */
  function Delay(answer: Answer, cap: real): real {
    match answer
    case RateLimited(retryAfter) => Min(Max(retryAfter, 1.0), cap)
    case _ => 0.0
  }

  /** Only a held message is asked for again, at once and once. */
  ghost predicate RetryOk(transport: Transport, blocking: bool, requests: seq<Request>, n: nat)
    requires n < |requests|
  {
    requests[n].retry ==>
      && blocking && n > 0 && transport(n - 1).RateLimited?
      && !requests[n - 1].retry && requests[n - 1].id == requests[n].id
  }

  /** Of the waits met by the first n requests, none is still running at this time. */
  ghost predicate Waited(transport: Transport, cap: real, requests: seq<Request>, n: nat, at: real)
    requires n <= |requests|
  {
    forall m | 0 <= m < n && transport(m).RateLimited? :: requests[m].at + Delay(transport(m), cap) <= at
  }

  /** No request is made while a flood wait runs that an earlier one met, save the retry of a held
      message, which sleeps through its own. */
  ghost predicate Paced(transport: Transport, cap: real, blocking: bool, requests: seq<Request>) {
    forall n | 0 <= n < |requests| ::
      && RetryOk(transport, blocking, requests, n)
      && Waited(transport, cap, requests, if requests[n].retry then n - 1 else n, requests[n].at)
  }

  lemma PacedOneMore(transport: Transport, cap: real, blocking: bool, requests: seq<Request>, more: Request)
    requires Paced(transport, cap, blocking, requests) && RetryOk(transport, blocking, requests + [more], |requests|)
    requires Waited(transport, cap, requests, if more.retry then |requests| - 1 else |requests|, more.at)
    ensures Paced(transport, cap, blocking, requests + [more])
  {
    var after := requests + [more];
    forall n | 0 <= n < |after|
      ensures RetryOk(transport, blocking, after, n)
      ensures Waited(transport, cap, after, if after[n].retry then n - 1 else n, after[n].at)
    {
      if n < |requests| {
        assert RetryOk(transport, blocking, requests, n);
        assert Waited(transport, cap, requests, if requests[n].retry then n - 1 else n, requests[n].at);
      }
    }
  }

  /** One message was asked for in between, once or twice. */
  ghost predicate Asked(before: seq<Request>, after: seq<Request>, id: Id) {
    && before <= after && |before| < |after| <= |before| + 2
    && after[|before|].id == id && !after[|before|].retry
    && (|after| == |before| + 2 ==> after[|before| + 1].id == id && after[|before| + 1].retry)
  }

  /** How one message ends that was sent from here to there: as the transport answered the last
      request, a second one only for a message that is held after a rate limit. */
  predicate EndsBy(transport: Transport, from: nat, to: nat, held: bool, ending: Ending) {
    && (to == from + 1 || (to == from + 1 + RATE_LIMIT_RETRIES && held && transport(from).RateLimited?))
    && match transport(to - 1)
       case Accepted => ending == Sent
       case Refused => ending == Failed(true)
       case RateLimited(_) => if held then ending == Failed(false) && to > from + 1 else ending == Deferred
  }

  lemma EndsAccept(transport: Transport, from: nat, to: nat, held: bool, ending: Ending)
    requires EndsBy(transport, from, to, held, ending)
    ensures Accepts(transport, from, to) == if ending.Sent? then 1 else 0
  {
    AcceptsJoin(transport, from, to - 1, to);
  }

  lemma AskedMore(before: seq<Request>, middle: seq<Request>, more: Request)
    requires if more.retry then Asked(before, middle, more.id) && |middle| == |before| + 1 else before == middle
    ensures Asked(before, middle + [more], more.id)
  {
  }

  lemma StillBefore(first: seq<Request>, second: seq<Request>, third: seq<Request>)
    requires first <= second <= third
    ensures first <= third
  {
  }

  /** Of the requests from one number up to another, one met the rate limit. */
  ghost predicate Met(transport: Transport, from: nat, to: nat) {
    exists m :: from <= m < to && transport(m).RateLimited?
  }

  lemma MetMore(transport: Transport, from: nat, mid: nat, to: nat)
    requires from <= mid < to && (to == mid + 1 || transport(mid).RateLimited?)
    ensures Met(transport, from, to) <==> Met(transport, from, mid) || transport(mid).RateLimited?
  {
  }

  /** The messages asked for, in order. */
  function Tried(requests: seq<Request>): seq<Id> {
    if requests == [] then []
    else
      var last := requests[|requests| - 1];
      Tried(requests[..|requests| - 1]) + if last.retry then [] else [last.id]
  }

  lemma AskedIsTried(before: seq<Request>, after: seq<Request>, from: nat, ids: seq<Id>, k: nat)
    requires from <= |before| && k < |ids| && Asked(before, after, ids[k]) && Tried(before[from..]) == ids[..k]
    ensures Tried(after[from..]) == ids[..k + 1]
  {
    var more, one := after[from..], after[from..|before| + 1];
    assert one[..|one| - 1] == before[from..];
    if |after| == |before| + 2 {
      assert more[..|more| - 1] == one;
    } else {
      assert more == one;
    }
  }

  predicate Claimable(row: Row, expiredBefore: real) {
    row.state == Pending || (row.state == Delivering && row.claimedAt.Some? && row.claimedAt.value < expiredBefore)
  }

  function Claimables(rows: map<Id, Row>, expiredBefore: real): set<Id> {
    set id | id in rows && Claimable(rows[id], expiredBefore)
  }

  function Claim(row: Row, now: Option<real>): Row {
    row.(state := Delivering, attempts := row.attempts + 1, claimedAt := now)
  }

  /** `CASE WHEN attempts > 0 THEN attempts - 1 ELSE 0 END` */
  function Refund(attempts: nat): nat {
    if attempts > 0 then attempts - 1 else 0
  }

  function InState(rows: map<Id, Row>, state: State): set<Id> {
    set id | id in rows && rows[id].state == state
  }

  /** The rows with these claimed. */
  function ClaimAll(rows: map<Id, Row>, ids: set<Id>, now: real): map<Id, Row> {
    map id | id in rows :: if id in ids then Claim(rows[id], Some(now)) else rows[id]
  }

  /** Of what is out for delivery now, nothing was claimed since. */
  ghost predicate NoneOut(before: map<Id, Row>, after: map<Id, Row>) {
    forall id | id in after && after[id].state == Delivering :: id in before && after[id] == before[id]
  }

  /** No message is lost, and one that is delivered or dead stays exactly as it is. */
  ghost predicate Kept(before: map<Id, Row>, after: map<Id, Row>) {
    forall id | id in before :: id in after
      && (before[id].state == Delivered || before[id].state == Dead ==> after[id] == before[id])
  }

  /** What was not tried is as it was, or waits again after a claim that came to nothing. */
  ghost predicate Untouched(before: map<Id, Row>, after: map<Id, Row>, tried: seq<Id>) {
    forall id | id in before && id !in tried :: id in after
      && (after[id] == before[id] || (Open(before[id]) && after[id] == Released(before[id])))
  }

  /** A message that waits, charged for nothing. */
  function Released(row: Row): Row {
    row.(state := Pending, claimedAt := None)
  }

  /** `n` messages were delivered in between. */
  ghost predicate Delivers(before: map<Id, Row>, after: map<Id, Row>, n: nat) {
    && InState(before, Delivered) <= InState(after, Delivered)
    && |InState(after, Delivered)| == |InState(before, Delivered)| + n
  }

  /** How many of the messages that wait are over the limit; no limit is none. */
  function Surplus(limit: nat, pending: nat): nat {
    if limit == 0 || pending <= limit then 0 else pending - limit
  }

  /** A number of claimable messages is parked, the oldest; the others stay as they are. */
  ghost predicate Parks(before: map<Id, Row>, after: map<Id, Row>, ids: seq<Id>, wall: real, n: nat) {
    && |ids| == n && Picks(before, ids, wall - LEASE_SECONDS, Claimables(before, wall - LEASE_SECONDS) - Elements(ids))
    && (forall id | id in before :: id in after && (if id in ids then after[id].state == Dead else after[id] == before[id]))
    && (forall id | id in after && id !in before :: after[id].state == Pending)
    && (ids == [] ==> after == before)
  }

  lemma Compose(a: map<Id, Row>, b: map<Id, Row>, c: map<Id, Row>, n: nat)
    requires NoneOut(a, b) && Kept(a, b) && Delivers(a, b, 0)
    requires NoneOut(b, c) && Kept(b, c) && Delivers(b, c, n)
    ensures NoneOut(a, c) && Kept(a, c) && Delivers(a, c, n)
  {
  }

  /** A queue as claims and their ends leave it: what is out was charged for it. */
  predicate Charged(rows: map<Id, Row>) {
    forall id | id in rows && rows[id].state == Delivering :: rows[id].attempts >= 1
  }

  class Drainer {
    const transport: Transport
    const batch: nat
    const maxAttempts: nat
    const backlogLimit: nat
    const enabled: bool
    const rateLimitCap: real
    const blockOnRateLimit: bool

    var rows: map<Id, Row>
    var nextId: Id
    var clock: real
    var rateLimitedUntil: real
    var backlogChecked: bool
    /** Every request made of the transport. */
    var sends: nat

    /** Attempts a message paid before this process or for leases that lapsed, and failed deliveries
        it was charged for since; the messages dead from the start, those suppressed unsent, and
        those that met a failure other than a rate limit. */
    ghost var earlier: map<Id, nat>
    ghost var charged: map<Id, nat>
    ghost var gone: set<Id>
    ghost var suppressed: set<Id>
    ghost var refused: set<Id>
    /** The current flood window, and the past ones. */
    ghost var window: Window
    ghost var windows: seq<Window>
    /** All requests made. */
    ghost var requests: seq<Request>

    ghost predicate RowOk(id: Id)
      requires id in rows && id in charged && id in earlier
      reads this
    {
      match rows[id].state
      case Pending => rows[id].attempts == earlier[id] + charged[id]
      case Delivering => rows[id].attempts == earlier[id] + charged[id] + 1
      case Delivered => true
      case Dead => id in gone || id in suppressed || (charged[id] >= 1 && earlier[id] + charged[id] >= maxAttempts)
    }

    ghost predicate ConfigOk() {
      batch >= 1 && maxAttempts >= 1 && rateLimitCap >= 0.0
    }

    ghost predicate RowsOk()
      reads this
    {
      && charged.Keys == rows.Keys && earlier.Keys == rows.Keys
      && (forall id | id in rows :: id < nextId && charged[id] <= sends && RowOk(id))
      && (!blockOnRateLimit ==> forall id | id in rows && id !in refused :: charged[id] == 0)
    }

    /** No wait is longer than the cap, and every past window cost what its answers say. */
    ghost predicate TimesOk()
      reads this
    {
      && clock > 0.0 && rateLimitedUntil <= clock + rateLimitCap
      && forall w | w in windows :: ClosedOk(transport, w)
    }

    /** The requests were paced, and every wait they met is over or remembered. */
    ghost predicate RequestsOk()
      reads this
    {
      && |requests| == sends && Paced(transport, rateLimitCap, blockOnRateLimit, requests)
      && Waited(transport, rateLimitCap, requests, sends, Max(rateLimitedUntil, clock))
    }

    ghost predicate Valid()
      reads this
    {
      && ConfigOk() && RowsOk() && TimesOk() && RequestsOk()
      && OpenOk(transport, window) && (rateLimitedUntil <= 0.0 ==> window == [])
    }

    /** The rows a step may touch are `ids`; a message added meanwhile is pending and untried. */
    twostate predicate OnlyTouches(ids: set<Id>)
      reads this
    {
      && (forall id | id in old(rows) :: id in rows && (id !in ids ==> rows[id] == old(rows)[id]))
      && (forall id | id in rows && id !in old(rows) :: rows[id].state == Pending)
    }

    /** A drainer over whatever queue earlier processes left. */
    constructor (transport: Transport, batch: nat, maxAttempts: nat, backlogLimit: nat, enabled: bool, rateLimitCap: real,
                 blockOnRateLimit: bool, rows: map<Id, Row>, nextId: Id, now: real)
      requires now > 0.0 && Charged(rows) && forall id | id in rows :: id < nextId
      ensures Valid() && this.rows == rows && this.nextId == nextId && this.transport == transport
      ensures sends == 0 && rateLimitedUntil == 0.0 && charged == map id | id in rows :: 0
      ensures this.backlogLimit == backlogLimit && this.enabled == enabled && !backlogChecked
      ensures this.batch == (if batch >= 1 then batch else 1)
      ensures this.maxAttempts == (if maxAttempts >= 1 then maxAttempts else 1)
      ensures this.blockOnRateLimit == blockOnRateLimit && this.rateLimitCap == Max(0.0, rateLimitCap)
      ensures window == [] && windows == [] && requests == [] && gone == InState(rows, Dead) && suppressed == {} && refused == {}
    {
      this.transport := transport;
      this.batch := if batch >= 1 then batch else 1;
      this.maxAttempts := if maxAttempts >= 1 then maxAttempts else 1;
      this.backlogLimit, this.enabled := backlogLimit, enabled;
      this.rateLimitCap, this.blockOnRateLimit := Max(0.0, rateLimitCap), blockOnRateLimit;
      this.rows, this.nextId, clock, rateLimitedUntil, backlogChecked, sends := rows, nextId, now, 0.0, false, 0;
      earlier := map id | id in rows :: if rows[id].state == Delivering then Refund(rows[id].attempts) else rows[id].attempts;
      charged := map id | id in rows :: 0;
      gone, suppressed, refused, window, windows, requests := InState(rows, Dead), {}, {}, [], [], [];
    }

    // --- time ---------------------------------------------------------------------------------

    /** `monotonic()` */
    method Now() returns (now: real)
      modifies this`clock
      ensures now == clock >= old(clock)
    {
      var elapsed: real := *;
      if elapsed > 0.0 { clock := clock + elapsed; }
      now := clock;
    }

    /** The poll loop's own time between two drains. */
    method Wait(seconds: real)
      requires Valid() && seconds >= 0.0
      modifies this`clock
      ensures Valid() && clock == old(clock) + seconds
    {
      clock := clock + seconds;
    }

    /** A flood wait postpones the whole queue, and opens a window of its own. */
    method Pause(retryAfter: real)
      requires ConfigOk() && TimesOk() && ClosedOk(transport, window)
      modifies this`clock, this`rateLimitedUntil, this`window, this`windows
      ensures TimesOk()
      ensures clock >= old(clock) && rateLimitedUntil >= clock && rateLimitedUntil >= old(rateLimitedUntil)
      ensures rateLimitCap > 0.0 ==> rateLimitedUntil > clock
      ensures rateLimitedUntil == Max(old(rateLimitedUntil), clock + Min(Max(retryAfter, 1.0), rateLimitCap))
      ensures window == [] && windows == old(windows) + [old(window)]
    {
      var delay := Min(Max(retryAfter, 1.0), rateLimitCap);
      var now := Now();
      rateLimitedUntil := Max(rateLimitedUntil, now + delay);
      windows := windows + [window];
      window := [];
    }

    // --- the transport ------------------------------------------------------------------------

    method Send(ghost id: Id, ghost retry: bool) returns (answer: Answer)
      modifies this`sends, this`requests
      ensures answer == transport(old(sends)) && sends == old(sends) + 1
      ensures requests == old(requests) + [Request(id, clock, retry)]
    {
      answer := transport(sends);
      sends := sends + 1;
      requests := requests + [Request(id, clock, retry)];
    }

    /** What has to be so before a send: a probe is the newest of its window, any other send is made
        outside one. */
    ghost predicate Aiming(consumeAttempt: bool)
      reads this
    {
      if consumeAttempt then window == []
      else window != [] && window[|window| - 1] == sends && OpenOk(transport, window[..|window| - 1])
    }

    /** Before an attempt no flood wait runs, save for a second one, whose message was just held. */
    ghost predicate Ready(attempt: nat, id: Id)
      reads this
    {
      && RetryOk(transport, blockOnRateLimit, requests + [Request(id, clock, attempt > 0)], |requests|)
      && Waited(transport, rateLimitCap, requests, if attempt > 0 then |requests| - 1 else |requests|, clock)
    }

    /** What an attempt that was rate limited left: the queue waits, in a window of its own. */
    twostate predicate Paused()
      reads this
    {
      && window == [] && windows == old(windows) + [old(window)]
      && rateLimitedUntil == Max(old(rateLimitedUntil), clock + Delay(transport(old(sends)), rateLimitCap))
    }

    /** One attempt: a request, and the pause if it meets the flood wait. None asks for another. */
    method Try(consumeAttempt: bool, attempt: nat, ghost id: Id) returns (ending: Option<Ending>)
      requires ConfigOk() && TimesOk() && RequestsOk() && Aiming(consumeAttempt) && Ready(attempt, id)
      modifies this`clock, this`rateLimitedUntil, this`window, this`windows, this`sends, this`requests
      ensures TimesOk() && RequestsOk() && clock >= old(clock)
      ensures sends == old(sends) + 1 && requests == old(requests) + [Request(id, old(clock), attempt > 0)]
      ensures if transport(old(sends)).RateLimited? then Paused()
              else window == old(window) && windows == old(windows) && rateLimitedUntil == old(rateLimitedUntil)
      ensures ending == match transport(old(sends))
                        case Accepted => Some(Sent)
                        case Refused => Some(Failed(true))
                        case RateLimited(_) =>
                          if !consumeAttempt || !blockOnRateLimit then Some(Deferred)
                          else if attempt >= RATE_LIMIT_RETRIES then Some(Failed(false)) else None
    {
      PacedOneMore(transport, rateLimitCap, blockOnRateLimit, requests, Request(id, clock, attempt > 0));
      var answer := Send(id, attempt > 0);
      if answer.Accepted? { return Some(Sent); }
      if answer.Refused? { return Some(Failed(true)); }
      Pause(answer.retryAfter);
      if !consumeAttempt || !blockOnRateLimit { return Some(Deferred); }
      if attempt >= RATE_LIMIT_RETRIES { return Some(Failed(false)); }
      return None;
    }

    /** One message, sent once, or twice when the caller may be held for the flood wait. */
    method SendWithRateLimit(consumeAttempt: bool, ghost id: Id) returns (ending: Ending)
      requires ConfigOk() && TimesOk() && RequestsOk() && Aiming(consumeAttempt) && rateLimitedUntil <= clock
      modifies this`clock, this`rateLimitedUntil, this`window, this`windows, this`sends, this`requests
      ensures TimesOk() && RequestsOk() && clock >= old(clock) && Asked(old(requests), requests, id)
      ensures EndsBy(transport, old(sends), sends, consumeAttempt && blockOnRateLimit, ending)
      ensures if transport(old(sends)).RateLimited? then rateLimitedUntil > 0.0 && window == [] && |windows| > |old(windows)|
              else window == old(window) && windows == old(windows) && rateLimitedUntil == old(rateLimitedUntil)
      ensures ending.Deferred? ==> Paused()
    {
      var attempt := 0;
      while attempt < RATE_LIMIT_RETRIES + 1
        invariant 0 <= attempt <= RATE_LIMIT_RETRIES && sends == old(sends) + attempt
        invariant TimesOk() && RequestsOk() && clock >= old(clock) && Ready(attempt, id)
        invariant if attempt == 0 then
                    requests == old(requests) && rateLimitedUntil == old(rateLimitedUntil) && window == old(window) && windows == old(windows)
                  else
                    && Asked(old(requests), requests, id) && consumeAttempt && blockOnRateLimit
                    && transport(old(sends)).RateLimited? && rateLimitedUntil > 0.0 && window == [] && |windows| > |old(windows)|
      {
        ghost var was, now := requests, clock;
        var ended := Try(consumeAttempt, attempt, id);
        AskedMore(old(requests), was, Request(id, now, attempt > 0));
        if ended.Some? { return ended.value; }
        var _ := Now();
        attempt := attempt + 1;
      }
      assert false;
    }

    // --- the queue ----------------------------------------------------------------------------

    method AddMessage()
      requires Valid()
      modifies this`rows, this`nextId, this`charged, this`earlier
      ensures Valid() && OnlyTouches({}) && NoneOut(old(rows), rows) && nextId == old(nextId) + 1
      ensures old(nextId) in rows && rows[old(nextId)].state == Pending
      ensures rows.Keys == old(rows).Keys + {old(nextId)}
    {
      var at: real := *;
      rows := rows[nextId := Row(Pending, 0, at, None)];
      charged, earlier := charged[nextId := 0], earlier[nextId := 0];
      nextId := nextId + 1;
    }

    /** Alerts go out through the same queue, unless one like it is already open. */
    method MaybeRaiseAlert()
      requires Valid()
      modifies this`rows, this`nextId, this`charged, this`earlier
      ensures Valid() && OnlyTouches({})
    {
      if * { AddMessage(); }
    }

    method MarkDelivered(id: Id)
      requires Valid() && id in rows && rows[id].state == Delivering
      modifies this`rows
      ensures Valid() && rows == old(rows)[id := old(rows)[id].(state := Delivered, claimedAt := None)]
    {
      rows := rows[id := rows[id].(state := Delivered, claimedAt := None)];
    }

    /** Back to the queue, or parked once the attempts have reached the cap. */
    method MarkFailed(id: Id, cap: nat) returns (state: State)
      requires id in rows
      modifies this`rows
      ensures rows == old(rows)[id := old(rows)[id].(state := state, claimedAt := None)]
      ensures state == if old(rows)[id].attempts >= cap && old(rows)[id].attempts >= 1 then Dead else Pending
    {
      state := if rows[id].attempts >= (if cap >= 1 then cap else 1) then Dead else Pending;
      rows := rows[id := rows[id].(state := state, claimedAt := None)];
    }

    /** A message refused for a channel-wide reason goes back with the attempt count it had before
        it was claimed. */
    method Defer(id: Id)
      requires Valid() && id in rows
      modifies this`rows
      ensures Valid()
      ensures rows == if old(rows)[id].state != Delivering then old(rows)
                      else old(rows)[id := old(rows)[id].(state := Pending, claimedAt := None,
                                                          attempts := old(rows)[id].attempts - 1)]
    {
      if rows[id].state == Delivering {
        var row := rows[id];
        rows := rows[id := row.(state := Pending, claimedAt := None, attempts := Refund(row.attempts))];
      }
    }

    /** A delivery that failed: charged once, and dead only by its charges. */
    method Charge(id: Id, wasRefused: bool) returns (state: State)
      requires Valid() && id in rows && rows[id].state == Delivering && (wasRefused || blockOnRateLimit)
      requires charged[id] < sends
      modifies this`rows, this`charged, this`refused
      ensures Valid() && rows == old(rows)[id := old(rows)[id].(state := state, claimedAt := None)]
      ensures state == if old(rows)[id].attempts >= maxAttempts then Dead else Pending
    {
      state := MarkFailed(id, maxAttempts);
      charged := charged[id := charged[id] + 1];
      if wasRefused { refused := refused + {id}; }
    }

    /** The failure, and the alert for a message that is given up. */
    method Fail(id: Id, wasRefused: bool)
      requires Valid() && id in rows && rows[id].state == Delivering && (wasRefused || blockOnRateLimit)
      requires charged[id] < sends
      modifies this`rows, this`nextId, this`charged, this`earlier, this`refused
      ensures Valid() && OnlyTouches({id})
      ensures rows[id].state == Pending || rows[id].state == Dead
      ensures rows[id].state == Dead <==> rows[id].attempts >= maxAttempts
    {
      var state := Charge(id, wasRefused);
      if state == Dead { MaybeRaiseAlert(); }
    }

    /** The oldest messages that wait or whose lease has lapsed, as many as asked for: one attempt
        each, and a lease from the wall clock's reading. */
    method ClaimOutbox(limit: nat) returns (ids: seq<Id>, wall: real)
      requires Valid()
      modifies this`rows, this`earlier
      ensures Valid()
      ensures Picks(old(rows), ids, wall - LEASE_SECONDS, Claimables(old(rows), wall - LEASE_SECONDS) - Elements(ids))
      ensures rows == ClaimAll(old(rows), Elements(ids), wall)
      ensures |ids| <= limit && (|ids| == limit || Claimables(old(rows), wall - LEASE_SECONDS) == Elements(ids))
      ensures limit >= 1 && ids == [] ==> InState(old(rows), Pending) == {}
    {
      wall := *;
      ids := SelectOldest(rows, wall - LEASE_SECONDS, limit);
      ghost var before := rows;
      var i := 0;
      while i < |ids|
        invariant 0 <= i <= |ids| && Valid()
        invariant rows == ClaimAll(before, Elements(ids[..i]), wall)
      {
        ClaimOneMore(before, ids[..i], ids[i], wall);
        assert ids[..i + 1] == ids[..i] + [ids[i]];
        ClaimRow(ids[i], wall);
        i := i + 1;
      }
      assert ids[..i] == ids;
      PendingIsClaimable(before, wall - LEASE_SECONDS);
      assert ids == [] ==> Elements(ids) == {};
    }

    method ClaimRow(id: Id, now: real)
      requires Valid() && id in rows && (rows[id].state == Pending || rows[id].state == Delivering)
      modifies this`rows, this`earlier
      ensures Valid() && rows == old(rows)[id := Claim(old(rows)[id], Some(now))]
    {
      if rows[id].state == Delivering {
        earlier := earlier[id := earlier[id] + 1];
      }
      rows := rows[id := Claim(rows[id], Some(now))];
    }

    /** A claimed message, sent, returned or failed; true exactly when it was delivered. */
    method Deliver(id: Id) returns (delivered: bool)
      requires Valid() && window == [] && id in rows && rows[id].state == Delivering && rateLimitedUntil <= clock
      modifies this`rows, this`nextId, this`clock, this`rateLimitedUntil, this`sends, this`requests
      modifies this`charged, this`earlier, this`refused, this`window, this`windows
      ensures Valid() && window == [] && OnlyTouches({id}) && clock >= old(clock) && Asked(old(requests), requests, id)
      ensures rows[id].state != Delivering && (delivered <==> rows[id].state == Delivered)
      ensures old(sends) < sends <= old(sends) + (if blockOnRateLimit then 1 + RATE_LIMIT_RETRIES else 1)
      ensures !transport(old(sends)).RateLimited? ==> sends == old(sends) + 1
      ensures Accepts(transport, old(sends), sends) == if delivered then 1 else 0
      ensures if transport(old(sends)).RateLimited? then rateLimitedUntil > 0.0 else rateLimitedUntil == old(rateLimitedUntil)
    {
      var ending := SendWithRateLimit(true, id);
      EndsAccept(transport, old(sends), sends, blockOnRateLimit, ending);
      match ending {
        case Deferred =>
          Defer(id);
          return false;
        case Failed(wasRefused) =>
          Fail(id, wasRefused);
          return false;
        case Sent =>
          MarkDelivered(id);
          return true;
      }
    }

    /** What one probe did since then, by the transport's answer to it: it ended the flood wait, or
        opened another window, or was refused for another reason and left the window open. */
    ghost predicate Probed(from: nat, until: real, open: Window, past: seq<Window>)
      reads this
    {
      var probes := open + [from];
      && sends == from + 1
      && match transport(from)
         case Accepted => rateLimitedUntil == 0.0 && window == [] && windows == past + [probes]
         case RateLimited(_) =>
           && rateLimitedUntil >= clock && (rateLimitCap > 0.0 ==> rateLimitedUntil > clock)
           && window == [] && windows == past + [probes]
         case Refused => rateLimitedUntil == until && window == probes && windows == past
    }

    /** What a drain cost since then: at most a batch of messages, or one probe if a flood wait was
        not known to be over. */
    ghost predicate Cost(from: nat, until: real, open: Window, past: seq<Window>)
      reads this
    {
      && from <= sends <= from + 2 * batch && (!blockOnRateLimit ==> sends <= from + batch)
      && (until > 0.0 ==> sends == from || Probed(from, until, open, past))
      && (until <= 0.0 ==> window == [])
      && (until <= 0.0 ==> (rateLimitedUntil > 0.0 <==> Met(transport, from, sends)))
    }

    /** What a drain since then did not try it left as it was, or waiting as before; and unless it met
        a flood wait it tried a whole batch, or all that waited. */
    ghost predicate LeftUntried(before: map<Id, Row>, from: nat, until: real)
      requires from <= |requests|
      reads this
    {
      var tried := Tried(requests[from..]);
      && Untouched(before, rows, tried)
      && (until <= 0.0 && !Met(transport, from, sends) ==> |tried| >= batch || |tried| >= |InState(before, Pending)|)
    }

    /** The probe's request, which counts against the window that expired. */
    method Probe(ghost id: Id) returns (ending: Ending)
      requires Valid() && 0.0 < rateLimitedUntil <= clock
      modifies this`clock, this`rateLimitedUntil, this`sends, this`requests, this`window, this`windows
      ensures Valid() && clock >= old(clock) && Probed(old(sends), old(rateLimitedUntil), old(window), old(windows))
      ensures Asked(old(requests), requests, id)
      ensures ending.Sent? <==> transport(old(sends)).Accepted?
      ensures ending.Failed? ==> ending.refused
    {
      ghost var probes := window + [sends];
      assert probes[..|probes| - 1] == window;
      window := probes;
      ending := SendWithRateLimit(false, id);
      if ending.Sent? {
        EndWindow();
      }
    }

    /** The channel accepts again. */
    method EndWindow()
      requires ConfigOk() && TimesOk() && RequestsOk() && rateLimitedUntil <= clock && ClosedOk(transport, window)
      modifies this`rateLimitedUntil, this`window, this`windows
      ensures TimesOk() && RequestsOk() && rateLimitedUntil == 0.0 && window == [] && windows == old(windows) + [old(window)]
    {
      windows := windows + [window];
      window := [];
      rateLimitedUntil := 0.0;
    }

    /** The probe's own message, by the end of its request. */
    method ProbeWith(id: Id) returns (delivered: bool)
      requires Valid() && id in rows && rows[id].state == Delivering && 0.0 < rateLimitedUntil <= clock
      modifies this`rows, this`nextId, this`clock, this`rateLimitedUntil, this`sends, this`requests
      modifies this`charged, this`earlier, this`refused, this`window, this`windows
      ensures Valid() && OnlyTouches({id}) && clock >= old(clock) && Probed(old(sends), old(rateLimitedUntil), old(window), old(windows))
      ensures rows[id].state != Delivering && (delivered <==> rows[id].state == Delivered)
      ensures (delivered <==> transport(old(sends)).Accepted?) && Asked(old(requests), requests, id)
    {
      var ending := Probe(id);
      match ending {
        case Deferred =>
          Defer(id);
          return false;
        case Failed(wasRefused) =>
          Fail(id, wasRefused);
          return false;
        case Sent =>
          MarkDelivered(id);
          return true;
      }
    }

    /** The probe of the one message claimed for it. */
    method ProbeOne(ids: seq<Id>, ghost before: map<Id, Row>) returns (delivered: nat)
      requires Valid() && 0.0 < rateLimitedUntil <= clock && |ids| == 1 && Underway(before, rows, ids, 0)
      modifies this`rows, this`nextId, this`clock, this`rateLimitedUntil, this`sends, this`requests
      modifies this`charged, this`earlier, this`refused, this`window, this`windows
      ensures Valid() && Underway(before, rows, ids, 1) && clock >= old(clock)
      ensures Probed(old(sends), old(rateLimitedUntil), old(window), old(windows))
      ensures Delivers(old(rows), rows, delivered) && delivered == Accepts(transport, old(sends), sends)
      ensures Asked(old(requests), requests, ids[0])
    {
      ghost var claimed := rows;
      var ok := ProbeWith(ids[0]);
      OneMoreDone(before, claimed, rows, ids, 0);
      delivered := if ok then 1 else 0;
    }

    /** Once the window has expired: try exactly one message. */
    method ProbeAfterRateLimit() returns (delivered: nat)
      requires Valid() && 0.0 < rateLimitedUntil <= clock
      modifies this`rows, this`nextId, this`clock, this`rateLimitedUntil, this`sends, this`requests
      modifies this`charged, this`earlier, this`refused, this`window, this`windows
      ensures Valid() && NoneOut(old(rows), rows) && Kept(old(rows), rows) && Delivers(old(rows), rows, delivered) && clock >= old(clock)
      ensures sends == old(sends) || Probed(old(sends), old(rateLimitedUntil), old(window), old(windows))
      ensures InState(old(rows), Pending) != {} ==> Probed(old(sends), old(rateLimitedUntil), old(window), old(windows))
      ensures sends >= old(sends) && delivered == Accepts(transport, old(sends), sends) && old(requests) <= requests
      ensures Untouched(old(rows), rows, Tried(requests[old(sends)..]))
    {
      ghost var before := rows;
      var ids, wall := ClaimOutbox(1);
      DrainStarts(before, rows, ids, wall);
      delivered := 0;
      if ids != [] {
        delivered := ProbeOne(ids, before);
        AskedIsTried(old(requests), requests, old(sends), ids, 0);
      }
      DrainEnds(before, rows, ids);
      RestUntouched(before, rows, ids, ids);
    }

    /** Park every claimed message: `mark_outbox_failed` with a cap of one attempt. */
    method ParkAll(ids: seq<Id>, ghost before: map<Id, Row>)
      requires Valid() && Underway(before, rows, ids, 0)
      modifies this`rows, this`suppressed
      ensures Valid() && Underway(before, rows, ids, |ids|)
      ensures suppressed == old(suppressed) + Elements(ids)
      ensures InState(rows, Delivered) == InState(old(rows), Delivered)
      ensures forall k | 0 <= k < |ids| :: rows[ids[k]].state == Dead
    {
      var n := 0;
      while n < |ids|
        invariant 0 <= n <= |ids| && Valid() && Underway(before, rows, ids, n)
        invariant InState(rows, Delivered) == InState(old(rows), Delivered)
        invariant suppressed == old(suppressed) + Elements(ids[..n])
        invariant forall k | 0 <= k < n :: rows[ids[k]].state == Dead
      {
        assert ids[..n + 1] == ids[..n] + [ids[n]];
        ElementsGrow(ids[..n], ids[n]);
        ParkNext(ids, before, n);
        n := n + 1;
      }
      assert ids[..n] == ids;
    }

    method ParkNext(ids: seq<Id>, ghost before: map<Id, Row>, n: nat)
      requires Valid() && Underway(before, rows, ids, n) && n < |ids|
      modifies this`rows, this`suppressed
      ensures Valid() && Underway(before, rows, ids, n + 1) && suppressed == old(suppressed) + {ids[n]}
      ensures InState(rows, Delivered) == InState(old(rows), Delivered)
      ensures rows == old(rows)[ids[n] := old(rows)[ids[n]].(state := Dead, claimedAt := None)]
    {
      Park(ids[n]);
      OneMoreDone(before, old(rows), rows, ids, n);
    }

    method Park(id: Id)
      requires Valid() && id in rows && rows[id].state == Delivering
      modifies this`rows, this`suppressed
      ensures Valid() && suppressed == old(suppressed) + {id}
      ensures rows == old(rows)[id := old(rows)[id].(state := Dead, claimedAt := None)]
    {
      suppressed := suppressed + {id};
      var state := MarkFailed(id, 1);
    }

    /** The oldest `surplus` messages that can be claimed, parked unsent. */
    method ParkSurplus(surplus: nat) returns (ids: seq<Id>, wall: real)
      requires Valid() && surplus <= |InState(rows, Pending)|
      modifies this`rows, this`earlier, this`suppressed
      ensures Valid() && suppressed == old(suppressed) + Elements(ids)
      ensures Parks(old(rows), rows, ids, wall, surplus)
    {
      ghost var before := rows;
      ids, wall := ClaimOutbox(surplus);
      EnoughPending(before, ids, wall - LEASE_SECONDS, surplus);
      DrainStarts(before, rows, ids, wall);
      ParkAll(ids, before);
      DrainEnds(before, rows, ids);
    }

    /** As many messages as wait beyond the backlog limit, the oldest that can be claimed, are
        parked unsent. */
    method SuppressBacklog() returns (ghost parked: seq<Id>, ghost wall: real)
      requires Valid()
      modifies this`rows, this`nextId, this`charged, this`earlier, this`suppressed
      ensures Valid() && NoneOut(old(rows), rows) && Kept(old(rows), rows) && Delivers(old(rows), rows, 0)
      ensures Parks(old(rows), rows, parked, wall, Surplus(backlogLimit, |InState(old(rows), Pending)|))
      ensures suppressed == old(suppressed) + Elements(parked)
    {
      parked, wall := [], 0.0;
      var surplus := Surplus(backlogLimit, |InState(rows, Pending)|);
      if surplus == 0 {
        assert Elements(parked) == {};
        ParksKeeps(rows, rows, [], wall, 0);
        return;
      }
      var ids, at := ParkSurplus(surplus);
      parked, wall := ids, at;
      ghost var settled := rows;
      MaybeRaiseAlert();
      ParksThenAdds(old(rows), settled, rows, ids, at, surplus);
      ParksKeeps(old(rows), rows, ids, at, surplus);
    }

    /** Since a number of sends, `n` messages have cost one request each, or two where the drainer
        may be held for a flood wait. */
    ghost predicate Spent(from: nat, n: nat)
      reads this`sends
    {
      n <= sends - from <= if blockOnRateLimit then n * (1 + RATE_LIMIT_RETRIES) else n
    }

    /** Of the claimed messages the first were tried, in order, one by one; all of them unless a flood
        wait was met and still runs; and the others wait as they did before the claim. */
    ghost predicate BatchTried(before: map<Id, Row>, claimed: seq<Id>, past: seq<Request>)
      requires past <= requests
      reads this
    {
      var tried := Tried(requests[|past|..]);
      && tried <= claimed
      && (|tried| < |claimed| ==> Met(transport, |past|, sends) && clock < rateLimitedUntil)
      && forall i | |tried| <= i < |claimed| ::
           claimed[i] in before && claimed[i] in rows && rows[claimed[i]] == Released(before[claimed[i]])
    }

    /** A batch with `position` messages tried: they were delivered as their requests were accepted,
        and the queue waits exactly if one of them met a flood wait. */
    ghost predicate InBatch(before: map<Id, Row>, claimed: seq<Id>, position: nat, past: seq<Request>, delivered: nat)
      reads this
    {
      && position <= |claimed| && window == [] && past <= requests && sends == |requests|
      && Underway(before, rows, claimed, position) && Delivers(before, rows, delivered)
      && Spent(|past|, position) && delivered == Accepts(transport, |past|, sends)
      && Tried(requests[|past|..]) == claimed[..position]
      && (rateLimitedUntil > 0.0 <==> Met(transport, |past|, sends))
    }

    /** The next message of a batch. */
    method DeliverNext(ghost before: map<Id, Row>, claimed: seq<Id>, position: nat, ghost past: seq<Request>, delivered: nat)
      returns (more: nat)
      requires Valid() && InBatch(before, claimed, position, past, delivered)
      requires position < |claimed| && rateLimitedUntil <= clock
      modifies this`rows, this`nextId, this`clock, this`rateLimitedUntil, this`sends, this`requests
      modifies this`charged, this`earlier, this`refused, this`window, this`windows
      ensures Valid() && InBatch(before, claimed, position + 1, past, more) && clock >= old(clock)
    {
      ghost var was := rows;
      var ok := Deliver(claimed[position]);
      OneMoreDone(before, was, rows, claimed, position);
      AcceptsJoin(transport, |past|, old(sends), sends);
      AskedIsTried(old(requests), requests, |past|, claimed, position);
      MetMore(transport, |past|, old(sends), sends);
      StillBefore(past, old(requests), requests);
      more := if ok then delivered + 1 else delivered;
    }

    /** A batch that is over. */
    ghost predicate BatchDone(before: map<Id, Row>, claimed: seq<Id>, past: seq<Request>, delivered: nat)
      reads this
    {
      && window == [] && past <= requests && sends == |requests|
      && Underway(before, rows, claimed, |claimed|) && Delivers(before, rows, delivered)
      && sends <= |past| + 2 * |claimed| && (!blockOnRateLimit ==> sends <= |past| + |claimed|)
      && (claimed != [] ==> sends > |past|)
      && delivered == Accepts(transport, |past|, sends)
      && BatchTried(before, claimed, past)
      && (rateLimitedUntil > 0.0 <==> Met(transport, |past|, sends))
    }

    lemma AllTried(before: map<Id, Row>, claimed: seq<Id>, past: seq<Request>, delivered: nat)
      requires InBatch(before, claimed, |claimed|, past, delivered)
      ensures BatchDone(before, claimed, past, delivered)
    {
    }

    /** The untouched tail goes back. */
    method StopBatch(ghost before: map<Id, Row>, claimed: seq<Id>, position: nat, ghost past: seq<Request>, ghost delivered: nat)
      requires Valid() && InBatch(before, claimed, position, past, delivered) && position > 0 && clock < rateLimitedUntil
      modifies this`rows
      ensures Valid() && BatchDone(before, claimed, past, delivered)
    {
      DeferAll(before, claimed, position);
    }

    /** The next message, unless a flood wait runs that an earlier one met. */
    method SendOrStop(ghost before: map<Id, Row>, claimed: seq<Id>, position: nat, ghost past: seq<Request>, delivered: nat)
      returns (stopped: bool, more: nat)
      requires Valid() && InBatch(before, claimed, position, past, delivered) && position < |claimed|
      modifies this`rows, this`nextId, this`clock, this`rateLimitedUntil, this`sends, this`requests
      modifies this`charged, this`earlier, this`refused, this`window, this`windows
      ensures Valid() && clock >= old(clock)
      ensures if stopped then BatchDone(before, claimed, past, more) else InBatch(before, claimed, position + 1, past, more)
    {
      var now := Now();
      if position > 0 && now < rateLimitedUntil {
        StopBatch(before, claimed, position, past, delivered);
        return true, delivered;
      }
      more := DeliverNext(before, claimed, position, past, delivered);
      return false, more;
    }

    /** The claimed messages one by one, until a flood wait stops them. */
    method SendBatch(claimed: seq<Id>, ghost before: map<Id, Row>) returns (delivered: nat)
      requires Valid() && InBatch(before, claimed, 0, requests, 0) && |claimed| <= batch
      modifies this`rows, this`nextId, this`clock, this`rateLimitedUntil, this`sends, this`requests
      modifies this`charged, this`earlier, this`refused, this`window, this`windows
      ensures Valid() && clock >= old(clock) && BatchDone(before, claimed, old(requests), delivered)
    {
      delivered := 0;
      var position := 0;
      while position < |claimed|
        invariant 0 <= position <= |claimed| && Valid() && clock >= old(clock)
        invariant InBatch(before, claimed, position, old(requests), delivered)
      {
        var stopped;
        stopped, delivered := SendOrStop(before, claimed, position, old(requests), delivered);
        if stopped { return; }
        position := position + 1;
      }
      AllTried(before, claimed, old(requests), delivered);
    }

    /** One batch: the oldest messages, tried until a flood wait is met. */
    method DrainBatch() returns (delivered: nat, ghost claimed: seq<Id>, ghost wall: real)
      requires Valid() && window == [] && rateLimitedUntil <= 0.0
      modifies this`rows, this`nextId, this`clock, this`rateLimitedUntil, this`sends, this`requests
      modifies this`charged, this`earlier, this`refused, this`window, this`windows
      ensures Valid() && window == [] && clock >= old(clock) && old(requests) <= requests
      ensures NoneOut(old(rows), rows) && Kept(old(rows), rows) && Delivers(old(rows), rows, delivered)
      ensures old(sends) <= sends <= old(sends) + 2 * batch && (!blockOnRateLimit ==> sends <= old(sends) + batch)
      ensures InState(old(rows), Pending) != {} ==> sends > old(sends)
      ensures rateLimitedUntil > 0.0 <==> Met(transport, old(sends), sends)
      ensures delivered == Accepts(transport, old(sends), sends)
      ensures Picks(old(rows), claimed, wall - LEASE_SECONDS, Claimables(old(rows), wall - LEASE_SECONDS) - Elements(claimed))
      ensures |claimed| <= batch && (|claimed| == batch || Claimables(old(rows), wall - LEASE_SECONDS) == Elements(claimed))
      ensures BatchTried(old(rows), claimed, old(requests)) && LeftUntried(old(rows), old(sends), old(rateLimitedUntil))
    {
      ghost var before := rows;
      var ids, at := ClaimOutbox(batch);
      claimed, wall := ids, at;
      DrainStarts(before, rows, ids, at);
      delivered := SendBatch(ids, before);
      DrainEnds(before, rows, ids);
      RestUntouched(before, rows, ids, Tried(requests[old(sends)..]));
      ElementsCount(ids);
      PendingIsClaimable(before, at - LEASE_SECONDS);
      if |ids| < batch { SubsetCount(InState(before, Pending), Elements(ids)); }
    }

    method DeferAll(ghost before: map<Id, Row>, claimed: seq<Id>, position: nat)
      requires Valid() && Underway(before, rows, claimed, position)
      modifies this`rows
      ensures Valid() && Underway(before, rows, claimed, |claimed|)
      ensures InState(rows, Delivered) == InState(old(rows), Delivered)
      ensures forall i | position <= i < |claimed| :: rows[claimed[i]] == Released(before[claimed[i]])
    {
      var k := position;
      while k < |claimed|
        invariant position <= k <= |claimed| && Valid() && Underway(before, rows, claimed, k)
        invariant forall i | position <= i < k :: rows[claimed[i]] == Released(before[claimed[i]])
        invariant InState(rows, Delivered) == InState(old(rows), Delivered)
      {
        DeferNext(before, claimed, k);
        k := k + 1;
      }
    }

    method DeferNext(ghost before: map<Id, Row>, claimed: seq<Id>, k: nat)
      requires Valid() && Underway(before, rows, claimed, k) && k < |claimed|
      modifies this`rows
      ensures Valid() && Underway(before, rows, claimed, k + 1)
      ensures InState(rows, Delivered) == InState(old(rows), Delivered)
      ensures rows == old(rows)[claimed[k] := Released(before[claimed[k]])]
    {
      ghost var was := rows;
      Defer(claimed[k]);
      OneMoreDone(before, was, rows, claimed, k);
    }

    /** Past the gate: one probe if the last flood wait is not known to be over, else a batch. */
    method DrainOpen() returns (delivered: nat)
      requires Valid() && rateLimitedUntil <= clock
      modifies this`rows, this`nextId, this`clock, this`rateLimitedUntil, this`sends, this`requests
      modifies this`charged, this`earlier, this`refused, this`window, this`windows
      ensures Valid() && clock >= old(clock) && Cost(old(sends), old(rateLimitedUntil), old(window), old(windows))
      ensures NoneOut(old(rows), rows) && Kept(old(rows), rows) && Delivers(old(rows), rows, delivered)
      ensures InState(old(rows), Pending) != {} ==> sends > old(sends)
      ensures delivered == Accepts(transport, old(sends), sends)
      ensures old(requests) <= requests && LeftUntried(old(rows), old(sends), old(rateLimitedUntil))
    {
      if rateLimitedUntil > 0.0 {
        delivered := ProbeAfterRateLimit();
      } else {
        ghost var claimed, wall;
        delivered, claimed, wall := DrainBatch();
      }
    }

    /** The gate: nothing is sent while a flood window is open. */
    method DrainGated() returns (delivered: nat)
      requires Valid()
      modifies this`rows, this`nextId, this`clock, this`rateLimitedUntil, this`sends, this`requests
      modifies this`charged, this`earlier, this`refused, this`window, this`windows
      ensures Valid() && clock >= old(clock) && Cost(old(sends), old(rateLimitedUntil), old(window), old(windows))
      ensures NoneOut(old(rows), rows) && Kept(old(rows), rows) && Delivers(old(rows), rows, delivered)
      ensures delivered == Accepts(transport, old(sends), sends)
      ensures clock < old(rateLimitedUntil) ==> delivered == 0 && sends == old(sends)
      ensures old(rateLimitedUntil) <= old(clock) && InState(old(rows), Pending) != {} ==> sends > old(sends)
      ensures old(requests) <= requests && LeftUntried(old(rows), old(sends), old(rateLimitedUntil))
    {
      var now := Now();
      if now < rateLimitedUntil { return 0; }
      delivered := DrainOpen();
    }

    /** The first drain of a process parks what is over the backlog limit, the others nothing. */
    method CheckBacklog() returns (ghost parked: seq<Id>, ghost wall: real)
      requires Valid()
      modifies this`rows, this`nextId, this`charged, this`earlier, this`suppressed, this`backlogChecked
      ensures Valid() && NoneOut(old(rows), rows) && Kept(old(rows), rows) && Delivers(old(rows), rows, 0) && backlogChecked
      ensures Parks(old(rows), rows, parked, wall,
                    if old(backlogChecked) then 0 else Surplus(backlogLimit, |InState(old(rows), Pending)|))
      ensures suppressed == old(suppressed) + Elements(parked)
    {
      parked, wall := [], 0.0;
      assert Elements(parked) == {};
      if !backlogChecked {
        backlogChecked := true;
        parked, wall := SuppressBacklog();
      }
    }

    /** A drain that is not switched off: the first one parks what is over the backlog limit, which
        leaves `mid`; of that, what is not tried stays as it was, and a whole batch is tried unless a
        flood wait is met. */
    method DrainEnabled() returns (delivered: nat, ghost parked: seq<Id>, ghost wall: real, ghost mid: map<Id, Row>)
      requires Valid()
      modifies this
      ensures Valid() && backlogChecked && clock >= old(clock) && gone == old(gone)
      ensures Cost(old(sends), old(rateLimitedUntil), old(window), old(windows)) && old(requests) <= requests
      ensures NoneOut(mid, rows) && Kept(mid, rows) && Delivers(mid, rows, delivered) && delivered == Accepts(transport, old(sends), sends)
      ensures clock < old(rateLimitedUntil) ==> delivered == 0 && sends == old(sends)
      ensures Parks(old(rows), mid, parked, wall,
                    if old(backlogChecked) then 0 else Surplus(backlogLimit, |InState(old(rows), Pending)|))
      ensures suppressed == old(suppressed) + Elements(parked) && LeftUntried(mid, old(sends), old(rateLimitedUntil))
      ensures old(rateLimitedUntil) <= old(clock) && InState(mid, Pending) != {} ==> sends > old(sends)
    {
      parked, wall := CheckBacklog();
      mid := rows;
      delivered := DrainGated();
    }

    /** One drain.  Nothing it claims is left out for delivery; nothing settled is touched; the
        count returned is the count delivered and the count accepted; while a flood window is open
        nothing is sent at all, once it has expired one probe is, and a queue that is not empty is
        not passed over. */
    method Drain() returns (delivered: nat, ghost parked: seq<Id>, ghost wall: real, ghost mid: map<Id, Row>)
      requires Valid()
      modifies this
      ensures Valid() && clock >= old(clock) && gone == old(gone) && Cost(old(sends), old(rateLimitedUntil), old(window), old(windows))
      ensures NoneOut(old(rows), rows) && Kept(old(rows), rows) && Delivers(old(rows), rows, delivered)
      ensures delivered == Accepts(transport, old(sends), sends) && old(requests) <= requests
      ensures !enabled ==> delivered == 0 && rows == old(rows) && sends == old(sends) && suppressed == old(suppressed)
      ensures clock < old(rateLimitedUntil) ==> delivered == 0 && sends == old(sends)
      ensures enabled ==>
                && backlogChecked
                && Parks(old(rows), mid, parked, wall,
                         if old(backlogChecked) then 0 else Surplus(backlogLimit, |InState(old(rows), Pending)|))
                && suppressed == old(suppressed) + Elements(parked) && Kept(mid, rows)
                && LeftUntried(mid, old(sends), old(rateLimitedUntil))
                && (old(rateLimitedUntil) <= old(clock) && InState(mid, Pending) != {} ==> sends > old(sends))
    {
      if !enabled { return 0, [], 0.0, rows; }
      delivered, parked, wall, mid := DrainEnabled();
      ParksKeeps(old(rows), mid, parked, wall, |parked|);
      Compose(old(rows), mid, rows, delivered);
    }

    /** Any run of drains, with messages added and time passing in between: no message is ever lost
        or left out for delivery, what is settled stays settled; in non-blocking mode one that only
        met rate limits is delivered, waiting and charged for nothing, out with an earlier process,
        or parked by the backlog limit; every flood window that is over cost one probe, and one more
        for every probe refused for another reason; and no request is made while a flood wait runs
        that an earlier one met, but for one retry of the held message in blocking mode. */
    method Live(turns: nat)
      requires Valid()
      modifies this
      ensures Valid() && NoneOut(old(rows), rows) && Kept(old(rows), rows) && clock >= old(clock) && gone == old(gone)
      ensures old(requests) <= requests && Paced(transport, rateLimitCap, blockOnRateLimit, requests)
      ensures !blockOnRateLimit ==> forall m, n | 0 <= m < n < |requests| && transport(m).RateLimited? ::
                requests[n].at >= requests[m].at + Delay(transport(m), rateLimitCap)
      ensures !blockOnRateLimit ==> forall id | id in rows && id !in refused && id !in gone ::
        || rows[id].state == Delivered || rows[id].state == Delivering
        || (rows[id].state == Pending && rows[id].attempts == earlier[id])
        || (rows[id].state == Dead && id in suppressed)
      ensures forall w | w in windows :: ClosedOk(transport, w) && (|w| > 1 <==> exists i :: 0 <= i < |w| && transport(w[i]).Refused?)
    {
      for turn := 0 to turns
        invariant Valid() && NoneOut(old(rows), rows) && Kept(old(rows), rows) && clock >= old(clock) && gone == old(gone)
        invariant old(requests) <= requests
      {
        if {
          case true => AddMessage();
          case true =>
            var seconds: real := *;
            if seconds >= 0.0 { Wait(seconds); }
          case true => var _, _, _, _ := Drain();
        }
      }
      forall n | 0 <= n < |requests| && !blockOnRateLimit
        ensures Waited(transport, rateLimitCap, requests, n, requests[n].at)
      {
        assert RetryOk(transport, blockOnRateLimit, requests, n);
      }
      forall w | w in windows
        ensures |w| > 1 <==> exists i :: 0 <= i < |w| && transport(w[i]).Refused?
      {
        if |w| > 1 { assert transport(w[0]).Refused?; }
      }
    }
  }

  method AddThenDrain(d: Drainer)
    requires d.Valid() && d.enabled && d.backlogChecked && 0.0 < d.rateLimitedUntil <= d.clock
    modifies d
    ensures d.Valid() && d.backlogChecked && d.clock >= old(d.clock) && d.sends == old(d.sends) + 1
    ensures d.transport(old(d.sends)).Accepted? ==> d.window == [] && d.windows == old(d.windows) + [old(d.window) + [old(d.sends)]]
    ensures d.transport(old(d.sends)).Refused? ==>
              d.window == old(d.window) + [old(d.sends)] && d.windows == old(d.windows) && d.rateLimitedUntil == old(d.rateLimitedUntil)
  {
    d.AddMessage();
    assert old(d.nextId) in InState(d.rows, Pending);
    var _, _, _, _ := d.Drain();
  }

  /** A rate limit, then a refusal for another reason, then acceptance. */
  function Script(n: nat): Answer {
    if n == 0 then RateLimited(1.0) else if n == 1 then Refused else Accepted
  }

  method MeetRateLimit() returns (d: Drainer)
    ensures fresh(d) && d.Valid() && d.transport == Script && d.enabled && d.backlogChecked && d.rateLimitCap == 900.0
    ensures d.sends == 1 && d.rateLimitedUntil > 0.0 && d.window == []
  {
    d := new Drainer(Script, 1, 5, 0, true, 900.0, false, map[], 0, 1.0);
    d.AddMessage();
    assert 0 in InState(d.rows, Pending);
    var _, _, _, _ := d.Drain();
  }

  /** A window that costs two probes. A message meets a rate limit; once the wait is over the first
      probe is refused for another reason; the second is accepted and ends the window. */
  method TwoProbesInOneWindow() returns (d: Drainer)
    ensures fresh(d) && d.Valid() && d.transport == Script
    ensures d.window == [] && d.windows != [] && d.windows[|d.windows| - 1] == [1, 2]
  {
    d := MeetRateLimit();
    d.Wait(900.0);
    AddThenDrain(d);
    AddThenDrain(d);
    assert [] + [1] + [2] == [1, 2];
  }

  lemma PendingIsClaimable(rows: map<Id, Row>, expired: real)
    ensures InState(rows, Pending) <= Claimables(rows, expired)
  {
    forall id | id in InState(rows, Pending) ensures id in Claimables(rows, expired) {
    }
  }

  /** A claimed message is left alone for five minutes by the wall clock, and may be claimed again
      after that. */
  lemma LeaseRuns(row: Row, wall: real, later: real)
    ensures Claimable(Claim(row, Some(wall)), later - LEASE_SECONDS) <==> later > wall + 300.0
  {
  }

  /** Parking loses nothing, and takes only what waits or is out past its lease. */
  lemma ParksKeeps(before: map<Id, Row>, after: map<Id, Row>, ids: seq<Id>, wall: real, n: nat)
    requires Parks(before, after, ids, wall, n)
    ensures NoneOut(before, after) && Kept(before, after) && Delivers(before, after, 0)
  {
    forall k ensures k in InState(after, Delivered) <==> k in InState(before, Delivered) {
    }
    assert InState(after, Delivered) == InState(before, Delivered);
  }

  lemma ParksThenAdds(before: map<Id, Row>, settled: map<Id, Row>, rows: map<Id, Row>, ids: seq<Id>, wall: real, n: nat)
    requires Parks(before, settled, ids, wall, n) && ids != []
    requires forall id | id in settled :: id in rows && rows[id] == settled[id]
    requires forall id | id in rows && id !in settled :: rows[id].state == Pending
    ensures Parks(before, rows, ids, wall, n)
  {
  }

  lemma ElementsGrow(ids: seq<Id>, id: Id)
    ensures Elements(ids + [id]) == Elements(ids) + {id}
  {
  }

  lemma {:induction false} ElementsCount(ids: seq<Id>)
    requires forall i, j | 0 <= i < j < |ids| :: ids[i] != ids[j]
    ensures |Elements(ids)| == |ids|
  {
    if ids == [] {
    } else {
      var front, last := ids[..|ids| - 1], ids[|ids| - 1];
      ElementsCount(front);
      assert ids == front + [last];
      ElementsGrow(front, last);
      assert last !in front;
    }
  }

  lemma SubsetCount(a: set<Id>, b: set<Id>)
    requires a <= b
    ensures |a| <= |b|
  {
    assert b == a + (b - a);
  }

  /** A claim of no more than wait gets that many. */
  lemma EnoughPending(rows: map<Id, Row>, ids: seq<Id>, expired: real, surplus: nat)
    requires surplus <= |InState(rows, Pending)| && |ids| <= surplus
    requires |ids| == surplus || Claimables(rows, expired) == Elements(ids)
    requires forall i, j | 0 <= i < j < |ids| :: ids[i] != ids[j]
    ensures |ids| == surplus
  {
    ElementsCount(ids);
    PendingIsClaimable(rows, expired);
    SubsetCount(InState(rows, Pending), Claimables(rows, expired));
  }

  /** Between two messages of a drain: the claimed ones from the n-th on are still out, the rest
      of the queue is as it was, and anything added since is pending. */
  ghost predicate Underway(before: map<Id, Row>, rows: map<Id, Row>, ids: seq<Id>, n: nat) {
    && n <= |ids|
    && (forall id | id in before :: id in rows && (id !in ids ==> rows[id] == before[id]))
    && (forall k | 0 <= k < |ids| :: ids[k] in before && Open(before[ids[k]])
          && ids[k] in rows && (rows[ids[k]].state == Delivering <==> n <= k))
    && (forall k | n <= k < |ids| :: rows[ids[k]] == Claim(before[ids[k]], rows[ids[k]].claimedAt))
    && (forall i, j | 0 <= i < j < |ids| :: ids[i] != ids[j])
    && (forall id | id in rows && id !in before :: rows[id].state == Pending)
  }

  /** Waiting or out: not settled. */
  predicate Open(row: Row) {
    row.state == Pending || row.state == Delivering
  }

  lemma DrainStarts(before: map<Id, Row>, rows: map<Id, Row>, ids: seq<Id>, wall: real)
    requires Picks(before, ids, wall - LEASE_SECONDS, Claimables(before, wall - LEASE_SECONDS) - Elements(ids))
    requires rows == ClaimAll(before, Elements(ids), wall)
    ensures Underway(before, rows, ids, 0)
    ensures InState(rows, Delivered) == InState(before, Delivered)
  {
    assert forall k | 0 <= k < |ids| :: ids[k] in Elements(ids);
    forall k ensures k in InState(rows, Delivered) <==> k in InState(before, Delivered) {
    }
  }

  lemma OneMoreDone(before: map<Id, Row>, rows: map<Id, Row>, rows': map<Id, Row>, ids: seq<Id>, n: nat)
    requires Underway(before, rows, ids, n) && n < |ids|
    requires forall id | id in rows :: id in rows' && (id != ids[n] ==> rows'[id] == rows[id])
    requires forall id | id in rows' && id !in rows :: rows'[id].state == Pending
    requires ids[n] in rows' && rows'[ids[n]].state != Delivering
    ensures Underway(before, rows', ids, n + 1)
    ensures InState(rows', Delivered) == InState(rows, Delivered) + (if rows'[ids[n]].state == Delivered then {ids[n]} else {})
    ensures |InState(rows', Delivered)| == |InState(rows, Delivered)| + (if rows'[ids[n]].state == Delivered then 1 else 0)
  {
    forall k ensures k in InState(rows', Delivered) <==>
        k in InState(rows, Delivered) + (if rows'[ids[n]].state == Delivered then {ids[n]} else {})
    {
    }
  }

  lemma RestUntouched(before: map<Id, Row>, rows: map<Id, Row>, ids: seq<Id>, tried: seq<Id>)
    requires Underway(before, rows, ids, |ids|) && tried <= ids
    requires forall i | |tried| <= i < |ids| :: rows[ids[i]] == Released(before[ids[i]])
    ensures Untouched(before, rows, tried)
  {
  }

  lemma DrainEnds(before: map<Id, Row>, rows: map<Id, Row>, ids: seq<Id>)
    requires Underway(before, rows, ids, |ids|)
    ensures NoneOut(before, rows) && Kept(before, rows)
  {
    assert forall k | 0 <= k < |ids| :: rows[ids[k]].state != Delivering;
    assert forall id | id in rows && rows[id].state == Delivering :: id !in ids;
    forall id | id in before && !Open(before[id]) ensures id in rows && rows[id] == before[id] {
    }
  }

  function Elements(ids: seq<Id>): set<Id> {
    set id | id in ids
  }

  /** The picks are different messages that can be claimed, none younger than one left behind. */
  ghost predicate Picks(rows: map<Id, Row>, ids: seq<Id>, expired: real, left: set<Id>) {
    && left <= rows.Keys && left !! Elements(ids)
    && (forall id | id in ids :: id in rows && Claimable(rows[id], expired))
    && (forall i, j | 0 <= i < j < |ids| :: ids[i] != ids[j])
    && (forall id, other | id in ids && other in left :: rows[id].createdAt <= rows[other].createdAt)
  }

  /** `SELECT ... ORDER BY created_at LIMIT ?` over the claimable rows. */
  method SelectOldest(rows: map<Id, Row>, expired: real, limit: nat) returns (ids: seq<Id>)
    ensures Picks(rows, ids, expired, Claimables(rows, expired) - Elements(ids))
    ensures |ids| <= limit && (|ids| == limit || Claimables(rows, expired) == Elements(ids))
  {
    var left := set id | id in rows && Claimable(rows[id], expired);
    ids := [];
    assert left + Elements([]) == Claimables(rows, expired);
    while |ids| < limit && left != {}
      invariant Picks(rows, ids, expired, left)
      invariant left + Elements(ids) == Claimables(rows, expired)
      invariant |ids| <= limit
      decreases |left|
    {
      OldestExists(rows, left);
      var id :| id in left && forall other | other in left :: rows[id].createdAt <= rows[other].createdAt;
      PickOne(rows, ids, expired, left, id);
      ids := ids + [id];
      left := left - {id};
    }
    assert left == Claimables(rows, expired) - Elements(ids);
  }

  lemma PickOne(rows: map<Id, Row>, ids: seq<Id>, expired: real, left: set<Id>, id: Id)
    requires Picks(rows, ids, expired, left) && left + Elements(ids) == Claimables(rows, expired)
    requires id in left && forall other | other in left :: rows[id].createdAt <= rows[other].createdAt
    ensures Picks(rows, ids + [id], expired, left - {id})
    ensures (left - {id}) + Elements(ids + [id]) == Claimables(rows, expired)
  {
    assert Elements(ids + [id]) == Elements(ids) + {id};
    assert id in Claimables(rows, expired);
    assert forall i | 0 <= i < |ids| :: ids[i] in Elements(ids);
  }

  lemma ClaimOneMore(rows: map<Id, Row>, ids: seq<Id>, id: Id, now: real)
    requires id in rows && id !in ids
    ensures ClaimAll(rows, Elements(ids + [id]), now)
            == ClaimAll(rows, Elements(ids), now)[id := Claim(ClaimAll(rows, Elements(ids), now)[id], Some(now))]
  {
    assert Elements(ids + [id]) == Elements(ids) + {id};
  }

  lemma {:induction false} OldestExists(rows: map<Id, Row>, ids: set<Id>)
    requires ids != {} && ids <= rows.Keys
    ensures exists id :: id in ids && forall other | other in ids :: rows[id].createdAt <= rows[other].createdAt
    decreases |ids|
  {
    if forall x :: x !in ids { assert false; }
    var x :| x in ids;
    var rest := ids - {x};
    assert forall y | y in ids :: y == x || y in rest;
    if rest == {} {
      assert x in ids && forall other | other in ids :: rows[x].createdAt <= rows[other].createdAt;
    } else {
      OldestExists(rows, rest);
      var y :| y in rest && forall other | other in rest :: rows[y].createdAt <= rows[other].createdAt;
      var oldest := if rows[x].createdAt <= rows[y].createdAt then x else y;
      assert oldest in ids && forall other | other in ids :: rows[oldest].createdAt <= rows[other].createdAt;
    }
  }
}
