/** The message list of one ReAct episode (skynet/react.py): it is appended to, compacted and cut,
    and a tool result must never be parted from the call it answers. */
module Transcript {
  import opened Options

  datatype Call = Call(id: string, name: string)

  datatype Message =
    | System(text: string)
    | User(text: string)
    | Assistant(text: string, calls: seq<Call>)
    | Tool(callId: string, content: string)

  type Messages = seq<Message>

  const COMPACTION_NOTE := "[Context compacted by harness. Earlier tool exchanges were persisted in the event log.]"

  // ------------------------------------------------------------------------------------------
  // Well-paired lists
  // ------------------------------------------------------------------------------------------

  /** The calls still unanswered after one more message; None when it does not belong there. */
  function Step(open: seq<Call>, m: Message): Option<seq<Call>> {
    match m
    case Tool(id, _) => if open != [] && open[0].id == id then Some(open[1..]) else None
    case Assistant(_, calls) => if open == [] then Some(calls) else None
    case _ => if open == [] then Some([]) else None
  }

  function Scan(open: seq<Call>, ms: Messages): Option<seq<Call>>
    decreases |ms|
  {
    if ms == [] then Some(open)
    else
      match Step(open, ms[0])
      case None => None
      case Some(next) => Scan(next, ms[1..])
  }

  /** Results come right after the message that called for them, in the order of its calls, and
      nothing else comes before the batch is answered. */
  predicate WellPaired(ms: Messages) {
    Scan([], ms).Some?
  }

  /** The index of the last message up to i that is no tool result. */
  function Owner(ms: Messages, i: int): (j: int)
    requires -1 <= i < |ms|
    ensures -1 <= j <= i
  {
    if i == -1 || !ms[i].Tool? then i else Owner(ms, i - 1)
  }

  /** The call that the tool result at i answers, by position: the messages between are all
      results of the same batch. */
  predicate Answers(ms: Messages, i: int)
    requires 0 <= i < |ms| && ms[i].Tool?
  {
    var j := Owner(ms, i);
    && 0 <= j < i
    && ms[j].Assistant?
    && i - j - 1 < |ms[j].calls|
    && ms[j].calls[i - j - 1].id == ms[i].callId
  }

  predicate Paired(ms: Messages) {
    forall i | 0 <= i < |ms| && ms[i].Tool? :: Answers(ms, i)
  }

  // ------------------------------------------------------------------------------------------
  // Cutting
  // ------------------------------------------------------------------------------------------

  function Max(a: int, b: int): int {
    if a >= b then a else b
  }

  function Min(a: int, b: int): int {
    if a <= b then a else b
  }

  /** The walk back from a tool result towards the message that called for it. */
  function WalkBack(ms: Messages, start: nat): (r: nat)
    requires start <= |ms|
    ensures r <= start
  {
    if 2 < start < |ms| && ms[start].Tool? then WalkBack(ms, start - 1) else start
  }

  function TailStart(ms: Messages, keep: int): (r: nat)
    ensures r <= |ms|
  {
    WalkBack(ms, Min(|ms|, Max(2, |ms| - Max(0, keep))))
  }

  function Head(ms: Messages): Messages {
    ms[..Min(2, |ms|)]
  }

  function FinishCut(ms: Messages, keepMessages: int): Messages {
    Head(ms) + ms[TailStart(ms, Max(2, keepMessages))..]
  }

  function Compacted(ms: Messages, keepMessages: int): Messages {
    Head(ms) + [System(COMPACTION_NOTE)] + ms[TailStart(ms, Max(2, keepMessages) - 3)..]
  }

  /** `size` is the request's token estimate; a compaction that does not lower it is dropped. */
  function Compact(ms: Messages, keepMessages: int, size: Messages -> nat): Messages {
    if |ms| <= Max(2, keepMessages) then ms
    else if size(Compacted(ms, keepMessages)) >= size(ms) then ms
    else Compacted(ms, keepMessages)
  }

  method ComputeTailStart(ms: Messages, keep: int) returns (start: nat)
    ensures start == TailStart(ms, keep)
  {
    start := Min(|ms|, Max(2, |ms| - Max(0, keep)));
    while 2 < start < |ms| && ms[start].Tool?
      invariant start <= |ms| && WalkBack(ms, start) == TailStart(ms, keep)
      decreases start
    {
      start := start - 1;
    }
  }

  // ------------------------------------------------------------------------------------------
  // Who ran
  // ------------------------------------------------------------------------------------------

  /** The names of the calls whose results report success, each result's call found by its
      position in the batch it belongs to. */
  function CallerName(ms: Messages, i: int): string
    requires 0 <= i < |ms| && ms[i].Tool?
  {
    if Answers(ms, i) then ms[Owner(ms, i)].calls[i - Owner(ms, i) - 1].name else ""
  }

  function SucceededByCaller(ms: Messages, ok: string -> bool, n: nat): seq<string>
    requires n <= |ms|
  {
    if n == 0 then []
    else
      var before, m := SucceededByCaller(ms, ok, n - 1), ms[n - 1];
      if m.Tool? && ok(m.content) && CallerName(ms, n - 1) != "" then before + [CallerName(ms, n - 1)] else before
  }

  function Names(calls: seq<Call>): seq<string> {
    seq(|calls|, i requires 0 <= i < |calls| => calls[i].name)
  }

  /** A well-paired list, or one with an instruction put after it. */
  predicate Readable(ms: Messages) {
    WellPaired(ms) || (ms != [] && ms[|ms| - 1].System? && WellPaired(ms[..|ms| - 1]))
  }

  /** `_succeeded_tool_names`: one queue of requested names, popped by every result. */
  method SucceededToolNames(ms: Messages, ok: string -> bool) returns (names: seq<string>)
    requires Readable(ms)
    ensures names == SucceededByCaller(ms, ok, |ms|)
  {
    ghost var end: nat := if WellPaired(ms) then |ms| else |ms| - 1;
    assert ms[..|ms|] == ms;
    names := [];
    var requested: seq<string> := [];
    ghost var open: seq<Call> := [];
    var n := 0;
    while n < |ms|
      invariant 0 <= n <= |ms|
      invariant n <= end ==> Scan([], ms[..n]) == Some(open) && requested == Names(open)
      invariant names == SucceededByCaller(ms, ok, n)
    {
      var m := ms[n];
      if n < end {
        ScanOneMore(ms, n, end, open);
        if m.Tool? { ResultAnswersFirstOpen(ms, n, open); }
        open := Step(open, m).value;
      }
      match m {
        case Assistant(_, calls) =>
          requested := requested + Names(calls);
        case Tool(_, content) =>
          var name := if requested != [] then requested[0] else "";
          requested := if requested != [] then requested[1..] else [];
          if ok(content) && name != "" {
            names := names + [name];
          }
        case _ =>
      }
      n := n + 1;
    }
  }

  // ------------------------------------------------------------------------------------------
  // Pairing lemmas
  // ------------------------------------------------------------------------------------------

  lemma {:induction false} ScanJoins(open: seq<Call>, a: Messages, b: Messages)
    ensures Scan(open, a + b) == match Scan(open, a) case None => None case Some(mid) => Scan(mid, b)
    decreases |a|
  {
    if a == [] {
      assert a + b == b;
    } else {
      assert (a + b)[1..] == a[1..] + b;
      match Step(open, a[0]) {
        case None =>
        case Some(next) => ScanJoins(next, a[1..], b);
      }
    }
  }

  lemma ScanOneMore(ms: Messages, n: nat, end: nat, open: seq<Call>)
    requires n < end <= |ms| && Scan([], ms[..n]) == Some(open) && WellPaired(ms[..end])
    ensures Step(open, ms[n]).Some? && Scan([], ms[..n + 1]) == Step(open, ms[n])
  {
    assert ms[..end] == ms[..n] + ms[n..end];
    ScanJoins([], ms[..n], ms[n..end]);
    assert ms[n..end][0] == ms[n];
    assert ms[..n + 1] == ms[..n] + [ms[n]];
    ScanJoins([], ms[..n], [ms[n]]);
    assert Scan(open, [ms[n]]) == Step(open, ms[n]);
  }

  lemma {:induction false} OwnerOfPrefix(ms: Messages, n: nat, i: int)
    requires -1 <= i < n <= |ms|
    ensures Owner(ms[..n], i) == Owner(ms, i)
    decreases i
  {
    if i >= 0 && ms[i].Tool? { OwnerOfPrefix(ms, n, i - 1); }
  }

  /** The calls open after n messages: the rest of the last batch. */
  predicate IsRest(ms: Messages, n: nat, open: seq<Call>)
    requires 0 < n <= |ms|
  {
    var j := Owner(ms, n - 1);
    && 0 <= j
    && if ms[j].Assistant? then n - 1 - j <= |ms[j].calls| && open == ms[j].calls[n - 1 - j..] else open == []
  }

  lemma RestStep(ms: Messages, n: nat, before: seq<Call>, open: seq<Call>)
    requires 0 < n <= |ms| && Step(before, ms[n - 1]) == Some(open)
    requires if n == 1 then before == [] else IsRest(ms, n - 1, before)
    ensures IsRest(ms, n, open)
  {
  }

  /** The unanswered calls are the last batch's calls from the first unanswered on. */
  lemma {:induction false} OpenIsRestOfBatch(ms: Messages, n: nat, open: seq<Call>)
    requires 0 < n <= |ms| && Scan([], ms[..n]) == Some(open)
    ensures IsRest(ms, n, open)
  {
    assert ms[..n] == ms[..n - 1] + [ms[n - 1]];
    ScanJoins([], ms[..n - 1], [ms[n - 1]]);
    var before := Scan([], ms[..n - 1]).value;
    assert Scan(before, [ms[n - 1]]) == Step(before, ms[n - 1]);
    if n <= 1 {
    } else {
      OpenIsRestOfBatch(ms, n - 1, before);
    }
    RestStep(ms, n, before, open);
  }

  /** A result in a well-paired list answers the first unanswered call, and that is the call at
      its place in the batch. */
  lemma ResultAnswersFirstOpen(ms: Messages, i: nat, open: seq<Call>)
    requires i < |ms| && ms[i].Tool? && Scan([], ms[..i]) == Some(open) && Step(open, ms[i]).Some?
    ensures Answers(ms, i) && open != [] && CallerName(ms, i) == open[0].name
  {
    if i > 0 { OpenIsRestOfBatch(ms, i, open); }
  }

  /** In a well-paired list every result is preceded by the message that called for it, with
      only results of the same batch between them. */
  lemma WellPairedIsPaired(ms: Messages)
    requires WellPaired(ms)
    ensures Paired(ms)
  {
    forall i: nat | i < |ms| && ms[i].Tool? ensures Answers(ms, i) {
      assert ms == ms[..i] + ms[i..];
      ScanJoins([], ms[..i], ms[i..]);
      ResultAnswersFirstOpen(ms, i, Scan([], ms[..i]).value);
    }
  }

  lemma PairedWithInstruction(ms: Messages, text: string)
    requires Paired(ms)
    ensures Paired(ms + [System(text)])
  {
    var longer := ms + [System(text)];
    forall i: nat | i < |longer| && longer[i].Tool? ensures Answers(longer, i) {
      assert longer[..|ms|] == ms;
      OwnerOfPrefix(longer, |ms|, i);
      assert Answers(ms, i);
    }
  }

  /** A tool is named exactly if one of its results reports success: the result at i, which answers
      the call at its place in the batch before it. */
  lemma {:induction false} SucceededIff(ms: Messages, ok: string -> bool, n: nat, name: string)
    requires n <= |ms|
    ensures name in SucceededByCaller(ms, ok, n) <==>
      name != "" && exists i, j :: 0 <= j < i < n && ms[i].Tool? && ok(ms[i].content) && Calls(ms, j, i, name)
  {
    if n == 0 {
    } else {
      SucceededIff(ms, ok, n - 1, name);
      var i := n - 1;
      if ms[i].Tool? {
        CallerIff(ms, i, name);
      }
    }
  }

  /** Message j calls for this tool and message i, with results only between them, answers that call. */
  predicate Calls(ms: Messages, j: int, i: int, name: string)
    requires 0 <= j < i < |ms| && ms[i].Tool?
  {
    && ms[j].Assistant? && (forall k | j < k < i :: ms[k].Tool?)
    && i - j - 1 < |ms[j].calls| && ms[j].calls[i - j - 1] == Call(ms[i].callId, name)
  }

  lemma {:induction false} OwnerIs(ms: Messages, i: int)
    requires 0 <= i < |ms|
    ensures forall k | Owner(ms, i) < k <= i :: ms[k].Tool?
    ensures Owner(ms, i) >= 0 ==> !ms[Owner(ms, i)].Tool?
    decreases i
  {
    if i > 0 && ms[i].Tool? { OwnerIs(ms, i - 1); }
  }

  lemma CallerIff(ms: Messages, i: int, name: string)
    requires 0 <= i < |ms| && ms[i].Tool?
    ensures name != "" ==> (CallerName(ms, i) == name <==> exists j :: 0 <= j < i && Calls(ms, j, i, name))
  {
    OwnerIs(ms, i);
    if Answers(ms, i) { assert CallerName(ms, i) == name ==> Calls(ms, Owner(ms, i), i, name); }
  }

  // ------------------------------------------------------------------------------------------
  // Cuts keep the pairing
  // ------------------------------------------------------------------------------------------

  /** What an episode's list opens with, and what no cut may drop. */
  predicate Opens(ms: Messages) {
    |ms| >= 2 && ms[0].System? && ms[1].User?
  }

  lemma {:induction false} WalkBackStops(ms: Messages, start: nat)
    requires 2 <= start <= |ms|
    ensures var r := WalkBack(ms, start);
            2 <= r <= start && (r == 2 || r == |ms| || !ms[r].Tool?)
    decreases start
  {
    if !(2 < start < |ms| && ms[start].Tool?) {
    } else {
      WalkBackStops(ms, start - 1);
    }
  }

  lemma {:induction false} WalkBackCrossesResults(ms: Messages, start: nat)
    requires start <= |ms|
    ensures forall i | WalkBack(ms, start) < i <= start && i < |ms| :: ms[i].Tool?
    decreases start
  {
    if !(2 < start < |ms| && ms[start].Tool?) {
    } else {
      WalkBackCrossesResults(ms, start - 1);
    }
  }

  lemma NoCallOpenAt(ms: Messages, k: nat)
    requires WellPaired(ms) && k < |ms| && !ms[k].Tool?
    ensures Scan([], ms[..k]) == Some([]) && Scan([], ms[k..]) == Scan([], ms)
  {
    assert ms == ms[..k] + ms[k..];
    ScanJoins([], ms[..k], ms[k..]);
    var open := Scan([], ms[..k]).value;
    assert Step(open, ms[k..][0]).Some?;
  }

  lemma NoResultAfterOpening(ms: Messages)
    requires WellPaired(ms) && Opens(ms) && |ms| > 2
    ensures !ms[2].Tool?
  {
    OpeningIsClosed(ms);
    assert Head(ms) == ms[..2] && ms[..|ms|] == ms;
    ScanOneMore(ms, 2, |ms|, []);
  }

  /** A tail starts where no call is open, unless it is empty. */
  lemma {:induction false} TailStartsClosed(ms: Messages, keep: int)
    requires WellPaired(ms) && Opens(ms)
    ensures var start := TailStart(ms, keep);
            && 2 <= start <= |ms|
            && (start < |ms| ==> Scan([], ms[..start]) == Some([]) && Scan([], ms[start..]) == Scan([], ms))
  {
    var start := TailStart(ms, keep);
    WalkBackStops(ms, Min(|ms|, Max(2, |ms| - Max(0, keep))));
    if start < |ms| {
      NoResultAfterOpening(ms);
      NoCallOpenAt(ms, start);
    }
  }

  /** The tail is the last `keep` messages, as far as there are that many after the opening two,
      and before them only the rest of the batch they would have split. */
  lemma TailIsTheLastMessages(ms: Messages, keep: nat)
    requires |ms| >= 2
    ensures var start := TailStart(ms, keep);
            && start <= Max(2, |ms| - keep)
            && forall i | start < i <= |ms| - keep && i < |ms| :: ms[i].Tool?
  {
    WalkBackCrossesResults(ms, Min(|ms|, Max(2, |ms| - keep)));
  }

  /** A compacted list has the configured length, or three if that is less; it is longer only
      where a batch would have been split. */
  lemma CompactedLength(ms: Messages, keepMessages: int)
    requires |ms| > Max(2, keepMessages)
    ensures var keep := Max(3, keepMessages);
            |Compacted(ms, keepMessages)| >= keep
            && (keep == 3 || !ms[|ms| - (keep - 3)].Tool? ==> |Compacted(ms, keepMessages)| == keep)
  {
    TailIsTheLastMessages(ms, Max(3, keepMessages) - 3);
  }

  /** When a list is compacted, and to what: if it is longer than configured and the request gets
      smaller by it, to its opening two messages, the note, and the tail. */
  lemma CompactsIff(ms: Messages, keepMessages: int, size: Messages -> nat)
    requires |ms| >= 2
    ensures var start := TailStart(ms, Max(3, keepMessages) - 3);
            var short := ms[..2] + [System(COMPACTION_NOTE)] + ms[start..];
            && (|ms| > Max(2, keepMessages) && size(short) < size(ms) ==> Compact(ms, keepMessages, size) == short)
            && (Compact(ms, keepMessages, size) != ms ==>
                  Compact(ms, keepMessages, size) == short && |ms| > Max(2, keepMessages) && size(short) < size(ms))
  {
    assert ms[..2] == Head(ms);
  }

  /** Where a request costs what it has messages, every list longer than configured is cut to the
      configured length, if that splits no batch. */
  lemma LongListIsCut(ms: Messages, keepMessages: int)
    requires |ms| > Max(3, keepMessages)
    requires keepMessages <= 3 || !ms[|ms| - (keepMessages - 3)].Tool?
    ensures |Compact(ms, keepMessages, (request: Messages) => |request|)| == Max(3, keepMessages)
  {
    CompactedLength(ms, keepMessages);
    CompactsIff(ms, keepMessages, (request: Messages) => |request|);
  }

  lemma OpeningIsClosed(ms: Messages)
    requires Opens(ms)
    ensures Head(ms) == [ms[0], ms[1]] && Scan([], Head(ms)) == Some([])
  {
    assert Head(ms)[1..] == [ms[1]];
    assert Scan([], [ms[1]]) == Scan([], []);
  }

  lemma HeadThen(ms: Messages, rest: Messages)
    requires Opens(ms)
    ensures Scan([], Head(ms) + rest) == Scan([], rest)
  {
    OpeningIsClosed(ms);
    ScanJoins([], Head(ms), rest);
  }

  lemma NoteThen(text: string, rest: Messages)
    ensures Scan([], [System(text)] + rest) == Scan([], rest)
  {
    assert ([System(text)] + rest)[1..] == rest;
  }

  /** A compaction at a step boundary keeps the opening two messages and a closed tail. */
  lemma CompactKeepsPairing(ms: Messages, keepMessages: int, size: Messages -> nat)
    requires WellPaired(ms) && Opens(ms) && Scan([], ms) == Some([])
    ensures var r := Compact(ms, keepMessages, size);
            && Scan([], r) == Some([]) && Opens(r) && r[..2] == ms[..2]
            && (r != ms ==> size(r) < size(ms))
  {
    var tail := ms[TailStart(ms, Max(2, keepMessages) - 3)..];
    var note := [System(COMPACTION_NOTE)];
    TailStartsClosed(ms, Max(2, keepMessages) - 3);
    NoteThen(COMPACTION_NOTE, tail);
    HeadThen(ms, note + tail);
    assert Compacted(ms, keepMessages) == Head(ms) + (note + tail);
    assert Scan([], Compacted(ms, keepMessages)) == Some([]);
  }

  /** The finish cut keeps the pairing even in the middle of a batch: the calls left open are
      still the last batch's. */
  lemma {:induction false} FinishCutKeepsPairing(ms: Messages, keepMessages: int)
    requires WellPaired(ms) && Opens(ms)
    ensures var r := FinishCut(ms, keepMessages);
            && WellPaired(r) && Opens(r) && r[..2] == ms[..2]
            && (|ms| > 2 ==> Scan([], r) == Scan([], ms))
  {
    var r := FinishCut(ms, keepMessages);
    var start := TailStart(ms, Max(2, keepMessages));
    TailStartsClosed(ms, Max(2, keepMessages));
    HeadThen(ms, ms[start..]);
    if start == |ms| {
      assert ms[start..] == [];
    }
  }

  // ------------------------------------------------------------------------------------------
  // Unanswered calls
  // ------------------------------------------------------------------------------------------

  /** Every call has its result, at its own place behind the message that called. */
  predicate AllAnswered(ms: Messages) {
    forall j, c | 0 <= j < |ms| && ms[j].Assistant? && 0 <= c < |ms[j].calls| :: Answered(ms, j, c)
  }

  predicate Answered(ms: Messages, j: nat, c: nat)
    requires j < |ms| && ms[j].Assistant? && c < |ms[j].calls|
  {
    j + 1 + c < |ms| && ms[j + 1 + c].Tool? && ms[j + 1 + c].callId == ms[j].calls[c].id
  }

  /** As far as the list goes, the messages behind a batch's call answer it. */
  lemma {:induction false} BatchIsAnswered(ms: Messages, j: nat, n: nat)
    requires WellPaired(ms) && j < |ms| && ms[j].Assistant? && n <= |ms[j].calls| && j + 1 + n <= |ms|
    ensures Scan([], ms[..j + 1 + n]) == Some(ms[j].calls[n..])
    ensures forall c | 0 <= c < n :: Answered(ms, j, c)
  {
    assert ms[..|ms|] == ms;
    if n == 0 {
      NoCallOpenAt(ms, j);
      ScanOneMore(ms, j, |ms|, []);
    } else {
      BatchIsAnswered(ms, j, n - 1);
      ScanOneMore(ms, j + n, |ms|, ms[j].calls[n - 1..]);
    }
  }

  lemma ClosedIsAnswered(ms: Messages, j: nat, c: nat)
    requires Scan([], ms) == Some([]) && j < |ms| && ms[j].Assistant? && c < |ms[j].calls|
    ensures Answered(ms, j, c)
  {
    assert ms[..|ms|] == ms;
    BatchIsAnswered(ms, j, if j + 1 + |ms[j].calls| <= |ms| then |ms[j].calls| else |ms| - j - 1);
  }

  /** The first open call is one without a result. */
  lemma OpenIsUnanswered(ms: Messages) returns (j: nat)
    requires WellPaired(ms) && Scan([], ms) != Some([])
    ensures j < |ms| && ms[j].Assistant? && |ms| - 1 - j < |ms[j].calls| && !Answered(ms, j, |ms| - 1 - j)
  {
    assert ms[..|ms|] == ms;
    OpenIsRestOfBatch(ms, |ms|, Scan([], ms).value);
    j := Owner(ms, |ms| - 1);
  }

  /** Every call of a well-paired list is answered exactly when none is left open. */
  lemma AnsweredIffClosed(ms: Messages)
    requires WellPaired(ms)
    ensures AllAnswered(ms) <==> Scan([], ms) == Some([])
  {
    if Scan([], ms) == Some([]) {
      forall j: nat, c: nat | j < |ms| && ms[j].Assistant? && c < |ms[j].calls| ensures Answered(ms, j, c) {
        ClosedIsAnswered(ms, j, c);
      }
    } else {
      var j := OpenIsUnanswered(ms);
    }
  }
}
