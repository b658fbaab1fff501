/** One ReAct episode from step to step (skynet/react.py). */
module ReAct {
  import opened Options
  import opened Transcript

  const MAX_MODEL_REASKS := 3
  const FINISH_NOTE := "Finish phase. Call the finish tool with the Finish Report's fields; the arguments are the report. A report written as prose is not accepted."

  // ------------------------------------------------------------------------------------------
  // What an episode meets
  // ------------------------------------------------------------------------------------------

  /** The corrective instructions called for by closing replies that cannot be read, in order; the
      reply after the last of them can be, or does not come. */
  type Corrections = seq<string>

  datatype Guard = Pass | Close(corrections: Corrections) | Stop

  /** What became of a call: a result, after which the episode may have to close; or nothing,
      because it ended before the call was run. */
  datatype CallEnd = Result(content: string, closing: Guard) | CannotRun

  datatype Turn =
    | Failed
    | Repeated(corrections: Corrections)
    | Said(text: string, calls: seq<Call>, ends: nat -> CallEnd, replies: Corrections)

  /** One step: a delivery from the inbox, the budgets, up to three warnings, and the model's turn. */
  datatype Input = Input(
    delivery: Option<string>, time: Guard, due: bool, context: Guard,
    warning: Option<string>, critical: Option<string>, timeWarning: Option<string>,
    dueAgain: bool, contextAgain: Guard, turn: Turn)

  datatype Limits = Limits(keepMessages: int, maxCompactions: nat, size: Messages -> nat)

  // ------------------------------------------------------------------------------------------
  // What becomes of it
  // ------------------------------------------------------------------------------------------

  /** The list held, the compactions so far, every list sent to the model, and whether it is over. */
  datatype State = State(messages: Messages, compactions: nat, sent: seq<Messages>, over: bool)

  function Noted(ms: Messages, text: Option<string>): Messages {
    if text.Some? then ms + [System(text.value)] else ms
  }

  function Shrunk(l: Limits, st: State, due: bool): State {
    var r := Compact(st.messages, l.keepMessages, l.size);
    if due && st.compactions < l.maxCompactions && r != st.messages
      then st.(messages := r, compactions := st.compactions + 1) else st
  }

  /** What was sent goes out again behind each corrective instruction, a bounded number of times. */
  function Corrected(base: Messages, corrections: Corrections): seq<Messages> {
    var n := if |corrections| <= MAX_MODEL_REASKS then |corrections| else MAX_MODEL_REASKS;
    seq(n, k requires 0 <= k < n => base + [System(corrections[k])])
  }

  /** The cut with the closing instruction, and its corrections. */
  function Closing(l: Limits, ms: Messages, corrections: Corrections): seq<Messages> {
    var cut := FinishCut(ms, l.keepMessages) + [System(FINISH_NOTE)];
    [cut] + Corrected(cut, corrections)
  }

  function Guarded(l: Limits, st: State, guard: Guard): State {
    match guard
    case Pass => st
    case Close(corrections) => st.(sent := st.sent + Closing(l, st.messages, corrections), over := true)
    case Stop => st.(over := true)
  }

  /** The calls from the k-th on. */
  function Batch(l: Limits, st: State, calls: seq<Call>, ends: nat -> CallEnd, k: nat): State
    requires k <= |calls|
    decreases |calls| - k
  {
    if st.over || k == |calls| then st
    else
      match ends(k)
      case CannotRun => st.(over := true)
      case Result(content, closing) =>
        Batch(l, Guarded(l, st.(messages := st.messages + [Tool(calls[k].id, content)]), closing), calls, ends, k + 1)
  }

  function Took(l: Limits, st: State, turn: Turn): State {
    var asked := st.(sent := st.sent + [st.messages]);
    match turn
    case Failed => asked.(over := true)
    case Repeated(corrections) => Guarded(l, asked, Close(corrections))
    case Said(text, calls, ends, replies) =>
      var said := asked.(messages := st.messages + [Assistant(text, calls)]);
      if calls == [] then said.(sent := said.sent + Corrected(said.messages, replies), over := true)
      else Batch(l, said, calls, ends, 0)
  }

  /** From the second look at the budgets on. */
  function Asked(l: Limits, st: State, x: Input): State {
    var warned := st.(messages := Noted(Noted(Noted(st.messages, x.warning), x.critical), x.timeWarning));
    var shrunk := Shrunk(l, warned, x.dueAgain);
    if shrunk != warned then shrunk
    else
      var checked := Guarded(l, warned, x.contextAgain);
      if checked.over then checked else Took(l, checked, x.turn)
  }

  function Stepped(l: Limits, st: State, x: Input): State {
    var timed := Guarded(l, st.(messages := Noted(st.messages, x.delivery)), x.time);
    if timed.over then timed
    else
      var shrunk := Shrunk(l, timed, x.due);
      if shrunk != timed then shrunk
      else
        var checked := Guarded(l, timed, x.context);
        if checked.over then checked else Asked(l, checked, x)
  }

  /** The step loop over whatever it meets; it ends with its steps at the latest. */
  function Ran(l: Limits, st: State, xs: seq<Input>): State
    decreases |xs|
  {
    if xs == [] || st.over then st else Ran(l, Stepped(l, st, xs[0]), xs[1..])
  }

  // ------------------------------------------------------------------------------------------
  // Pairing
  // ------------------------------------------------------------------------------------------

  /** A list of the episode: it opens with the episode's own two messages. */
  predicate Opened(opening: Messages, ms: Messages) {
    Opens(ms) && ms[..2] == opening
  }

  predicate Sendable(opening: Messages, ms: Messages) {
    Opened(opening, ms) && Paired(ms)
  }

  /** What holds of an episode throughout; `open` are the calls without a result so far. */
  predicate Sound(l: Limits, opening: Messages, st: State, open: seq<Call>) {
    && Opened(opening, st.messages) && Scan([], st.messages) == Some(open)
    && st.compactions <= l.maxCompactions
    && forall r | r in st.sent :: Sendable(opening, r)
  }

  /** Between two steps; once the episode is over its last batch may have open calls. */
  predicate Settled(l: Limits, opening: Messages, st: State) {
    && WellPaired(st.messages) && Sound(l, opening, st, Scan([], st.messages).value)
    && (!st.over ==> Scan([], st.messages) == Some([]) && forall r | r in st.sent :: AllAnswered(r))
  }

  /** A list and a message that belongs behind it. */
  lemma OneMore(opening: Messages, ms: Messages, m: Message)
    requires Opened(opening, ms) && WellPaired(ms) && Transcript.Step(Scan([], ms).value, m).Some?
    ensures Opened(opening, ms + [m]) && Scan([], ms + [m]) == Transcript.Step(Scan([], ms).value, m)
  {
    var open := Scan([], ms).value;
    ScanJoins([], ms, [m]);
    assert Scan(open, [m]) == Transcript.Step(open, m);
  }

  lemma NotedIsSound(opening: Messages, ms: Messages, text: Option<string>)
    requires Opened(opening, ms) && Scan([], ms) == Some([])
    ensures Opened(opening, Noted(ms, text)) && Scan([], Noted(ms, text)) == Some([])
  {
    if text.Some? { OneMore(opening, ms, System(text.value)); }
  }

  /** A compaction is counted, and the request is smaller for it. */
  lemma ShrunkIsSound(l: Limits, opening: Messages, st: State, due: bool)
    requires Settled(l, opening, st) && !st.over
    ensures Settled(l, opening, Shrunk(l, st, due))
    ensures var r := Shrunk(l, st, due);
            r == st || (r.compactions == st.compactions + 1 && l.size(r.messages) < l.size(st.messages))
  {
    CompactKeepsPairing(st.messages, l.keepMessages, l.size);
  }

  /** A request and an instruction put behind it, which answers nothing. */
  lemma InstructionAnswersNothing(opening: Messages, ms: Messages, text: string)
    requires Sendable(opening, ms)
    ensures Sendable(opening, ms + [System(text)])
    ensures AllAnswered(ms + [System(text)]) <==> AllAnswered(ms)
  {
    var longer := ms + [System(text)];
    PairedWithInstruction(ms, text);
    assert longer[..2] == ms[..2];
    assert forall j: nat, c: nat | j < |ms| && ms[j].Assistant? && c < |ms[j].calls| ::
        longer[j] == ms[j] && (Answered(longer, j, c) <==> Answered(ms, j, c));
  }

  lemma CorrectedIsPaired(opening: Messages, base: Messages, corrections: Corrections)
    requires Sendable(opening, base)
    ensures forall r | r in Corrected(base, corrections) ::
              Sendable(opening, r) && (AllAnswered(r) <==> AllAnswered(base))
    ensures |Corrected(base, corrections)| == if |corrections| < 3 then |corrections| else 3
    ensures forall k | 0 <= k < |corrections| && k < 3 :: Corrected(base, corrections)[k] == base + [System(corrections[k])]
  {
    forall r | r in Corrected(base, corrections)
      ensures Sendable(opening, r) && (AllAnswered(r) <==> AllAnswered(base))
    {
      var k :| 0 <= k < |Corrected(base, corrections)| && Corrected(base, corrections)[k] == r;
      InstructionAnswersNothing(opening, base, corrections[k]);
    }
  }

  /** Every closing request and every correction of it is paired, even in the middle of a batch; all
      its calls are answered exactly when the list held has no open one. */
  lemma ClosingIsPaired(l: Limits, opening: Messages, ms: Messages, corrections: Corrections)
    requires Opened(opening, ms) && WellPaired(ms)
    ensures forall r | r in Closing(l, ms, corrections) ::
              Sendable(opening, r) && (AllAnswered(r) <==> Scan([], ms) == Some([]))
    ensures Readable(Closing(l, ms, corrections)[0])
  {
    var cut := FinishCut(ms, l.keepMessages);
    FinishCutKeepsPairing(ms, l.keepMessages);
    WellPairedIsPaired(cut);
    AnsweredIffClosed(cut);
    if |ms| == 2 {
      OpeningIsClosed(ms);
      assert ms == Head(ms) == cut;
    }
    assert (cut + [System(FINISH_NOTE)])[..|cut|] == cut;
    InstructionAnswersNothing(opening, cut, FINISH_NOTE);
    CorrectedIsPaired(opening, cut + [System(FINISH_NOTE)], corrections);
  }

  lemma GuardedIsSound(l: Limits, opening: Messages, st: State, open: seq<Call>, guard: Guard)
    requires Sound(l, opening, st, open)
    ensures Sound(l, opening, Guarded(l, st, guard), open)
  {
    if guard.Close? { ClosingIsPaired(l, opening, st.messages, guard.corrections); }
  }

  lemma {:induction false} BatchIsSound(l: Limits, opening: Messages, st: State, calls: seq<Call>, ends: nat -> CallEnd, k: nat)
    requires k <= |calls| && Sound(l, opening, st, calls[k..])
    requires !st.over ==> forall r | r in st.sent :: AllAnswered(r)
    ensures Settled(l, opening, Batch(l, st, calls, ends, k))
    decreases |calls| - k
  {
    if st.over {
    } else if k == |calls| {
      assert calls[k..] == [];
    } else {
      match ends(k) {
        case CannotRun =>
        case Result(content, closing) =>
          var m := Tool(calls[k].id, content);
          OneMore(opening, st.messages, m);
          assert calls[k..][1..] == calls[k + 1..];
          var longer := st.(messages := st.messages + [m]);
          GuardedIsSound(l, opening, longer, calls[k + 1..], closing);
          BatchIsSound(l, opening, Guarded(l, longer, closing), calls, ends, k + 1);
      }
    }
  }

  lemma TookIsSound(l: Limits, opening: Messages, st: State, turn: Turn)
    requires Settled(l, opening, st) && !st.over
    ensures Settled(l, opening, Took(l, st, turn))
  {
    WellPairedIsPaired(st.messages);
    AnsweredIffClosed(st.messages);
    var asked := st.(sent := st.sent + [st.messages]);
    assert Settled(l, opening, asked);
    match turn {
      case Failed =>
      case Repeated(corrections) =>
        GuardedIsSound(l, opening, asked, [], Close(corrections));
      case Said(text, calls, ends, replies) =>
        var m := Assistant(text, calls);
        OneMore(opening, st.messages, m);
        var said := asked.(messages := st.messages + [m]);
        if calls == [] {
          WellPairedIsPaired(said.messages);
          CorrectedIsPaired(opening, said.messages, replies);
        } else {
          assert calls[0..] == calls;
          BatchIsSound(l, opening, said, calls, ends, 0);
        }
    }
  }

  lemma AskedIsSound(l: Limits, opening: Messages, st: State, x: Input)
    requires Settled(l, opening, st) && !st.over
    ensures Settled(l, opening, Asked(l, st, x))
  {
    NotedIsSound(opening, st.messages, x.warning);
    NotedIsSound(opening, Noted(st.messages, x.warning), x.critical);
    NotedIsSound(opening, Noted(Noted(st.messages, x.warning), x.critical), x.timeWarning);
    var warned := st.(messages := Noted(Noted(Noted(st.messages, x.warning), x.critical), x.timeWarning));
    ShrunkIsSound(l, opening, warned, x.dueAgain);
    GuardedIsSound(l, opening, warned, [], x.contextAgain);
    if !Guarded(l, warned, x.contextAgain).over { TookIsSound(l, opening, warned, x.turn); }
  }

  lemma StepIsSound(l: Limits, opening: Messages, st: State, x: Input)
    requires Settled(l, opening, st) && !st.over
    ensures Settled(l, opening, Stepped(l, st, x))
  {
    NotedIsSound(opening, st.messages, x.delivery);
    var noted := st.(messages := Noted(st.messages, x.delivery));
    GuardedIsSound(l, opening, noted, [], x.time);
    if !Guarded(l, noted, x.time).over {
      ShrunkIsSound(l, opening, noted, x.due);
      GuardedIsSound(l, opening, noted, [], x.context);
      if !Guarded(l, noted, x.context).over { AskedIsSound(l, opening, noted, x); }
    }
  }

  /** Through every warning, delivery, compaction, batch, ending and repair, the list keeps its
      opening two messages and each result behind its own call, and so does every list sent; until
      the episode is over, every call in them is answered. */
  lemma {:induction false} RunKeepsPairing(l: Limits, opening: Messages, st: State, xs: seq<Input>)
    requires Settled(l, opening, st)
    ensures Settled(l, opening, Ran(l, st, xs))
    decreases |xs|
  {
    if xs == [] || st.over {
    } else {
      StepIsSound(l, opening, st, xs[0]);
      RunKeepsPairing(l, opening, Stepped(l, st, xs[0]), xs[1..]);
    }
  }

  // ------------------------------------------------------------------------------------------
  // What is asked, and what is kept
  // ------------------------------------------------------------------------------------------

  lemma {:induction false} BatchAppends(l: Limits, st: State, calls: seq<Call>, ends: nat -> CallEnd, k: nat)
    requires k <= |calls| && !st.over
    ensures var r := Batch(l, st, calls, ends, k);
            && r.compactions == st.compactions && st.messages <= r.messages && st.sent <= r.sent
            && |r.sent| <= |st.sent| + 1 + MAX_MODEL_REASKS
            && (!r.over ==> r.sent == st.sent && |r.messages| == |st.messages| + |calls| - k)
            && (!r.over ==> forall i | k <= i < |calls| ::
                  ends(i).Result? && r.messages[|st.messages| + i - k] == Tool(calls[i].id, ends(i).content))
    decreases |calls| - k
  {
    if k == |calls| {
    } else {
      match ends(k) {
        case CannotRun =>
        case Result(content, closing) =>
          var longer := st.(messages := st.messages + [Tool(calls[k].id, content)]);
          if closing.Pass? {
            BatchAppends(l, longer, calls, ends, k + 1);
          }
      }
    }
  }

  /** A turn that does not end the episode was asked for with the list as it stood, and adds itself
      and the results of its calls, one each and in order. */
  lemma TurnAppends(l: Limits, st: State, turn: Turn)
    requires !st.over
    ensures var r := Took(l, st, turn);
            && r.compactions == st.compactions && st.messages <= r.messages
            && st.sent + [st.messages] <= r.sent && |r.sent| <= |st.sent| + 2 + MAX_MODEL_REASKS
            && (!r.over ==>
                  && turn.Said? && turn.calls != [] && r.sent == st.sent + [st.messages]
                  && st.messages + [Assistant(turn.text, turn.calls)] <= r.messages
                  && |r.messages| == |st.messages| + 1 + |turn.calls|
                  && forall i: nat | i < |turn.calls| ::
                       turn.ends(i).Result? && r.messages[|st.messages| + 1 + i] == Tool(turn.calls[i].id, turn.ends(i).content))
  {
    if turn.Said? && turn.calls != [] {
      var said := st.(sent := st.sent + [st.messages], messages := st.messages + [Assistant(turn.text, turn.calls)]);
      BatchAppends(l, said, turn.calls, turn.ends, 0);
    }
  }

  /** Since then there was at most one compaction, which ends nothing and asks nothing; without one all
      that was held stays, and the model is asked once if that did not end the episode. */
  predicate AskedOnce(st: State, r: State) {
    && st.compactions <= r.compactions <= st.compactions + 1
    && st.sent <= r.sent && |r.sent| <= |st.sent| + 2 + MAX_MODEL_REASKS
    && (if r.compactions == st.compactions then st.messages <= r.messages else !r.over && r.sent == st.sent)
    && (!r.over ==> |r.sent| + r.compactions == |st.sent| + st.compactions + 1)
  }

  /** Before the turn: only notes were added. */
  predicate Longer(st: State, now: State) {
    !now.over && now.sent == st.sent && now.compactions == st.compactions && st.messages <= now.messages
  }

  lemma LongerAsks(st: State, now: State, r: State)
    requires Longer(st, now) && AskedOnce(now, r)
    ensures AskedOnce(st, r)
  {
  }

  lemma GuardAsks(l: Limits, st: State, guard: Guard)
    requires !st.over && guard != Pass
    ensures AskedOnce(st, Guarded(l, st, guard))
  {
  }

  lemma ShrinkAsks(l: Limits, st: State, due: bool)
    requires !st.over && Shrunk(l, st, due) != st
    ensures AskedOnce(st, Shrunk(l, st, due))
  {
  }

  lemma AskedAsks(l: Limits, st: State, x: Input)
    requires !st.over
    ensures AskedOnce(st, Asked(l, st, x))
  {
    var warned := st.(messages := Noted(Noted(Noted(st.messages, x.warning), x.critical), x.timeWarning));
    assert Longer(st, warned);
    if Shrunk(l, warned, x.dueAgain) != warned {
      ShrinkAsks(l, warned, x.dueAgain);
    } else if x.contextAgain != Pass {
      GuardAsks(l, warned, x.contextAgain);
    } else {
      TurnAppends(l, warned, x.turn);
    }
    LongerAsks(st, warned, Asked(l, st, x));
  }

  /** A step that does not end the episode either compacts, or keeps all it held and asks once. */
  lemma StepAsks(l: Limits, st: State, x: Input)
    requires !st.over
    ensures AskedOnce(st, Stepped(l, st, x))
  {
    var noted := st.(messages := Noted(st.messages, x.delivery));
    assert Longer(st, noted);
    if x.time != Pass {
      GuardAsks(l, noted, x.time);
    } else if Shrunk(l, noted, x.due) != noted {
      ShrinkAsks(l, noted, x.due);
    } else if x.context != Pass {
      GuardAsks(l, noted, x.context);
    } else {
      AskedAsks(l, noted, x);
    }
    LongerAsks(st, noted, Stepped(l, st, x));
  }

  /** Over a whole run: as long as it is not over, every step but the compactions asked the model
      once; ending costs at most the closing request and its corrections more; and what was held
      stays, in its order, unless there was a compaction. */
  lemma {:induction false} RunAsks(l: Limits, st: State, xs: seq<Input>)
    ensures var r := Ran(l, st, xs);
            && st.compactions <= r.compactions && st.sent <= r.sent
            && (r.compactions == st.compactions ==> st.messages <= r.messages)
            && (!r.over ==> |r.sent| + r.compactions == |st.sent| + st.compactions + |xs|)
            && |r.sent| + r.compactions <= |st.sent| + st.compactions + |xs| + 1 + MAX_MODEL_REASKS
    decreases |xs|
  {
    if xs == [] || st.over {
    } else {
      StepAsks(l, st, xs[0]);
      RunAsks(l, Stepped(l, st, xs[0]), xs[1..]);
    }
  }

  // ------------------------------------------------------------------------------------------
  // Which way a step goes
  // ------------------------------------------------------------------------------------------

  function Note(text: Option<string>): Messages {
    match text
    case None => []
    case Some(t) => [System(t)]
  }

  function Warnings(x: Input): Messages {
    Note(x.warning) + Note(x.critical) + Note(x.timeWarning)
  }

  function Results(turn: Turn): Messages
    requires turn.Said? && forall i: nat | i < |turn.calls| :: turn.ends(i).Result?
  {
    seq(|turn.calls|, i requires 0 <= i < |turn.calls| => Tool(turn.calls[i].id, turn.ends(i).content))
  }

  /** The list is compacted if it is asked for, a compaction is left, and it changes anything. */
  predicate Shrinks(l: Limits, ms: Messages, compactions: nat, due: bool) {
    due && compactions < l.maxCompactions && Compact(ms, l.keepMessages, l.size) != ms
  }

  /** The model calls tools, every call is run, and nothing closes the episode behind any of them. */
  predicate Works(turn: Turn) {
    turn.Said? && turn.calls != [] && forall i: nat | i < |turn.calls| :: turn.ends(i).Result? && turn.ends(i).closing == Pass
  }

  lemma {:induction false} BatchWorksIff(l: Limits, st: State, calls: seq<Call>, ends: nat -> CallEnd, k: nat)
    requires k <= |calls| && !st.over
    ensures !Batch(l, st, calls, ends, k).over
            <==> forall i: nat | k <= i < |calls| :: ends(i).Result? && ends(i).closing == Pass
    decreases |calls| - k
  {
    if k < |calls| && ends(k).Result? && ends(k).closing == Pass {
      BatchWorksIff(l, st.(messages := st.messages + [Tool(calls[k].id, ends(k).content)]), calls, ends, k + 1);
    }
  }

  /** Exactly a turn that works lets the episode go on, and this is what is held after it. */
  lemma TurnWorksIff(l: Limits, st: State, turn: Turn)
    requires !st.over
    ensures !Took(l, st, turn).over <==> Works(turn)
    ensures Works(turn) ==>
              Took(l, st, turn) == State(st.messages + [Assistant(turn.text, turn.calls)] + Results(turn), st.compactions,
                                         st.sent + [st.messages], false)
  {
    TurnAppends(l, st, turn);
    if turn.Said? && turn.calls != [] {
      var said := st.(sent := st.sent + [st.messages], messages := st.messages + [Assistant(turn.text, turn.calls)]);
      BatchWorksIff(l, said, turn.calls, turn.ends, 0);
      if Works(turn) {
        assert Took(l, st, turn).messages == st.messages + [Assistant(turn.text, turn.calls)] + Results(turn);
      }
    }
  }

  /** A step that neither ends nor compacts: every budget has room twice, nothing is compacted, and
      the turn works. It adds the delivery, the warnings, the turn and its results, and asks with the
      list as it is before the turn. */
  lemma StepGoesOnIff(l: Limits, st: State, x: Input)
    requires !st.over
    ensures var r, told := Stepped(l, st, x), st.messages + Note(x.delivery);
            var asked := told + Warnings(x);
            && (!r.over && r.compactions == st.compactions <==>
                  && x.time == x.context == x.contextAgain == Pass && Works(x.turn)
                  && !Shrinks(l, told, st.compactions, x.due) && !Shrinks(l, asked, st.compactions, x.dueAgain))
            && (!r.over && r.compactions == st.compactions ==>
                  && r.messages == asked + [Assistant(x.turn.text, x.turn.calls)] + Results(x.turn)
                  && r.sent == st.sent + [asked])
  {
    var told := st.messages + Note(x.delivery);
    var asked := told + Warnings(x);
    assert Noted(st.messages, x.delivery) == told;
    assert Noted(Noted(Noted(told, x.warning), x.critical), x.timeWarning) == asked;
    TurnWorksIff(l, st.(messages := asked), x.turn);
    TurnAppends(l, st.(messages := asked), x.turn);
  }

  /** A step compacts before its warnings or after them, and then does nothing else. */
  lemma StepCompactsIff(l: Limits, st: State, x: Input)
    requires !st.over
    ensures var r, told := Stepped(l, st, x), st.messages + Note(x.delivery);
            var asked := told + Warnings(x);
            var first, second := Shrinks(l, told, st.compactions, x.due), Shrinks(l, asked, st.compactions, x.dueAgain);
            && (r.compactions > st.compactions <==> x.time == Pass && (first || (x.context == Pass && second)))
            && (r.compactions > st.compactions ==>
                  r == State(Compact(if first then told else asked, l.keepMessages, l.size), st.compactions + 1, st.sent, false))
  {
    var told := st.messages + Note(x.delivery);
    var asked := told + Warnings(x);
    assert Noted(st.messages, x.delivery) == told;
    assert Noted(Noted(Noted(told, x.warning), x.critical), x.timeWarning) == asked;
    TurnAppends(l, st.(messages := asked), x.turn);
  }

  /** What a budget without room sends for the list held then. */
  function Last(l: Limits, ms: Messages, guard: Guard): seq<Messages> {
    match guard
    case Close(corrections) => Closing(l, ms, corrections)
    case _ => []
  }

  /** The n-th call ends the episode: the calls up to it have their results, itself only if it was
      run, and what closes is the list with just these. */
  lemma {:induction false} BatchEnds(l: Limits, st: State, calls: seq<Call>, ends: nat -> CallEnd, k: nat, n: nat)
    requires k <= n < |calls| && !st.over && (ends(n).CannotRun? || ends(n).closing != Pass)
    requires forall i | k <= i < n :: ends(i).Result? && ends(i).closing == Pass
    ensures var r := Batch(l, st, calls, ends, k);
            var done := if ends(n).Result? then n + 1 else n;
            && r.over && st.messages <= r.messages && |r.messages| == |st.messages| + done - k
            && (forall i | k <= i < done :: r.messages[|st.messages| + i - k] == Tool(calls[i].id, ends(i).content))
            && r.sent == st.sent + if ends(n).Result? then Last(l, r.messages, ends(n).closing) else []
    decreases n - k
  {
    if k < n {
      BatchEnds(l, st.(messages := st.messages + [Tool(calls[k].id, ends(k).content)]), calls, ends, k + 1, n);
    }
  }

  /** How a step ends the episode: at a budget, with the list as it is there; or with the turn, which
      was asked for. What is sent last is always a cut of the list as it stays, or the list itself. */
  lemma StepEnds(l: Limits, st: State, x: Input)
    requires !st.over && Stepped(l, st, x).over
    ensures var r, told := Stepped(l, st, x), st.messages + Note(x.delivery);
            var asked := told + Warnings(x);
            if x.time != Pass then r.messages == told && r.sent == st.sent + Last(l, told, x.time)
            else if x.context != Pass then r.messages == told && r.sent == st.sent + Last(l, told, x.context)
            else if x.contextAgain != Pass then r.messages == asked && r.sent == st.sent + Last(l, asked, x.contextAgain)
            else
              match x.turn
              case Failed => r.messages == asked && r.sent == st.sent + [asked]
              case Repeated(c) => r.messages == asked && r.sent == st.sent + [asked] + Closing(l, asked, c)
              case Said(text, calls, ends, replies) =>
                if calls == [] then
                  r.messages == asked + [Assistant(text, [])] && r.sent == st.sent + [asked] + Corrected(r.messages, replies)
                else
                  asked + [Assistant(text, calls)] <= r.messages && st.sent + [asked] <= r.sent
  {
    var told := st.messages + Note(x.delivery);
    var asked := told + Warnings(x);
    assert Noted(st.messages, x.delivery) == told;
    assert Noted(Noted(Noted(told, x.warning), x.critical), x.timeWarning) == asked;
    if x.turn.Said? && x.turn.calls != [] {
      var said := st.(sent := st.sent + [asked], messages := asked + [Assistant(x.turn.text, x.turn.calls)]);
      BatchAppends(l, said, x.turn.calls, x.turn.ends, 0);
    }
  }

  // ------------------------------------------------------------------------------------------
  // The runner
  // ------------------------------------------------------------------------------------------

  class Episode {
    const keepMessages: int
    const maxCompactions: nat
    const size: Messages -> nat
    var messages: Messages
    var compactions: nat
    /** Every list sent to the model. */
    ghost var sent: seq<Messages>

    ghost function Config(): Limits {
      Limits(keepMessages, maxCompactions, size)
    }

    ghost function Now(over: bool): State
      reads this
    {
      State(messages, compactions, sent, over)
    }

    constructor (system: string, user: string, keepMessages: int, maxCompactions: nat, size: Messages -> nat)
      ensures Config() == Limits(keepMessages, maxCompactions, size)
      ensures Now(false) == State([System(system), User(user)], 0, [], false)
      ensures Settled(Config(), messages, Now(false))
    {
      this.keepMessages, this.maxCompactions, this.size := keepMessages, maxCompactions, size;
      messages := [System(system), User(user)];
      compactions, sent := 0, [];
      new;
      OpeningIsClosed(messages);
      assert Head(messages) == messages;
    }

    method Send(request: Messages)
      modifies this`sent
      ensures sent == old(sent) + [request]
    {
      sent := sent + [request];
    }

    method Append(m: Message)
      modifies this`messages
      ensures messages == old(messages) + [m]
    {
      messages := messages + [m];
    }

    /** `_deliver_new_inbox` and the context and time warnings: a system message between steps. */
    method Notify(text: Option<string>)
      modifies this`messages
      ensures messages == Noted(old(messages), text)
    {
      if text.Some? { Append(System(text.value)); }
    }

    /** Whether the list was compacted; at most `maxCompactions` times. */
    method MaybeCompact(due: bool) returns (compacted: bool)
      modifies this`messages, this`compactions
      ensures Now(false) == Shrunk(Config(), old(Now(false)), due)
      ensures compacted <==> Now(false) != old(Now(false))
    {
      if !due || compactions >= maxCompactions { return false; }
      var r := Compact(messages, keepMessages, size);
      if r == messages { return false; }
      messages := r;
      compactions := compactions + 1;
      return true;
    }

    /** `_repair_finish_report`: while the closing reply cannot be read, what was sent goes out
        again with a corrective instruction, a bounded number of times. */
    method Repair(base: Messages, corrections: Corrections)
      modifies this`sent
      ensures sent == old(sent) + Corrected(base, corrections)
    {
      if corrections == [] { return; }
      var attempt := 1;
      while attempt <= MAX_MODEL_REASKS
        invariant 1 <= attempt <= MAX_MODEL_REASKS + 1 && attempt <= |corrections| + 1
        invariant attempt == |corrections| + 1 ==> attempt == MAX_MODEL_REASKS + 1
        invariant sent == old(sent) + Corrected(base, corrections)[..attempt - 1]
      {
        Send(base + [System(corrections[attempt - 1])]);
        if attempt == |corrections| { return; }
        attempt := attempt + 1;
      }
    }

    /** `_finish`: the cut that is sent with the closing instruction, and again if the reply needs
        repair; the list itself stays. */
    method Finish(corrections: Corrections)
      modifies this`sent
      ensures sent == old(sent) + Closing(Config(), messages, corrections)
    {
      var cut := FinishCut(messages, keepMessages) + [System(FINISH_NOTE)];
      Send(cut);
      Repair(cut, corrections);
    }

    /** Whether the episode ends here; if it closes, with its closing request. */
    method Check(guard: Guard) returns (over: bool)
      modifies this`sent
      ensures Now(over) == Guarded(Config(), old(Now(false)), guard)
    {
      if guard.Close? { Finish(guard.corrections); }
      over := !guard.Pass?;
    }

    /** The results of one batch, call by call. */
    method RunBatch(calls: seq<Call>, ends: nat -> CallEnd) returns (over: bool)
      modifies this`messages, this`sent
      ensures Now(over) == Batch(Config(), old(Now(false)), calls, ends, 0)
    {
      var k := 0;
      while k < |calls|
        invariant 0 <= k <= |calls|
        invariant Batch(Config(), Now(false), calls, ends, k) == Batch(Config(), old(Now(false)), calls, ends, 0)
      {
        match ends(k) {
          case CannotRun => return true;
          case Result(content, closing) =>
            Append(Tool(calls[k].id, content));
            over := Check(closing);
            if over { return; }
        }
        k := k + 1;
      }
      over := false;
    }

    /** The model's turn and its tool calls. */
    method Take(turn: Turn) returns (over: bool)
      modifies this`messages, this`sent
      ensures Now(over) == Took(Config(), old(Now(false)), turn)
    {
      Send(messages);
      match turn {
        case Failed => return true;
        case Repeated(corrections) =>
          Finish(corrections);
          return true;
        case Said(text, calls, ends, replies) =>
          Append(Assistant(text, calls));
          if calls == [] {
            Repair(messages, replies);
            return true;
          }
          over := RunBatch(calls, ends);
      }
    }

    /** One turn of the step loop. */
    method Step(x: Input) returns (over: bool)
      modifies this`messages, this`compactions, this`sent
      ensures Now(over) == Stepped(Config(), old(Now(false)), x)
    {
      Notify(x.delivery);
      over := Check(x.time);
      if over { return; }
      var compacted := MaybeCompact(x.due);
      if compacted { return; }
      over := Check(x.context);
      if over { return; }
      over := Ask(x);
    }

    method Ask(x: Input) returns (over: bool)
      modifies this`messages, this`compactions, this`sent
      ensures Now(over) == Asked(Config(), old(Now(false)), x)
    {
      Notify(x.warning);
      Notify(x.critical);
      Notify(x.timeWarning);
      var compacted := MaybeCompact(x.dueAgain);
      if compacted { return false; }
      over := Check(x.contextAgain);
      if over { return; }
      over := Take(x.turn);
    }

    /** The step loop, one input for each step the budget allows. */
    method Run(xs: seq<Input>) returns (over: bool)
      modifies this`messages, this`compactions, this`sent
      ensures Now(over) == Ran(Config(), old(Now(false)), xs)
    {
      for step := 0 to |xs|
        invariant Ran(Config(), Now(false), xs[step..]) == Ran(Config(), old(Now(false)), xs)
      {
        over := Step(xs[step]);
        assert xs[step..][1..] == xs[step + 1..];
        if over { return; }
      }
      over := false;
    }
  }
}
