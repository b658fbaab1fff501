/** What the audit log of `AuditLog` keeps over every run of its writer, and what a rewrite of
    the log and the checkpoint cannot get past its verifier. */
module AuditLogProofs {
  import opened Options
  import opened AuditLog

  // ------------------------------------------------------------------------------------------
  // Honest runs
  // ------------------------------------------------------------------------------------------

  /** How many lines a run has logged, and the highest it has anchored and pointed to. */
  datatype Progress = Progress(logged: nat, anchored: nat, pointed: nat)

  function Advance(p: Progress, kill: Kill): Progress {
    var n := p.logged + 1;
    match kill
    case BeforeLog => p
    case AfterLog => Progress(n, p.anchored, p.pointed)
    case AfterAnchor => Progress(n, n, p.pointed)
    case Never => Progress(n, n, n)
  }

  function ProgressOf(calls: seq<Call>): Progress {
    if calls == [] then Progress(0, 0, 0)
    else Advance(ProgressOf(calls[..|calls| - 1]), calls[|calls| - 1].kill)
  }

  ghost predicate UnderCaps(c: Codec, f: Files) {
    Bytes(c, f.log) <= MAX_LOG_BYTES && Bytes(c, f.anchors) <= MAX_ANCHOR_BYTES
  }

  /** The files these calls leave behind are within the caps. */
  ghost predicate RunFits(c: Codec, calls: seq<Call>) {
    UnderCaps(c, Run(c, EMPTY, calls))
  }

  /** Line k + 1 carries sequence k + 1, the hash of line k, and no mark of a break. */
  ghost predicate HonestLine(c: Codec, log: seq<Line>, k: nat)
    requires k < |log|
  {
    c.parse(log[k]) == Object(Integer(k + 1), Some(PreviousHash(c, log[..k])), None, None)
  }

  /** Every anchor names a logged line by its hash, and the highest names line `highest`. */
  ghost predicate HonestAnchors(m: map<int, string>, c: Codec, log: seq<Line>, highest: nat) {
    && highest <= |log|
    && (forall k | k in m :: 1 <= k <= highest && m[k] == c.digest(log[k - 1]))
    && (highest > 0 ==> highest in m)
  }

  ghost predicate Honest(c: Codec, f: Files, p: Progress) {
    && p.pointed <= p.anchored <= p.logged == |f.log|
    && (forall k: nat | k < |f.log| :: HonestLine(c, f.log, k))
    && HonestAnchors(AnchorMap(c, f.anchors), c, f.log, p.anchored)
    && f.checkpoint == (if p.pointed == 0 then None
                        else Some(Checkpoint(Integer(p.pointed), Some(c.digest(f.log[p.pointed - 1])))))
  }

  lemma {:induction false} NoBreakIff(c: Codec, lines: seq<Line>, k: nat)
    requires k <= |lines|
    ensures FirstBreak(c, lines, k).None? <==> forall i: nat | k <= i < |lines| :: Links(c, lines, i)
    decreases |lines| - k
  {
    if k >= |lines| {
    } else {
      NoBreakIff(c, lines, k + 1);
    }
  }

  lemma BytesGrow(c: Codec, lines: seq<Line>, line: Line)
    ensures Bytes(c, lines) < Bytes(c, lines + [line])
  {
    assert (lines + [line])[..|lines|] == lines;
  }

  lemma AnchorMapGrows(c: Codec, anchors: seq<Line>, s: nat, h: string, t: Meta)
    requires c.Sound()
    ensures AnchorMap(c, anchors + [c.renderAnchor(s, h, t)]) == AnchorMap(c, anchors)[s := h]
  {
    assert (anchors + [c.renderAnchor(s, h, t)])[..|anchors|] == anchors;
  }

  lemma HonestLineGrows(c: Codec, log: seq<Line>, meta: Meta)
    requires c.Sound()
    requires forall k: nat | k < |log| :: HonestLine(c, log, k)
    ensures var log' := log + [c.render(Record(|log| + 1, PreviousHash(c, log), None, meta))];
            forall k: nat | k < |log'| :: HonestLine(c, log', k)
  {
    var log' := log + [c.render(Record(|log| + 1, PreviousHash(c, log), None, meta))];
    forall k: nat | k < |log'| ensures HonestLine(c, log', k) {
      assert log'[..k] == log[..k];
      if k < |log| {
        assert HonestLine(c, log, k);
      } else {
        assert log[..k] == log;
      }
    }
  }

  lemma HonestLogHasNoBreak(c: Codec, log: seq<Line>)
    requires forall k: nat | k < |log| :: HonestLine(c, log, k)
    ensures FirstBreak(c, log).None?
  {
    NoBreakIff(c, log, 0);
    forall k: nat | k < |log| ensures Links(c, log, k) {
      assert HonestLine(c, log, k);
    }
  }

  lemma NextHonestRecord(c: Codec, f: Files, p: Progress, meta: Meta)
    requires Honest(c, f, p) && Bytes(c, f.log) <= MAX_LOG_BYTES
    ensures NextRecord(c, f, meta) == Record(|f.log| + 1, PreviousHash(c, f.log), None, meta)
  {
    HonestLogHasNoBreak(c, f.log);
  }

  lemma HonestAnchorsGrow(m: map<int, string>, c: Codec, log: seq<Line>, line: Line, highest: nat)
    requires HonestAnchors(m, c, log, highest)
    ensures HonestAnchors(m, c, log + [line], highest)
    ensures HonestAnchors(m[|log| + 1 := c.digest(line)], c, log + [line], |log| + 1)
  {
  }

  lemma HonestStep(c: Codec, f: Files, p: Progress, call: Call)
    requires c.Sound() && Honest(c, f, p) && Bytes(c, f.log) <= MAX_LOG_BYTES
    ensures Honest(c, Checkpointed(c, f, call), Advance(p, call.kill))
  {
    NextHonestRecord(c, f, p, call.meta);
    var record := NextRecord(c, f, call.meta);
    var line := c.render(record);
    HonestLineGrows(c, f.log, call.meta);
    HonestAnchorsGrow(AnchorMap(c, f.anchors), c, f.log, line, p.anchored);
    match call.kill {
      case BeforeLog =>
      case AfterLog =>
      case AfterAnchor =>
        AnchorMapGrows(c, f.anchors, record.sequence, c.digest(line), call.at);
      case Never =>
        AnchorMapGrows(c, f.anchors, record.sequence, c.digest(line), call.at);
    }
  }

  /** The file sizes only grow, so a run that ends under the caps was under them throughout. */
  lemma CapsHeldBefore(c: Codec, f: Files, call: Call)
    requires UnderCaps(c, Checkpointed(c, f, call))
    ensures UnderCaps(c, f)
  {
    var f' := Checkpointed(c, f, call);
    if f'.log != f.log { BytesGrow(c, f.log, f'.log[|f.log|]); }
    if f'.anchors != f.anchors { BytesGrow(c, f.anchors, f'.anchors[|f.anchors|]); }
  }

  /** Every run of the writer, whatever its kills, leaves a chained log, anchors that name
      logged lines, and a checkpoint that names the line the last unkilled call wrote. */
  lemma {:induction false} EveryRunIsHonest(c: Codec, calls: seq<Call>)
    requires c.Sound() && RunFits(c, calls)
    ensures Honest(c, Run(c, EMPTY, calls), ProgressOf(calls))
  {
    if calls == [] {
      assert AnchorMap(c, EMPTY.anchors) == map[];
    } else {
      var before := calls[..|calls| - 1];
      CapsHeldBefore(c, Run(c, EMPTY, before), calls[|calls| - 1]);
      EveryRunIsHonest(c, before);
      HonestStep(c, Run(c, EMPTY, before), ProgressOf(before), calls[|calls| - 1]);
    }
  }

  /** The verdict on an honest state: a rollback exactly when a checkpoint exists and an anchor
      has got ahead of it, and clean otherwise. */
  lemma HonestVerdict(c: Codec, f: Files, p: Progress)
    requires Honest(c, f, p) && UnderCaps(c, f)
    ensures Verify(c, f) == if 0 < p.pointed < p.anchored then Broken(p.logged, p.anchored, CheckpointRolledBack)
                            else Clean(p.logged)
  {
    HonestLogHasNoBreak(c, f.log);
    var anchored := AnchorMap(c, f.anchors);
    if anchored != map[] {
      assert Greatest(anchored.Keys) == p.anchored;
      assert Failing(c, anchored, f.log) == {};
    } else {
      assert p.anchored == 0;
    }
  }

  /** After any run under the caps `verify_chain` answers ok, with one exception: a call killed
      between its anchor and its checkpoint, with a checkpoint from an earlier call on disk and
      no unkilled call since, is reported as a rollback at the highest anchored line. */
  lemma {:induction false} RunVerdict(c: Codec, calls: seq<Call>)
    requires c.Sound() && RunFits(c, calls)
    ensures var p := ProgressOf(calls);
            Verify(c, Run(c, EMPTY, calls)) ==
              if 0 < p.pointed < p.anchored then Broken(p.logged, p.anchored, CheckpointRolledBack) else Clean(p.logged)
  {
    EveryRunIsHonest(c, calls);
    HonestVerdict(c, Run(c, EMPTY, calls), ProgressOf(calls));
  }

  /** The exception in terms of the calls alone: call i wrote the checkpoint, and a later call j
      was killed after its anchor, with no checkpoint written since. */
  ghost predicate LeftBehindAt(calls: seq<Call>, i: nat, j: nat) {
    && i < j < |calls|
    && calls[i].kill == Never
    && calls[j].kill == AfterAnchor
    && forall k | j < k < |calls| :: calls[k].kill != Never
  }

  lemma LeftBehindGrows(before: seq<Call>, last: Call, i: nat, j: nat)
    requires j < |before|
    ensures LeftBehindAt(before + [last], i, j) <==> LeftBehindAt(before, i, j) && last.kill != Never
  {
    var calls := before + [last];
    assert calls[|before|] == last;
    if last.kill != Never && LeftBehindAt(before, i, j) {
      assert forall k | j < k < |calls| :: calls[k].kill != Never;
    }
    if LeftBehindAt(calls, i, j) {
      assert forall k | j < k < |before| :: before[k] == calls[k];
    }
  }

  lemma {:induction false} PointedIff(calls: seq<Call>)
    ensures ProgressOf(calls).pointed > 0 <==> exists i :: 0 <= i < |calls| && calls[i].kill == Never
    ensures ProgressOf(calls).pointed <= ProgressOf(calls).anchored <= ProgressOf(calls).logged
  {
    if calls == [] {
    } else {
      var n := |calls| - 1;
      PointedIff(calls[..n]);
      assert forall i | 0 <= i < n :: calls[i] == calls[..n][i];
    }
  }

  lemma {:induction false} RolledBackIff(calls: seq<Call>)
    ensures 0 < ProgressOf(calls).pointed < ProgressOf(calls).anchored <==> exists i, j :: LeftBehindAt(calls, i, j)
  {
    if calls == [] {
    } else {
      var n := |calls| - 1;
      var before, last := calls[..n], calls[n];
      assert calls == before + [last];
      RolledBackIff(before);
      PointedIff(before);
      forall i: nat, j: nat | j < n ensures LeftBehindAt(calls, i, j) <==> LeftBehindAt(before, i, j) && last.kill != Never {
        LeftBehindGrows(before, last, i, j);
      }
      if last.kill == AfterAnchor && ProgressOf(before).pointed > 0 {
        var i: nat :| i < n && before[i].kill == Never;
        assert LeftBehindAt(calls, i, n);
      }
      assert forall i: nat, j: nat | LeftBehindAt(calls, i, j) && j == n :: last.kill == AfterAnchor && before[i].kill == Never;
    }
  }

  /** Past the log's byte cap the same honest log reads as empty. With a checkpoint on disk it is
      reported as broken at line 1 and the next line, which starts again at sequence 1, is marked;
      with anchors alone the report is the anchors'; with neither it is clean. */
  lemma OversizedLogReadsAsBroken(c: Codec, f: Files, p: Progress, meta: Meta)
    requires Honest(c, f, p) && Bytes(c, f.log) > MAX_LOG_BYTES
    ensures Verify(c, f) ==
      if p.pointed > 0 then Broken(0, 1, ShorterThanCheckpoint)
      else if p.anchored > 0 && Bytes(c, f.anchors) <= MAX_ANCHOR_BYTES then Broken(0, 1, AnchoredLineMissing)
      else Clean(0)
    ensures NextRecord(c, f, meta) == Record(1, GENESIS, if p.pointed > 0 then Some(1) else None, meta)
  {
    HonestLogHasNoBreak(c, []);
    var anchored := AnchorMap(c, f.anchors);
    if p.anchored > 0 {
      assert p.anchored in anchored;
    } else {
      assert forall k :: k !in anchored;
      assert anchored == map[];
    }
  }

  /** Past the anchors' byte cap the third check is gone: an honest state is always clean, and so
      is an emptied log without a checkpoint. */
  lemma OversizedAnchorsCheckNothing(c: Codec, f: Files, p: Progress)
    requires Honest(c, f, p) && Bytes(c, f.log) <= MAX_LOG_BYTES && Bytes(c, f.anchors) > MAX_ANCHOR_BYTES
    ensures Verify(c, f) == Clean(p.logged)
    ensures Verify(c, Files([], f.anchors, None)) == Clean(0)
  {
    HonestLogHasNoBreak(c, f.log);
    HonestLogHasNoBreak(c, []);
  }

  /** When `verify_chain` raises instead of answering: a checkpoint for sequence 0 with a hash
      beside a log without lines, or an anchor for a sequence so far below 1 that counting back
      from the end runs off the log. No run of the writer leaves either. */
  lemma VerifyRaisesIff(c: Codec, f: Files)
    ensures Verify(c, f) == IndexError <==>
      var lines, anchored := Lines(c, f.log), Anchored(c, f.anchors);
      && (forall k: nat | k < |lines| :: Links(c, lines, k))
      && (|| (lines == [] && f.checkpoint.Some? && f.checkpoint.value.sequence.Equals(0) && f.checkpoint.value.lineHash.Some?)
          || (CheckpointVerdict(c, f.checkpoint, lines).Clean? && RunsOff(anchored, |lines|)))
  {
    var lines, anchored := Lines(c, f.log), Anchored(c, f.anchors);
    NoBreakIff(c, lines, 0);
    if anchored != map[] && Greatest(anchored.Keys) <= |lines| {
      if RunsOff(anchored, |lines|) {
        var k :| k in anchored && k + |lines| <= 0;
        assert k in Failing(c, anchored, lines);
      }
    }
  }

  /** All anchors are within the log, and one lies before its start even counted from the end. */
  predicate RunsOff(anchored: map<int, string>, lines: nat) {
    (forall k | k in anchored :: k <= lines) && exists k :: k in anchored && k + lines <= 0
  }

  // ------------------------------------------------------------------------------------------
  // Rewrites
  // ------------------------------------------------------------------------------------------

  /** Two chains that agree in the hash of line m agree in every line before it. */
  lemma {:induction false} BackwardWalk(c: Codec, log: seq<Line>, log': seq<Line>, m: nat)
    requires c.Sound() && 1 <= m <= |log| && m <= |log'|
    requires forall k: nat | k < m :: Links(c, log, k) && Links(c, log', k)
    requires c.digest(log[m - 1]) == c.digest(log'[m - 1])
    ensures log[..m] == log'[..m]
  {
    assert log[m - 1] == log'[m - 1];
    if m <= 1 {
    } else {
      assert Links(c, log, m - 1) && Links(c, log', m - 1);
      assert PreviousHash(c, log[..m - 1]) == PreviousHash(c, log'[..m - 1]);
      BackwardWalk(c, log, log', m - 1);
    }
    assert log[..m] == log[..m - 1] + [log[m - 1]];
    assert log'[..m] == log'[..m - 1] + [log'[m - 1]];
  }

  /** A log the reader takes in whole, every line linked to the one before. */
  ghost predicate Intact(c: Codec, log: seq<Line>) {
    Bytes(c, log) <= MAX_LOG_BYTES && FirstBreak(c, log).None?
  }

  /** What the verifier asks of a checkpoint beside a log whose highest anchor is `anchored`. */
  ghost predicate CheckpointAgrees(c: Codec, checkpoint: Option<Checkpoint>, log: seq<Line>, anchored: nat)
    requires log != []
  {
    checkpoint.Some? ==>
      var named := checkpoint.value;
      && (named.sequence.Integer? ==> anchored <= named.sequence.n <= |log|)
      && (named.sequence.Equals(|log|) && named.lineHash.Some? ==>
            named.lineHash.value == c.digest(log[|log| - 1]))
  }

  lemma AnchorsPassIff(c: Codec, m: map<int, string>, log: seq<Line>, log': seq<Line>, highest: nat)
    requires c.Sound() && HonestAnchors(m, c, log, highest) && 0 < highest <= |log'|
    requires forall k: nat | k < |log| :: Links(c, log, k)
    requires forall k: nat | k < |log'| :: Links(c, log', k)
    ensures Failing(c, m, log') == {} <==> log'[..highest] == log[..highest]
  {
    if Failing(c, m, log') == {} {
      assert highest !in Failing(c, m, log');
      BackwardWalk(c, log, log', highest);
    }
    if log'[..highest] == log[..highest] {
      forall k | k in m ensures !AnchorFails(c, m, log', k) {
        assert log'[k - 1] == log'[..highest][k - 1] == log[..highest][k - 1];
      }
    }
  }

  lemma RewriteVerdict(c: Codec, f: Files, p: Progress, log': seq<Line>, checkpoint': Option<Checkpoint>)
    requires c.Sound() && Honest(c, f, p) && UnderCaps(c, f) && p.anchored > 0
    ensures Verify(c, Files(log', f.anchors, checkpoint')).Clean? <==>
            && Intact(c, log')
            && p.anchored <= |log'|
            && log'[..p.anchored] == f.log[..p.anchored]
            && CheckpointAgrees(c, checkpoint', log', p.anchored)
  {
    var anchored := Anchored(c, f.anchors);
    assert p.anchored in anchored && Greatest(anchored.Keys) == p.anchored;
    HonestLogHasNoBreak(c, f.log);
    NoBreakIff(c, f.log, 0);
    if Intact(c, log') && p.anchored <= |log'| {
      NoBreakIff(c, log', 0);
      AnchorsPassIff(c, anchored, f.log, log', p.anchored);
    }
  }

  /** The tamper theorem.  Leave the anchor file as any honest run left it and replace the log
      and the checkpoint by anything at all: `verify_chain` answers ok exactly when the new log
      is a chain whose lines up to the highest anchored sequence are the lines the run appended,
      and the new checkpoint neither lags the anchors nor outruns or misnames the log's end. */
  lemma {:induction false} RewriteIsSeen(c: Codec, calls: seq<Call>, log': seq<Line>, checkpoint': Option<Checkpoint>)
    requires c.Sound() && RunFits(c, calls) && ProgressOf(calls).anchored > 0
    ensures var f, m := Run(c, EMPTY, calls), ProgressOf(calls).anchored;
            && m <= |f.log|
            && (Verify(c, Files(log', f.anchors, checkpoint')).Clean? <==>
                 && Intact(c, log')
                 && m <= |log'|
                 && log'[..m] == f.log[..m]
                 && CheckpointAgrees(c, checkpoint', log', m))
  {
    EveryRunIsHonest(c, calls);
    RewriteVerdict(c, Run(c, EMPTY, calls), ProgressOf(calls), log', checkpoint');
  }

  // ------------------------------------------------------------------------------------------
  // The lasting trace of a break
  // ------------------------------------------------------------------------------------------

  lemma {:induction false} LogOnlyGrows(c: Codec, f: Files, calls: seq<Call>)
    ensures f.log <= Run(c, f, calls).log && f.anchors <= Run(c, f, calls).anchors
  {
    if calls == [] {
    } else {
      LogOnlyGrows(c, f, calls[..|calls| - 1]);
    }
  }

  lemma {:induction false} FirstBreakIsFirst(c: Codec, lines: seq<Line>, k: nat)
    requires k <= |lines| && FirstBreak(c, lines, k).Some?
    ensures var b := FirstBreak(c, lines, k).value;
            && k < b <= |lines| && !Links(c, lines, b - 1)
            && forall i: nat | k <= i < b - 1 :: Links(c, lines, i)
    decreases |lines| - k
  {
    if !Links(c, lines, k) {
    } else {
      FirstBreakIsFirst(c, lines, k + 1);
    }
  }

  predicate Outruns(checkpoint: Option<Checkpoint>, lines: nat) {
    checkpoint.Some? && checkpoint.value.sequence.Integer? && lines < checkpoint.value.sequence.n
  }

  /** Line b is the first that does not link, or the first the checkpoint names and the log has
      not. */
  predicate BreaksAt(c: Codec, f: Files, b: int) {
    var lines := Lines(c, f.log);
    || (1 <= b <= |lines| && !Links(c, lines, b - 1) && forall i: nat | i < b - 1 :: Links(c, lines, i))
    || (b == |lines| + 1 && Outruns(f.checkpoint, |lines|) && forall i: nat | i < |lines| :: Links(c, lines, i))
  }

  lemma BreaksOnce(c: Codec, f: Files, a: int, b: int)
    requires BreaksAt(c, f, a) && BreaksAt(c, f, b)
    ensures a == b
  {
    var lines := Lines(c, f.log);
    assert forall i: nat | i < |lines| && i + 1 < a :: Links(c, lines, i);
    assert forall i: nat | i < |lines| && i + 1 < b :: Links(c, lines, i);
    assert a <= |lines| ==> !Links(c, lines, a - 1);
    assert b <= |lines| ==> !Links(c, lines, b - 1);
  }

  /** A call marks its line exactly when the state it finds has such a break, with the place of
      the break, and no later call takes the marked line away. What it does not consult are the
      anchors: a rewrite that leaves neither kind of break is not marked by this call or any. */
  lemma BreakIsRecordedForever(c: Codec, f: Files, call: Call, later: seq<Call>, b: int)
    requires c.Sound() && call.kill != BeforeLog
    ensures var log := Run(c, Checkpointed(c, f, call), later).log;
            && |f.log| < |log| && f.log == log[..|f.log|] && c.parse(log[|f.log|]).Object?
            && (c.parse(log[|f.log|]).brokenAt == Some(b) <==> BreaksAt(c, f, b))
  {
    LogOnlyGrows(c, Checkpointed(c, f, call), later);
    var lines := Lines(c, f.log);
    NoBreakIff(c, lines, 0);
    if FirstBreak(c, lines).Some? {
      FirstBreakIsFirst(c, lines, 0);
    }
    var seen := if FirstBreak(c, lines).Some? then FirstBreak(c, lines) else MissingCommitted(f.checkpoint, lines);
    if seen.Some? {
      assert BreaksAt(c, f, seen.value);
      if BreaksAt(c, f, b) { BreaksOnce(c, f, b, seen.value); }
    }
  }

  /** Dropping committed lines is such a break, at the first line dropped. */
  lemma {:induction false} TruncationIsSeen(c: Codec, calls: seq<Call>, kept: nat)
    requires c.Sound() && RunFits(c, calls) && kept < ProgressOf(calls).pointed
    ensures var f := Run(c, EMPTY, calls);
            && kept < |f.log|
            && BreaksAt(c, f.(log := f.log[..kept]), kept + 1)
            && Verify(c, f.(log := f.log[..kept])) == Broken(kept, kept + 1, ShorterThanCheckpoint)
  {
    EveryRunIsHonest(c, calls);
    var f := Run(c, EMPTY, calls);
    var log' := f.log[..kept];
    forall k: nat | k < kept ensures HonestLine(c, log', k) {
      assert HonestLine(c, f.log, k);
      assert log'[..k] == f.log[..k];
    }
    HonestLogHasNoBreak(c, log');
    NoBreakIff(c, log', 0);
    PrefixIsSmaller(c, f.log, kept);
  }

  lemma {:induction false} PrefixIsSmaller(c: Codec, lines: seq<Line>, k: nat)
    requires k <= |lines|
    ensures Bytes(c, lines[..k]) <= Bytes(c, lines)
  {
    if k < |lines| {
      PrefixIsSmaller(c, lines[..|lines| - 1], k);
      assert lines[..|lines| - 1][..k] == lines[..k];
    } else {
      assert lines[..k] == lines;
    }
  }
}
