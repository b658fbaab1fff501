/** What a rewrite can get away with when calls follow it: they re-issue anchors, and look at none.
    And what deleting the anchors leaves open, and for how long. */
module AuditErasure {
  import opened Options
  import opened AuditLog
  import opened AuditLogProofs

  /** Calls that are never killed. */
  predicate Unkilled(calls: seq<Call>) {
    forall i | 0 <= i < |calls| :: calls[i].kill == Never
  }

  /** Nothing in the log or the checkpoint shows a break. */
  predicate Smooth(c: Codec, log: seq<Line>, checkpoint: Option<Checkpoint>) {
    (forall k: nat | k < |log| :: Links(c, log, k)) && !Outruns(checkpoint, |log|)
  }

  /** A call killed there, if at all, has written its anchor. */
  predicate Anchors(kill: Kill) {
    kill == AfterAnchor || kill == Never
  }

  /** The sequences whose anchors the calls issue, when the log they start from has `kept` lines:
      every line's, but for those of calls killed before their anchor. */
  function Renewed(calls: seq<Call>, kept: nat): set<int> {
    if calls == [] then {}
    else
      var n, kill := |calls| - 1, calls[|calls| - 1].kill;
      Renewed(calls[..n], kept) + if Anchors(kill) then {kept + ProgressOf(calls).logged} else {}
  }

  lemma {:induction false} RenewedWithin(calls: seq<Call>, kept: nat)
    ensures var p := ProgressOf(calls);
            && p.pointed <= p.anchored <= p.logged <= |calls|
            && (forall k | k in Renewed(calls, kept) :: kept < k <= kept + p.anchored)
            && (p.anchored > 0 ==> kept + p.anchored in Renewed(calls, kept))
  {
    if calls == [] {
    } else {
      RenewedWithin(calls[..|calls| - 1], kept);
    }
  }

  /** The anchors afterwards: new ones for the sequences renewed, the old ones for the others. */
  ghost predicate Reissued(c: Codec, before: map<int, string>, after: map<int, string>, log: seq<Line>, renewed: set<int>) {
    && (forall k | k in renewed :: 1 <= k <= |log|)
    && (forall k :: k in after <==> k in before || k in renewed)
    && forall k | k in after :: after[k] == if k in renewed then c.digest(log[k - 1]) else before[k]
  }

  /** The line carries no mark of a break. */
  predicate Unmarked(c: Codec, line: Line) {
    c.parse(line).Object? && c.parse(line).brokenAt == None
  }

  /** The checkpoint names the line of the last call that was not killed, if there is one. */
  predicate Pointed(c: Codec, before: Option<Checkpoint>, after: Option<Checkpoint>, log: seq<Line>, kept: nat, p: Progress) {
    && p.pointed <= p.logged && |log| == kept + p.logged
    && after == if p.pointed == 0 then before
                else Some(Checkpoint(Integer(kept + p.pointed), Some(c.digest(log[kept + p.pointed - 1]))))
  }

  ghost predicate ContinuedTo(c: Codec, f: Files, log: seq<Line>, anchored: map<int, string>, checkpoint: Option<Checkpoint>,
                              renewed: set<int>, p: Progress)
  {
    && f.log <= log
    && Smooth(c, log, checkpoint)
    && (forall k | |f.log| <= k < |log| :: Unmarked(c, log[k]))
    && Reissued(c, AnchorMap(c, f.anchors), anchored, log, renewed)
    && Pointed(c, f.checkpoint, checkpoint, log, |f.log|, p)
  }

  /** What calls make of a smooth state, wherever they are killed. */
  ghost predicate Continued(c: Codec, f: Files, g: Files, calls: seq<Call>) {
    ContinuedTo(c, f, g.log, AnchorMap(c, g.anchors), g.checkpoint, Renewed(calls, |f.log|), ProgressOf(calls))
  }

  lemma SmoothRecord(c: Codec, f: Files, meta: Meta)
    requires Smooth(c, f.log, f.checkpoint) && Bytes(c, f.log) <= MAX_LOG_BYTES
    ensures NextRecord(c, f, meta) == Record(|f.log| + 1, PreviousHash(c, f.log), None, meta)
  {
    NoBreakIff(c, f.log, 0);
  }

  lemma LinksGrow(c: Codec, log: seq<Line>, line: Line)
    requires forall k: nat | k < |log| :: Links(c, log, k)
    requires c.parse(line) == Object(Integer(|log| + 1), Some(PreviousHash(c, log)), None, None)
    ensures forall k: nat | k < |log| + 1 :: Links(c, log + [line], k)
  {
    var log' := log + [line];
    forall k: nat | k < |log'| ensures Links(c, log', k) {
      assert log'[..k] == log[..k];
      if k < |log| {
        assert Links(c, log, k);
      } else {
        assert log[..k] == log;
      }
    }
  }

  lemma ReissuedLonger(c: Codec, before: map<int, string>, after: map<int, string>, log: seq<Line>, renewed: set<int>, line: Line)
    requires Reissued(c, before, after, log, renewed)
    ensures Reissued(c, before, after, log + [line], renewed)
    ensures Reissued(c, before, after[|log| + 1 := c.digest(line)], log + [line], renewed + {|log| + 1})
  {
  }

  lemma UnmarkedLonger(c: Codec, log: seq<Line>, kept: nat, line: Line)
    requires forall k | kept <= k < |log| :: Unmarked(c, log[k])
    requires Unmarked(c, line)
    ensures forall k | kept <= k < |log| + 1 :: Unmarked(c, (log + [line])[k])
  {
  }

  lemma PointedLonger(c: Codec, before: Option<Checkpoint>, after: Option<Checkpoint>, log: seq<Line>, kept: nat, p: Progress,
                      line: Line, kill: Kill)
    requires Pointed(c, before, after, log, kept, p) && kill != BeforeLog
    ensures Pointed(c, before, if kill == Never then Some(Checkpoint(Integer(|log| + 1), Some(c.digest(line)))) else after,
                    log + [line], kept, Advance(p, kill))
  {
  }

  lemma LineContinues(c: Codec, f: Files, log: seq<Line>, anchored: map<int, string>, checkpoint: Option<Checkpoint>,
                      renewed: set<int>, p: Progress, line: Line, kill: Kill)
    requires ContinuedTo(c, f, log, anchored, checkpoint, renewed, p) && kill != BeforeLog
    requires c.parse(line) == Object(Integer(|log| + 1), Some(PreviousHash(c, log)), None, None)
    ensures ContinuedTo(c, f, log + [line],
                        if Anchors(kill) then anchored[|log| + 1 := c.digest(line)] else anchored,
                        if kill == Never then Some(Checkpoint(Integer(|log| + 1), Some(c.digest(line)))) else checkpoint,
                        if Anchors(kill) then renewed + {|log| + 1} else renewed,
                        Advance(p, kill))
  {
    LinksGrow(c, log, line);
    UnmarkedLonger(c, log, |f.log|, line);
    PointedLonger(c, f.checkpoint, checkpoint, log, |f.log|, p, line, kill);
    ReissuedLonger(c, AnchorMap(c, f.anchors), anchored, log, renewed, line);
  }

  lemma CallContinues(c: Codec, f: Files, g: Files, call: Call, h: Files,
                      renewed: set<int>, renewed': set<int>, p: Progress, q: Progress)
    requires c.Sound() && Bytes(c, g.log) <= MAX_LOG_BYTES && h == Checkpointed(c, g, call)
    requires q == Advance(p, call.kill) && renewed' == if Anchors(call.kill) then renewed + {|g.log| + 1} else renewed
    requires ContinuedTo(c, f, g.log, AnchorMap(c, g.anchors), g.checkpoint, renewed, p)
    ensures ContinuedTo(c, f, h.log, AnchorMap(c, h.anchors), h.checkpoint, renewed', q)
  {
    if call.kill != BeforeLog {
      SmoothRecord(c, g, call.meta);
      var line := c.render(NextRecord(c, g, call.meta));
      AnchorMapGrows(c, g.anchors, |g.log| + 1, c.digest(line), call.at);
      LineContinues(c, f, g.log, AnchorMap(c, g.anchors), g.checkpoint, renewed, p, line, call.kill);
    }
  }

  lemma RenewedLast(calls: seq<Call>, kept: nat)
    requires calls != []
    ensures var front, kill := calls[..|calls| - 1], calls[|calls| - 1].kill;
            && ProgressOf(calls) == Advance(ProgressOf(front), kill)
            && Renewed(calls, kept)
               == if Anchors(kill) then Renewed(front, kept) + {kept + ProgressOf(front).logged + 1} else Renewed(front, kept)
  {
    var front := calls[..|calls| - 1];
    assert Renewed(front, kept) + {} == Renewed(front, kept);
  }

  lemma {:induction false} CallsContinue(c: Codec, f: Files, calls: seq<Call>)
    requires c.Sound() && Smooth(c, f.log, f.checkpoint) && UnderCaps(c, Run(c, f, calls))
    ensures Continued(c, f, Run(c, f, calls), calls)
  {
    if calls == [] {
    } else {
      var front, call := calls[..|calls| - 1], calls[|calls| - 1];
      var g, h, kept := Run(c, f, front), Run(c, f, calls), |f.log|;
      CapsHeldBefore(c, g, call);
      CallsContinue(c, f, front);
      RenewedLast(calls, kept);
      assert |g.log| == kept + ProgressOf(front).logged;
      CallContinues(c, f, g, call, h, Renewed(front, kept), Renewed(calls, kept), ProgressOf(front), ProgressOf(calls));
    }
  }

  // ------------------------------------------------------------------------------------------
  // The verdict afterwards
  // ------------------------------------------------------------------------------------------

  /** The highest anchored sequence that is at most `bound`; 0 if there is none. */
  ghost function Covered(anchored: map<int, string>, bound: nat): int {
    var keys := set k | k in anchored && k <= bound;
    if keys == {} then 0 else Greatest(keys)
  }

  lemma CoveredIsHighest(anchored: map<int, string>, bound: nat)
    requires forall k | k in anchored :: k >= 1
    ensures var a := Covered(anchored, bound);
            && 0 <= a <= bound && (a > 0 ==> a in anchored)
            && forall k | k in anchored && k <= bound :: k <= a
  {
    var keys := set k | k in anchored && k <= bound;
    assert forall k | k in anchored && k <= bound :: k in keys;
  }

  /** These anchors, as far as they name lines of this log, pass on it. */
  predicate Survive(c: Codec, anchored: map<int, string>, log: seq<Line>) {
    forall k | k in anchored && 1 <= k <= |log| :: anchored[k] == c.digest(log[k - 1])
  }

  /** Old anchors pass exactly on the original lines up to the highest of them. */
  lemma SurvivorsPassIff(c: Codec, issued: map<int, string>, log: seq<Line>, log': seq<Line>)
    requires c.Sound() && forall k | k in issued :: 1 <= k <= |log| && issued[k] == c.digest(log[k - 1])
    requires forall k: nat | k < |log| :: Links(c, log, k)
    requires forall k: nat | k < |log'| :: Links(c, log', k)
    ensures var a := Covered(issued, |log'|);
            && 0 <= a <= |log'| && a <= |log|
            && (Survive(c, issued, log') <==> log'[..a] == log[..a])
  {
    CoveredIsHighest(issued, |log'|);
    var a := Covered(issued, |log'|);
    if a > 0 && issued[a] == c.digest(log'[a - 1]) {
      BackwardWalk(c, log, log', a);
    }
    if log'[..a] == log[..a] {
      forall k | k in issued && 1 <= k <= |log'| ensures issued[k] == c.digest(log'[k - 1]) {
        assert log'[k - 1] == log'[..a][k - 1] == log[..a][k - 1];
      }
    }
  }

  /** What the verifier asks of a checkpoint beside a log whose highest anchor is `highest`. */
  predicate CheckpointHolds(c: Codec, checkpoint: Option<Checkpoint>, log: seq<Line>, highest: nat) {
    checkpoint.Some? ==>
      var named := checkpoint.value;
      && (named.sequence.Integer? ==> named.sequence.n <= |log| && (highest > 0 ==> highest <= named.sequence.n))
      && (named.sequence.Equals(|log|) && named.lineHash.Some? ==>
            log != [] && named.lineHash.value == c.digest(log[|log| - 1]))
  }

  /** The verdict on any chain, checkpoint and set of anchors under the caps. */
  lemma CleanIff(c: Codec, g: Files, highest: nat)
    requires UnderCaps(c, g) && forall k: nat | k < |g.log| :: Links(c, g.log, k)
    requires forall k | k in AnchorMap(c, g.anchors) :: 1 <= k <= highest
    requires highest > 0 ==> highest in AnchorMap(c, g.anchors)
    ensures Verify(c, g).Clean? <==>
            highest <= |g.log| && Survive(c, AnchorMap(c, g.anchors), g.log) && CheckpointHolds(c, g.checkpoint, g.log, highest)
  {
    NoBreakIff(c, g.log, 0);
    var m := AnchorMap(c, g.anchors);
    if highest == 0 {
      assert forall k :: k !in m;
      assert m == map[];
    } else {
      assert m != map[] && Greatest(m.Keys) == highest;
      if highest <= |g.log| {
        assert Failing(c, m, g.log) == {} <==> Survive(c, m, g.log) by {
          if Failing(c, m, g.log) == {} {
            forall k | k in m ensures m[k] == c.digest(g.log[k - 1]) { assert k !in Failing(c, m, g.log); }
          }
        }
      }
    }
  }

  lemma ReissuedSurvive(c: Codec, before: map<int, string>, after: map<int, string>, log: seq<Line>, renewed: set<int>)
    requires Reissued(c, before, after, log, renewed)
    ensures Survive(c, after, log) <==> Survive(c, before - renewed, log)
  {
    assert forall k | k in before - renewed :: after[k] == (before - renewed)[k];
    assert forall k | k in after && k !in renewed :: k in before - renewed;
  }

  function Higher(a: nat, b: nat): nat {
    if a >= b then a else b
  }

  lemma HonestLogLinks(c: Codec, f: Files, p: Progress)
    requires c.Sound() && Honest(c, f, p)
    ensures forall k: nat | k < |f.log| :: Links(c, f.log, k)
  {
    HonestLogHasNoBreak(c, f.log);
    NoBreakIff(c, f.log, 0);
  }

  /** The highest anchor once the calls are done. */
  function HighestAnchor(p: Progress, kept: nat, q: Progress): nat {
    if q.anchored == 0 then p.anchored else Higher(p.anchored, kept + q.anchored)
  }

  lemma {:induction false} HighestIsHighest(c: Codec, f: Files, p: Progress, r: Files, later: seq<Call>, g: Files)
    requires Honest(c, f, p) && r.anchors == f.anchors && Continued(c, r, g, later)
    ensures var m, highest := AnchorMap(c, g.anchors), HighestAnchor(p, |r.log|, ProgressOf(later));
            (forall k | k in m :: 1 <= k <= highest) && (highest > 0 ==> highest in m)
  {
    RenewedWithin(later, |r.log|);
    HighestOf(c, AnchorMap(c, f.anchors), AnchorMap(c, g.anchors), g.log, Renewed(later, |r.log|), p, |r.log|, ProgressOf(later));
  }

  lemma HighestOf(c: Codec, before: map<int, string>, after: map<int, string>, log: seq<Line>, renewed: set<int>,
                  p: Progress, kept: nat, q: Progress)
    requires Reissued(c, before, after, log, renewed)
    requires (forall k | k in before :: 1 <= k <= p.anchored) && (p.anchored > 0 ==> p.anchored in before)
    requires (forall k | k in renewed :: kept < k <= kept + q.anchored) && (q.anchored > 0 ==> kept + q.anchored in renewed)
    ensures var highest := HighestAnchor(p, kept, q);
            (forall k | k in after :: 1 <= k <= highest) && (highest > 0 ==> highest in after)
  {
  }

  /** The verdict after calls, whatever their kills, on a rewritten log and checkpoint beside the
      anchors of an honest run. */
  lemma ContinuedVerdict(c: Codec, f: Files, p: Progress, r: Files, later: seq<Call>, g: Files)
    requires c.Sound() && Honest(c, f, p) && r.anchors == f.anchors && UnderCaps(c, g) && Continued(c, r, g, later)
    ensures var left := AnchorMap(c, f.anchors) - Renewed(later, |r.log|);
            var a, highest := Covered(left, |g.log|), HighestAnchor(p, |r.log|, ProgressOf(later));
            && 0 <= a <= |g.log| && a <= |f.log|
            && (Verify(c, g).Clean? <==>
                  highest <= |g.log| && g.log[..a] == f.log[..a] && CheckpointHolds(c, g.checkpoint, g.log, highest))
  {
    var before, after, renewed := AnchorMap(c, f.anchors), AnchorMap(c, g.anchors), Renewed(later, |r.log|);
    HonestLogLinks(c, f, p);
    HighestIsHighest(c, f, p, r, later, g);
    CleanIff(c, g, HighestAnchor(p, |r.log|, ProgressOf(later)));
    ReissuedSurvive(c, before, after, g.log, renewed);
    SurvivorsPassIff(c, before - renewed, f.log, g.log);
  }

  /** What the calls themselves leave of that condition on the checkpoint: once one of them wrote it,
      that nothing was anchored since and no older anchor is ahead of it; if none did, what it asks of
      the checkpoint that was put in place. */
  lemma CheckpointIff(c: Codec, r: Files, later: seq<Call>, g: Files, p: Progress)
    requires Continued(c, r, g, later)
    ensures var q, kept := ProgressOf(later), |r.log|;
            var highest := HighestAnchor(p, kept, q);
            CheckpointHolds(c, g.checkpoint, g.log, highest) <==>
              if q.pointed > 0 then q.pointed == q.anchored && p.anchored <= kept + q.pointed
              else CheckpointHolds(c, r.checkpoint, g.log, highest)
  {
    RenewedWithin(later, |r.log|);
  }

  /** Both together. */
  lemma AbsorbedIff(c: Codec, f: Files, p: Progress, r: Files, later: seq<Call>, g: Files)
    requires c.Sound() && Honest(c, f, p) && r.anchors == f.anchors && UnderCaps(c, g) && Continued(c, r, g, later)
    ensures var q := ProgressOf(later);
            var a := Covered(AnchorMap(c, f.anchors) - Renewed(later, |r.log|), |g.log|);
            && 0 <= a <= |g.log| && a <= |f.log|
            && (Verify(c, g).Clean? <==>
                  && p.anchored <= |g.log|
                  && g.log[..a] == f.log[..a]
                  && if q.pointed > 0 then q.pointed == q.anchored && p.anchored <= |r.log| + q.pointed
                     else CheckpointHolds(c, r.checkpoint, g.log, HighestAnchor(p, |r.log|, q)))
  {
    RenewedWithin(later, |r.log|);
    ContinuedVerdict(c, f, p, r, later, g);
    CheckpointIff(c, r, later, g, p);
  }

  /** The files after the first calls, a rewrite of log and checkpoint, and the later calls. */
  ghost function Rewritten(c: Codec, calls: seq<Call>, log': seq<Line>, checkpoint': Option<Checkpoint>,
                           later: seq<Call>): Files {
    Run(c, Files(log', Run(c, EMPTY, calls).anchors, checkpoint'), later)
  }

  /** A rewrite followed by calls. Leave the anchors as any honest run left them, put any smooth log
      and checkpoint in place of the others, and let any calls follow, killed or not: no line they
      append is marked, and afterwards `verify_chain` answers ok exactly when the log reaches the
      highest anchor again, it keeps the original lines up to the highest anchor that was not
      renewed, and the checkpoint is not behind the anchors. */
  lemma {:induction false} RewriteAbsorbedIff(c: Codec, calls: seq<Call>, log': seq<Line>,
                                              checkpoint': Option<Checkpoint>, later: seq<Call>)
    requires c.Sound() && RunFits(c, calls) && Smooth(c, log', checkpoint')
    requires UnderCaps(c, Rewritten(c, calls, log', checkpoint', later))
    ensures var f, p, q := Run(c, EMPTY, calls), ProgressOf(calls), ProgressOf(later);
            var g := Rewritten(c, calls, log', checkpoint', later);
            var a := Covered(AnchorMap(c, f.anchors) - Renewed(later, |log'|), |g.log|);
            && |g.log| == |log'| + q.logged && (forall k | |log'| <= k < |g.log| :: Unmarked(c, g.log[k]))
            && 0 <= a <= |g.log| && a <= |f.log|
            && (Verify(c, g).Clean? <==>
                  && p.anchored <= |g.log|
                  && g.log[..a] == f.log[..a]
                  && if q.pointed > 0 then q.pointed == q.anchored && p.anchored <= |log'| + q.pointed
                     else CheckpointHolds(c, checkpoint', g.log, HighestAnchor(p, |log'|, q)))
  {
    EveryRunIsHonest(c, calls);
    var f := Run(c, EMPTY, calls);
    var rewritten := Files(log', f.anchors, checkpoint');
    CallsContinue(c, rewritten, later);
    AbsorbedIff(c, f, ProgressOf(calls), rewritten, later, Run(c, rewritten, later));
  }

  lemma {:induction false} UnkilledRenewAll(calls: seq<Call>, kept: nat)
    requires Unkilled(calls)
    ensures ProgressOf(calls) == Progress(|calls|, |calls|, |calls|)
    ensures forall k :: k in Renewed(calls, kept) <==> kept < k <= kept + |calls|
  {
    if calls == [] {
    } else {
      UnkilledRenewAll(calls[..|calls| - 1], kept);
    }
  }

  /** When none of the calls is killed and there is one: the verifier is clean exactly when they have
      reached the highest anchored sequence again and the new log kept the original lines up to the
      highest anchor within it. */
  lemma UnkilledAbsorbedIff(c: Codec, calls: seq<Call>, log': seq<Line>, checkpoint': Option<Checkpoint>, later: seq<Call>)
    requires c.Sound() && RunFits(c, calls)
    requires Smooth(c, log', checkpoint') && Unkilled(later) && later != []
    requires UnderCaps(c, Rewritten(c, calls, log', checkpoint', later))
    ensures var f := Run(c, EMPTY, calls);
            var g := Rewritten(c, calls, log', checkpoint', later);
            var a := Covered(AnchorMap(c, f.anchors), |log'|);
            && |g.log| == |log'| + |later| && (forall k | |log'| <= k < |g.log| :: Unmarked(c, g.log[k]))
            && 0 <= a <= |log'| && a <= |f.log|
            && (Verify(c, g).Clean? <==>
                  ProgressOf(calls).anchored <= |log'| + |later| && log'[..a] == f.log[..a])
  {
    RewriteAbsorbedIff(c, calls, log', checkpoint', later);
    UnkilledRenewAll(later, |log'|);
    EveryRunIsHonest(c, calls);
    var f := Run(c, EMPTY, calls);
    LogOnlyGrows(c, Files(log', f.anchors, checkpoint'), later);
    UnkilledCover(AnchorMap(c, f.anchors), later, log', Rewritten(c, calls, log', checkpoint', later).log);
  }

  lemma {:induction false} UnkilledCover(before: map<int, string>, later: seq<Call>, log': seq<Line>, log: seq<Line>)
    requires Unkilled(later) && log' <= log && |log| == |log'| + |later| && forall k | k in before :: k >= 1
    ensures var a := Covered(before, |log'|);
            Covered(before - Renewed(later, |log'|), |log|) == a && 0 <= a <= |log'| && log[..a] == log'[..a]
  {
    UnkilledRenewAll(later, |log'|);
    SameCover(before, before - Renewed(later, |log'|), |log'|, |log|);
    CoveredIsHighest(before, |log'|);
  }

  lemma SameCover(before: map<int, string>, left: map<int, string>, kept: nat, total: nat)
    requires forall k | k in before :: k >= 1
    requires kept <= total && forall k :: k in left <==> k in before && !(kept < k <= total)
    ensures Covered(left, total) == Covered(before, kept)
  {
    CoveredIsHighest(before, kept);
    CoveredIsHighest(left, total);
  }

  /** So a whole log can be erased without a trace: drop it and the checkpoint, and after as many
      unkilled calls as there were anchored lines the audit is clean and no line is marked. */
  lemma {:induction false} ErasureLeavesNoTrace(c: Codec, calls: seq<Call>, later: seq<Call>)
    requires c.Sound() && RunFits(c, calls)
    requires Unkilled(later) && later != [] && |later| >= ProgressOf(calls).anchored
    requires UnderCaps(c, Rewritten(c, calls, [], None, later))
    ensures var g := Rewritten(c, calls, [], None, later);
            Verify(c, g).Clean? && forall k | 0 <= k < |g.log| :: Unmarked(c, g.log[k])
  {
    UnkilledAbsorbedIff(c, calls, [], None, later);
  }

  // ------------------------------------------------------------------------------------------
  // When the anchors are deleted
  // ------------------------------------------------------------------------------------------

  /** Without an anchor file any chain whose checkpoint fits is accepted, whatever was logged. */
  lemma {:induction false} DeletedAnchorsAcceptIff(c: Codec, log': seq<Line>, checkpoint': Option<Checkpoint>)
    requires Bytes(c, log') <= MAX_LOG_BYTES && Bytes(c, []) <= MAX_ANCHOR_BYTES
    ensures Verify(c, Files(log', [], checkpoint')).Clean? <==>
            (forall k: nat | k < |log'| :: Links(c, log', k)) && CheckpointHolds(c, checkpoint', log', 0)
  {
    NoBreakIff(c, log', 0);
    if forall k: nat | k < |log'| :: Links(c, log', k) {
      CleanIff(c, Files(log', [], checkpoint'), 0);
    }
  }

  lemma HonestByLastAnchor(c: Codec, h: Files, g: Files, p: Progress)
    requires Honest(c, h, p) && p.anchored == p.logged > 0 && g.log == h.log && g.checkpoint == h.checkpoint
    requires AnchorMap(c, g.anchors) == map[|h.log| := c.digest(h.log[|h.log| - 1])]
    ensures Honest(c, g, p)
  {
  }

  lemma OnlyAnchor(c: Codec, sequence: nat, hash: string, at: Meta)
    requires c.Sound()
    ensures AnchorMap(c, [c.renderAnchor(sequence, hash, at)]) == map[sequence := hash]
  {
    AnchorMapGrows(c, [], sequence, hash, at);
    assert [] + [c.renderAnchor(sequence, hash, at)] == [c.renderAnchor(sequence, hash, at)];
  }

  /** A call that reaches its anchor makes an honest state of one whose anchors were deleted. */
  lemma {:induction false} AnchoredAgain(c: Codec, f: Files, p: Progress, call: Call)
    requires c.Sound() && Honest(c, f, p) && Bytes(c, f.log) <= MAX_LOG_BYTES
    requires Anchors(call.kill)
    ensures Honest(c, Checkpointed(c, f.(anchors := []), call), Advance(p, call.kill))
  {
    HonestStep(c, f, p, call);
    NextHonestRecord(c, f, p, call.meta);
    var bare := f.(anchors := []);
    assert NextRecord(c, bare, call.meta) == NextRecord(c, f, call.meta);
    OnlyAnchor(c, |f.log| + 1, c.digest(c.render(NextRecord(c, f, call.meta))), call.at);
    HonestByLastAnchor(c, Checkpointed(c, f, call), Checkpointed(c, bare, call), Advance(p, call.kill));
  }

  /** The next call that reaches its anchor closes the window: from then on every rewrite of log and
      checkpoint is seen, down to the first line, as if all lines had been anchored one by one. */
  lemma NextAnchorClosesWindow(c: Codec, calls: seq<Call>, call: Call, log': seq<Line>, checkpoint': Option<Checkpoint>)
    requires c.Sound() && RunFits(c, calls) && Anchors(call.kill)
    requires UnderCaps(c, Checkpointed(c, Run(c, EMPTY, calls).(anchors := []), call))
    ensures var g := Checkpointed(c, Run(c, EMPTY, calls).(anchors := []), call);
            Verify(c, Files(log', g.anchors, checkpoint')).Clean? <==>
              && Intact(c, log') && |g.log| <= |log'| && log'[..|g.log|] == g.log
              && CheckpointAgrees(c, checkpoint', log', |g.log|)
  {
    EveryRunIsHonest(c, calls);
    var f, p := Run(c, EMPTY, calls), ProgressOf(calls);
    AnchoredAgain(c, f, p, call);
    AnchoredToTheEnd(c, Checkpointed(c, f.(anchors := []), call), Advance(p, call.kill), log', checkpoint');
  }

  /** With an anchor for the last line the whole log is fixed. */
  lemma AnchoredToTheEnd(c: Codec, g: Files, q: Progress, log': seq<Line>, checkpoint': Option<Checkpoint>)
    requires c.Sound() && Honest(c, g, q) && UnderCaps(c, g) && q.anchored == q.logged > 0
    ensures Verify(c, Files(log', g.anchors, checkpoint')).Clean? <==>
              && Intact(c, log') && |g.log| <= |log'| && log'[..|g.log|] == g.log
              && CheckpointAgrees(c, checkpoint', log', |g.log|)
  {
    RewriteVerdict(c, g, q, log', checkpoint');
    assert g.log[..|g.log|] == g.log;
  }

  // ------------------------------------------------------------------------------------------
  // When every line is anchored
  // ------------------------------------------------------------------------------------------

  /** No call was killed between its line and its anchor. */
  predicate AllAnchored(calls: seq<Call>) {
    forall i | 0 <= i < |calls| :: calls[i].kill != AfterLog
  }

  /** Sequences 1 to n all have an anchor. */
  predicate Dense(anchored: map<int, string>, n: nat) {
    forall k | 1 <= k <= n :: k in anchored
  }

  lemma CallKeepsDense(c: Codec, f: Files, p: Progress, call: Call)
    requires c.Sound() && Honest(c, f, p) && Bytes(c, f.log) <= MAX_LOG_BYTES
    requires p.anchored == p.logged && Dense(AnchorMap(c, f.anchors), p.logged) && call.kill != AfterLog
    ensures Dense(AnchorMap(c, Checkpointed(c, f, call).anchors), Advance(p, call.kill).anchored)
  {
    NextHonestRecord(c, f, p, call.meta);
    var line := c.render(NextRecord(c, f, call.meta));
    AnchorMapGrows(c, f.anchors, |f.log| + 1, c.digest(line), call.at);
  }

  lemma {:induction false} EveryLineIsAnchored(c: Codec, calls: seq<Call>)
    requires c.Sound() && RunFits(c, calls) && AllAnchored(calls)
    ensures ProgressOf(calls).anchored == ProgressOf(calls).logged
    ensures Dense(AnchorMap(c, Run(c, EMPTY, calls).anchors), ProgressOf(calls).anchored)
  {
    if calls == [] {
    } else {
      var n := |calls| - 1;
      CapsHeldBefore(c, Run(c, EMPTY, calls[..n]), calls[n]);
      EveryLineIsAnchored(c, calls[..n]);
      EveryRunIsHonest(c, calls[..n]);
      CallKeepsDense(c, Run(c, EMPTY, calls[..n]), ProgressOf(calls[..n]), calls[n]);
    }
  }

  /** Then the highest anchor within the rewritten log is simply the shorter of the two lengths. */
  lemma {:induction false} CoveredIsShorter(c: Codec, calls: seq<Call>, kept: nat)
    requires c.Sound() && RunFits(c, calls) && AllAnchored(calls)
    ensures var m := ProgressOf(calls).anchored;
            Covered(AnchorMap(c, Run(c, EMPTY, calls).anchors), kept) == if m <= kept then m else kept
  {
    EveryRunIsHonest(c, calls);
    EveryLineIsAnchored(c, calls);
    var anchored, m := AnchorMap(c, Run(c, EMPTY, calls).anchors), ProgressOf(calls).anchored;
    var shorter := if m <= kept then m else kept;
    CoveredIsHighest(anchored, kept);
    assert shorter > 0 ==> shorter in anchored;
  }
}
