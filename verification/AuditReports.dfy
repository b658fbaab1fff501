/** Where `verify_chain` (skynet/memory_audit.py) says a log was broken. */
module AuditReports {
  import opened Options
  import opened AuditLog
  import opened AuditLogProofs

  /** The line parses to a record with its own position and the hash of the line before it. */
  predicate Follows(c: Codec, lines: seq<Line>, k: nat)
    requires k < |lines|
  {
    var hash := if k == 0 then GENESIS else c.digest(lines[k - 1]);
    match c.parse(lines[k])
    case Object(Integer(n), Some(previous), _, _) => n == k + 1 && previous == hash
    case Object(Floating(x), Some(previous), _, _) => x == (k + 1) as real && previous == hash
    case _ => false
  }

  lemma FollowsIff(c: Codec, lines: seq<Line>, k: nat)
    requires k < |lines|
    ensures Links(c, lines, k) <==> Follows(c, lines, k)
  {
    if k > 0 { assert lines[..k][k - 1] == lines[k - 1]; }
  }

  /** A file is as large as its lines, each with its line end. */
  lemma {:induction false} BytesAdd(c: Codec, a: seq<Line>, b: seq<Line>, x: Line)
    ensures Bytes(c, []) == 0 && Bytes(c, [x]) == c.size(x) + 1
    ensures Bytes(c, a + b) == Bytes(c, a) + Bytes(c, b)
  {
    if b == [] {
      assert a + b == a;
    } else {
      var n := |b| - 1;
      BytesAdd(c, a, b[..n], x);
      assert (a + b)[..|a + b| - 1] == a + b[..n];
    }
  }

  predicate Chain(c: Codec, lines: seq<Line>) {
    forall k: nat | k < |lines| :: Follows(c, lines, k)
  }

  lemma ChainIff(c: Codec, lines: seq<Line>)
    ensures Chain(c, lines) <==> FirstBreak(c, lines).None?
    ensures Chain(c, lines) <==> forall k: nat | k < |lines| :: Links(c, lines, k)
  {
    NoBreakIff(c, lines, 0);
    forall k: nat | k < |lines| ensures Links(c, lines, k) <==> Follows(c, lines, k) {
      FollowsIff(c, lines, k);
    }
  }

  // ------------------------------------------------------------------------------------------
  // The reasons
  // ------------------------------------------------------------------------------------------

  /** A broken chain is reported at the first line that does not follow, and nothing else is. */
  lemma ChainBrokenIff(c: Codec, f: Files, n: nat, b: int)
    ensures var lines := Lines(c, f.log);
            Verify(c, f) == Broken(n, b, ChainBroken) <==>
              n == |lines| && 1 <= b <= n && !Follows(c, lines, b - 1) && forall k: nat | k < b - 1 :: Follows(c, lines, k)
  {
    var lines := Lines(c, f.log);
    ChainIff(c, lines);
    forall k: nat | k < |lines| ensures Links(c, lines, k) <==> Follows(c, lines, k) {
      FollowsIff(c, lines, k);
    }
    if FirstBreak(c, lines).Some? {
      FirstBreakIsFirst(c, lines, 0);
    }
  }

  /** The checkpoint's number, if it is an integer, is more than the lines there are. */
  predicate NamesMissing(checkpoint: Option<Checkpoint>, n: nat) {
    checkpoint.Some? && match checkpoint.value.sequence case Integer(s) => s > n case _ => false
  }

  /** The checkpoint names the last line and has a hash for it. */
  predicate NamesLast(checkpoint: Option<Checkpoint>, n: nat) {
    && checkpoint.Some? && checkpoint.value.lineHash.Some?
    && match checkpoint.value.sequence
       case NoNumber => false
       case Integer(s) => s == n
       case Floating(x) => x == n as real
  }

  /** Dropped lines that the checkpoint names are reported at the first of them. */
  lemma ShorterIff(c: Codec, f: Files, n: nat, b: int)
    ensures var lines := Lines(c, f.log);
            Verify(c, f) == Broken(n, b, ShorterThanCheckpoint) <==>
              Chain(c, lines) && n == |lines| && b == n + 1 && NamesMissing(f.checkpoint, n)
  {
    ChainIff(c, Lines(c, f.log));
  }

  /** A last line that is not the one the checkpoint hashed is reported as itself. */
  lemma LastLineChangedIff(c: Codec, f: Files, n: nat, b: int)
    ensures var lines := Lines(c, f.log);
            Verify(c, f) == Broken(n, b, LastLineChanged) <==>
              && Chain(c, lines) && b == n == |lines| && n > 0 && NamesLast(f.checkpoint, n)
              && f.checkpoint.value.lineHash.value != c.digest(lines[n - 1])
  {
    ChainIff(c, Lines(c, f.log));
  }

  /** The checkpoint has nothing against these lines. */
  predicate Quiet(c: Codec, checkpoint: Option<Checkpoint>, lines: seq<Line>) {
    && !NamesMissing(checkpoint, |lines|)
    && (NamesLast(checkpoint, |lines|) ==> lines != [] && checkpoint.value.lineHash.value == c.digest(lines[|lines| - 1]))
  }

  lemma QuietIff(c: Codec, checkpoint: Option<Checkpoint>, lines: seq<Line>)
    ensures CheckpointVerdict(c, checkpoint, lines).Clean? <==> Quiet(c, checkpoint, lines)
  {
  }

  lemma AnchoredLineMissingIff(c: Codec, f: Files, n: nat, b: int)
    ensures var lines, m := Lines(c, f.log), Anchored(c, f.anchors);
            Verify(c, f) == Broken(n, b, AnchoredLineMissing) <==>
              Chain(c, lines) && Quiet(c, f.checkpoint, lines) && n == |lines| && b == n + 1 && exists k :: k in m && k > n
  {
    ChainIff(c, Lines(c, f.log));
    QuietIff(c, f.checkpoint, Lines(c, f.log));
    var m := Anchored(c, f.anchors);
    if m != map[] { assert Greatest(m.Keys) in m; }
  }

  /** The line an anchor's sequence names; from 0 down it counts back from the last line. */
  function Named(lines: seq<Line>, k: int): Option<Line> {
    if 1 <= k <= |lines| then Some(lines[k - 1])
    else if k <= 0 && 1 <= |lines| + k then Some(lines[|lines| + k - 1])
    else None
  }

  /** An anchor that agrees with the line it names. */
  predicate Agrees(c: Codec, m: map<int, string>, lines: seq<Line>, k: int)
    requires k in m
  {
    Named(lines, k).Some? && m[k] == c.digest(Named(lines, k).value)
  }

  /** Where no anchor is past the end, the report is at the least that disagrees with its line. */
  lemma AnchoredLineChangedIff(c: Codec, f: Files, n: nat, b: int)
    ensures var lines, m := Lines(c, f.log), Anchored(c, f.anchors);
            Verify(c, f) == Broken(n, b, AnchoredLineChanged) <==>
              && Chain(c, lines) && Quiet(c, f.checkpoint, lines) && n == |lines| && (forall k | k in m :: k <= n)
              && b in m && Named(lines, b).Some? && !Agrees(c, m, lines, b)
              && forall k | k in m && k < b :: Agrees(c, m, lines, k)
  {
    var lines, m := Lines(c, f.log), Anchored(c, f.anchors);
    ChainIff(c, lines);
    QuietIff(c, f.checkpoint, lines);
    if m != map[] && Greatest(m.Keys) <= |lines| {
      LeastDisagreement(c, m, lines, b);
    }
  }

  lemma LeastDisagreement(c: Codec, m: map<int, string>, lines: seq<Line>, b: int)
    requires forall k | k in m :: k <= |lines|
    ensures var failing := Failing(c, m, lines);
            (failing != {} && Least(failing) == b) <==>
              b in m && !Agrees(c, m, lines, b) && forall k | k in m && k < b :: Agrees(c, m, lines, k)
  {
    var failing := Failing(c, m, lines);
    assert forall k | k in m :: k in failing <==> !Agrees(c, m, lines, k);
  }

  /** An old checkpoint put back is reported at the highest anchor, when all else holds. */
  lemma RollbackIff(c: Codec, f: Files, n: nat, b: int)
    ensures var lines, m := Lines(c, f.log), Anchored(c, f.anchors);
            Verify(c, f) == Broken(n, b, CheckpointRolledBack) <==>
              && Chain(c, lines) && Quiet(c, f.checkpoint, lines) && n == |lines|
              && (forall k | k in m :: Agrees(c, m, lines, k))
              && b in m && (forall k | k in m :: k <= b)
              && f.checkpoint.Some? && f.checkpoint.value.sequence.Integer? && f.checkpoint.value.sequence.n < b
  {
    var lines, m := Lines(c, f.log), Anchored(c, f.anchors);
    ChainIff(c, lines);
    QuietIff(c, f.checkpoint, lines);
    if m != map[] && Greatest(m.Keys) <= |lines| {
      assert forall k | k in m :: k in Failing(c, m, lines) <==> !Agrees(c, m, lines, k);
    }
  }

  // ------------------------------------------------------------------------------------------
  // An honest run, edited or rewritten
  // ------------------------------------------------------------------------------------------

  /** Leave the anchors of an honest run and replace the log and the checkpoint by anything. When
      nothing earlier is wrong, the rewrite is reported at the least anchored sequence up to which
      the new log is not the old one. */
  lemma {:induction false} RewriteIsLocated(c: Codec, calls: seq<Call>, log': seq<Line>, checkpoint': Option<Checkpoint>, b: int)
    requires c.Sound() && RunFits(c, calls) && Bytes(c, log') <= MAX_LOG_BYTES
    ensures var f := Run(c, EMPTY, calls);
            var m, n := AnchorMap(c, f.anchors), |log'|;
            && (forall k | k in m :: 1 <= k <= |f.log|)
            && (Verify(c, Files(log', f.anchors, checkpoint')) == Broken(n, b, AnchoredLineChanged) <==>
                 && Chain(c, log') && Quiet(c, checkpoint', log') && (forall k | k in m :: k <= n)
                 && b in m && log'[..b] != f.log[..b] && forall k | k in m && k < b :: log'[..k] == f.log[..k])
  {
    EveryRunIsHonest(c, calls);
    var f, p := Run(c, EMPTY, calls), ProgressOf(calls);
    var m, g := AnchorMap(c, f.anchors), Files(log', f.anchors, checkpoint');
    AnchoredLineChangedIff(c, g, |log'|, b);
    ChainIff(c, log');
    if Chain(c, log') && forall k | k in m :: k <= |log'| {
      forall k | k in m ensures Agrees(c, m, log', k) <==> log'[..k] == f.log[..k] {
        AgreesIff(c, f, p, log', k);
      }
    }
  }

  lemma AgreesIff(c: Codec, f: Files, p: Progress, log': seq<Line>, k: int)
    requires c.Sound() && Honest(c, f, p) && Chain(c, log') && k in AnchorMap(c, f.anchors) && k <= |log'|
    ensures 1 <= k <= |f.log|
    ensures Agrees(c, AnchorMap(c, f.anchors), log', k) <==> log'[..k] == f.log[..k]
  {
    HonestLogHasNoBreak(c, f.log);
    ChainIff(c, f.log);
    ChainIff(c, log');
    if c.digest(f.log[k - 1]) == c.digest(log'[k - 1]) {
      BackwardWalk(c, f.log, log', k);
    }
    if log'[..k] == f.log[..k] {
      assert log'[k - 1] == log'[..k][k - 1] == f.log[..k][k - 1];
    }
  }

  /** One line of an honest run edited, and nothing else. The report is at that line if it does not
      follow any more, at the next one if it does and there is one; an edit of the last line is
      reported there if the checkpoint or an anchor names that line, and otherwise not seen. */
  lemma {:induction false} EditIsLocated(c: Codec, calls: seq<Call>, j: nat, x: Line)
    requires c.Sound() && RunFits(c, calls)
    requires var log := Run(c, EMPTY, calls).log; j < |log| && x != log[j] && Bytes(c, log[j := x]) <= MAX_LOG_BYTES
    ensures var f, p := Run(c, EMPTY, calls), ProgressOf(calls);
            var g, n := f.(log := f.log[j := x]), |f.log|;
            Verify(c, g) ==
              if !Follows(c, g.log, j) then Broken(n, j + 1, ChainBroken)
              else if j + 1 < n then Broken(n, j + 2, ChainBroken)
              else if p.pointed == n then Broken(n, n, LastLineChanged)
              else if p.anchored == n then Broken(n, n, AnchoredLineChanged)
              else Verify(c, f)
  {
    EveryRunIsHonest(c, calls);
    var f := Run(c, EMPTY, calls);
    var g := f.(log := f.log[j := x]);
    EditBreaks(c, f, ProgressOf(calls), g, j);
    if j + 1 == |f.log| && Follows(c, g.log, j) {
      LastLineEdited(c, f, ProgressOf(calls), g);
    }
  }

  lemma EditBreaks(c: Codec, f: Files, p: Progress, g: Files, j: nat)
    requires c.Sound() && Honest(c, f, p) && Bytes(c, g.log) <= MAX_LOG_BYTES
    requires j < |f.log| == |g.log| && g.log[j] != f.log[j] && forall i | 0 <= i < |f.log| && i != j :: g.log[i] == f.log[i]
    ensures var n := |f.log|;
            && (!Follows(c, g.log, j) ==> Verify(c, g) == Broken(n, j + 1, ChainBroken))
            && (Follows(c, g.log, j) && j + 1 < n ==> Verify(c, g) == Broken(n, j + 2, ChainBroken))
            && (Follows(c, g.log, j) && j + 1 == n ==> Chain(c, g.log))
  {
    HonestLogHasNoBreak(c, f.log);
    ChainIff(c, f.log);
    forall k: nat | k < |f.log| && k != j && k != j + 1 ensures Follows(c, g.log, k) {
      assert Follows(c, f.log, k);
    }
    if j + 1 < |f.log| { assert Follows(c, f.log, j + 1) && !Follows(c, g.log, j + 1); }
    ChainBrokenIff(c, g, |f.log|, j + 1);
    ChainBrokenIff(c, g, |f.log|, j + 2);
  }

  lemma LastLineEdited(c: Codec, f: Files, p: Progress, g: Files)
    requires c.Sound() && Honest(c, f, p) && UnderCaps(c, f) && Bytes(c, g.log) <= MAX_LOG_BYTES && Chain(c, g.log)
    requires g == f.(log := g.log) && 0 < |g.log| == |f.log| && g.log[|f.log| - 1] != f.log[|f.log| - 1]
    requires forall i | 0 <= i < |f.log| - 1 :: g.log[i] == f.log[i]
    ensures var n := |f.log|;
            Verify(c, g) == if p.pointed == n then Broken(n, n, LastLineChanged)
                            else if p.anchored == n then Broken(n, n, AnchoredLineChanged)
                            else Verify(c, f)
  {
    var n, m := |f.log|, AnchorMap(c, f.anchors);
    if p.pointed == n {
      LastLineChangedIff(c, g, n, n);
    } else if p.anchored == n {
      assert forall k | k in m && k < n :: Agrees(c, m, g.log, k);
      AnchoredLineChangedIff(c, g, n, n);
    } else {
      HonestLogHasNoBreak(c, f.log);
      ChainIff(c, g.log);
      assert Failing(c, m, g.log) == {} && Failing(c, m, f.log) == {};
    }
  }
}
