/** The memory audit (skynet/memory_audit.py): a hash-chained log and an anchor file that only grow,
    a checkpoint that is replaced, and kills between any two of the writer's steps. */
module AuditLog {
  import opened Options

  type Line = string
  type Meta = string

  const GENESIS := "0000000000000000000000000000000000000000000000000000000000000000"
  const MAX_LOG_BYTES := 4_000_000
  const MAX_ANCHOR_BYTES := 4_000_000

  /** What `record.get("sequence")` gives, as far as the code looks at it.  JSON `true` is the
      Python integer 1; a float is not an `int` but may still equal one. */
  datatype Number = NoNumber | Integer(n: int) | Floating(x: real) {
    predicate Equals(i: int) {
      match this
      case NoNumber => false
      case Integer(n) => n == i
      case Floating(x) => x == i as real
    }
  }

  datatype Parsed =
    | NotJson
    | NotObject
    | Object(sequence: Number, previous: Option<string>, lineHash: Option<string>, brokenAt: Option<int>)

  /** One log record; `meta` stands for the digest, counts, reason, run and time it carries. */
  datatype Record = Record(sequence: nat, previous: string, brokenAt: Option<int>, meta: Meta)

  /** SHA-256 and JSON, as functions the code calls and never looks into. */
  datatype Codec = Codec(
    digest: Line -> string,
    parse: Line -> Parsed,
    render: Record -> Line,
    renderAnchor: (nat, string, Meta) -> Line,
    size: Line -> nat)
  {
    /** The hash has no collision, and parsing reads back what rendering wrote. */
    ghost predicate Sound() {
      && (forall a, b :: digest(a) == digest(b) ==> a == b)
      && (forall r :: parse(render(r)) == Object(Integer(r.sequence), Some(r.previous), None, r.brokenAt))
      && (forall s: nat, h, t :: parse(renderAnchor(s, h, t)) == Object(Integer(s), None, Some(h), None))
    }
  }

  datatype Checkpoint = Checkpoint(sequence: Number, lineHash: Option<string>)

  /** The three files; a missing log or anchor file has no lines. */
  datatype Files = Files(log: seq<Line>, anchors: seq<Line>, checkpoint: Option<Checkpoint>)

  const EMPTY := Files([], [], None)

  function Bytes(c: Codec, lines: seq<Line>): nat {
    if lines == [] then 0 else Bytes(c, lines[..|lines| - 1]) + c.size(lines[|lines| - 1]) + 1
  }

  // ------------------------------------------------------------------------------------------
  // Reading
  // ------------------------------------------------------------------------------------------

  function PreviousHash(c: Codec, lines: seq<Line>): string {
    if lines == [] then GENESIS else c.digest(lines[|lines| - 1])
  }

  /** Line k + 1 names its own position and the hash of the line before it. */
  predicate Links(c: Codec, lines: seq<Line>, k: nat)
    requires k < |lines|
  {
    var record := c.parse(lines[k]);
    && record.Object?
    && record.previous == Some(PreviousHash(c, lines[..k]))
    && record.sequence.Equals(k + 1)
  }

  /** The 1-based line where the chain first breaks. */
  function FirstBreak(c: Codec, lines: seq<Line>, k: nat := 0): Option<int>
    requires k <= |lines|
    decreases |lines| - k
  {
    if k == |lines| then None
    else if Links(c, lines, k) then FirstBreak(c, lines, k + 1)
    else Some(k + 1)
  }

  /** The lines the reader accepts: an oversized log is reported as no lines at all. */
  function Lines(c: Codec, log: seq<Line>): seq<Line> {
    if Bytes(c, log) > MAX_LOG_BYTES then [] else log
  }

  function MissingCommitted(checkpoint: Option<Checkpoint>, lines: seq<Line>): Option<int> {
    if checkpoint.Some? && checkpoint.value.sequence.Integer? && |lines| < checkpoint.value.sequence.n
    then Some(|lines| + 1) else None
  }

  function AnchorMap(c: Codec, anchors: seq<Line>): map<int, string> {
    if anchors == [] then map[]
    else
      var before := AnchorMap(c, anchors[..|anchors| - 1]);
      match c.parse(anchors[|anchors| - 1])
      case Object(Integer(s), _, Some(h), _) => before[s := h]
      case _ => before
  }

  function Anchored(c: Codec, anchors: seq<Line>): map<int, string> {
    if Bytes(c, anchors) > MAX_ANCHOR_BYTES then map[] else AnchorMap(c, anchors)
  }

  // ------------------------------------------------------------------------------------------
  // The verdict
  // ------------------------------------------------------------------------------------------

  datatype Reason =
    | ChainBroken
    | ShorterThanCheckpoint
    | LastLineChanged
    | AnchoredLineMissing
    | AnchoredLineChanged
    | CheckpointRolledBack

  datatype Report =
    | Clean(lines: nat)
    | Broken(lines: nat, at: int, reason: Reason)
    | IndexError

  /** Python's `lines[i]`: a negative index counts from the end. */
  function At(lines: seq<Line>, i: int): Option<Line> {
    if 0 <= i < |lines| then Some(lines[i])
    else if -|lines| <= i < 0 then Some(lines[|lines| + i])
    else None
  }

  function CheckpointVerdict(c: Codec, checkpoint: Option<Checkpoint>, lines: seq<Line>): Report {
    if checkpoint.None? then Clean(|lines|)
    else if MissingCommitted(checkpoint, lines).Some? then Broken(|lines|, |lines| + 1, ShorterThanCheckpoint)
    else if checkpoint.value.sequence.Equals(|lines|) && checkpoint.value.lineHash.Some? then
      match At(lines, -1)
      case None => IndexError
      case Some(last) =>
        if checkpoint.value.lineHash.value != c.digest(last) then Broken(|lines|, |lines|, LastLineChanged)
        else Clean(|lines|)
    else Clean(|lines|)
  }

  lemma Inhabited(s: set<int>)
    ensures s == {} || exists x :: x in s
  {
    if forall x :: x !in s {
      assert s == {};
    }
  }

  predicate IsLeast(s: set<int>, m: int) {
    m in s && forall k | k in s :: m <= k
  }

  predicate IsGreatest(s: set<int>, m: int) {
    m in s && forall k | k in s :: k <= m
  }

  lemma {:induction false} HasEnds(s: set<int>) returns (low: int, high: int)
    requires s != {}
    ensures IsLeast(s, low) && IsGreatest(s, high)
  {
    Inhabited(s);
    var x :| x in s;
    var rest := s - {x};
    low, high := x, x;
    if rest == {} {
    } else {
      low, high := HasEnds(rest);
      if x < low { low := x; }
      if x > high { high := x; }
    }
    forall k | k in s ensures low <= k <= high {
      if k != x { assert k in rest; }
    }
  }

  lemma Ends(s: set<int>)
    requires s != {}
    ensures exists m :: IsLeast(s, m)
    ensures exists m :: IsGreatest(s, m)
  {
    var low, high := HasEnds(s);
  }

  ghost function Least(s: set<int>): (m: int)
    requires s != {}
    ensures m in s && forall k | k in s :: m <= k
  {
    Ends(s);
    var m :| IsLeast(s, m);
    m
  }

  ghost function Greatest(s: set<int>): (m: int)
    requires s != {}
    ensures m in s && forall k | k in s :: k <= m
  {
    Ends(s);
    var m :| IsGreatest(s, m);
    m
  }

  /** The anchor for sequence k names no line, or a line with another hash. */
  predicate AnchorFails(c: Codec, anchored: map<int, string>, lines: seq<Line>, k: int)
    requires k in anchored
  {
    match At(lines, k - 1)
    case None => true
    case Some(line) => anchored[k] != c.digest(line)
  }

  ghost function Failing(c: Codec, anchored: map<int, string>, lines: seq<Line>): set<int> {
    set k | k in anchored && AnchorFails(c, anchored, lines, k)
  }

  predicate RolledBack(checkpoint: Option<Checkpoint>, highest: int) {
    checkpoint.Some? && checkpoint.value.sequence.Integer? && checkpoint.value.sequence.n < highest
  }

  ghost function AnchorVerdict(c: Codec, checkpoint: Option<Checkpoint>, anchored: map<int, string>, lines: seq<Line>): Report {
    if anchored == map[] then Clean(|lines|)
    else
      var highest := Greatest(anchored.Keys);
      var failing := Failing(c, anchored, lines);
      if highest > |lines| then Broken(|lines|, |lines| + 1, AnchoredLineMissing)
      else if failing != {} then
        var k := Least(failing);
        if At(lines, k - 1).None? then IndexError else Broken(|lines|, k, AnchoredLineChanged)
      else if RolledBack(checkpoint, highest) then Broken(|lines|, highest, CheckpointRolledBack)
      else Clean(|lines|)
  }

  ghost function Verify(c: Codec, f: Files): Report {
    var lines := Lines(c, f.log);
    var broken := FirstBreak(c, lines);
    if broken.Some? then Broken(|lines|, broken.value, ChainBroken)
    else
      var verdict := CheckpointVerdict(c, f.checkpoint, lines);
      if verdict.Clean? then AnchorVerdict(c, f.checkpoint, Anchored(c, f.anchors), lines) else verdict
  }

  // ------------------------------------------------------------------------------------------
  // Writing
  // ------------------------------------------------------------------------------------------

  /** Where a process running the checkpoint is killed, if it is. */
  datatype Kill = BeforeLog | AfterLog | AfterAnchor | Never

  datatype Call = Call(meta: Meta, at: Meta, kill: Kill)

  function NextRecord(c: Codec, f: Files, meta: Meta): Record {
    var lines := Lines(c, f.log);
    var broken := FirstBreak(c, lines);
    Record(|lines| + 1, PreviousHash(c, lines),
           if broken.Some? then broken else MissingCommitted(f.checkpoint, lines), meta)
  }

  function Checkpointed(c: Codec, f: Files, call: Call): Files {
    var record := NextRecord(c, f, call.meta);
    var line := c.render(record);
    var hash := c.digest(line);
    match call.kill
    case BeforeLog => f
    case AfterLog => f.(log := f.log + [line])
    case AfterAnchor => f.(log := f.log + [line], anchors := f.anchors + [c.renderAnchor(record.sequence, hash, call.at)])
    case Never =>
      Files(f.log + [line], f.anchors + [c.renderAnchor(record.sequence, hash, call.at)],
            Some(Checkpoint(Integer(record.sequence), Some(hash))))
  }

  function Run(c: Codec, start: Files, calls: seq<Call>): Files {
    if calls == [] then start
    else Checkpointed(c, Run(c, start, calls[..|calls| - 1]), calls[|calls| - 1])
  }

  /** The state directory as the code works on it. */
  class StateDirectory {
    var log: seq<Line>
    var anchors: seq<Line>
    var checkpoint: Option<Checkpoint>

    function Contents(): Files
      reads this
    {
      Files(log, anchors, checkpoint)
    }

    constructor ()
      ensures Contents() == EMPTY
    {
      log, anchors, checkpoint := [], [], None;
    }

    method ReadLog(c: Codec) returns (lines: seq<Line>, broken: Option<int>)
      ensures lines == Lines(c, log)
      ensures broken == FirstBreak(c, lines)
    {
      if Bytes(c, log) > MAX_LOG_BYTES {
        return [], None;
      }
      lines := log;
      var previous := GENESIS;
      var index := 0;
      while index < |lines|
        invariant 0 <= index <= |lines|
        invariant lines == log
        invariant previous == PreviousHash(c, lines[..index])
        invariant FirstBreak(c, lines) == FirstBreak(c, lines, index)
      {
        var record := c.parse(lines[index]);
        if !record.Object? || record.previous != Some(previous) || !record.sequence.Equals(index + 1) {
          return lines, Some(index + 1);
        }
        previous := c.digest(lines[index]);
        assert lines[..index + 1][..index] == lines[..index];
        index := index + 1;
      }
      return lines, None;
    }

    method AnchorHashes(c: Codec) returns (anchored: map<int, string>)
      ensures anchored == Anchored(c, anchors)
    {
      if Bytes(c, anchors) > MAX_ANCHOR_BYTES {
        return map[];
      }
      anchored := map[];
      var i := 0;
      while i < |anchors|
        invariant 0 <= i <= |anchors|
        invariant anchored == AnchorMap(c, anchors[..i])
      {
        assert anchors[..i + 1][..i] == anchors[..i];
        match c.parse(anchors[i]) {
          case Object(Integer(s), _, Some(h), _) => anchored := anchored[s := h];
          case _ =>
        }
        i := i + 1;
      }
      assert anchors[..i] == anchors;
    }

    method VerifyChain(c: Codec) returns (report: Report)
      ensures report == Verify(c, Contents())
    {
      var lines, broken := ReadLog(c);
      if broken.Some? {
        return Broken(|lines|, broken.value, ChainBroken);
      }
      report := CheckpointVerdict(c, checkpoint, lines);
      if !report.Clean? {
        return;
      }
      var anchored := AnchorHashes(c);
      if anchored == map[] {
        return;
      }
      var highest := MaxKey(anchored.Keys);
      if highest > |lines| {
        return Broken(|lines|, |lines| + 1, AnchoredLineMissing);
      }
      var failed := FirstFailing(c, anchored, lines);
      if failed.Some? {
        return if At(lines, failed.value - 1).None? then IndexError
               else Broken(|lines|, failed.value, AnchoredLineChanged);
      }
      if RolledBack(checkpoint, highest) {
        return Broken(|lines|, highest, CheckpointRolledBack);
      }
    }

    method CheckpointMemoryAudit(c: Codec, call: Call) returns (record: Record)
      modifies this
      ensures Contents() == Checkpointed(c, old(Contents()), call)
      ensures record == NextRecord(c, old(Contents()), call.meta)
    {
      var lines, broken := ReadLog(c);
      if broken.None? {
        broken := MissingCommitted(checkpoint, lines);
      }
      var previous := if lines == [] then GENESIS else c.digest(lines[|lines| - 1]);
      record := Record(|lines| + 1, previous, broken, call.meta);
      if call.kill == BeforeLog { return; }
      var line := c.render(record);
      log := log + [line];
      if call.kill == AfterLog { return; }
      var hash := c.digest(line);
      anchors := anchors + [c.renderAnchor(record.sequence, hash, call.at)];
      if call.kill == AfterAnchor { return; }
      checkpoint := Some(Checkpoint(Integer(record.sequence), Some(hash)));
    }
  }

  /** The walk over the anchors in ascending order, stopping at the first that fails. */
  method FirstFailing(c: Codec, anchored: map<int, string>, lines: seq<Line>) returns (k: Option<int>)
    ensures k.None? <==> Failing(c, anchored, lines) == {}
    ensures k.Some? ==> k.value == Least(Failing(c, anchored, lines))
  {
    ghost var failing := Failing(c, anchored, lines);
    var pending := anchored.Keys;
    while pending != {}
      invariant failing <= pending <= anchored.Keys
      decreases |pending|
    {
      Ends(pending);
      assert exists m :: m in pending && forall k | k in pending :: m <= k;
      var index :| index in pending && forall k | k in pending :: index <= k;
      if AnchorFails(c, anchored, lines, index) {
        assert index in failing;
        return Some(index);
      }
      pending := pending - {index};
    }
    return None;
  }

  method MaxKey(keys: set<int>) returns (m: int)
    requires keys != {}
    ensures m == Greatest(keys)
  {
    Ends(keys);
    assert exists g :: g in keys && forall k | k in keys :: k <= g;
    m :| m in keys && forall k | k in keys :: k <= m;
  }
}
