/** The health window after a reboot (skynet/recovery.py). */
module RebootGuard {
  import opened Options

  datatype Started = NoStart | UnreadableStart | At(time: real)

  datatype Guard = Guard(commit: string, rollbackCommit: string, startedAt: Started, healthyCycles: Option<int>,
                         active: Option<bool>, failed: bool, completed: bool, rolledBack: bool, rollbackAttempts: nat)

  /** The guard's file: absent, bytes that are not a guard record, or a record. */
  datatype GuardFile = Missing | Garbled | Stored(guard: Guard)

  /** The reboot request's file. */
  datatype RequestFile = NoRequest | GarbledRequest | Requested(commit: string, rollbackCommit: string)

  /** How the rollback action ends: there is none, it returns, it raises, or the process dies in it. */
  datatype Rollback = NotConfigured | Succeeds | Raises | Killed

  /** One observation: the clock, the health report, the rollback action's behaviour, and whether
      the file system lets a file be moved aside. */
  datatype Observation = Observation(now: real, healthy: bool, rollback: Rollback, movable: bool)

  datatype Report = Report(active: bool, ok: bool, changed: bool, completed: bool, rolledBack: bool, quarantined: bool)

  datatype Outcome = Reported(report: Report) | NoRollbackAction | RollbackRaised | Died

  predicate IsHexDigit(c: char) {
    '0' <= c <= '9' || 'a' <= c <= 'f' || 'A' <= c <= 'F'
  }

  predicate IsCommit(s: string) {
    7 <= |s| <= 64 && forall i | 0 <= i < |s| :: IsHexDigit(s[i])
  }

  predicate Readable(file: GuardFile) {
    file.Stored? && IsCommit(file.guard.commit) && IsCommit(file.guard.rollbackCommit)
  }

  /** A window is closed once it says so or once it was rolled back. */
  predicate IsClosed(guard: Guard) {
    guard.active == Some(false) || guard.rolledBack
  }

  predicate AgeExceeded(startedAt: Started, maxAge: real, now: real) {
    match startedAt
    case NoStart => false
    case UnreadableStart => true
    case At(time) => now - time > maxAge
  }

  function Cycles(guard: Guard): int {
    if guard.healthyCycles.Some? then guard.healthyCycles.value else 0
  }

  // ------------------------------------------------------------------------------------------
  // What one observation does to the file, and what it says
  // ------------------------------------------------------------------------------------------

  function SetAside(file: GuardFile, movable: bool): GuardFile {
    if movable then Missing else file
  }

  /** An open window, seen healthy once more. */
  function SeenHealthy(guard: Guard, window: int): Guard {
    var n := Cycles(guard) + 1;
    if n >= window then guard.(healthyCycles := Some(n), completed := true, active := Some(false))
    else guard.(healthyCycles := Some(n))
  }

  /** An open window, seen unhealthy. */
  function SeenUnhealthy(guard: Guard, rollback: Rollback): Guard {
    match rollback
    case Succeeds => guard.(failed := true, rolledBack := true, active := Some(false))
    case Raises => guard.(failed := true, rollbackAttempts := guard.rollbackAttempts + 1)
    case _ => guard.(failed := true)
  }

  function After(file: GuardFile, window: int, maxAge: real, o: Observation): GuardFile {
    if file.Missing? then file
    else if !Readable(file) then SetAside(file, o.movable)
    else if IsClosed(file.guard) then file
    else if AgeExceeded(file.guard.startedAt, maxAge, o.now) then SetAside(file, o.movable)
    else if o.healthy then Stored(SeenHealthy(file.guard, window))
    else Stored(SeenUnhealthy(file.guard, o.rollback))
  }

  function Answer(file: GuardFile, window: int, maxAge: real, o: Observation): Outcome {
    if file.Missing? then Reported(Report(false, true, false, false, false, false))
    else if !Readable(file) then Reported(Report(false, true, true, false, false, true))
    else if IsClosed(file.guard) then
      Reported(Report(false, !file.guard.failed, false, file.guard.completed, file.guard.rolledBack, false))
    else if AgeExceeded(file.guard.startedAt, maxAge, o.now) then Reported(Report(false, true, true, false, false, true))
    else if o.healthy then
      var completes := Cycles(file.guard) + 1 >= window;
      Reported(Report(!completes, true, true, completes, false, false))
    else match o.rollback
      case NotConfigured => NoRollbackAction
      case Raises => RollbackRaised
      case Killed => Died
      case Succeeds => Reported(Report(false, false, true, false, true, false))
  }

  /** The guard a request opens. */
  function Opened(commit: string, rollbackCommit: string, now: real): Guard {
    Guard(commit, rollbackCommit, At(now), Some(0), Some(true), false, false, false, 0)
  }

  class Window {
    const healthWindowCycles: int
    const maxAge: real
    var file: GuardFile
    var request: RequestFile

    constructor (healthWindowCycles: int, maxAge: real, file: GuardFile, request: RequestFile)
      ensures this.healthWindowCycles == healthWindowCycles && this.maxAge == maxAge
      ensures this.file == file && this.request == request
    {
      this.healthWindowCycles, this.maxAge, this.file, this.request := healthWindowCycles, maxAge, file, request;
    }

    method Quarantine(movable: bool) returns (moved: bool)
      modifies this`file
      ensures moved == movable && file == SetAside(old(file), movable)
    {
      moved := movable;
      if movable { file := Missing; }
    }

    /** Turns a valid request into a fresh open window, whatever window stood there before. */
    method Begin(now: real, movable: bool) returns (begun: Option<Guard>, invalid: bool)
      modifies this
      ensures old(request).NoRequest? ==> begun == None && !invalid && file == old(file) && request == NoRequest
      ensures invalid <==>
        old(request).GarbledRequest?
        || (old(request).Requested? && !(IsCommit(old(request).commit) && IsCommit(old(request).rollbackCommit)))
      ensures invalid ==> begun == None && file == old(file) && request == if movable then NoRequest else old(request)
      ensures !invalid && !old(request).NoRequest? ==>
        begun == Some(Opened(old(request).commit, old(request).rollbackCommit, now))
        && file == Stored(begun.value) && request == NoRequest
    {
      begun, invalid := None, false;
      if request.NoRequest? {
        return;
      }
      if request.GarbledRequest? || !IsCommit(request.commit) || !IsCommit(request.rollbackCommit) {
        if movable { request := NoRequest; }
        invalid := true;
        return;
      }
      var guard := Opened(request.commit, request.rollbackCommit, now);
      file := Stored(guard);
      request := NoRequest;
      begun := Some(guard);
    }

    /** One observation. The failed report is on disk before the rollback action is called. */
    method Observe(o: Observation) returns (outcome: Outcome, rolledBackTo: Option<string>)
      modifies this`file
      ensures file == After(old(file), healthWindowCycles, maxAge, o)
      ensures outcome == Answer(old(file), healthWindowCycles, maxAge, o)
      ensures rolledBackTo.Some? <==>
        Readable(old(file)) && !IsClosed(old(file).guard) && !AgeExceeded(old(file).guard.startedAt, maxAge, o.now)
        && !o.healthy && !o.rollback.NotConfigured?
      ensures rolledBackTo.Some? ==> rolledBackTo.value == old(file).guard.rollbackCommit && file.guard.failed
    {
      rolledBackTo := None;
      if file.Missing? {
        return Reported(Report(false, true, false, false, false, false)), None;
      }
      if !Readable(file) {
        var _ := Quarantine(o.movable);
        return Reported(Report(false, true, true, false, false, true)), None;
      }
      var guard := file.guard;
      if IsClosed(guard) {
        return Reported(Report(false, !guard.failed, false, guard.completed, guard.rolledBack, false)), None;
      }
      if AgeExceeded(guard.startedAt, maxAge, o.now) {
        var _ := Quarantine(o.movable);
        return Reported(Report(false, true, true, false, false, true)), None;
      }
      if o.healthy {
        guard := guard.(healthyCycles := Some(Cycles(guard) + 1));
        if guard.healthyCycles.value >= healthWindowCycles {
          guard := guard.(completed := true, active := Some(false));
          file := Stored(guard);
          return Reported(Report(false, true, true, true, false, false)), None;
        }
        file := Stored(guard);
        return Reported(Report(true, true, true, false, false, false)), None;
      }
      guard := guard.(failed := true);
      var commit := guard.rollbackCommit;
      file := Stored(guard);
      if o.rollback.NotConfigured? {
        return NoRollbackAction, None;
      }
      rolledBackTo := Some(commit);
      if o.rollback.Killed? {
        return Died, rolledBackTo;
      }
      if o.rollback.Raises? {
        guard := guard.(rollbackAttempts := guard.rollbackAttempts + 1);
        file := Stored(guard);
        return RollbackRaised, rolledBackTo;
      }
      guard := guard.(rolledBack := true, active := Some(false));
      file := Stored(guard);
      outcome := Reported(Report(false, false, true, false, true, false));
    }
  }

  // ------------------------------------------------------------------------------------------
  // Whole windows
  // ------------------------------------------------------------------------------------------

  /** The file after a run of observations. */
  function Watched(file: GuardFile, window: int, maxAge: real, os: seq<Observation>): GuardFile {
    if os == [] then file
    else After(Watched(file, window, maxAge, os[..|os| - 1]), window, maxAge, os[|os| - 1])
  }

  datatype End = Completed | RolledBack | Quarantined

  datatype Finish = Finish(at: nat, how: End)

  /** How many observations in time were healthy: in all, not in a row. */
  function Healthy(os: seq<Observation>, start: real, maxAge: real): nat {
    if os == [] then 0
    else
      var o := os[|os| - 1];
      Healthy(os[..|os| - 1], start, maxAge) + (if o.now - start <= maxAge && o.healthy then 1 else 0)
  }

  /** An unhealthy observation in time. */
  predicate Fails(o: Observation, start: real, maxAge: real) {
    o.now - start <= maxAge && !o.healthy
  }

  predicate AnyFails(os: seq<Observation>, start: real, maxAge: real) {
    exists i :: 0 <= i < |os| && Fails(os[i], start, maxAge)
  }

  /** Whether an observation ends a window that was open through the observations before it. */
  function Ends(before: seq<Observation>, o: Observation, start: real, window: int, maxAge: real): Option<End> {
    if o.now - start > maxAge then (if o.movable then Some(Quarantined) else None)
    else if o.healthy then (if Healthy(before, start, maxAge) + 1 >= window then Some(Completed) else None)
    else if o.rollback.Succeeds? then Some(RolledBack)
    else None
  }

  /** The first observation that ends the window, and how. */
  function FirstEnd(os: seq<Observation>, start: real, window: int, maxAge: real): (r: Option<Finish>)
    ensures r.Some? ==> r.value.at < |os|
  {
    if os == [] then None
    else
      var n := |os| - 1;
      var earlier := FirstEnd(os[..n], start, window, maxAge);
      if earlier.Some? then earlier
      else
        var end := Ends(os[..n], os[n], start, window, maxAge);
        if end.Some? then Some(Finish(n, end.value)) else None
  }

  /** It is the first, and it is one. */
  lemma {:induction false} FirstEndIsFirst(os: seq<Observation>, start: real, window: int, maxAge: real, i: nat)
    requires i < |os|
    ensures FirstEnd(os, start, window, maxAge).Some? && i < FirstEnd(os, start, window, maxAge).value.at ==>
      Ends(os[..i], os[i], start, window, maxAge) == None
    ensures FirstEnd(os, start, window, maxAge).Some? && i == FirstEnd(os, start, window, maxAge).value.at ==>
      Ends(os[..i], os[i], start, window, maxAge) == Some(FirstEnd(os, start, window, maxAge).value.how)
    ensures FirstEnd(os, start, window, maxAge).None? ==> Ends(os[..i], os[i], start, window, maxAge) == None
  {
    var n := |os| - 1;
    if i >= n {
    } else {
      FirstEndIsFirst(os[..n], start, window, maxAge, i);
      assert os[..n][..i] == os[..i];
    }
  }

  function AtLeastOne(window: int): int {
    if window >= 1 then window else 1
  }

  /** A window that a request opened, watched through any observations: it is open with a true
      count until the first observation that ends it, and after that it is what that one made it. */
  lemma {:induction false} WindowVerdict(commit: string, rollbackCommit: string, start: real, window: int, maxAge: real,
                                         os: seq<Observation>)
    requires IsCommit(commit) && IsCommit(rollbackCommit)
    ensures
      var file := Watched(Stored(Opened(commit, rollbackCommit, start)), window, maxAge, os);
      match FirstEnd(os, start, window, maxAge)
      case None =>
        file.Stored? && Readable(file) && file.guard.active == Some(true) && !file.guard.rolledBack && file.guard.startedAt == At(start)
        && file.guard.healthyCycles == Some(Healthy(os, start, maxAge)) && !file.guard.completed
        && (file.guard.failed <==> AnyFails(os, start, maxAge))
        && Healthy(os, start, maxAge) < AtLeastOne(window)
      case Some(Finish(i, Quarantined)) => file == Missing
      case Some(Finish(i, Completed)) =>
        file.Stored? && Readable(file) && file.guard.completed && !file.guard.rolledBack && IsClosed(file.guard)
        && file.guard.healthyCycles == Some(AtLeastOne(window))
        && (file.guard.failed <==> AnyFails(os[..i], start, maxAge))
      case Some(Finish(i, RolledBack)) =>
        file.Stored? && Readable(file) && file.guard.rolledBack && !file.guard.completed && file.guard.failed
        && file.guard.active == Some(false)
  {
    if os != [] {
      var n := |os| - 1;
      var front, o := os[..n], os[n];
      WindowVerdict(commit, rollbackCommit, start, window, maxAge, front);
      var earlier := FirstEnd(front, start, window, maxAge);
      if earlier.Some? {
        assert front[..earlier.value.at] == os[..earlier.value.at];
      } else {
        AnyFailsSnoc(os, start, maxAge);
      }
    }
  }

  lemma AnyFailsSnoc(os: seq<Observation>, start: real, maxAge: real)
    requires os != []
    ensures AnyFails(os, start, maxAge) <==> AnyFails(os[..|os| - 1], start, maxAge) || Fails(os[|os| - 1], start, maxAge)
  {
    var front := os[..|os| - 1];
    if AnyFails(front, start, maxAge) {
      var i :| 0 <= i < |front| && Fails(front[i], start, maxAge);
      assert Fails(os[i], start, maxAge);
    }
    if AnyFails(os, start, maxAge) {
      var i :| 0 <= i < |os| && Fails(os[i], start, maxAge);
      assert i < |front| ==> Fails(front[i], start, maxAge);
    }
  }

  /** An end is an end: nothing observed afterwards changes the file. */
  lemma {:induction false} EndIsFinal(commit: string, rollbackCommit: string, start: real, window: int, maxAge: real,
                                      os: seq<Observation>, more: seq<Observation>)
    requires IsCommit(commit) && IsCommit(rollbackCommit) && FirstEnd(os, start, window, maxAge).Some?
    ensures Watched(Stored(Opened(commit, rollbackCommit, start)), window, maxAge, os + more)
         == Watched(Stored(Opened(commit, rollbackCommit, start)), window, maxAge, os)
    decreases |more|
  {
    if more == [] {
      assert os + more == os;
    } else {
      var m := |more| - 1;
      EndIsFinal(commit, rollbackCommit, start, window, maxAge, os, more[..m]);
      WindowVerdict(commit, rollbackCommit, start, window, maxAge, os);
      assert (os + more)[..|os| + m] == os + more[..m];
    }
  }

  /** A durable record of a rollback means the action returned, once, on an unhealthy observation
      in time; an action that raised, or that the process died in, is never recorded as done. */
  lemma RolledBackMeansItReturned(commit: string, rollbackCommit: string, start: real, window: int, maxAge: real,
                                  os: seq<Observation>)
    returns (i: nat)
    requires IsCommit(commit) && IsCommit(rollbackCommit)
    requires var file := Watched(Stored(Opened(commit, rollbackCommit, start)), window, maxAge, os);
             file.Stored? && file.guard.rolledBack
    ensures i < |os| && Fails(os[i], start, maxAge) && os[i].rollback.Succeeds?
    ensures forall j :: 0 <= j < i && Fails(os[j], start, maxAge) ==> !os[j].rollback.Succeeds?
  {
    WindowVerdict(commit, rollbackCommit, start, window, maxAge, os);
    i := FirstEnd(os, start, window, maxAge).value.at;
    FirstEndIsFirst(os, start, window, maxAge, i);
    forall j | 0 <= j < i && Fails(os[j], start, maxAge) ensures !os[j].rollback.Succeeds? {
      FirstEndIsFirst(os, start, window, maxAge, j);
    }
  }

  /** Completion comes at the configured count of healthy observations in time, neither before
      nor after it. */
  lemma CompletesAtTheCount(commit: string, rollbackCommit: string, start: real, window: int, maxAge: real,
                            os: seq<Observation>)
    returns (i: nat)
    requires IsCommit(commit) && IsCommit(rollbackCommit)
    requires var file := Watched(Stored(Opened(commit, rollbackCommit, start)), window, maxAge, os);
             file.Stored? && file.guard.completed
    ensures i < |os| && os[i].healthy
    ensures Healthy(os[..i + 1], start, maxAge) == AtLeastOne(window)
    ensures Healthy(os[..i], start, maxAge) < AtLeastOne(window)
  {
    WindowVerdict(commit, rollbackCommit, start, window, maxAge, os);
    i := FirstEnd(os, start, window, maxAge).value.at;
    FirstEndIsFirst(os, start, window, maxAge, i);
    forall j: nat | j < i ensures Ends(os[..i][..j], os[..i][j], start, window, maxAge) == None {
      FirstEndIsFirst(os, start, window, maxAge, j);
      assert os[..i][..j] == os[..j];
    }
    NoEnd(os[..i], start, window, maxAge);
    WindowVerdict(commit, rollbackCommit, start, window, maxAge, os[..i]);
    assert os[..i + 1][..i] == os[..i];
  }

  lemma {:induction false} NoEnd(os: seq<Observation>, start: real, window: int, maxAge: real)
    requires forall j: nat | j < |os| :: Ends(os[..j], os[j], start, window, maxAge) == None
    ensures FirstEnd(os, start, window, maxAge) == None
  {
    if os == [] {
    } else {
      var front := os[..|os| - 1];
      forall j: nat | j < |front| ensures Ends(front[..j], front[j], start, window, maxAge) == None {
        assert front[..j] == os[..j] && front[j] == os[j];
        assert Ends(os[..j], os[j], start, window, maxAge) == None;
      }
      NoEnd(front, start, window, maxAge);
      assert Ends(os[..|os| - 1], os[|os| - 1], start, window, maxAge) == None;
    }
  }

  /** The observation that completes a window always answers ok. Every later one answers ok
      exactly when no observation before the completion was unhealthy: a failed rollback that the
      window outlived is reported from then on, although the window completed. */
  lemma {:induction false} CompletedWindowAnswers(commit: string, rollbackCommit: string, start: real, window: int, maxAge: real,
                               os: seq<Observation>, later: Observation)
    requires IsCommit(commit) && IsCommit(rollbackCommit)
    requires FirstEnd(os, start, window, maxAge).Some? && FirstEnd(os, start, window, maxAge).value.how == Completed
    ensures
      var i := FirstEnd(os, start, window, maxAge).value.at;
      var begun := Stored(Opened(commit, rollbackCommit, start));
      var completing := Answer(Watched(begun, window, maxAge, os[..i]), window, maxAge, os[i]);
      completing.Reported? && completing.report.completed && completing.report.ok
      && var answer := Answer(Watched(begun, window, maxAge, os), window, maxAge, later);
         answer.Reported? && answer.report.completed && !answer.report.changed
         && (answer.report.ok <==> !AnyFails(os[..i], start, maxAge))
  {
    var i := FirstEnd(os, start, window, maxAge).value.at;
    FirstEndIsFirst(os, start, window, maxAge, i);
    forall j: nat | j < i ensures Ends(os[..i][..j], os[..i][j], start, window, maxAge) == None {
      FirstEndIsFirst(os, start, window, maxAge, j);
      assert os[..i][..j] == os[..j];
    }
    NoEnd(os[..i], start, window, maxAge);
    WindowVerdict(commit, rollbackCommit, start, window, maxAge, os[..i]);
    WindowVerdict(commit, rollbackCommit, start, window, maxAge, os);
  }

  // ------------------------------------------------------------------------------------------
  // Answers
  // ------------------------------------------------------------------------------------------

  /** What an observation of a window that is still open answers: late, that it was set aside, be
      that possible or not; healthy, that all is well, and whether the window goes on; unhealthy,
      that it was rolled back, or how the rollback failed. */
  lemma RunningWindowAnswers(commit: string, rollbackCommit: string, start: real, window: int, maxAge: real,
                             os: seq<Observation>, o: Observation)
    requires IsCommit(commit) && IsCommit(rollbackCommit) && FirstEnd(os, start, window, maxAge).None?
    ensures
      var answer := Answer(Watched(Stored(Opened(commit, rollbackCommit, start)), window, maxAge, os), window, maxAge, o);
      if o.now - start > maxAge then
        answer == Reported(Report(active := false, ok := true, changed := true, completed := false, rolledBack := false, quarantined := true))
      else if o.healthy then
        var last := Healthy(os, start, maxAge) + 1 >= window;
        answer == Reported(Report(active := !last, ok := true, changed := true, completed := last, rolledBack := false, quarantined := false))
      else
        match o.rollback
        case NotConfigured => answer == NoRollbackAction
        case Raises => answer == RollbackRaised
        case Killed => answer == Died
        case Succeeds =>
          answer == Reported(Report(active := false, ok := false, changed := true, completed := false, rolledBack := true, quarantined := false))
  {
    WindowVerdict(commit, rollbackCommit, start, window, maxAge, os);
  }

  /** What any later observation of a window answers that was rolled back, or set aside. */
  lemma EndedWindowAnswers(commit: string, rollbackCommit: string, start: real, window: int, maxAge: real,
                           os: seq<Observation>, o: Observation)
    requires IsCommit(commit) && IsCommit(rollbackCommit)
    requires FirstEnd(os, start, window, maxAge).Some? && FirstEnd(os, start, window, maxAge).value.how != Completed
    ensures
      var undone := FirstEnd(os, start, window, maxAge).value.how == RolledBack;
      Answer(Watched(Stored(Opened(commit, rollbackCommit, start)), window, maxAge, os), window, maxAge, o)
        == Reported(Report(active := false, ok := !undone, changed := false, completed := false, rolledBack := undone, quarantined := false))
  {
    WindowVerdict(commit, rollbackCommit, start, window, maxAge, os);
  }

  /** How often a rollback raised on an unhealthy observation in time. */
  function Raised(os: seq<Observation>, start: real, maxAge: real): nat {
    if os == [] then 0
    else
      var o := os[|os| - 1];
      Raised(os[..|os| - 1], start, maxAge) + (if Fails(o, start, maxAge) && o.rollback.Raises? then 1 else 0)
  }

  /** While the window is open every rollback that raised is counted. */
  lemma {:induction false} AttemptsAreCounted(commit: string, rollbackCommit: string, start: real, window: int, maxAge: real,
                                              os: seq<Observation>)
    requires IsCommit(commit) && IsCommit(rollbackCommit) && FirstEnd(os, start, window, maxAge).None?
    ensures var file := Watched(Stored(Opened(commit, rollbackCommit, start)), window, maxAge, os);
            file.Stored? && file.guard.rollbackAttempts == Raised(os, start, maxAge)
  {
    if os == [] {
    } else {
      var front := os[..|os| - 1];
      AttemptsAreCounted(commit, rollbackCommit, start, window, maxAge, front);
      WindowVerdict(commit, rollbackCommit, start, window, maxAge, front);
    }
  }

  const HEX_DIGITS := "0123456789abcdefABCDEF"

  /** A commit is seven to sixty-four hexadecimal digits. */
  lemma CommitIff(s: string)
    ensures IsCommit(s) <==> 7 <= |s| <= 64 && forall i | 0 <= i < |s| :: s[i] in HEX_DIGITS
  {
    forall i | 0 <= i < |s| ensures IsHexDigit(s[i]) <==> s[i] in HEX_DIGITS {
      HexDigitIff(s[i]);
    }
  }

  lemma HexDigitIff(c: char)
    ensures IsHexDigit(c) <==> c in HEX_DIGITS
  {
    var h := HEX_DIGITS;
    assert h[0] == '0' && h[1] == '1' && h[2] == '2' && h[3] == '3' && h[4] == '4' && h[5] == '5' && h[6] == '6' && h[7] == '7'
        && h[8] == '8' && h[9] == '9' && h[10] == 'a' && h[11] == 'b' && h[12] == 'c' && h[13] == 'd' && h[14] == 'e'
        && h[15] == 'f' && h[16] == 'A' && h[17] == 'B' && h[18] == 'C' && h[19] == 'D' && h[20] == 'E' && h[21] == 'F';
  }

  /** A file that holds no guard, or one whose commits are none, or an open guard whose start cannot
      be read, is set aside; a guard without a start never expires, and without a count starts from
      none. */
  lemma OddFilesAreHandled(file: GuardFile, window: int, maxAge: real, o: Observation)
    ensures file.Missing? ==>
      && After(file, window, maxAge, o) == Missing
      && Answer(file, window, maxAge, o)
           == Reported(Report(active := false, ok := true, changed := false, completed := false, rolledBack := false, quarantined := false))
    ensures file.Garbled? || (file.Stored? && !(IsCommit(file.guard.commit) && IsCommit(file.guard.rollbackCommit)))
            || (file.Stored? && Readable(file) && !IsClosed(file.guard) && file.guard.startedAt == UnreadableStart) ==>
      && After(file, window, maxAge, o) == (if o.movable then Missing else file)
      && Answer(file, window, maxAge, o)
           == Reported(Report(active := false, ok := true, changed := true, completed := false, rolledBack := false, quarantined := true))
    ensures file.Stored? && Readable(file) && !IsClosed(file.guard) && file.guard.startedAt == NoStart && file.guard.healthyCycles.None?
            && o.healthy && window > 1 ==>
      After(file, window, maxAge, o) == Stored(file.guard.(healthyCycles := Some(1)))
  {
  }
}
