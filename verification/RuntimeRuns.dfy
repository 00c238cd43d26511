/**
 * Runs of many processes over one home: they acquire and release the owner lease, publish, remove and resolve readiness,
 * start and die, in any order. What every run keeps.
 */
module RuntimeRuns {
  import opened Options
  import opened RuntimeFiles

  /** The files, the live processes by pid, and the clock. */
  datatype World = World(files: Files, live: map<int, string>, now: int)

  datatype Step =
    | Acquire(who: Process, token: string, deleted: bool)
    | Release(token: string, deleted: bool)
    | Publish(who: Process, token: string)
    | Remove(token: string, deleted: bool)
    | Resolve(who: Process, deletions: Deletions)
    | Start(started: Process)
    | Die(pid: int)
    | DieWriting(who: Process, deleted: bool) // dies with the owner file created or cut to nothing, and not written
    | Tick(ms: nat)

  function ViewOf(w: World, p: Process): View { View(p, w.live.Keys, w.now) }

  predicate Running(w: World, p: Process) { p.pid > 0 && p.pid in w.live && w.live[p.pid] == p.processInstance }

  /** The lease is this process's own: it may rewrite the file in place. */
  predicate OwnsLease(f: Files, who: Process)
  {
    f.owner.Readable? && f.owner.record.pid == who.pid && f.owner.record.processInstance == who.processInstance
  }

  /** Only a running process acts, and a pid names one process at a time. */
  predicate Enabled(w: World, step: Step)
  {
    match step
    case Acquire(who, token, _) => Running(w, who) && token != ""
    case Publish(who, _) => Running(w, who)
    case Resolve(who, _) => Running(w, who)
    case DieWriting(who, deleted) => Running(w, who) && (MayAcquire(w.files, ViewOf(w, who), deleted) || OwnsLease(w.files, who))
    case Start(started) => started.pid > 0 && started.pid !in w.live && started.processInstance != ""
    case _ => true
  }

  function After(w: World, step: Step): World
  {
    match step
    case Acquire(who, token, deleted) => w.(files := AfterAcquire(w.files, ViewOf(w, who), token, deleted))
    case Release(token, deleted) => w.(files := AfterRelease(w.files, token, deleted))
    case Publish(who, token) => w.(files := AfterPublish(w.files, ViewOf(w, who), token))
    case Remove(token, deleted) => w.(files := AfterRemove(w.files, token, deleted))
    case Resolve(who, deleted) => w.(files := AfterResolve(w.files, ViewOf(w, who), deleted))
    case Start(started) => w.(live := w.live[started.pid := started.processInstance])
    case Die(pid) => w.(live := w.live - {pid})
    case DieWriting(who, _) => w.(live := w.live - {who.pid}, files := w.files.(owner := Unreadable(Some(w.now))))
    case Tick(ms) => w.(now := w.now + ms)
  }

  predicate Possible(w: World, steps: seq<Step>)
    decreases steps
  {
    steps == [] || (Enabled(w, steps[0]) && Possible(After(w, steps[0]), steps[1..]))
  }

  function Run(w: World, steps: seq<Step>): World
    decreases steps
  {
    if steps == [] then w else Run(After(w, steps[0]), steps[1..])
  }

  // ---------------------------------------------------------------------------------------------
  // Mutual exclusion of the lease
  // ---------------------------------------------------------------------------------------------

  /** The running process `p` holds the lease under `token`. */
  predicate Holds(w: World, p: Process, token: string)
  {
    Running(w, p) && w.files.owner == Readable(Record(p.pid, p.processInstance, token))
  }

  /** The holder gives the lease up only by dying or by a release under its token. */
  predicate EndsLease(step: Step, p: Process, token: string)
  {
    match step
    case Die(pid) => pid == p.pid
    case DieWriting(who, _) => who.pid == p.pid
    case Release(t, deleted) => t == token && deleted
    case _ => false
  }

  /** Nobody can take, reclaim or discard the lease of a running holder. */
  lemma LeaseKept(w: World, step: Step, p: Process, token: string)
    requires Holds(w, p, token) && Enabled(w, step) && !EndsLease(step, p, token)
    ensures Holds(After(w, step), p, token)
  {
  }

  /** In every run the lease stays with its running holder until it dies or releases it; nobody else holds it meanwhile. */
  lemma {:induction false} LeaseInEveryRun(w: World, steps: seq<Step>, p: Process, token: string)
    requires Holds(w, p, token) && Possible(w, steps)
    requires forall i :: 0 <= i < |steps| ==> !EndsLease(steps[i], p, token)
    ensures Holds(Run(w, steps), p, token)
    ensures forall q, t :: Holds(Run(w, steps), q, t) ==> q == p && t == token
    decreases |steps|
  {
    if steps != [] {
      hide After, Enabled, Holds, EndsLease;
      LeaseKept(w, steps[0], p, token);
      LeaseInEveryRun(After(w, steps[0]), steps[1..], p, token);
    }
  }

  /** Whether a run resolves, at some step, while the lease it finds is dead or stale, and deletes it. */
  ghost predicate SomeoneDiscards(w: World, steps: seq<Step>)
    decreases |steps|
  {
    steps != [] && (DiscardsLease(w, steps[0]) || SomeoneDiscards(After(w, steps[0]), steps[1..]))
  }

  predicate DiscardsLease(w: World, step: Step)
  {
    step.Resolve? && OwnerDiscarded(w.files, ViewOf(w, step.who), step.deletions.owner)
  }

  /** Without acquiring, releasing and dying on it, the lease file changes only by a look that finds its owner dead or the file stale. */
  lemma {:induction false} LeaseChangesOnlyWhenDead(w: World, steps: seq<Step>)
    requires Possible(w, steps) && !SomeoneDiscards(w, steps)
    requires forall i :: 0 <= i < |steps| ==> !steps[i].Acquire? && !steps[i].Release? && !steps[i].DieWriting?
    ensures Run(w, steps).files.owner == w.files.owner
    decreases |steps|
  {
    if steps != [] {
      OwnerKept(w, steps[0]);
      hide After, Enabled, DiscardsLease;
      LeaseChangesOnlyWhenDead(After(w, steps[0]), steps[1..]);
    }
  }

  lemma OwnerKept(w: World, step: Step)
    requires Enabled(w, step) && !DiscardsLease(w, step) && !step.Acquire? && !step.Release? && !step.DieWriting?
    ensures After(w, step).files.owner == w.files.owner
  {
  }

  lemma {:induction false} ClockOnlyAdvances(w: World, steps: seq<Step>)
    ensures w.now <= Run(w, steps).now
    decreases |steps|
  {
    if steps != [] {
      ClockStep(w, steps[0]);
      hide After;
      ClockOnlyAdvances(After(w, steps[0]), steps[1..]);
    }
  }

  lemma ClockStep(w: World, step: Step)
    ensures w.now <= After(w, step).now
  {
  }

  /** In every run a runtime file that became unreadable stays as it is until it is old enough to be reclaimed. */
  lemma {:induction false} UnreadableHeldInEveryRun(w: World, steps: seq<Step>)
    requires w.files.runtime.Unreadable? && Possible(w, steps)
    requires !MayReclaim(w.files.runtime.modifiedAt, Run(w, steps).now)
    ensures Run(w, steps).files.runtime == w.files.runtime
    decreases |steps|
  {
    if steps != [] {
      ClockOnlyAdvances(w, steps);
      HeldStep(w, steps[0]);
      hide After, Enabled, MayReclaim;
      UnreadableHeldInEveryRun(After(w, steps[0]), steps[1..]);
    }
  }

  lemma HeldStep(w: World, step: Step)
    requires w.files.runtime.Unreadable? && !MayReclaim(w.files.runtime.modifiedAt, w.now)
    ensures After(w, step).files.runtime == w.files.runtime
  {
  }

  // ---------------------------------------------------------------------------------------------
  // A published record stays visible
  // ---------------------------------------------------------------------------------------------

  /** `p` holds the lease under `token` and has published its readiness. */
  predicate Visible(w: World, p: Process, token: string)
  {
    Holds(w, p, token) && w.files.runtime == Readable(Record(p.pid, p.processInstance, token))
  }

  predicate EndsVisibility(step: Step, p: Process, token: string)
  {
    EndsLease(step, p, token) || (step.Remove? && step.token == token && step.deleted)
  }

  /** A successful publication makes the record visible. */
  lemma PublishingShows(w: World, p: Process, token: string)
    requires Running(w, p) && PublishOutcome(w.files, ViewOf(w, p), token).Published?
    ensures Visible(After(w, Publish(p, token)), p, token)
  {
  }

  lemma VisibleKept(w: World, step: Step, p: Process, token: string)
    requires Visible(w, p, token) && Enabled(w, step) && !EndsVisibility(step, p, token)
    ensures Visible(After(w, step), p, token)
  {
    LeaseKept(w, step, p, token);
  }

  /** Whoever looks at a visible record sees it, and the look changes nothing. */
  lemma VisibleIsReported(w: World, p: Process, token: string, who: Process, deleted: Deletions)
    requires Visible(w, p, token) && Running(w, who)
    ensures ResolveOutcome(w.files, ViewOf(w, who), deleted)
            == Status(true, Some(Record(p.pid, p.processInstance, token)), false, false)
    ensures After(w, Resolve(who, deleted)) == w
  {
  }

  /**
   * In every run, a published record is reported to every running process until its owner dies, the lease is released
   * under its token, or the record is removed under its token.
   */
  lemma {:induction false} VisibleInEveryRun(w: World, steps: seq<Step>, p: Process, token: string, who: Process, deleted: Deletions)
    requires Visible(w, p, token) && Possible(w, steps)
    requires forall i :: 0 <= i < |steps| ==> !EndsVisibility(steps[i], p, token)
    ensures Visible(Run(w, steps), p, token)
    ensures Running(Run(w, steps), who) ==>
              ResolveOutcome(Run(w, steps).files, ViewOf(Run(w, steps), who), deleted).record
              == Some(Record(p.pid, p.processInstance, token))
    decreases |steps|
  {
    if steps != [] {
      hide After, Enabled, Visible, EndsVisibility;
      VisibleKept(w, steps[0], p, token);
      VisibleInEveryRun(After(w, steps[0]), steps[1..], p, token, who, deleted);
    } else if Running(w, who) {
      VisibleIsReported(w, p, token, who, deleted);
    }
  }

  /** A holder that publishes while the runtime file is nobody else's becomes visible. */
  lemma HolderPublishes(w: World, p: Process, token: string)
    requires Holds(w, p, token) && RuntimeFree(w.files, ViewOf(w, p), token)
    ensures Visible(After(w, Publish(p, token)), p, token)
  {
    PublishesIff(w.files, ViewOf(w, p), token);
  }

  /** Whoever finds no lease, or one that is dead or stale and can be deleted, gets it; a live one is never taken. */
  lemma AcquiresIff(w: World, p: Process, token: string, deleted: bool)
    requires Running(w, p)
    requires w.files.owner.Readable? ==> w.files.owner.record.token != token
    ensures Holds(After(w, Acquire(p, token, deleted)), p, token)
            <==> w.files.owner.Missing? || (deleted && !Young(w.files.owner, w.now)
                                            && (w.files.owner.Readable? ==> !Live(ViewOf(w, p), w.files.owner.record)))
  {
  }

  /** A release under the holder's token frees the lease when the deletion works, and a release under another does nothing. */
  lemma ReleaseFrees(w: World, p: Process, token: string, given: string, deleted: bool)
    requires Holds(w, p, token)
    ensures After(w, Release(given, deleted)).files.owner == if given == token && deleted then Missing else w.files.owner
  {
  }

  // ---------------------------------------------------------------------------------------------
  // A removed record is gone
  // ---------------------------------------------------------------------------------------------

  predicate NoRecordUnder(w: World, token: string) { w.files.runtime.Readable? ==> w.files.runtime.record.token != token }

  predicate Publishes(step: Step, token: string) { step.Publish? && step.token == token }

  lemma NoRecordKept(w: World, step: Step, token: string)
    requires NoRecordUnder(w, token) && !Publishes(step, token)
    ensures NoRecordUnder(After(w, step), token)
  {
  }

  lemma {:induction false} NoRecordInEveryRun(w: World, steps: seq<Step>, token: string)
    requires NoRecordUnder(w, token)
    requires forall i :: 0 <= i < |steps| ==> !Publishes(steps[i], token)
    ensures NoRecordUnder(Run(w, steps), token)
    decreases |steps|
  {
    if steps != [] {
      NoRecordKept(w, steps[0], token);
      hide After, NoRecordUnder, Publishes;
      NoRecordInEveryRun(After(w, steps[0]), steps[1..], token);
    }
  }

  /**
   * Once a removal under a token has worked, no process is told of a record under that token, however the run goes on,
   * until it is published under that token again. A record under another token is untouched by the removal.
   */
  lemma RemovedInEveryRun(w: World, token: string, steps: seq<Step>, who: Process, deleted: Deletions)
    requires forall i :: 0 <= i < |steps| ==> !Publishes(steps[i], token)
    ensures var gone := After(w, Remove(token, true));
            var end := Run(gone, steps);
            var told := ResolveOutcome(end.files, ViewOf(end, who), deleted).record;
            && (told.Some? ==> told.value.token != token)
            && (w.files.runtime.Readable? ==>
                  gone == w.(files := if w.files.runtime.record.token == token then Files(w.files.owner, Missing, false) else w.files))
  {
    var gone := After(w, Remove(token, true));
    assert NoRecordUnder(gone, token);
    NoRecordInEveryRun(gone, steps, token);
    var end := Run(gone, steps);
    hide Run, After;
    if ResolveOutcome(end.files, ViewOf(end, who), deleted).record.Some? {
      ReportedIffLiveOwners(end.files, ViewOf(end, who), deleted, end.files.runtime.record);
    }
  }

  // ---------------------------------------------------------------------------------------------
  // What a report is worth
  // ---------------------------------------------------------------------------------------------

  /** The process a record names is still the one running under its pid. */
  predicate Genuine(w: World, r: Record) { Running(w, Process(r.pid, r.processInstance)) }

  /**
   * Owner and runtime records written by the steps of a run always name the process that wrote them; a record is never of
   * an empty instance or an empty token.
   */
  predicate WellWritten(w: World)
  {
    && (forall pid :: pid in w.live ==> pid > 0 && w.live[pid] != "")
    && (w.files.owner.Readable? ==> w.files.owner.record.pid > 0 && w.files.owner.record.processInstance != "" && w.files.owner.record.token != "")
    && (w.files.runtime.Readable? ==>
          w.files.runtime.record.pid > 0 && w.files.runtime.record.processInstance != "" && w.files.runtime.record.token != "")
  }

  lemma {:induction false} WellWrittenInEveryRun(w: World, steps: seq<Step>)
    requires WellWritten(w) && Possible(w, steps)
    ensures WellWritten(Run(w, steps))
    decreases |steps|
  {
    if steps != [] {
      hide After, Enabled, WellWritten;
      WellWrittenKept(w, steps[0]);
      WellWrittenInEveryRun(After(w, steps[0]), steps[1..]);
    }
  }

  lemma WellWrittenKept(w: World, step: Step)
    requires WellWritten(w) && Enabled(w, step)
    ensures WellWritten(After(w, step))
  {
  }

  /** A runtime record of the owner's token is the owner's own record. */
  predicate OneRecordPerToken(w: World)
  {
    w.files.owner.Readable? && w.files.runtime.Readable? && w.files.owner.record.token == w.files.runtime.record.token ==>
      w.files.owner.record == w.files.runtime.record
  }

  /** Whoever acquires the lease made a token of its own: it is not the one a runtime record still carries. */
  predicate FreshToken(w: World, step: Step)
  {
    step.Acquire? && w.files.runtime.Readable? ==> step.token != w.files.runtime.record.token
  }

  predicate FreshTokens(w: World, steps: seq<Step>)
    decreases |steps|
  {
    steps == [] || (FreshToken(w, steps[0]) && FreshTokens(After(w, steps[0]), steps[1..]))
  }

  lemma OneRecordKept(w: World, step: Step)
    requires OneRecordPerToken(w) && Enabled(w, step) && FreshToken(w, step)
    ensures OneRecordPerToken(After(w, step))
  {
  }

  lemma {:induction false} OneRecordInEveryRun(w: World, steps: seq<Step>)
    requires OneRecordPerToken(w) && Possible(w, steps) && FreshTokens(w, steps)
    ensures OneRecordPerToken(Run(w, steps))
    decreases |steps|
  {
    if steps != [] {
      hide After, Enabled, OneRecordPerToken, FreshToken;
      OneRecordKept(w, steps[0]);
      OneRecordInEveryRun(After(w, steps[0]), steps[1..]);
    }
  }

  /**
   * In every run in which tokens are made fresh, what a process is told is ready is the owner's own record: the same pid,
   * instance and token as the lease, with a process alive under that pid; and whoever is told about its own pid is told
   * about itself.
   */
  lemma ReportInEveryRun(w: World, steps: seq<Step>, who: Process, deleted: Deletions, r: Record)
    requires WellWritten(w) && OneRecordPerToken(w) && Possible(w, steps) && FreshTokens(w, steps)
    requires Running(Run(w, steps), who)
    requires ResolveOutcome(Run(w, steps).files, ViewOf(Run(w, steps), who), deleted).record == Some(r)
    ensures var end := Run(w, steps);
            && end.files.owner == Readable(r) && end.files.runtime == Readable(r) && r.pid in end.live
            && (r.pid == who.pid ==> Genuine(end, r))
  {
    hide Run, Possible, FreshTokens;
    WellWrittenInEveryRun(w, steps);
    OneRecordInEveryRun(w, steps);
    var end := Run(w, steps);
    ReportedIffLiveOwners(end.files, ViewOf(end, who), deleted, r);
  }

  /**
   * A record left by a dead daemon is reported to another process if and only if some new process runs under the dead
   * one's pid, and that new process itself is never fooled.
   */
  lemma DeadDaemonReportedIffPidReused(w: World, who: Process, deleted: Deletions, r: Record)
    requires WellWritten(w) && Running(w, who)
    requires w.files.owner == Readable(r) && w.files.runtime == Readable(r) && !Genuine(w, r)
    ensures ResolveOutcome(w.files, ViewOf(w, who), deleted).record == Some(r) <==> r.pid in w.live && r.pid != who.pid
  {
  }

  /** Some step of the run starts a process under `pid` with `instance`. */
  ghost predicate Starts(steps: seq<Step>, pid: int, processInstance: string)
  {
    exists i :: 0 <= i < |steps| && steps[i] == Start(Process(pid, processInstance))
  }

  /** Whatever runs under a pid at the end ran there before the run or was started in it. */
  lemma {:induction false} LiveOrStarted(w: World, steps: seq<Step>, pid: int)
    requires Possible(w, steps) && pid in Run(w, steps).live
    ensures (pid in w.live && w.live[pid] == Run(w, steps).live[pid]) || Starts(steps, pid, Run(w, steps).live[pid])
    decreases |steps|
  {
    if steps != [] {
      var next, rest := After(w, steps[0]), steps[1..];
      LiveOrStarted(next, rest, pid);
      var name := Run(w, steps).live[pid];
      if Starts(rest, pid, name) {
        var i :| 0 <= i < |rest| && rest[i] == Start(Process(pid, name));
        assert steps[i + 1] == Start(Process(pid, name));
      } else {
        LiveStep(w, steps[0], pid);
        assert steps[0] == Start(Process(pid, name)) ==> Starts(steps, pid, name);
      }
    }
  }

  lemma LiveStep(w: World, step: Step, pid: int)
    requires Enabled(w, step) && pid in After(w, step).live
    ensures (pid in w.live && w.live[pid] == After(w, step).live[pid]) || step == Start(Process(pid, After(w, step).live[pid]))
  {
  }

  /**
   * A daemon that was ready and is gone at the end of a run is still reported to another process if and only if its two
   * records are still there and a new process runs under its pid, which the run itself then started; that new process is
   * never fooled.
   */
  lemma DeadDaemonInEveryRun(w: World, steps: seq<Step>, p: Process, token: string, who: Process, deleted: Deletions)
    requires WellWritten(w) && Visible(w, p, token) && Possible(w, steps) && FreshTokens(w, steps)
    requires Running(Run(w, steps), who) && !Running(Run(w, steps), p)
    ensures var end, r := Run(w, steps), Record(p.pid, p.processInstance, token);
            var reported := ResolveOutcome(end.files, ViewOf(end, who), deleted).record == Some(r);
            && (reported <==> end.files.owner == Readable(r) && end.files.runtime == Readable(r) && p.pid in end.live && p.pid != who.pid)
            && (reported ==> end.live[p.pid] != p.processInstance && Starts(steps, p.pid, end.live[p.pid]))
  {
    var end, r := Run(w, steps), Record(p.pid, p.processInstance, token);
    hide Run, Possible, FreshTokens, After, Starts;
    WellWrittenInEveryRun(w, steps);
    OneRecordInEveryRun(w, steps);
    ReportedIffLiveOwners(end.files, ViewOf(end, who), deleted, r);
    if p.pid in end.live {
      LiveOrStarted(w, steps, p.pid);
    }
  }

  /** The run that shows it: a daemon that is ready dies, a new process gets its pid, and a third is told the daemon is ready. */
  lemma PidReuseMisleads()
    ensures var daemon, asker, r := Process(1, "a"), Process(2, "c"), Record(1, "a", "t");
            var start := World(Files(Readable(r), Readable(r), false), map[1 := "a", 2 := "c"], 0);
            var steps := [Die(1), Start(Process(1, "b"))];
            && Visible(start, daemon, "t") && Possible(start, steps)
            && ResolveOutcome(Run(start, steps).files, ViewOf(Run(start, steps), asker), Deletions(true, true)).record == Some(r)
            && !Genuine(Run(start, steps), r)
  {
    var r := Record(1, "a", "t");
    var w0 := World(Files(Readable(r), Readable(r), false), map[1 := "a", 2 := "c"], 0);
    var w1 := World(w0.files, map[2 := "c"], 0);
    var w2 := World(w0.files, map[2 := "c", 1 := "b"], 0);
    var steps := [Die(1), Start(Process(1, "b"))];
    assert After(w0, steps[0]) == w1 && After(w1, steps[1]) == w2;
    assert steps[0..] == steps && steps[2..] == [];
    Unfold(w0, steps, 0, w1);
    Unfold(w1, steps, 1, w2);
  }

  lemma Unfold(w: World, steps: seq<Step>, i: nat, next: World)
    requires i < |steps| && Enabled(w, steps[i]) && After(w, steps[i]) == next
    ensures Possible(w, steps[i..]) <==> Possible(next, steps[i + 1..])
    ensures Run(w, steps[i..]) == Run(next, steps[i + 1..])
  {
    assert steps[i..][1..] == steps[i + 1..];
  }

  // ---------------------------------------------------------------------------------------------
  // Waiting for a stop
  // ---------------------------------------------------------------------------------------------

  datatype StopPoll = Stopped | Replaced(record: Record) | TimedOut(last: Option<Record>)

  /** The first poll, from `i` on and before the deadline, that ends the wait; else the first one at or past the deadline. */
  function DecidingPoll(statuses: nat -> Status, now: nat -> int, deadline: int, expected: string, i: nat, last: nat): (k: nat)
    requires i <= last && now(last) >= deadline
    ensures i <= k <= last
    ensures now(k) >= deadline || Decides(statuses(k), expected)
    ensures forall j :: i <= j < k ==> now(j) < deadline && !Decides(statuses(j), expected)
    decreases last - i
  {
    if now(i) >= deadline || Decides(statuses(i), expected) then i
    else DecidingPoll(statuses, now, deadline, expected, i + 1, last)
  }

  /** What the wait answers: a timeout at the deadline, else what the deciding poll says. */
  function Answer(statuses: nat -> Status, now: nat -> int, deadline: int, expected: string, last: nat): StopPoll
    requires now(last) >= deadline
  {
    var k := DecidingPoll(statuses, now, deadline, expected, 0, last);
    if now(k) >= deadline then TimedOut(statuses(k).record)
    else if !statuses(k).running then Stopped
    else Replaced(statuses(k).record.value)
  }

  predicate Decides(s: Status, expected: string) { !s.running || (s.record.Some? && s.record.value.token != expected) }

  /**
   * Polls until the home's runtime has stopped or another token is ready. `statuses(i)` is what poll `i` resolves and
   * `now(i)` the clock before it; `last` is some poll by which the clock has passed the deadline.
   */
  method PollUntilRuntimeStopped(expected: string, timeoutMs: int, started: int, statuses: nat -> Status, now: nat -> int, ghost last: nat)
    returns (r: StopPoll)
    requires now(last) >= started + timeoutMs
    ensures r == Answer(statuses, now, started + timeoutMs, expected, last)
  {
    var deadline := started + timeoutMs;
    var i := 0;
    while now(i) < deadline
      invariant 0 <= i <= last
      invariant DecidingPoll(statuses, now, deadline, expected, 0, last) == DecidingPoll(statuses, now, deadline, expected, i, last)
      decreases last - i
    {
      var status := statuses(i);
      if !status.running {
        return Stopped;
      }
      if status.record.Some? && status.record.value.token != expected {
        return Replaced(status.record.value);
      }
      i := i + 1;
    }
    return TimedOut(statuses(i).record);
  }

  /** A wait that ends in "stopped" saw a home nobody owned; one that ends in "replaced" saw a live owner's record under another token. */
  lemma StoppedMeansUnowned(f: Files, view: View, deleted: Deletions, expected: string)
    ensures !ResolveOutcome(f, view, deleted).running ==>
              f.owner.Missing? || OwnerDiscarded(f, view, true)
    ensures ResolveOutcome(f, view, deleted).running && Decides(ResolveOutcome(f, view, deleted), expected) ==>
              f.owner.Readable? && Live(view, f.owner.record) && f.owner.record.token != expected
  {
  }

  // ---------------------------------------------------------------------------------------------
  // The wait as part of a run
  // ---------------------------------------------------------------------------------------------

  /** A run in which `who` resolves again and again, with any other steps between two polls. */
  datatype Watch = Watch(start: World, who: Process, deletions: nat -> Deletions, between: nat -> seq<Step>)

  /** The steps before poll `i`: the polls before it, each followed by what happens until the next. */
  function StepsBefore(x: Watch, i: nat): seq<Step>
  {
    if i == 0 then [] else StepsBefore(x, i - 1) + [Resolve(x.who, x.deletions(i - 1))] + x.between(i - 1)
  }

  function WorldAt(x: Watch, i: nat): World { Run(x.start, StepsBefore(x, i)) }

  /** What poll `i` is told. */
  function PollAt(x: Watch, i: nat): Status { ResolveOutcome(WorldAt(x, i).files, ViewOf(WorldAt(x, i), x.who), x.deletions(i)) }

  function Polls(x: Watch): nat -> Status { (i: nat) => PollAt(x, i) }

  /**
   * A wait for a daemon that was ready ends before its deadline only because the daemon died, its lease was released, or its
   * record was removed, in the run up to the poll that ends it.
   */
  lemma WaitEndsOnlyWithDaemon(x: Watch, p: Process, expected: string, deadline: int, now: nat -> int, last: nat)
    requires now(last) >= deadline && Visible(x.start, p, expected)
    requires var k := DecidingPoll(Polls(x), now, deadline, expected, 0, last);
             Possible(x.start, StepsBefore(x, k)) && Running(WorldAt(x, k), x.who)
    ensures var k := DecidingPoll(Polls(x), now, deadline, expected, 0, last);
            Answer(Polls(x), now, deadline, expected, last).TimedOut?
            || exists i :: 0 <= i < |StepsBefore(x, k)| && EndsVisibility(StepsBefore(x, k)[i], p, expected)
  {
    var k := DecidingPoll(Polls(x), now, deadline, expected, 0, last);
    var steps := StepsBefore(x, k);
    hide StepsBefore, Run, Possible, Visible, EndsVisibility;
    if forall i :: 0 <= i < |steps| ==> !EndsVisibility(steps[i], p, expected) {
      VisibleInEveryRun(x.start, steps, p, expected, x.who, x.deletions(k));
      VisibleIsReported(WorldAt(x, k), p, expected, x.who, x.deletions(k));
      assert !Decides(Polls(x)(k), expected);
    }
  }

  /**
   * What the answer says of the run: "stopped" means that at the poll that ended the wait nobody alive held the lease;
   * "replaced" means that the owner under another token did, and that the record answered is that owner's own.
   */
  lemma AnswerHoldsInRun(x: Watch, expected: string, deadline: int, now: nat -> int, last: nat)
    requires now(last) >= deadline && WellWritten(x.start) && OneRecordPerToken(x.start)
    requires var k := DecidingPoll(Polls(x), now, deadline, expected, 0, last);
             Possible(x.start, StepsBefore(x, k)) && FreshTokens(x.start, StepsBefore(x, k)) && Running(WorldAt(x, k), x.who)
    ensures var w := WorldAt(x, DecidingPoll(Polls(x), now, deadline, expected, 0, last));
            var answer := Answer(Polls(x), now, deadline, expected, last);
            && (answer.Stopped? ==> w.files.owner.Missing? || OwnerDiscarded(w.files, ViewOf(w, x.who), true))
            && (answer.Replaced? ==> && answer.record.token != expected && w.files.owner == Readable(answer.record)
                                     && answer.record.pid in w.live)
  {
    var k := DecidingPoll(Polls(x), now, deadline, expected, 0, last);
    hide StepsBefore, Run, Possible, FreshTokens;
    StoppedMeansUnowned(WorldAt(x, k).files, ViewOf(WorldAt(x, k), x.who), x.deletions(k), expected);
    if now(k) < deadline && PollAt(x, k).running {
      assert Decides(Polls(x)(k), expected);
      ReportInEveryRun(x.start, StepsBefore(x, k), x.who, x.deletions(k), PollAt(x, k).record.value);
    }
  }
}
