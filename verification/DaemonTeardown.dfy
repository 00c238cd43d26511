/**
 * The daemon's teardown (src/cli/daemonShutdown.ts, `shutdownDaemonLifecycle` and `tearDownRemaining`) as the steps its
 * promises can take: every call queues one more pass behind the running one, and a pass gives up control while it waits
 * for the protocol server and for the main service to stop.
 */
module DaemonTeardown {
  import opened Options

  /** Handles are numbered in the order startup creates them. */
  type Handle = nat

  /** Where a pass is: not begun, waiting for the server it took, waiting for the service it took, or done. */
  datatype Phase = Queued | StoppingServer(taken: Option<Handle>) | StoppingMms(taken: Option<Handle>) | Done

  /** `created` is how many handles existed when the pass began. */
  datatype Pass = Pass(phase: Phase, created: nat)

  /**
   * The lifecycle state and its history: which handles startup has created, on which of them a stop was called, in order,
   * and which of those stops have ended.
   */
  datatype State = State(
    pollStop: Option<Handle>, protocolServer: Option<Handle>, mms: Option<Handle>,
    runtimeWritten: bool, shuttingDown: bool, passes: seq<Pass>,
    created: nat, calls: seq<Handle>, ended: set<Handle>)

  datatype Slot = PollStop | ProtocolServer | Mms

  datatype Step = Create(slot: Slot) | WriteRuntime | Call | Begin(pass: nat) | ServerStopped(pass: nat) | MmsStopped(pass: nat)

  const INITIAL := State(None, None, None, false, false, [], 0, [], {})

  function InSlot(s: State, slot: Slot): Option<Handle>
  {
    match slot
    case PollStop => s.pollStop
    case ProtocolServer => s.protocolServer
    case Mms => s.mms
  }

  function AsSeq(h: Option<Handle>): seq<Handle> { if h.Some? then [h.value] else [] }

  function AsSet(h: Option<Handle>): set<Handle> { if h.Some? then {h.value} else {} }

  /** Startup fills a slot it has not filled; a pass begins once every earlier one is done. */
  predicate Enabled(s: State, step: Step)
  {
    match step
    case Create(slot) => InSlot(s, slot).None?
    case WriteRuntime => true
    case Call => true
    case Begin(i) => i < |s.passes| && s.passes[i].phase.Queued? && forall j :: 0 <= j < i ==> s.passes[j].phase.Done?
    case ServerStopped(i) => i < |s.passes| && s.passes[i].phase.StoppingServer?
    case MmsStopped(i) => i < |s.passes| && s.passes[i].phase.StoppingMms?
  }

  function After(s: State, step: Step): State
    requires Enabled(s, step)
  {
    match step
    case Create(slot) =>
      var next := match slot
                  case PollStop => s.(pollStop := Some(s.created))
                  case ProtocolServer => s.(protocolServer := Some(s.created))
                  case Mms => s.(mms := Some(s.created));
      next.(created := s.created + 1)
    case WriteRuntime => s.(runtimeWritten := true)
    case Call => s.(shuttingDown := true, passes := s.passes + [Pass(Queued, 0)])
    case Begin(i) =>
      s.(pollStop := None, protocolServer := None,
      passes := s.passes[i := Pass(StoppingServer(s.protocolServer), s.created)],
      calls := s.calls + AsSeq(s.pollStop) + AsSeq(s.protocolServer), ended := s.ended + AsSet(s.pollStop))
    case ServerStopped(i) =>
      s.(mms := None,
      passes := s.passes[i := s.passes[i].(phase := StoppingMms(s.mms))],
      calls := s.calls + AsSeq(s.mms), ended := s.ended + AsSet(s.passes[i].phase.taken))
    case MmsStopped(i) =>
      s.(runtimeWritten := false,
      passes := s.passes[i := s.passes[i].(phase := Done)], ended := s.ended + AsSet(s.passes[i].phase.taken))
  }

  // ---------------------------------------------------------------------------------------------
  // The object whose fields the steps change
  // ---------------------------------------------------------------------------------------------

  /** `DaemonLifecycleState`, with its history kept as ghost fields. */
  class DaemonLifecycle {
    var pollStop: Option<Handle>
    var protocolServer: Option<Handle>
    var mms: Option<Handle>
    var runtimeWritten: bool
    var shuttingDown: bool
    ghost var passes: seq<Pass>
    ghost var created: nat
    ghost var calls: seq<Handle>
    ghost var ended: set<Handle>

    ghost function Snapshot(): State
      reads this
    {
      State(pollStop, protocolServer, mms, runtimeWritten, shuttingDown, passes, created, calls, ended)
    }

    /** Marks the shutdown and queues one more pass; returns its place in the chain. */
    method Shutdown() returns (ghost pass: nat)
      modifies this
      ensures pass == old(|passes|)
      ensures Snapshot() == After(old(Snapshot()), Call)
    {
      if !shuttingDown {
        shuttingDown := true;
      }
      pass := |passes|;
      passes := passes + [Pass(Queued, 0)];
    }

    /** The first part of a pass, up to the wait for the server. */
    method BeginPass(ghost i: nat) returns (taken: Option<Handle>)
      requires Enabled(Snapshot(), Begin(i))
      modifies this
      ensures Snapshot() == After(old(Snapshot()), Begin(i)) && taken == old(protocolServer)
    {
      calls := calls + AsSeq(pollStop);
      ended := ended + AsSet(pollStop);
      if pollStop.Some? {
        pollStop := None;
      }
      taken := protocolServer;
      protocolServer := None;
      calls := calls + AsSeq(taken);
      passes := passes[i := Pass(StoppingServer(taken), created)];
    }

    /** The second part, once the server has stopped or failed to. */
    method AfterServer(ghost i: nat) returns (taken: Option<Handle>)
      requires Enabled(Snapshot(), ServerStopped(i))
      modifies this
      ensures Snapshot() == After(old(Snapshot()), ServerStopped(i)) && taken == old(mms)
    {
      ended := ended + AsSet(passes[i].phase.taken);
      taken := mms;
      mms := None;
      calls := calls + AsSeq(taken);
      passes := passes[i := passes[i].(phase := StoppingMms(taken))];
    }

    /** The last part, once the service has stopped or failed to. */
    method AfterMms(ghost i: nat)
      requires Enabled(Snapshot(), MmsStopped(i))
      modifies this
      ensures Snapshot() == After(old(Snapshot()), MmsStopped(i))
    {
      ended := ended + AsSet(passes[i].phase.taken);
      if runtimeWritten {
        runtimeWritten := false;
      }
      passes := passes[i := passes[i].(phase := Done)];
    }
  }

  // ---------------------------------------------------------------------------------------------
  // What every step keeps
  // ---------------------------------------------------------------------------------------------

  /** A pass that has begun and is not done. */
  predicate Active(p: Pass) { p.phase.StoppingServer? || p.phase.StoppingMms? }

  /** Passes run one after the other: whatever comes before a begun pass is done. */
  ghost predicate InOrder(s: State)
  {
    forall i, j :: 0 <= i < j < |s.passes| && !s.passes[j].phase.Queued? ==> s.passes[i].phase.Done?
  }

  /** Handle `h` is on the state. */
  predicate OnState(s: State, h: Handle) { s.pollStop == Some(h) || s.protocolServer == Some(h) || s.mms == Some(h) }

  /** Some pass took `h` and waits for it to stop. */
  ghost predicate BeingStopped(s: State, h: Handle)
  {
    exists i :: 0 <= i < |s.passes| && Active(s.passes[i]) && s.passes[i].phase.taken == Some(h)
  }

  /** The slots hold different created handles. */
  ghost predicate SlotsDistinct(s: State)
  {
    && (s.pollStop.Some? ==> s.pollStop.value < s.created && s.pollStop != s.protocolServer && s.pollStop != s.mms)
    && (s.protocolServer.Some? ==> s.protocolServer.value < s.created && s.protocolServer != s.mms)
    && (s.mms.Some? ==> s.mms.value < s.created)
  }

  ghost predicate NoRepeats(calls: seq<Handle>) { forall i, j :: 0 <= i < j < |calls| ==> calls[i] != calls[j] }

  /** Every created handle is either still on the state and was never stopped, or was stopped by exactly one call. */
  ghost predicate StoppedOnce(s: State)
  {
    && NoRepeats(s.calls)
    && (forall h :: h in s.calls ==> h < s.created && !OnState(s, h))
    && (forall h: nat :: h < s.created ==> OnState(s, h) || h in s.calls)
    && (forall h :: h in s.ended ==> h in s.calls)
    && (forall h :: h in s.calls ==> h in s.ended || BeingStopped(s, h))
    && (forall h: nat :: BeingStopped(s, h) ==> h in s.calls)
  }

  /** What a pass has dealt with of the handles that existed when it began. */
  ghost predicate PassProgress(s: State, p: Pass)
  {
    p.created <= s.created &&
    match p.phase
    case Queued => true
    case StoppingServer(taken) => forall h: nat :: h < p.created ==> h in s.ended || taken == Some(h) || s.mms == Some(h)
    case StoppingMms(taken) => forall h: nat :: h < p.created ==> h in s.ended || taken == Some(h)
    case Done => forall h: nat :: h < p.created ==> h in s.ended
  }

  ghost predicate Inv(s: State)
  {
    && InOrder(s) && SlotsDistinct(s) && StoppedOnce(s)
    && (forall i :: 0 <= i < |s.passes| ==> PassProgress(s, s.passes[i]))
    && (s.passes != [] ==> s.shuttingDown)
  }

  lemma InvInitially()
    ensures Inv(INITIAL)
  {
  }

  lemma SlotsKept(s: State, step: Step)
    requires Inv(s) && Enabled(s, step)
    ensures SlotsDistinct(After(s, step))
  {
    hide StoppedOnce, PassProgress, InOrder;
  }

  lemma OrderKept(s: State, step: Step)
    requires InOrder(s) && Enabled(s, step)
    ensures InOrder(After(s, step))
  {
    var t := After(s, step);
    forall i, j | 0 <= i < j < |t.passes| && !t.passes[j].phase.Queued?
      ensures t.passes[i].phase.Done?
    {
      assert j < |s.passes|;
      if step.Begin? {
        assert j != step.pass ==> s.passes[j] == t.passes[j];
      }
    }
  }

  /** At most one pass is under way. */
  lemma OneActive(s: State, i: nat, j: nat)
    requires InOrder(s) && i < |s.passes| && j < |s.passes| && Active(s.passes[i]) && Active(s.passes[j])
    ensures i == j
  {
  }

  lemma CreateKeepsOnce(s: State, slot: Slot)
    requires Inv(s) && Enabled(s, Create(slot))
    ensures StoppedOnce(After(s, Create(slot)))
  {
    hide PassProgress, InOrder;
    var t := After(s, Create(slot));
    forall h: nat | BeingStopped(s, h)
      ensures BeingStopped(t, h)
    {
    }
    forall h: nat | h < s.created
      ensures OnState(t, h) <==> OnState(s, h)
    {
    }
  }

  lemma CallKeepsOnce(s: State)
    requires Inv(s)
    ensures StoppedOnce(After(s, Call))
  {
    hide PassProgress, InOrder;
    var t := After(s, Call);
    forall h: nat | BeingStopped(s, h)
      ensures BeingStopped(t, h)
    {
      var i :| 0 <= i < |s.passes| && Active(s.passes[i]) && s.passes[i].phase.taken == Some(h);
      assert t.passes[i] == s.passes[i];
    }
  }

  lemma AppendFresh(calls: seq<Handle>, h: Option<Handle>)
    requires NoRepeats(calls) && (h.Some? ==> h.value !in calls)
    ensures NoRepeats(calls + AsSeq(h))
    ensures forall x :: x in calls + AsSeq(h) <==> x in calls || h == Some(x)
  {
  }

  /** Before a pass can begin nothing is being stopped. */
  lemma NothingUnderWay(s: State, i: nat, h: Handle)
    requires InOrder(s) && Enabled(s, Begin(i))
    ensures !BeingStopped(s, h)
  {
    forall k | 0 <= k < |s.passes|
      ensures !Active(s.passes[k])
    {
    }
  }

  lemma BeginKeepsOnce(s: State, i: nat)
    requires Inv(s) && Enabled(s, Begin(i))
    ensures StoppedOnce(After(s, Begin(i)))
  {
    hide PassProgress;
    var t := After(s, Begin(i));
    forall h: nat
      ensures !BeingStopped(s, h)
      ensures BeingStopped(t, h) <==> s.protocolServer == Some(h)
    {
      NothingUnderWay(s, i, h);
      TakenAt(s, t, i, h);
    }
    hide InOrder, BeingStopped;
    AppendFresh(s.calls, s.pollStop);
    AppendFresh(s.calls + AsSeq(s.pollStop), s.protocolServer);
  }

  /** After a step that changes only one pass, only that pass's handle is being stopped. */
  lemma TakenAt(s: State, t: State, i: nat, h: Handle)
    requires |t.passes| == |s.passes| && i < |s.passes| && t.passes == s.passes[i := t.passes[i]]
    requires forall k :: 0 <= k < |s.passes| && k != i ==> !Active(s.passes[k])
    ensures BeingStopped(t, h) <==> Active(t.passes[i]) && t.passes[i].phase.taken == Some(h)
  {
    assert forall k :: 0 <= k < |t.passes| && k != i ==> t.passes[k] == s.passes[k];
  }

  lemma ServerStoppedKeepsOnce(s: State, i: nat)
    requires Inv(s) && Enabled(s, ServerStopped(i))
    ensures StoppedOnce(After(s, ServerStopped(i)))
  {
    hide PassProgress;
    var t := After(s, ServerStopped(i));
    forall k | 0 <= k < |s.passes| && k != i
      ensures !Active(s.passes[k])
    {
      OneOther(s, i, k);
    }
    forall h: nat
      ensures BeingStopped(s, h) <==> s.passes[i].phase.taken == Some(h)
      ensures BeingStopped(t, h) <==> s.mms == Some(h)
    {
      TakenAt(s, s, i, h);
      TakenAt(s, t, i, h);
    }
    hide InOrder, BeingStopped;
    AppendFresh(s.calls, s.mms);
  }

  lemma MmsStoppedKeepsOnce(s: State, i: nat)
    requires Inv(s) && Enabled(s, MmsStopped(i))
    ensures StoppedOnce(After(s, MmsStopped(i)))
  {
    hide PassProgress;
    var t := After(s, MmsStopped(i));
    forall k | 0 <= k < |s.passes| && k != i
      ensures !Active(s.passes[k])
    {
      OneOther(s, i, k);
    }
    forall h: nat
      ensures BeingStopped(s, h) <==> s.passes[i].phase.taken == Some(h)
      ensures !BeingStopped(t, h)
    {
      TakenAt(s, s, i, h);
      TakenAt(s, t, i, h);
    }
    hide InOrder, BeingStopped;
  }

  lemma ProgressKept(s: State, step: Step)
    requires Inv(s) && Enabled(s, step)
    ensures forall i :: 0 <= i < |After(s, step).passes| ==> PassProgress(After(s, step), After(s, step).passes[i])
  {
    var t := After(s, step);
    forall i | 0 <= i < |t.passes|
      ensures PassProgress(t, t.passes[i])
    {
      if i < |s.passes| {
        assert PassProgress(s, s.passes[i]);
        if step.Begin? && step.pass == i {
          BeginTakesAll(s, i);
        } else if step.ServerStopped? && step.pass != i {
          OneOther(s, step.pass, i);
        }
      }
    }
  }

  /** While one pass is under way every other is done or not begun. */
  lemma OneOther(s: State, i: nat, j: nat)
    requires InOrder(s) && i < |s.passes| && j < |s.passes| && i != j && Active(s.passes[i])
    ensures !Active(s.passes[j])
  {
    if Active(s.passes[j]) {
      OneActive(s, i, j);
    }
  }

  /** When a pass begins nothing is being stopped, so every handle has been stopped or is on the state. */
  lemma BeginTakesAll(s: State, i: nat)
    requires Inv(s) && Enabled(s, Begin(i))
    ensures forall h: nat :: h < s.created ==> h in s.ended || OnState(s, h)
  {
    forall h: nat | h < s.created && !OnState(s, h)
      ensures h in s.ended
    {
      NothingUnderWay(s, i, h);
    }
  }

  lemma InvKept(s: State, step: Step)
    requires Inv(s) && Enabled(s, step)
    ensures Inv(After(s, step))
  {
    OrderKept(s, step);
    SlotsKept(s, step);
    ProgressKept(s, step);
    match step {
      case Create(slot) => CreateKeepsOnce(s, slot);
      case WriteRuntime =>
        forall h: nat
          ensures BeingStopped(After(s, step), h) <==> BeingStopped(s, h)
        {
        }
      case Call => CallKeepsOnce(s);
      case Begin(i) => BeginKeepsOnce(s, i);
      case ServerStopped(i) => ServerStoppedKeepsOnce(s, i);
      case MmsStopped(i) => MmsStoppedKeepsOnce(s, i);
    }
  }

  // ---------------------------------------------------------------------------------------------
  // Whole runs
  // ---------------------------------------------------------------------------------------------

  predicate Possible(s: State, steps: seq<Step>)
    decreases steps
  {
    steps == [] || (Enabled(s, steps[0]) && Possible(After(s, steps[0]), steps[1..]))
  }

  function Run(s: State, steps: seq<Step>): State
    requires Possible(s, steps)
    decreases steps
  {
    if steps == [] then s else Run(After(s, steps[0]), steps[1..])
  }

  lemma {:induction false} InvInEveryRun(s: State, steps: seq<Step>)
    requires Inv(s) && Possible(s, steps)
    ensures Inv(Run(s, steps))
    decreases steps
  {
    if steps != [] {
      hide Inv, After, Enabled;
      InvKept(s, steps[0]);
      InvInEveryRun(After(s, steps[0]), steps[1..]);
    }
  }

  /** What later steps never take back: a shutdown stays on, ended stops stay ended, done passes stay done. */
  ghost predicate Progressed(s: State, t: State)
  {
    && (s.shuttingDown ==> t.shuttingDown) && s.ended <= t.ended && s.calls <= t.calls
    && s.created <= t.created && |s.passes| <= |t.passes|
    && forall i :: 0 <= i < |s.passes| ==>
                     && (s.passes[i].phase.Done? ==> t.passes[i] == s.passes[i])
                     && (!s.passes[i].phase.Queued? ==> t.passes[i].created == s.passes[i].created)
                     && (s.passes[i].phase.Queued? && !t.passes[i].phase.Queued? ==> s.created <= t.passes[i].created)
  }

  lemma StepProgresses(s: State, step: Step)
    requires Enabled(s, step)
    ensures Progressed(s, After(s, step))
  {
  }

  lemma {:induction false} RunProgresses(s: State, steps: seq<Step>)
    requires Possible(s, steps)
    ensures Progressed(s, Run(s, steps))
    decreases steps
  {
    if steps != [] {
      hide After, Enabled;
      StepProgresses(s, steps[0]);
      RunProgresses(After(s, steps[0]), steps[1..]);
    }
  }

  /**
   * However calls, passes and a startup that keeps creating handles interleave: passes never overlap, and every handle
   * that was created is still on the state, or was stopped by exactly one call.
   */
  lemma TeardownInEveryRun(steps: seq<Step>)
    requires Possible(INITIAL, steps)
    ensures var s := Run(INITIAL, steps);
            && (forall i, j :: 0 <= i < j < |s.passes| && Active(s.passes[j]) ==> s.passes[i].phase.Done?)
            && (forall h: nat :: h < s.created ==> (OnState(s, h) <==> h !in s.calls))
            && NoRepeats(s.calls)
            && (s.passes != [] ==> s.shuttingDown)
  {
    InvInitially();
    hide Run, Possible, PassProgress, BeingStopped;
    InvInEveryRun(INITIAL, steps);
  }

  /**
   * A caller returns once its pass is done. By then the stop of every handle that existed when that pass began has ended,
   * whichever pass took it; and these are at least the handles that existed when the caller called.
   */
  lemma CallerReturnsAfterStops(before: seq<Step>, later: seq<Step>)
    requires Possible(INITIAL, before)
    requires Possible(After(Run(INITIAL, before), Call), later)
    requires var s, n := Run(INITIAL, before), |Run(INITIAL, before).passes|;
             n < |Run(After(s, Call), later).passes| && Run(After(s, Call), later).passes[n].phase.Done?
    ensures var s, n := Run(INITIAL, before), |Run(INITIAL, before).passes|;
            var end := Run(After(s, Call), later);
            && s.created <= end.passes[n].created
            && forall h: nat :: h < end.passes[n].created ==> h in end.ended
  {
    InvInitially();
    InvInEveryRun(INITIAL, before);
    var s := Run(INITIAL, before);
    var called := After(s, Call);
    InvKept(s, Call);
    assert called.passes[|s.passes|].phase.Queued? && called.created == s.created;
    hide Run, After, Possible, StoppedOnce;
    InvInEveryRun(called, later);
    RunProgresses(called, later);
    var end := Run(called, later);
    assert PassProgress(end, end.passes[|s.passes|]);
  }

  // ---------------------------------------------------------------------------------------------
  // Passes come to an end
  // ---------------------------------------------------------------------------------------------

  /** A step of a pass: nothing new is called, created or written. */
  predicate Tears(step: Step) { step.Begin? || step.ServerStopped? || step.MmsStopped? }

  /** How many steps a pass still has. */
  function StepsLeft(p: Pass): nat
  {
    match p.phase
    case Queued => 3
    case StoppingServer(_) => 2
    case StoppingMms(_) => 1
    case Done => 0
  }

  function AllLeft(passes: seq<Pass>): nat { if passes == [] then 0 else StepsLeft(passes[0]) + AllLeft(passes[1..]) }

  lemma {:induction false} LeftAfter(passes: seq<Pass>, i: nat, p: Pass)
    requires i < |passes|
    ensures AllLeft(passes[i := p]) == AllLeft(passes) - StepsLeft(passes[i]) + StepsLeft(p)
    ensures StepsLeft(passes[i]) <= AllLeft(passes)
    decreases i
  {
    if i > 0 {
      assert passes[i := p][1..] == passes[1..][i - 1 := p];
      LeftAfter(passes[1..], i - 1, p);
    }
  }

  lemma {:induction false} NothingLeftIff(passes: seq<Pass>)
    ensures AllLeft(passes) == 0 <==> forall i :: 0 <= i < |passes| ==> passes[i].phase.Done?
  {
    if passes != [] {
      NothingLeftIff(passes[1..]);
      assert forall i :: 0 < i < |passes| ==> passes[i] == passes[1..][i - 1];
    }
  }

  lemma TearsOneStep(s: State, step: Step)
    requires Enabled(s, step) && Tears(step)
    ensures AllLeft(After(s, step).passes) == AllLeft(s.passes) - 1
  {
    hide AllLeft;
    LeftAfter(s.passes, step.pass, After(s, step).passes[step.pass]);
  }

  /** While a pass is not done, some pass has a step it can take. */
  lemma SomePassCanGoOn(s: State)
    requires exists i :: 0 <= i < |s.passes| && !s.passes[i].phase.Done?
    ensures exists step :: Tears(step) && Enabled(s, step)
  {
    var i := 0;
    while s.passes[i].phase.Done?
      invariant 0 <= i < |s.passes| && exists j :: i <= j < |s.passes| && !s.passes[j].phase.Done?
      invariant forall j :: 0 <= j < i ==> s.passes[j].phase.Done?
      decreases |s.passes| - i
    {
      i := i + 1;
    }
    var phase := s.passes[i].phase;
    var step := if phase.Queued? then Begin(i) else if phase.StoppingServer? then ServerStopped(i) else MmsStopped(i);
    assert Tears(step) && Enabled(s, step);
  }

  /**
   * However the steps of the passes are ordered, there are exactly three for each pass not begun, and fewer for one under
   * way: no more can be taken, and after that many every pass is done and every caller has returned.
   */
  lemma {:induction false} PassesEnd(s: State, steps: seq<Step>)
    requires Possible(s, steps) && forall i :: 0 <= i < |steps| ==> Tears(steps[i])
    ensures |steps| <= AllLeft(s.passes)
    ensures |steps| == AllLeft(s.passes)
            <==> forall i :: 0 <= i < |Run(s, steps).passes| ==> Run(s, steps).passes[i].phase.Done?
    decreases |steps|
  {
    if steps == [] {
      NothingLeftIff(s.passes);
      hide AllLeft;
      assert Run(s, steps) == s;
    } else {
      TearsOneStep(s, steps[0]);
      hide After, Enabled, AllLeft;
      var next, rest := After(s, steps[0]), steps[1..];
      PassesEnd(next, rest);
      assert Run(s, steps) == Run(next, rest);
    }
  }
}
