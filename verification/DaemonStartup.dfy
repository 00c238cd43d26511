/**
 * The daemon's startup (src/cli/commands/service.ts, `runDaemonForeground`) beside its teardown: what startup puts on the
 * lifecycle state between its waits, and when a shutdown that arrives meanwhile leaves nothing behind.
 */
module DaemonStartup {
  import opened Options
  import opened DaemonTeardown

  /** Where startup is; each change is one stretch of code between two waits. */
  datatype Boot =
    | Opening   // the owner is being created
    | Opened    // the service is on the state and no stop was seen
    | Starting  // the server is on the state and is being started
    | Ready     // the server runs and no stop was seen; the rest of startup is queued to run next
    | Serving   // readiness is published and the stop-request timer is on the state
    | Returned  // startup left through a shutdown

  datatype System = System(state: State, boot: Boot)

  datatype Event = Teardown(step: Step) | OwnerOpened(ok: bool) | ServerCreated(tokenKnown: bool) | ServerStarted(started: bool) | Publish(published: bool)

  const START := System(INITIAL, Opening)

  /**
   * Teardown events are calls and the parts of passes; startup's events follow its own order. Once startup is ready its
   * next part is already in the queue of promise jobs, so a pass that a call queues now begins only after it.
   */
  predicate CanHappen(s: System, e: Event)
  {
    match e
    case Teardown(step) => !step.Create? && !step.WriteRuntime? && (s.boot.Ready? ==> !step.Begin?) && Enabled(s.state, step)
    case OwnerOpened(ok) => s.boot.Opening? && (ok ==> Enabled(s.state, Create(Mms)))
    case ServerCreated(known) => s.boot.Opened? && (known ==> Enabled(s.state, Create(ProtocolServer)))
    case ServerStarted(_) => s.boot.Starting?
    case Publish(published) => s.boot.Ready? && (published ==> Enabled(s.state, Create(PollStop)))
  }

  /** Startup leaves: its last act is a shutdown call. */
  function Leave(state: State): System { System(After(state, Call), Returned) }

  function Next(s: System, e: Event): System
    requires CanHappen(s, e)
  {
    match e
    case Teardown(step) => s.(state := After(s.state, step))
    case OwnerOpened(ok) =>
      if !ok then Leave(s.state)
      else
        var next := After(s.state, Create(Mms));
        if next.shuttingDown then Leave(next) else System(next, Opened)
    case ServerCreated(known) =>
      if !known then Leave(s.state) else System(After(s.state, Create(ProtocolServer)), Starting)
    case ServerStarted(started) =>
      if s.state.shuttingDown || !started then Leave(s.state) else s.(boot := Ready)
    case Publish(published) =>
      if !published then Leave(s.state)
      else System(After(After(s.state, WriteRuntime), Create(PollStop)), Serving)
  }

  /** Whatever is still on the state will be taken by a pass that has not yet reached it. */
  ghost predicate Covered(s: State)
  {
    && (SomeQueued(s)
        || (s.pollStop.None? && s.protocolServer.None?
            && (s.mms.None? || exists i :: 0 <= i < |s.passes| && s.passes[i].phase.StoppingServer?)))
    && (s.runtimeWritten ==> exists i :: 0 <= i < |s.passes| && !s.passes[i].phase.Done?)
  }

  ghost predicate SomeQueued(s: State) { exists i :: 0 <= i < |s.passes| && s.passes[i].phase.Queued? }

  ghost predicate Sound(s: System)
  {
    && Inv(s.state)
    && (s.boot.Opening? ==> s.state.mms.None?)
    && (s.boot.Opening? || s.boot.Opened? ==> s.state.protocolServer.None?)
    && (!s.boot.Serving? && !s.boot.Returned? ==> s.state.pollStop.None? && !s.state.runtimeWritten)
    && (s.state.shuttingDown && !s.boot.Starting? ==> Covered(s.state))
    && (s.state.shuttingDown && s.boot.Ready? ==> SomeQueued(s.state))
  }

  lemma CallCovers(s: State)
    ensures Covered(After(s, Call)) && SomeQueued(After(s, Call))
  {
    var t := After(s, Call);
    assert t.passes[|s.passes|].phase.Queued?;
  }

  /** A queued pass takes whatever startup puts on the state before it begins. */
  lemma QueuedCovers(s: State)
    requires SomeQueued(s) && Enabled(s, Create(PollStop))
    ensures Covered(After(After(s, WriteRuntime), Create(PollStop)))
  {
    assert After(After(s, WriteRuntime), Create(PollStop)).passes == s.passes;
  }

  lemma StaysQueued(s: State, step: Step)
    requires SomeQueued(s) && Enabled(s, step) && !step.Begin?
    ensures SomeQueued(After(s, step))
  {
    var i :| 0 <= i < |s.passes| && s.passes[i].phase.Queued?;
    assert After(s, step).passes[i] == s.passes[i];
  }

  lemma TeardownKeepsCovered(s: State, step: Step)
    requires Inv(s) && Covered(s) && Enabled(s, step) && !step.Create? && !step.WriteRuntime?
    ensures Covered(After(s, step))
  {
    hide StoppedOnce, PassProgress, SlotsDistinct;
    var t := After(s, step);
    match step {
      case Call => CallCovers(s);
      case Begin(i) =>
        assert t.passes[i].phase.StoppingServer?;
      case ServerStopped(i) =>
        assert t.passes[i].phase.StoppingMms?;
        if k :| 0 <= k < |s.passes| && s.passes[k].phase.Queued? {
          assert t.passes[k] == s.passes[k];
        }
      case MmsStopped(i) =>
        if k :| 0 <= k < |s.passes| && s.passes[k].phase.Queued? {
          assert t.passes[k] == s.passes[k];
        } else if k :| 0 <= k < |s.passes| && s.passes[k].phase.StoppingServer? {
          OneActive(s, i, k);
        }
    }
  }

  lemma SoundKept(s: System, e: Event)
    requires Sound(s) && CanHappen(s, e)
    ensures Sound(Next(s, e))
  {
    hide Inv, Covered, SomeQueued;
    var state := s.state;
    match e {
      case Teardown(step) =>
        InvKept(state, step);
        if step.Call? {
          CallCovers(state);
        } else if state.shuttingDown && !s.boot.Starting? {
          TeardownKeepsCovered(state, step);
          if s.boot.Ready? {
            StaysQueued(state, step);
          }
        }
      case OwnerOpened(ok) =>
        InvKept(state, Call);
        CallCovers(state);
        if ok {
          InvKept(state, Create(Mms));
          InvKept(After(state, Create(Mms)), Call);
          CallCovers(After(state, Create(Mms)));
        }
      case ServerCreated(known) =>
        InvKept(state, Call);
        CallCovers(state);
        if known {
          InvKept(state, Create(ProtocolServer));
        }
      case ServerStarted(started) =>
        InvKept(state, Call);
        CallCovers(state);
      case Publish(published) =>
        InvKept(state, Call);
        CallCovers(state);
        if published {
          if state.shuttingDown {
            QueuedCovers(state);
          }
          InvKept(state, WriteRuntime);
          InvKept(After(state, WriteRuntime), Create(PollStop));
        }
    }
  }

  predicate CanRun(s: System, events: seq<Event>)
    decreases events
  {
    events == [] || (CanHappen(s, events[0]) && CanRun(Next(s, events[0]), events[1..]))
  }

  function Reached(s: System, events: seq<Event>): System
    requires CanRun(s, events)
    decreases events
  {
    if events == [] then s else Reached(Next(s, events[0]), events[1..])
  }

  lemma {:induction false} SoundInEveryRun(s: System, events: seq<Event>)
    requires Sound(s) && CanRun(s, events)
    ensures Sound(Reached(s, events))
    decreases events
  {
    if events != [] {
      hide Sound, Next, CanHappen;
      SoundKept(s, events[0]);
      SoundInEveryRun(Next(s, events[0]), events[1..]);
    }
  }

  /** Nothing is left on the state, no readiness record is marked as written, and every handle was stopped. */
  ghost predicate NothingLeft(s: State)
  {
    && s.pollStop.None? && s.protocolServer.None? && s.mms.None? && !s.runtimeWritten
    && forall h: nat :: h < s.created ==> h in s.ended
  }

  /** In every run in which a shutdown was called, once startup has ended and every pass is done nothing is left. */
  lemma ShutdownLeavesNothing(events: seq<Event>)
    requires CanRun(START, events)
    requires var s := Reached(START, events);
             && s.state.shuttingDown && (s.boot.Serving? || s.boot.Returned?)
             && forall i :: 0 <= i < |s.state.passes| ==> s.state.passes[i].phase.Done?
    ensures NothingLeft(Reached(START, events).state)
  {
    InvInitially();
    assert Sound(START);
    hide Reached, CanRun, PassProgress, InOrder, SlotsDistinct;
    SoundInEveryRun(START, events);
    var s := Reached(START, events).state;
    forall h: nat | h < s.created
      ensures h in s.ended
    {
      assert !BeingStopped(s, h);
    }
  }
}
