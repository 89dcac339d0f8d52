/** Starting and stopping the legacy HAL: callers, a vendor event loop and one lock.

    Every step below is a stretch of code that runs with the global lock held.  `stop`
    gives the lock up while it waits for the event loop to end, so other callers may run
    there.  The vendor is assumed to answer a cleanup request by calling the stop handler
    once and to return from the event loop only after that.
  */
module LegacyHal {
  import opened Options

  type Handle = nat
  type Thread = nat

  /** A vendor event loop: running, asked to clean up, or past its stop handler. */
  datatype Phase = Looping | CleanupRequested | CleanedUp
  datatype EventLoop = EventLoop(handle: Handle, phase: Phase)

  datatype Hal = Hal(
    handle: Option<Handle>,
    hasIfaces: bool,
    started: bool,
    awaiting: bool,
    stopCallback: bool,
    loops: seq<EventLoop>,
    waiters: set<Thread>)

  const NEW_HAL := Hal(None, false, false, false, false, [], {})

  /** Vendor answers during start; a failing initialisation may still leave a handle. */
  datatype StartAnswers = StartAnswers(ready: bool, up: bool, initOk: bool, handle: Option<Handle>, ifacesOk: bool,
                                       someIface: bool)

  datatype Step =
    | Start(thread: Thread, answers: StartAnswers)
    | Stop(thread: Thread)
    | FireCleanup(loop: nat)
    | ExitLoop(loop: nat)
    | Wake(thread: Thread)
    | TimeOut(thread: Thread)
    | RefreshIfaces(someIface: bool)

  datatype Fault = StartCheckFailed | HandleMismatch | LoopEndedWhileNotStopping

  datatype Outcome =
    | Next(hal: Hal, returned: Option<bool>)
    | Abort(fault: Fault)

  /** Which steps can be taken: callers are not inside a wait, vendor steps follow its contract. */
  predicate Enabled(h: Hal, s: Step) {
    match s
    case Start(t, _) => t !in h.waiters
    case Stop(t) => t !in h.waiters
    case FireCleanup(i) => i < |h.loops| && h.loops[i].phase == CleanupRequested
    case ExitLoop(i) => i < |h.loops| && h.loops[i].phase == CleanedUp
    case Wake(t) => t in h.waiters && !h.awaiting
    case TimeOut(t) => t in h.waiters && h.awaiting
    case RefreshIfaces(_) => h.handle.Some?
  }

  function DoStart(h: Hal, a: StartAnswers): Outcome {
    if h.handle.Some? || h.hasIfaces || h.awaiting then Abort(StartCheckFailed)
    else if h.started then Next(h, Some(true))
    else if !a.ready || !a.up then Next(h, Some(false))
    else
      var i := h.(handle := a.handle);
      if !a.initOk || a.handle.None? then Next(i, Some(a.initOk))
      else
        var l := i.(loops := i.loops + [EventLoop(a.handle.value, Looping)]);
        if !a.ifacesOk then Next(l, Some(false))
        else if !a.someIface then Next(l, Some(true))
        else Next(l.(hasIfaces := true, started := true), Some(true))
  }

  /** The vendor's cleanup request reaches the loops of that handle. */
  function RequestCleanup(loops: seq<EventLoop>, handle: Option<Handle>): (r: seq<EventLoop>)
    ensures |r| == |loops|
  {
    seq(|loops|, i requires 0 <= i < |loops| =>
      if handle == Some(loops[i].handle) && loops[i].phase == Looping
      then loops[i].(phase := CleanupRequested) else loops[i])
  }

  function DoStop(h: Hal, t: Thread): Outcome {
    if !h.started then Next(h, Some(true))
    else Next(h.(stopCallback := true, awaiting := true, loops := RequestCleanup(h.loops, h.handle),
                 waiters := h.waiters + {t}), None)
  }

  function DoFire(h: Hal, i: nat): Outcome
    requires i < |h.loops|
  {
    var l := h.(loops := h.loops[i := h.loops[i].(phase := CleanedUp)]);
    if !h.stopCallback then Next(l, None)
    else if h.handle != Some(h.loops[i].handle) then Abort(HandleMismatch)
    else Next(l.(handle := None, hasIfaces := false, started := false, stopCallback := false), None)
  }

  function DoExit(h: Hal, i: nat): Outcome
    requires i < |h.loops|
  {
    if !h.awaiting then Abort(LoopEndedWhileNotStopping)
    else Next(h.(awaiting := false, loops := h.loops[..i] + h.loops[i + 1..]), None)
  }

  function Do(h: Hal, s: Step): Outcome
    requires Enabled(h, s)
  {
    match s
    case Start(_, a) => DoStart(h, a)
    case Stop(t) => DoStop(h, t)
    case FireCleanup(i) => DoFire(h, i)
    case ExitLoop(i) => DoExit(h, i)
    case Wake(t) => Next(h.(waiters := h.waiters - {t}), Some(true))
    case TimeOut(t) => Next(h.(waiters := h.waiters - {t}), Some(false))
    case RefreshIfaces(b) => Next(h.(hasIfaces := b), None)
  }

  // ---- The five phases ----

  predicate Idle(h: Hal) {
    h.handle.None? && !h.hasIfaces && !h.started && !h.awaiting && !h.stopCallback && h.loops == []
  }

  /** start() got a handle but did not finish; interfaces may turn up later. */
  predicate HalfStarted(h: Hal) {
    && h.handle.Some? && !h.started && !h.awaiting && !h.stopCallback
    && (h.loops == [] || h.loops == [EventLoop(h.handle.value, Looping)])
  }

  predicate Running(h: Hal) {
    h.handle.Some? && h.started && !h.awaiting && !h.stopCallback && h.loops == [EventLoop(h.handle.value, Looping)]
  }

  predicate Stopping(h: Hal) {
    h.handle.Some? && h.started && h.awaiting && h.stopCallback
      && h.loops == [EventLoop(h.handle.value, CleanupRequested)]
  }

  /** The stop handler has run, the loop has not returned yet. */
  predicate Drained(h: Hal) {
    && h.handle.None? && !h.hasIfaces && !h.started && h.awaiting && !h.stopCallback
    && |h.loops| == 1 && h.loops[0].phase == CleanedUp
  }

  predicate InSomePhase(h: Hal) {
    Idle(h) || HalfStarted(h) || Running(h) || Stopping(h) || Drained(h)
  }

  /** No step leaves the phases, and only start can abort: exactly when the HAL is not idle. */
  lemma StepKeepsPhases(h: Hal, s: Step)
    requires InSomePhase(h) && Enabled(h, s)
    ensures Do(h, s).Abort? <==> s.Start? && !Idle(h)
    ensures Do(h, s).Abort? ==> Do(h, s).fault == StartCheckFailed
    ensures Do(h, s).Next? ==> InSomePhase(Do(h, s).hal)
  {
    match s
    case Start(_, _) =>
    case Stop(_) =>
      if h.started {
        assert RequestCleanup(h.loops, h.handle) == [EventLoop(h.handle.value, CleanupRequested)];
      }
    case FireCleanup(i) =>
    case ExitLoop(i) =>
      assert h.loops[..0] + h.loops[1..] == [];
    case Wake(_) =>
    case TimeOut(_) =>
    case RefreshIfaces(_) =>
  }

  // ---- Runs ----

  /** States the HAL passes through without aborting. */
  ghost predicate IsRun(states: seq<Hal>, steps: seq<Step>) {
    && |states| == |steps| + 1 && states[0] == NEW_HAL
    && forall i :: 0 <= i < |steps| ==> Took(states[i], steps[i], states[i + 1])
  }

  ghost predicate Took(h: Hal, s: Step, next: Hal) {
    Enabled(h, s) && Do(h, s).Next? && Do(h, s).hal == next
  }

  lemma {:induction false} AlwaysInSomePhase(states: seq<Hal>, steps: seq<Step>, i: nat)
    requires IsRun(states, steps) && i < |states|
    ensures InSomePhase(states[i])
  {
    if i > 0 {
      AlwaysInSomePhase(states, steps, i - 1);
      assert Took(states[i - 1], steps[i - 1], states[i]);
      StepKeepsPhases(states[i - 1], steps[i - 1]);
    }
  }

  /** In every run the stop handler finds the handle it belongs to, no event loop ends
      unexpectedly, and start passes its check exactly in the idle state; its "already
      started" return is never taken. */
  lemma OnlyStartCanAbort(states: seq<Hal>, steps: seq<Step>, s: Step)
    requires IsRun(states, steps) && Enabled(states[|steps|], s)
    ensures var h := states[|steps|];
            && (Do(h, s).Abort? <==> s.Start? && !Idle(h))
            && (Do(h, s).Abort? ==> Do(h, s).fault == StartCheckFailed)
            && (s.Start? && Do(h, s).Next? ==> !h.started)
  {
    AlwaysInSomePhase(states, steps, |steps|);
    StepKeepsPhases(states[|steps|], s);
  }

  /** A start ends half done exactly if it got a handle and then failed. */
  predicate EndsHalfDone(a: StartAnswers) {
    a.ready && a.up && a.handle.Some? && !(a.initOk && a.ifacesOk && a.someIface)
  }

  lemma HalfStartIff(h: Hal, a: StartAnswers)
    requires Idle(h)
    ensures DoStart(h, a).Next? && (HalfStarted(DoStart(h, a).hal) <==> EndsHalfDone(a))
    ensures Running(DoStart(h, a).hal) <==> GetsHandle(a) && !EndsHalfDone(a)
  {
  }

  predicate GetsHandle(a: StartAnswers) {
    a.ready && a.up && a.handle.Some?
  }

  /** What a start of the idle HAL answers and leaves: success if the driver is ready, the interface up and
      both vendor calls went well as far as they were made; the handle as far as one was given. */
  lemma StartIs(h: Hal, a: StartAnswers)
    requires Idle(h)
    ensures var o, asked := DoStart(h, a), a.ready && a.up;
            && o.Next? && o.returned.Some? && o.hal.waiters == h.waiters
            && (o.returned.value <==> asked && a.initOk && (a.handle.Some? ==> a.ifacesOk))
            && o.hal.handle == (if asked then a.handle else None)
            && (o.hal.started <==> asked && a.initOk && a.handle.Some? && a.ifacesOk && a.someIface)
            && (o.hal.hasIfaces <==> o.hal.started)
            && (o.hal.loops != [] <==> asked && a.initOk && a.handle.Some?)
  {
  }

  /** A start that answers success leaves a running HAL, except exactly if the vendor gave no handle or
      no interface turned up. */
  lemma SuccessWithoutRunningIff(h: Hal, a: StartAnswers)
    requires Idle(h) && DoStart(h, a).returned == Some(true)
    ensures !Running(DoStart(h, a).hal) <==> a.handle.None? || !a.someIface
  {
  }

  /** The first start already can end there, and then nothing ever leads out again. */
  lemma HalfStartReached(t: Thread, a: StartAnswers) returns (states: seq<Hal>, steps: seq<Step>)
    requires EndsHalfDone(a)
    ensures IsRun(states, steps) && HalfStarted(states[|steps|])
  {
    steps := [Start(t, a)];
    states := [NEW_HAL, DoStart(NEW_HAL, a).hal];
    assert Took(states[0], steps[0], states[1]);
  }

  /** A start that got a handle but no interface cannot be undone: stop reports success
      without doing anything, and every later start aborts. */
  lemma HalfStartIsFinal(h: Hal, s: Step)
    requires HalfStarted(h) && Enabled(h, s)
    ensures s.Start? ==> Do(h, s).Abort?
    ensures s.Stop? ==> Do(h, s) == Next(h, Some(true))
    ensures Do(h, s).Next? ==> HalfStarted(Do(h, s).hal)
  {
  }

  lemma {:induction false} HalfStartedForever(states: seq<Hal>, steps: seq<Step>, i: nat, j: nat)
    requires IsRun(states, steps) && i <= j < |states| && HalfStarted(states[i])
    ensures HalfStarted(states[j])
    ensures forall t, a :: Enabled(states[j], Start(t, a)) ==> Do(states[j], Start(t, a)).Abort?
  {
    if i < j {
      HalfStartedForever(states, steps, i, j - 1);
      assert Took(states[j - 1], steps[j - 1], states[j]);
      HalfStartIsFinal(states[j - 1], steps[j - 1]);
    }
  }

  // ---- A stop that waited ----

  /** A thread waiting in stop that could go on finds the HAL idle. */
  predicate WaitersSeeIdle(h: Hal) {
    h.waiters != {} ==> h.awaiting || Idle(h)
  }

  /** Start is not called while some stop is still waiting. */
  predicate Gated(h: Hal, s: Step) {
    s.Start? ==> h.waiters == {}
  }

  lemma GatedKeepsWaiters(h: Hal, s: Step)
    requires InSomePhase(h) && WaitersSeeIdle(h) && Enabled(h, s) && Gated(h, s) && Do(h, s).Next?
    ensures WaitersSeeIdle(Do(h, s).hal)
  {
    StepKeepsPhases(h, s);
    if s.ExitLoop? {
      assert h.loops[..0] + h.loops[1..] == [];
    }
  }

  /** If start is never called while a stop waits, every stop that waited and succeeded
      returns with the HAL idle. */
  lemma {:induction false} WaitedStopEndsIdle(states: seq<Hal>, steps: seq<Step>, i: nat)
    requires IsRun(states, steps) && i < |states|
    requires forall k :: 0 <= k < |steps| ==> Gated(states[k], steps[k])
    ensures WaitersSeeIdle(states[i])
    ensures i < |steps| && steps[i].Wake? ==> Idle(states[i]) && Idle(states[i + 1])
  {
    if i > 0 {
      WaitedStopEndsIdle(states, steps, i - 1);
      AlwaysInSomePhase(states, steps, i - 1);
      assert Took(states[i - 1], steps[i - 1], states[i]);
      GatedKeepsWaiters(states[i - 1], steps[i - 1]);
    }
    if i < |steps| {
      assert Took(states[i], steps[i], states[i + 1]);
    }
  }

  /** How a stop goes on, step by step: it asks the running HAL to clean up and waits; the stop handler
      and the end of the event loop lead back to idle. */
  lemma StopIs(h: Hal, t: Thread)
    requires InSomePhase(h) && t !in h.waiters
    ensures !h.started ==> Do(h, Stop(t)) == Next(h, Some(true))
    ensures h.started ==> var o := Do(h, Stop(t));
              && o.Next? && o.returned.None? && Stopping(o.hal) && o.hal.handle == h.handle
              && o.hal.hasIfaces == h.hasIfaces && o.hal.waiters == h.waiters + {t}
  {
    if h.started {
      assert RequestCleanup(h.loops, h.handle) == [EventLoop(h.handle.value, CleanupRequested)];
    }
  }

  lemma StopGoesOn(h: Hal)
    requires InSomePhase(h)
    ensures Stopping(h) ==> var o := Do(h, FireCleanup(0));
              o.Next? && o.returned.None? && Drained(o.hal) && o.hal.waiters == h.waiters
    ensures Drained(h) ==> var o := Do(h, ExitLoop(0));
              o.Next? && o.returned.None? && Idle(o.hal) && o.hal.waiters == h.waiters
    ensures h.handle.Some? ==> forall some :: Do(h, RefreshIfaces(some)) == Next(h.(hasIfaces := some), None)
  {
    assert Drained(h) ==> h.loops[..0] + h.loops[1..] == [];
  }

  /** In every run a stop that waited answers success exactly if the event loop has ended by then, and
      failure while it has not; either way it only stops waiting. */
  lemma WaitedStopAnswers(states: seq<Hal>, steps: seq<Step>, i: nat)
    requires IsRun(states, steps) && i < |steps| && (steps[i].Wake? || steps[i].TimeOut?)
    ensures Enabled(states[i], steps[i]) && Do(states[i], steps[i]).Next?
    ensures Do(states[i], steps[i]).returned == Some(!Stopping(states[i]) && !Drained(states[i]))
    ensures states[i + 1] == states[i].(waiters := states[i].waiters - {steps[i].thread})
    ensures steps[i].TimeOut? ==> Stopping(states[i + 1]) || Drained(states[i + 1])
  {
    assert Took(states[i], steps[i], states[i + 1]);
    AlwaysInSomePhase(states, steps, i);
  }

  /** A start that obtains a handle. */
  predicate IsObtaining(s: Step) {
    s.Start? && GetsHandle(s.answers)
  }

  ghost predicate NoExit(steps: seq<Step>, since: nat, until: nat) {
    forall k :: since <= k < until && k < |steps| ==> !steps[k].ExitLoop?
  }

  ghost predicate SomeoneObtains(steps: seq<Step>, since: nat, until: nat) {
    exists k :: since <= k < until && k < |steps| && IsObtaining(steps[k])
  }

  /** The event loop whose end lets a waiting stop go on has ended before. */
  lemma {:induction false} LastExit(states: seq<Hal>, steps: seq<Step>, i: nat) returns (e: nat)
    requires IsRun(states, steps) && i < |states| && states[i].waiters != {} && !states[i].awaiting
    ensures e < i && steps[e].ExitLoop? && NoExit(steps, e + 1, i)
  {
    e := i - 1;
    assert Took(states[i - 1], steps[i - 1], states[i]);
    if !steps[i - 1].ExitLoop? {
      e := LastExit(states, steps, i - 1);
    }
  }

  lemma ExitEndsIdle(states: seq<Hal>, steps: seq<Step>, e: nat)
    requires IsRun(states, steps) && e < |steps| && steps[e].ExitLoop?
    ensures Idle(states[e + 1])
  {
    AlwaysInSomePhase(states, steps, e);
    assert Took(states[e], steps[e], states[e + 1]);
    assert states[e].loops[..0] + states[e].loops[1..] == [];
  }

  lemma IdleStep(h: Hal, s: Step)
    requires InSomePhase(h) && Enabled(h, s) && Do(h, s).Next? && !s.ExitLoop?
    ensures Idle(Do(h, s).hal) <==> Idle(h) && !IsObtaining(s)
  {
    if s.Stop? && h.started {
      assert RequestCleanup(h.loops, h.handle) != [];
    }
  }

  /** After a loop has ended the HAL stays idle exactly as long as no start obtains a handle. */
  lemma {:induction false} IdleSinceExitIff(states: seq<Hal>, steps: seq<Step>, e: nat, i: nat)
    requires IsRun(states, steps) && e < i < |states| && steps[e].ExitLoop? && NoExit(steps, e + 1, i)
    ensures Idle(states[i]) <==> !SomeoneObtains(steps, e + 1, i)
  {
    if i == e + 1 {
      ExitEndsIdle(states, steps, e);
    } else {
      IdleSinceExitIff(states, steps, e, i - 1);
      AlwaysInSomePhase(states, steps, i - 1);
      assert Took(states[i - 1], steps[i - 1], states[i]);
      IdleStep(states[i - 1], steps[i - 1]);
      assert SomeoneObtains(steps, e + 1, i) <==> SomeoneObtains(steps, e + 1, i - 1) || IsObtaining(steps[i - 1]);
    }
  }

  /** In every run a stop that waited returns success in a HAL that is not idle exactly if some start
      obtained a handle since the event loop ended. */
  lemma WokenNotIdleIff(states: seq<Hal>, steps: seq<Step>, i: nat) returns (e: nat)
    requires IsRun(states, steps) && i < |steps| && steps[i].Wake?
    ensures e < i && steps[e].ExitLoop? && NoExit(steps, e + 1, i)
    ensures Enabled(states[i], steps[i]) && Do(states[i], steps[i]).returned == Some(true)
    ensures !Idle(states[i + 1]) <==> SomeoneObtains(steps, e + 1, i)
  {
    assert Took(states[i], steps[i], states[i + 1]);
    e := LastExit(states, steps, i);
    IdleSinceExitIff(states, steps, e, i);
  }

  /** This happens: stop, callback, loop exit and another caller's start all run before the waiter does. */
  lemma WokenInRunningReached(a: StartAnswers) returns (states: seq<Hal>, steps: seq<Step>)
    requires GetsHandle(a) && !EndsHalfDone(a)
    ensures IsRun(states, steps) && |steps| > 0 && steps[|steps| - 1].Wake? && Running(states[|steps|])
  {
    steps := [Start(1, a), Stop(1), FireCleanup(0), ExitLoop(0), Start(2, a), Wake(1)];
    var h0 := NEW_HAL;
    var h1 := Do(h0, steps[0]).hal;
    assert RequestCleanup(h1.loops, h1.handle) == [EventLoop(a.handle.value, CleanupRequested)];
    var h2 := Do(h1, steps[1]).hal;
    var h3 := Do(h2, steps[2]).hal;
    assert h3.loops[..0] + h3.loops[1..] == [];
    var h4 := Do(h3, steps[3]).hal;
    var h5 := Do(h4, steps[4]).hal;
    var h6 := Do(h5, steps[5]).hal;
    states := [h0, h1, h2, h3, h4, h5, h6];
    assert Took(h0, steps[0], h1) && Took(h1, steps[1], h2) && Took(h2, steps[2], h3) && Took(h3, steps[3], h4);
    assert Took(h4, steps[4], h5) && Took(h5, steps[5], h6);
  }
}
