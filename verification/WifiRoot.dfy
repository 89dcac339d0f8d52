/** The root Wi-Fi object over the legacy HAL: start, stop and configure from any thread.

    Starting creates chip objects, stopping invalidates them and stops the HAL, and only a
    valid chip starts the HAL, when it is configured in another of its modes.  While a stop
    waits, the lock is free and other calls interleave.  The HAL's own steps are those of
    `LegacyHal`; reconfiguring a chip is one step here, and does to its modes what
    `ChipSpec` says.
  */
module WifiRoot {
  import opened Options
  import opened Concurrency
  import C = ChipSpec
  import L = LegacyHal

  datatype RunState = Stopped | Started | StoppingRun

  /** A chip object: its id, whether calls on it are accepted, its modes, and the one it is configured in. */
  datatype ChipObject = ChipObject(id: nat, valid: bool, modes: seq<C.ChipMode>, mode: int, dynamic: bool)

  /** The chip of the HAL that is modelled; the others have HALs of their own. */
  const PRIMARY := 0

  /** `objects` keeps every chip ever handed out; `chips` refers to the listed ones. */
  datatype Root = Root(
    run: RunState,
    objects: seq<ChipObject>,
    chips: seq<nat>,
    hal: L.Hal,
    stopper: Option<L.Thread>)

  const NEW_ROOT := Root(Stopped, [], [], L.NEW_HAL, None)

  datatype Step =
    | StartWifi(initOk: bool, chipModes: seq<seq<C.ChipMode>>)
    | StopWifi(thread: L.Thread)
    | ConfigureChip(chip: nat, thread: L.Thread, mode: int, answers: ConfigureAnswers)
    | HalStep(step: L.Step)
    | FinishStop
    | StopTimesOut

  /** Whether the HAL stops in time and the firmware changes, how the HAL starts, and the driver's matrix. */
  datatype ConfigureAnswers = ConfigureAnswers(
    stop: bool,
    firmware: bool,
    start: L.StartAnswers,
    matrix: Option<seq<Combination>>)

  datatype Outcome = Next(root: Root) | Abort

  function NewObjects(chipModes: seq<seq<C.ChipMode>>): (os: seq<ChipObject>)
    ensures |os| == |chipModes|
    ensures forall i :: 0 <= i < |os| ==> os[i] == ChipObject(i, true, chipModes[i], C.MODE_INVALID, false)
  {
    seq(|chipModes|, i requires 0 <= i < |chipModes| => ChipObject(i, true, chipModes[i], C.MODE_INVALID, false))
  }

  function Invalidated(objects: seq<ChipObject>, chips: seq<nat>): (os: seq<ChipObject>)
    ensures |os| == |objects|
    ensures forall i :: 0 <= i < |os| ==> os[i] == objects[i].(valid := objects[i].valid && i !in chips)
  {
    seq(|objects|, i requires 0 <= i < |objects| => objects[i].(valid := objects[i].valid && i !in chips))
  }

  /** Ids are given out from zero in the order of the HALs. */
  function DoStartWifi(r: Root, initOk: bool, chipModes: seq<seq<C.ChipMode>>): Root {
    if r.run != Stopped || !initOk || chipModes == [] then r
    else r.(run := Started, objects := r.objects + NewObjects(chipModes),
            chips := r.chips + seq(|chipModes|, i requires 0 <= i < |chipModes| => |r.objects| + i))
  }

  function DoStopWifi(r: Root, t: L.Thread): Root {
    if r.run != Started then r
    else
      var invalid := r.(objects := Invalidated(r.objects, r.chips), chips := []);
      if !r.hal.started then invalid.(run := Stopped)
      else invalid.(run := StoppingRun, hal := L.DoStop(r.hal, t).hal, stopper := Some(t))
  }

  /** Stop and restart inside one call: the HAL ends idle before it is started again. */
  function HalBeforeStart(h: L.Hal, configured: bool): L.Hal {
    if configured && h.started then L.NEW_HAL.(waiters := h.waiters) else h
  }

  /** A stop that timed out: the cleanup goes on, and nobody waits for it. */
  function HalAfterTimeOut(h: L.Hal, t: L.Thread): L.Hal {
    L.DoStop(h, t).hal.(waiters := h.waiters)
  }

  predicate IsConfigured(o: ChipObject) {
    C.IsValidMode(o.modes, o.mode)
  }

  /** Modes in which the firmware is changed first. */
  predicate NeedsFirmware(mode: int) {
    mode == C.MODE_V1_STA || mode == C.MODE_V1_AP
  }

  /** The mode is taken over, and the driver's matrix replaces the modes the first time there is one. */
  function Configured(o: ChipObject, mode: int, matrix: Option<seq<Combination>>): ChipObject {
    if o.dynamic || matrix.None? then o.(mode := mode)
    else o.(mode := mode, modes := [C.ChipMode(C.MODE_V3, matrix.value)], dynamic := true)
  }

  function DoConfigure(r: Root, chip: nat, t: L.Thread, mode: int, a: ConfigureAnswers): Outcome
    requires chip < |r.objects|
  {
    var o := r.objects[chip];
    if !o.valid || !C.IsValidMode(o.modes, mode) || mode == o.mode then Next(r)
    else if IsConfigured(o) && r.hal.started && !a.stop then Next(r.(hal := HalAfterTimeOut(r.hal, t)))
    else
      var h := HalBeforeStart(r.hal, IsConfigured(o));
      if NeedsFirmware(mode) && !a.firmware then Next(r.(hal := h))
      else
        var started := L.DoStart(h, a.start);
        if started.Abort? then Abort
        else if started.returned != Some(true) then Next(r.(hal := started.hal))
        else Next(r.(hal := started.hal, objects := r.objects[chip := Configured(o, mode, a.matrix)]))
  }

  predicate Enabled(r: Root, s: Step) {
    match s
    case StartWifi(_, _) => true
    case StopWifi(t) => t !in r.hal.waiters
    case ConfigureChip(chip, t, _, _) => chip < |r.objects| && r.objects[chip].id == PRIMARY && t !in r.hal.waiters
    case HalStep(h) => (h.FireCleanup? || h.ExitLoop? || h.RefreshIfaces?) && L.Enabled(r.hal, h)
    case FinishStop => r.stopper.Some? && L.Enabled(r.hal, L.Wake(r.stopper.value))
    case StopTimesOut => r.stopper.Some? && L.Enabled(r.hal, L.TimeOut(r.stopper.value))
  }

  function Ended(r: Root, hal: L.Hal): Root {
    r.(run := Stopped, hal := hal, stopper := None)
  }

  function Do(r: Root, s: Step): Outcome
    requires Enabled(r, s)
  {
    match s
    case StartWifi(initOk, chipModes) => Next(DoStartWifi(r, initOk, chipModes))
    case StopWifi(t) => Next(DoStopWifi(r, t))
    case ConfigureChip(chip, t, mode, answers) => DoConfigure(r, chip, t, mode, answers)
    case HalStep(h) =>
      var o := L.Do(r.hal, h);
      if o.Abort? then Abort else Next(r.(hal := o.hal))
    case FinishStop => Next(Ended(r, L.Do(r.hal, L.Wake(r.stopper.value)).hal))
    case StopTimesOut => Next(Ended(r, L.Do(r.hal, L.TimeOut(r.stopper.value)).hal))
  }

  /** The one call made outside the steps above is the reconfiguration's stop; it is a
      sequence of HAL steps that ends idle. */
  lemma ReconfigureStopIsARun(h: L.Hal, t: L.Thread)
    requires L.InSomePhase(h) && h.started && t !in h.waiters
    ensures var h1 := L.DoStop(h, t).hal;
            L.Enabled(h, L.Stop(t)) && L.Enabled(h1, L.FireCleanup(0)) && L.Do(h1, L.FireCleanup(0)).Next?
    ensures var h2 := L.Do(L.DoStop(h, t).hal, L.FireCleanup(0)).hal;
            L.Enabled(h2, L.ExitLoop(0)) && L.Do(h2, L.ExitLoop(0)).Next?
    ensures var h3 := L.Do(L.Do(L.DoStop(h, t).hal, L.FireCleanup(0)).hal, L.ExitLoop(0)).hal;
            L.Enabled(h3, L.Wake(t)) && L.Do(h3, L.Wake(t)).hal == HalBeforeStart(h, true)
  {
    assert L.RequestCleanup(h.loops, h.handle) == [L.EventLoop(h.handle.value, L.CleanupRequested)];
    var h2 := L.Do(L.DoStop(h, t).hal, L.FireCleanup(0)).hal;
    assert h2.loops[..0] + h2.loops[1..] == [];
    assert h.waiters + {t} - {t} == h.waiters;
  }

  /** Configuring does to the modes of a chip object what it does to those of a chip, if the HAL's
      answers to stop and start are the ones this HAL gives. */
  lemma ConfigureAgrees(r: Root, chip: nat, t: L.Thread, mode: int, a: ConfigureAnswers, c: C.Chip, env: C.Env)
    requires chip < |r.objects| && r.objects[chip].valid && DoConfigure(r, chip, t, mode, a).Next?
    requires var o := r.objects[chip]; c.modes == o.modes && c.mode == o.mode && c.dynamic == o.dynamic
    ensures var o := r.objects[chip];
            var start := L.DoStart(HalBeforeStart(r.hal, IsConfigured(o)), a.start);
            var calls := C.ConfigureCalls(!r.hal.started || a.stop, a.firmware,
                                          start.Next? && start.returned == Some(true), a.matrix);
            var d, p := C.Configure(c, env, mode, calls).chip, DoConfigure(r, chip, t, mode, a).root.objects[chip];
            d.modes == p.modes && d.mode == p.mode && d.dynamic == p.dynamic
  {
  }

  // ---- What every step keeps ----

  /** Listed chips have the ids 0, 1, ... and are exactly the valid ones. */
  ghost predicate ChipsListed(r: Root) {
    && (r.run != Started ==> r.chips == [])
    && (forall i :: 0 <= i < |r.chips| ==> r.chips[i] < |r.objects| && r.objects[r.chips[i]].id == i)
    && (forall o :: 0 <= o < |r.objects| ==> (r.objects[o].valid <==> o in r.chips))
  }

  /** A stop is in progress exactly in the stopping state, and only it waits in the HAL. */
  ghost predicate OneStopper(r: Root) {
    && (r.run == StoppingRun <==> r.stopper.Some?)
    && r.hal.waiters == (if r.stopper.Some? then {r.stopper.value} else {})
    && (r.run == StoppingRun ==> L.Stopping(r.hal) || L.Drained(r.hal) || L.Idle(r.hal))
  }

  /** A chip that took over the driver's matrix has that mode only. */
  ghost predicate DynamicModes(r: Root) {
    forall o :: 0 <= o < |r.objects| && r.objects[o].dynamic ==> IsDynamic(r.objects[o].modes)
  }

  predicate IsDynamic(modes: seq<C.ChipMode>) {
    |modes| == 1 && modes[0].id == C.MODE_V3
  }

  ghost predicate Consistent(r: Root) {
    ChipsListed(r) && OneStopper(r) && L.InSomePhase(r.hal) && DynamicModes(r)
  }

  lemma StartWifiConsistent(r: Root, initOk: bool, chipModes: seq<seq<C.ChipMode>>)
    requires Consistent(r)
    ensures Consistent(DoStartWifi(r, initOk, chipModes))
  {
    var d := DoStartWifi(r, initOk, chipModes);
    if d != r {
      var base := |r.objects|;
      forall o | 0 <= o < |d.objects| ensures d.objects[o].valid <==> o in d.chips {
        if o >= base {
          assert d.chips[o - base] == o;
        }
      }
    }
  }

  lemma StopWifiConsistent(r: Root, t: L.Thread)
    requires Consistent(r) && t !in r.hal.waiters
    ensures Consistent(DoStopWifi(r, t))
  {
    if r.run == Started {
      L.StepKeepsPhases(r.hal, L.Stop(t));
      if r.hal.started {
        assert L.RequestCleanup(r.hal.loops, r.hal.handle)[0].phase != L.Looping;
      }
    }
  }

  lemma TimedOutStopKeepsPhase(h: L.Hal, t: L.Thread)
    requires L.InSomePhase(h) && h.started && t !in h.waiters
    ensures L.Stopping(HalAfterTimeOut(h, t))
  {
    L.StepKeepsPhases(h, L.Stop(t));
    assert L.RequestCleanup(h.loops, h.handle)[0].phase != L.Looping;
  }

  lemma ConfigureConsistent(r: Root, chip: nat, t: L.Thread, mode: int, a: ConfigureAnswers)
    requires Consistent(r) && chip < |r.objects| && t !in r.hal.waiters
    ensures DoConfigure(r, chip, t, mode, a).Next? ==> Consistent(DoConfigure(r, chip, t, mode, a).root)
  {
    var o := r.objects[chip];
    if o.valid {
      assert r.run == Started;
      if r.hal.started {
        TimedOutStopKeepsPhase(r.hal, t);
      }
      L.StepKeepsPhases(HalBeforeStart(r.hal, IsConfigured(o)), L.Start(t, a.start));
    }
  }

  lemma HalStepConsistent(r: Root, h: L.Step)
    requires Consistent(r) && Enabled(r, HalStep(h))
    ensures Do(r, HalStep(h)).Next? && Consistent(Do(r, HalStep(h)).root)
  {
    L.StepKeepsPhases(r.hal, h);
    if h.ExitLoop? {
      assert r.hal.loops[..0] + r.hal.loops[1..] == [];
    }
  }

  lemma StepConsistent(r: Root, s: Step)
    requires Consistent(r) && Enabled(r, s)
    ensures Do(r, s).Next? ==> Consistent(Do(r, s).root)
    ensures !s.ConfigureChip? ==> Do(r, s).Next?
  {
    match s
    case StartWifi(initOk, chipModes) => StartWifiConsistent(r, initOk, chipModes);
    case StopWifi(t) => StopWifiConsistent(r, t);
    case ConfigureChip(chip, t, mode, answers) => ConfigureConsistent(r, chip, t, mode, answers);
    case HalStep(h) => HalStepConsistent(r, h);
    case FinishStop => L.StepKeepsPhases(r.hal, L.Wake(r.stopper.value));
    case StopTimesOut => L.StepKeepsPhases(r.hal, L.TimeOut(r.stopper.value));
  }

  // ---- Runs ----

  ghost predicate IsRun(states: seq<Root>, steps: seq<Step>) {
    && |states| == |steps| + 1 && states[0] == NEW_ROOT
    && forall i :: 0 <= i < |steps| ==> Took(states[i], steps[i], states[i + 1])
  }

  ghost predicate Took(r: Root, s: Step, next: Root) {
    Enabled(r, s) && Do(r, s) == Next(next)
  }

  /** In every interleaving: chips are listed only while started, their ids are 0..n-1,
      the valid chip objects are exactly the listed ones, and one stop at most waits. */
  lemma {:induction false} AlwaysConsistent(states: seq<Root>, steps: seq<Step>, i: nat)
    requires IsRun(states, steps) && i < |states|
    ensures Consistent(states[i])
  {
    if i > 0 {
      AlwaysConsistent(states, steps, i - 1);
      assert Took(states[i - 1], steps[i - 1], states[i]);
      StepConsistent(states[i - 1], steps[i - 1]);
    }
  }

  /** A chip that has become invalid stays invalid, whatever happens later. */
  lemma {:induction false} InvalidForever(states: seq<Root>, steps: seq<Step>, i: nat, j: nat, chip: nat)
    requires IsRun(states, steps) && i <= j < |states|
    requires chip < |states[i].objects| && !states[i].objects[chip].valid
    ensures chip < |states[j].objects| && !states[j].objects[chip].valid && chip !in states[j].chips
  {
    AlwaysConsistent(states, steps, j);
    if i < j {
      InvalidForever(states, steps, i, j - 1, chip);
      assert Took(states[j - 1], steps[j - 1], states[j]);
    }
  }

  /** While a stop is in progress neither start nor another stop has any effect, no chip
      call reaches the HAL, and the stop that succeeds leaves the HAL idle. */
  lemma StoppingIsExclusive(states: seq<Root>, steps: seq<Step>, i: nat)
    requires IsRun(states, steps) && i < |steps| && states[i].run == StoppingRun
    ensures steps[i].StartWifi? || steps[i].StopWifi? || steps[i].ConfigureChip? ==> states[i + 1] == states[i]
    ensures steps[i].FinishStop? ==> L.Idle(states[i].hal) && L.Idle(states[i + 1].hal) && states[i + 1].run == Stopped
  {
    AlwaysConsistent(states, steps, i);
    assert Took(states[i], steps[i], states[i + 1]);
  }

  // ---- What starting and stopping do ----

  /** What a caller of start or stop is answered; a stop that waits is answered when it goes on. */
  datatype Answer = Fine | NotAvailable | Failed | Later

  function AnswerOf(r: Root, s: Step): Answer
    requires Enabled(r, s) && (s.StartWifi? || s.StopWifi? || s.FinishStop? || s.StopTimesOut?)
  {
    match s
    case StartWifi(initOk, chipModes) =>
      if r.run == Started then Fine
      else if r.run == StoppingRun then NotAvailable
      else if !initOk || chipModes == [] then Failed
      else Fine
    case StopWifi(_) =>
      if r.run == Stopped then Fine
      else if r.run == StoppingRun then NotAvailable
      else if r.hal.started then Later
      else Fine
    case FinishStop => Fine
    case StopTimesOut => Failed
  }

  /** In every run a start is answered well exactly if Wi-Fi is started afterwards, and a stop exactly if it
      is stopped afterwards and nothing timed out; a stop that waits is answered later. */
  lemma AnswersAreTrue(states: seq<Root>, steps: seq<Step>, i: nat)
    requires IsRun(states, steps) && i < |steps|
    requires steps[i].StartWifi? || steps[i].StopWifi? || steps[i].FinishStop? || steps[i].StopTimesOut?
    ensures Enabled(states[i], steps[i])
    ensures var answer, before, after := AnswerOf(states[i], steps[i]), states[i], states[i + 1];
            && (answer == NotAvailable <==> before.run == StoppingRun && (steps[i].StartWifi? || steps[i].StopWifi?))
            && (steps[i].StartWifi? ==> (answer == Fine <==> after.run == Started))
            && (steps[i].StopWifi? ==> (answer == Fine <==> after.run == Stopped))
            && (answer == Later <==> before.run == Started && after.run == StoppingRun)
            && (steps[i].FinishStop? || steps[i].StopTimesOut? ==>
                  && after == before.(run := Stopped, stopper := None, hal := before.hal.(waiters := {}))
                  && (answer == Fine <==> L.Idle(after.hal)))
  {
    AlwaysConsistent(states, steps, i);
    assert Took(states[i], steps[i], states[i + 1]);
  }

  /** Starting lists one new chip per HAL, with ids from zero, valid and not configured, and leaves the old
      objects alone; without HALs, after a failed initialisation or unless stopped nothing changes. */
  lemma StartWifiIs(r: Root, initOk: bool, chipModes: seq<seq<C.ChipMode>>)
    requires Consistent(r)
    ensures var d, n := Do(r, StartWifi(initOk, chipModes)).root, |r.objects|;
            if r.run != Stopped || !initOk || chipModes == [] then d == r
            else
              && d.run == Started && d.hal == r.hal && d.stopper == r.stopper
              && |d.objects| == n + |chipModes| && d.objects[..n] == r.objects && |d.chips| == |chipModes|
              && forall k :: 0 <= k < |chipModes| ==>
                   d.chips[k] == n + k && d.objects[n + k] == ChipObject(k, true, chipModes[k], C.MODE_INVALID, false)
  {
  }

  /** Stopping ends every listed chip and no other object, and stops the HAL if it is started. */
  lemma StopWifiIs(r: Root, t: L.Thread)
    requires Consistent(r) && t !in r.hal.waiters
    ensures var d := Do(r, StopWifi(t)).root;
            if r.run != Started then d == r
            else
              && d.chips == [] && |d.objects| == |r.objects|
              && (forall o :: 0 <= o < |d.objects| ==> d.objects[o] == r.objects[o].(valid := false))
              && if r.hal.started
                 then d.run == StoppingRun && d.stopper == Some(t) && L.Stopping(d.hal) && d.hal.handle == r.hal.handle
                 else d.run == Stopped && d.stopper == r.stopper && d.hal == r.hal
  {
    L.StopIs(r.hal, t);
    if r.run == Started {
      forall o | 0 <= o < |r.objects| ensures Invalidated(r.objects, r.chips)[o] == r.objects[o].(valid := false) {
        assert r.objects[o].valid <==> o in r.chips;
      }
    }
  }

  /** Steps of the HAL change the HAL and nothing else. */
  lemma HalStepIs(r: Root, h: L.Step)
    requires Consistent(r) && Enabled(r, HalStep(h))
    ensures L.Do(r.hal, h).Next? && Do(r, HalStep(h)) == Next(r.(hal := L.Do(r.hal, h).hal))
  {
    L.StepKeepsPhases(r.hal, h);
  }

  // ---- When configuring aborts ----

  /** The call gets as far as starting the HAL. */
  predicate ReachesStart(r: Root, o: ChipObject, mode: int, a: ConfigureAnswers) {
    && o.valid && C.IsValidMode(o.modes, mode) && mode != o.mode
    && (IsConfigured(o) && r.hal.started ==> a.stop)
    && (NeedsFirmware(mode) ==> a.firmware)
  }

  /** The HAL is idle by then, or was running for a chip that knows it is configured. */
  predicate FindsIdle(r: Root, o: ChipObject) {
    L.Idle(r.hal) || (IsConfigured(o) && r.hal.started)
  }

  lemma ConfigureAbortsIff(r: Root, chip: nat, t: L.Thread, mode: int, a: ConfigureAnswers)
    requires Consistent(r) && chip < |r.objects|
    ensures var o := r.objects[chip];
            DoConfigure(r, chip, t, mode, a).Abort? <==> ReachesStart(r, o, mode, a) && !FindsIdle(r, o)
  {
    var h := HalBeforeStart(r.hal, IsConfigured(r.objects[chip]));
    assert L.InSomePhase(h) && !L.Idle(h) ==> h.handle.Some? || h.awaiting;
  }

  /** Configuring a chip that gets as far as starting the HAL leaves the HAL as that start does, changes the
      chip exactly if the start answered success, and never changes another chip. */
  lemma ConfigureIs(r: Root, chip: nat, t: L.Thread, mode: int, a: ConfigureAnswers)
    requires Consistent(r) && chip < |r.objects| && t !in r.hal.waiters && DoConfigure(r, chip, t, mode, a).Next?
    ensures var o, d := r.objects[chip], DoConfigure(r, chip, t, mode, a).root;
            && d == r.(hal := d.hal, objects := d.objects) && |d.objects| == |r.objects|
            && (forall k :: 0 <= k < |r.objects| && k != chip ==> d.objects[k] == r.objects[k])
            && (!ReachesStart(r, o, mode, a) ==> d.objects == r.objects)
            && (ReachesStart(r, o, mode, a) ==>
                  var s := a.start;
                  var good := s.ready && s.up && s.initOk && (s.handle.Some? ==> s.ifacesOk);
                  && (L.Running(d.hal) <==> L.GetsHandle(a.start) && !L.EndsHalfDone(a.start))
                  && (d.objects[chip].mode == mode <==> good)
                  && (!good ==> d.objects == r.objects))
  {
    var o := r.objects[chip];
    if ReachesStart(r, o, mode, a) {
      ConfigureAbortsIff(r, chip, t, mode, a);
      var h := HalBeforeStart(r.hal, IsConfigured(o));
      assert L.Idle(h);
      L.StartIs(h, a.start);
      L.HalfStartIff(h, a.start);
    }
  }

  /** Configuring a chip that does not get that far: refused calls change nothing, a stop that times out
      leaves the HAL stopping, and a firmware that is not changed leaves it stopped if it was to be restarted. */
  lemma RefusedConfigureIs(r: Root, chip: nat, t: L.Thread, mode: int, a: ConfigureAnswers)
    requires Consistent(r) && chip < |r.objects| && t !in r.hal.waiters && !ReachesStart(r, r.objects[chip], mode, a)
    ensures DoConfigure(r, chip, t, mode, a).Next?
    ensures var o, d := r.objects[chip], DoConfigure(r, chip, t, mode, a).root;
            if !o.valid || !C.IsValidMode(o.modes, mode) || mode == o.mode then d == r
            else
              && d == r.(hal := d.hal) && d.hal.waiters == r.hal.waiters
              && (if !(IsConfigured(o) && r.hal.started) then d.hal == r.hal
                  else if a.stop then L.Idle(d.hal) else L.Stopping(d.hal))
  {
    if r.hal.started {
      TimedOutStopKeepsPhase(r.hal, t);
    }
  }

  /** In every run: once a chip took over the driver's matrix while being configured in another mode
      than the one that matrix is listed under, and the HAL runs, configuring that mode aborts, and
      every other mode is refused without an effect. */
  lemma UnlistedModeAborts(states: seq<Root>, steps: seq<Step>, i: nat, chip: nat, t: L.Thread, mode: int,
                           a: ConfigureAnswers)
    requires IsRun(states, steps) && i < |states| && chip < |states[i].objects|
    requires var o := states[i].objects[chip]; o.valid && o.dynamic && o.mode != C.MODE_V3
    requires L.Running(states[i].hal)
    ensures DoConfigure(states[i], chip, t, mode, a) == if mode == C.MODE_V3 then Abort else Next(states[i])
  {
    AlwaysConsistent(states, steps, i);
    ConfigureAbortsIff(states[i], chip, t, mode, a);
    var o := states[i].objects[chip];
    assert IsDynamic(o.modes) && o.modes == [o.modes[0]];
  }

  /** Such a state is two steps away, for every listed mode other than the matrix's and every matrix. */
  lemma UnlistedModeReached(t: L.Thread, modes: seq<C.ChipMode>, mode: int, a: ConfigureAnswers)
    returns (states: seq<Root>, steps: seq<Step>)
    requires C.IsValidMode(modes, mode) && mode != C.MODE_V3 && !C.IsValidMode(modes, C.MODE_INVALID)
    requires a.firmware && a.matrix.Some? && L.GetsHandle(a.start) && !L.EndsHalfDone(a.start)
    ensures IsRun(states, steps) && L.Running(states[|steps|].hal)
    ensures var r := states[|steps|];
            |r.objects| == 1 && r.objects[0].valid && r.objects[0].dynamic && r.objects[0].mode == mode
  {
    steps := [StartWifi(true, [modes]), ConfigureChip(0, t, mode, a)];
    var r1 := DoStartWifi(NEW_ROOT, true, [modes]);
    L.HalfStartIff(L.NEW_HAL, a.start);
    states := [NEW_ROOT, r1, DoConfigure(r1, 0, t, mode, a).root];
    assert Took(states[0], steps[0], states[1]) && Took(states[1], steps[1], states[2]);
  }

  /** A chip that is not configured, as after a restart: it aborts exactly if the HAL has not become
      idle, for instance because the stop before timed out. */
  lemma TimedOutStopAborts(r: Root, chip: nat, t: L.Thread, mode: int, a: ConfigureAnswers)
    requires Consistent(r) && chip < |r.objects| && r.objects[chip].valid && !IsConfigured(r.objects[chip])
    ensures DoConfigure(r, chip, t, mode, a).Abort?
       <==> C.IsValidMode(r.objects[chip].modes, mode) && (NeedsFirmware(mode) ==> a.firmware) && !L.Idle(r.hal)
  {
    ConfigureAbortsIff(r, chip, t, mode, a);
    assert C.IsValidMode(r.objects[chip].modes, mode) ==> mode != r.objects[chip].mode;
  }

  /** A run leads there: configure, stop, time out, start again. */
  lemma TimedOutStopReached(t: L.Thread, modes: seq<C.ChipMode>, mode: int, a: ConfigureAnswers)
    returns (states: seq<Root>, steps: seq<Step>)
    requires C.IsValidMode(modes, mode) && !C.IsValidMode(modes, C.MODE_INVALID)
    requires a.firmware && L.GetsHandle(a.start) && !L.EndsHalfDone(a.start)
    ensures IsRun(states, steps)
    ensures var r := states[|steps|];
            |r.objects| == 2 && r.objects[1] == ChipObject(PRIMARY, true, modes, C.MODE_INVALID, false)
    ensures !L.Idle(states[|steps|].hal)
  {
    var r1 := DoStartWifi(NEW_ROOT, true, [modes]);
    L.HalfStartIff(L.NEW_HAL, a.start);
    var r2 := DoConfigure(r1, 0, t, mode, a).root;
    var r3 := DoStopWifi(r2, t);
    var r4 := Do(r3, StopTimesOut).root;
    var r5 := DoStartWifi(r4, true, [modes]);
    steps := [StartWifi(true, [modes]), ConfigureChip(0, t, mode, a), StopWifi(t), StopTimesOut,
              StartWifi(true, [modes])];
    states := [NEW_ROOT, r1, r2, r3, r4, r5];
    assert Took(NEW_ROOT, steps[0], r1) && Took(r1, steps[1], r2) && Took(r2, steps[2], r3);
    assert Took(r3, steps[3], r4) && Took(r4, steps[4], r5);
  }

  // ---- When configuring never aborts ----

  /** No stop times out, no start is left half done, and a matrix is taken over only in its own mode. */
  predicate Clean(r: Root, s: Step)
    requires Enabled(r, s)
  {
    match s
    case StopTimesOut => false
    case ConfigureChip(chip, _, mode, a) =>
      a.stop && !L.EndsHalfDone(a.start) && (a.matrix.Some? && !r.objects[chip].dynamic ==> mode == C.MODE_V3)
    case _ => true
  }

  /** The HAL runs only for a started root whose chip knows that it is configured. */
  ghost predicate HalMatchesChip(r: Root) {
    && !L.HalfStarted(r.hal)
    && (r.run == Stopped ==> L.Idle(r.hal))
    && (r.run == Started ==> r.chips != [] && r.chips[0] < |r.objects|)
    && (r.run == Started ==> L.Idle(r.hal) || (L.Running(r.hal) && IsConfigured(r.objects[r.chips[0]])))
  }

  /** The modes a chip ends up with list the mode it was configured in. */
  lemma ConfiguredIsListed(o: ChipObject, mode: int, matrix: Option<seq<Combination>>)
    requires C.IsValidMode(o.modes, mode) && (matrix.Some? && !o.dynamic ==> mode == C.MODE_V3)
    ensures IsConfigured(Configured(o, mode, matrix))
  {
    var p := Configured(o, mode, matrix);
    if !o.dynamic && matrix.Some? {
      assert p.modes[0] in p.modes;
    }
  }

  lemma CleanConfigure(r: Root, chip: nat, t: L.Thread, mode: int, a: ConfigureAnswers)
    requires Consistent(r) && HalMatchesChip(r) && Enabled(r, ConfigureChip(chip, t, mode, a))
    requires Clean(r, ConfigureChip(chip, t, mode, a))
    ensures DoConfigure(r, chip, t, mode, a).Next? && HalMatchesChip(DoConfigure(r, chip, t, mode, a).root)
  {
    var o := r.objects[chip];
    if o.valid && C.IsValidMode(o.modes, mode) && mode != o.mode {
      assert chip in r.chips;
      assert chip == r.chips[0];
      var h := HalBeforeStart(r.hal, IsConfigured(o));
      assert L.Idle(h);
      L.HalfStartIff(h, a.start);
      ConfiguredIsListed(o, mode, a.matrix);
    }
  }

  lemma CleanStep(r: Root, s: Step)
    requires Consistent(r) && HalMatchesChip(r) && Enabled(r, s) && Clean(r, s)
    ensures Do(r, s).Next? && HalMatchesChip(Do(r, s).root)
  {
    match s
    case StartWifi(initOk, chipModes) =>
      if DoStartWifi(r, initOk, chipModes) != r {
        assert r.chips == [];
      }
    case StopWifi(t) =>
    case ConfigureChip(chip, t, mode, a) => CleanConfigure(r, chip, t, mode, a);
    case HalStep(h) =>
      HalStepConsistent(r, h);
    case FinishStop =>
    case StopTimesOut =>
  }

  /** In every run without time-outs, half-done starts and misplaced matrices, no call ever aborts:
      each configuration finds the HAL idle by the time it starts it. */
  lemma {:induction false} CleanRunsNeverAbort(states: seq<Root>, steps: seq<Step>, i: nat, s: Step)
    requires IsRun(states, steps) && i < |states|
    requires forall k :: 0 <= k < |steps| ==> Enabled(states[k], steps[k]) && Clean(states[k], steps[k])
    requires Enabled(states[i], s) && Clean(states[i], s)
    ensures HalMatchesChip(states[i]) && Do(states[i], s).Next?
  {
    if i > 0 {
      assert Took(states[i - 1], steps[i - 1], states[i]);
      CleanRunsNeverAbort(states, steps, i - 1, steps[i - 1]);
      AlwaysConsistent(states, steps, i - 1);
      CleanStep(states[i - 1], steps[i - 1]);
    }
    AlwaysConsistent(states, steps, i);
    CleanStep(states[i], s);
  }
}
