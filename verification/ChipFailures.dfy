/** Runs in which a Wi-Fi chip leaves the limits of its mode, reuses a name or forgets a dependant.

    Each starts with a new chip and takes the steps of `ChipSpec`; each but its last step is
    careful.  The exact conditions behind them are in `ChipRuns` and `ChipNames`.
  */
module ChipFailures {
  import opened Options
  import opened Concurrency
  import opened Matching
  import opened ChipSpec
  import opened ChipRuns
  import opened ChipNames

  // ---- A mode with two slots ----

  function TwoSlots(a: Slot, b: Slot): Combination {
    [Limit(1, a), Limit(1, b)]
  }

  lemma SlotsOfTwo(a: Slot, b: Slot)
    ensures Slots(TwoSlots(a, b)) == [a, b]
  {
    var c, none: Combination := TwoSlots(a, b), [];
    assert c[..1][..0] == none && Slots(none) == [];
    assert Slots(c[..1]) == Slots(none) + Repeat(a, 1);
    assert Slots(c) == Slots(c[..1]) + Repeat(b, 1);
  }

  lemma FitOne(a: Slot, b: Slot, t: ConcurrencyType)
    ensures Fits([TwoSlots(a, b)], [t]) <==> t in a || t in b
  {
    SlotsOfTwo(a, b);
    var mode := [TwoSlots(a, b)];
    if t in a || t in b {
      assert IsPlacement(Slots(mode[0]), [t], [if t in a then 0 else 1]);
      assert Placeable(Slots(mode[0]), [t]);
    }
    forall p | IsPlacement(Slots(mode[0]), [t], p) ensures t in a || t in b {
      assert [t][0] in Slots(mode[0])[p[0]];
    }
  }

  predicate GoTogether(a: Slot, b: Slot, t: ConcurrencyType, u: ConcurrencyType) {
    (t in a && u in b) || (t in b && u in a)
  }

  lemma PlacedTogether(a: Slot, b: Slot, t: ConcurrencyType, u: ConcurrencyType, p: seq<nat>)
    requires IsPlacement([a, b], [t, u], p)
    ensures GoTogether(a, b, t, u)
  {
    var wanted := [t, u];
    assert wanted[0] in [a, b][p[0]] && wanted[1] in [a, b][p[1]] && p[0] != p[1];
  }

  lemma FitTwo(a: Slot, b: Slot, t: ConcurrencyType, u: ConcurrencyType)
    ensures Fits([TwoSlots(a, b)], [t, u]) <==> GoTogether(a, b, t, u)
  {
    SlotsOfTwo(a, b);
    var mode := [TwoSlots(a, b)];
    if GoTogether(a, b, t, u) {
      var p := if t in a && u in b then [0, 1] else [1, 0];
      assert IsPlacement([a, b], [t, u], p);
      assert Placeable(Slots(mode[0]), [t, u]);
    }
    if Fits(mode, [t, u]) {
      var p :| IsPlacement([a, b], [t, u], p);
      PlacedTogether(a, b, t, u, p);
    }
  }

  function ModesOf(a: Slot, b: Slot): seq<ChipMode> {
    [ChipMode(MODE_V3, [TwoSlots(a, b)])]
  }

  /** A chip configured in the two-slot mode. */
  ghost function LiveChip(a: Slot, b: Slot, aps: seq<string>, bridges: map<string, seq<string>>, nans: seq<string>,
                          events: seq<Event>): Chip
  {
    NewChip(ModesOf(a, b)).(mode := MODE_V3, aps := aps, bridges := bridges, nans := nans, events := events)
  }

  lemma CurrentOfTwo(c: Chip, a: Slot, b: Slot)
    requires c.modes == ModesOf(a, b) && c.mode == MODE_V3
    ensures Current(c) == [TwoSlots(a, b)] && (Sta !in a && Sta !in b ==> StartIdx(c) == 0)
  {
    assert c.modes[0].id == c.mode;
    assert Current(c) == c.modes[0].combinations;
    FitTwo(a, b, Sta, Sta);
    FitTwo(a, b, Sta, Ap);
  }

  const PLAIN := ConfigureCalls(true, true, true, None)
  const BUILT := BridgeCalls(true, true, true, true, true)

  lemma ConfigureFirst(a: Slot, b: Slot, env: Env)
    ensures Took(NewChip(ModesOf(a, b)), env, OpConfigure(MODE_V3, PLAIN),
                 LiveChip(a, b, [], map[], [], [ChipReconfigured(MODE_V3)]))
  {
    assert IsValidMode(ModesOf(a, b), MODE_V3) by { assert ModesOf(a, b)[0].id == MODE_V3; }
    assert NewChip(ModesOf(a, b)).events + [ChipReconfigured(MODE_V3)] == [ChipReconfigured(MODE_V3)];
  }

  // ---- Runs ----

  /** A run of careful steps. */
  ghost predicate IsCarefulRun(modes: seq<ChipMode>, states: seq<Chip>, envs: seq<Env>, ops: seq<Op>) {
    IsRun(modes, states, envs, ops) && forall i :: 0 <= i < |ops| ==> Careful(states[i], envs[i], ops[i])
  }

  lemma ExtendRun(modes: seq<ChipMode>, states: seq<Chip>, envs: seq<Env>, ops: seq<Op>, env: Env, op: Op, d: Chip)
    requires IsRun(modes, states, envs, ops) && Took(states[|ops|], env, op, d)
    ensures IsRun(modes, states + [d], envs + [env], ops + [op])
  {
    var s, e, o := states + [d], envs + [env], ops + [op];
    forall i | 0 <= i < |o| ensures Took(s[i], e[i], o[i], s[i + 1]) {
      if i < |ops| {
        assert Took(states[i], envs[i], ops[i], states[i + 1]);
      }
    }
  }

  /** The chip is reached by careful steps from a new one. */
  ghost predicate IsReached(modes: seq<ChipMode>, c: Chip) {
    exists states, envs, ops :: IsCarefulRun(modes, states, envs, ops) && states[|ops|] == c
  }

  /** The chip is reached by a run whose steps but the last are careful. */
  ghost predicate IsReachedAtLast(modes: seq<ChipMode>, d: Chip) {
    exists c, env, op :: IsReached(modes, c) && Took(c, env, op, d)
  }

  lemma ReachedNext(modes: seq<ChipMode>, c: Chip, env: Env, op: Op, d: Chip)
    requires IsReached(modes, c) && Took(c, env, op, d) && Careful(c, env, op)
    ensures IsReached(modes, d)
  {
    var states, envs, ops :| IsCarefulRun(modes, states, envs, ops) && states[|ops|] == c;
    ExtendRun(modes, states, envs, ops, env, op, d);
    var s, e, o := states + [d], envs + [env], ops + [op];
    forall i | 0 <= i < |o| ensures Careful(s[i], e[i], o[i]) {
      if i < |ops| {
        assert Careful(states[i], envs[i], ops[i]);
      }
    }
    assert IsCarefulRun(modes, s, e, o) && s[|o|] == d;
  }

  /** What is reached is a state of a run. */
  lemma ReachedByRun(modes: seq<ChipMode>, d: Chip) returns (states: seq<Chip>, envs: seq<Env>, ops: seq<Op>)
    requires IsReachedAtLast(modes, d)
    ensures IsRun(modes, states, envs, ops) && ops != [] && states[|ops|] == d
    ensures IsCarefulRun(modes, states[..|ops|], envs[..|ops| - 1], ops[..|ops| - 1])
  {
    var c, env, op :| IsReached(modes, c) && Took(c, env, op, d);
    var s, e, o :| IsCarefulRun(modes, s, e, o) && s[|o|] == c;
    ExtendRun(modes, s, e, o, env, op, d);
    states, envs, ops := s + [d], e + [env], o + [op];
    assert states[..|ops|] == s && envs[..|ops| - 1] == e && ops[..|ops| - 1] == o;
  }

  lemma ConfiguredIsReached(a: Slot, b: Slot, env: Env)
    ensures IsReached(ModesOf(a, b), LiveChip(a, b, [], map[], [], [ChipReconfigured(MODE_V3)]))
  {
    var start: seq<Chip>, envs: seq<Env>, ops: seq<Op> := [NewChip(ModesOf(a, b))], [], [];
    assert IsCarefulRun(ModesOf(a, b), start, envs, ops) && start[|ops|] == NewChip(ModesOf(a, b));
    ConfigureFirst(a, b, env);
    ReachedNext(ModesOf(a, b), NewChip(ModesOf(a, b)), env, OpConfigure(MODE_V3, PLAIN),
                LiveChip(a, b, [], map[], [], [ChipReconfigured(MODE_V3)]));
  }

  // ---- The first bridged access point ----

  /** Names that are told apart, none of them the bridge's. */
  ghost predicate OrdinaryNames(env: Env) {
    env.predefinedAps == [] && Distinct(env.apNames) && "" !in env.apNames && Bridge(env) !in env.apNames
  }

  function Bridge(env: Env): string {
    AP_BRIDGE_PREFIX + env.apNames[0]
  }

  /** Whether a name is in use, of a chip with at most one bridge and no stations. */
  lemma NamesInUse(c: Chip, name: string, instances: seq<string>, n: string)
    requires c.aps == [name] && c.bridges == map[name := instances] && c.stas == []
    ensures InUse(c, n) <==> n == name || n in instances
  {
    assert name in c.bridges && c.bridges[name] == instances;
  }

  lemma FreeNames(c: Chip, env: Env, second: nat)
    requires OrdinaryNames(env) && StartIdx(c) == 0 && 1 <= second <= 2
    requires !InUse(c, env.apNames[0]) && !InUse(c, env.apNames[second]) && (second == 2 ==> InUse(c, env.apNames[1]))
    ensures InstanceNames(c, env) == Some([env.apNames[0], env.apNames[second]])
  {
    assert FirstFree(c, env.apNames, 0) == Some(0);
    assert FirstFree(c, env.apNames, second) == Some(second);
    assert FirstFree(c, env.apNames, 1) == Some(second);
    assert env.apNames[0] in env.apNames && env.apNames[second] in env.apNames;
    assert NonEmpty(env.apNames[0]) + NonEmpty(env.apNames[second]) == [env.apNames[0], env.apNames[second]];
  }

  ghost function BridgedChip(a: Slot, b: Slot, env: Env, instances: seq<string>, events: seq<Event>): Chip {
    LiveChip(a, b, [Bridge(env)], map[Bridge(env) := instances], [], events)
  }

  /** After configuring, the first bridged access point is built over the first two names. */
  lemma BridgeIsReached(a: Slot, b: Slot, env: Env) returns (events: seq<Event>)
    requires OrdinaryNames(env) && Sta !in a && Sta !in b && (ApBridged in a || ApBridged in b)
    ensures IsReached(ModesOf(a, b), BridgedChip(a, b, env, env.apNames[..2], events))
  {
    var c := LiveChip(a, b, [], map[], [], [ChipReconfigured(MODE_V3)]);
    events := c.events + [IfaceAdded(ApIface, Bridge(env))];
    ConfiguredIsReached(a, b, env);
    FirstBridge(a, b, c, env);
    ReachedNext(ModesOf(a, b), c, env, OpCreateBridgedAp(BUILT), BridgedChip(a, b, env, env.apNames[..2], events));
  }

  lemma FirstBridge(a: Slot, b: Slot, c: Chip, env: Env)
    requires c == LiveChip(a, b, [], map[], [], c.events)
    requires OrdinaryNames(env) && Sta !in a && Sta !in b && (ApBridged in a || ApBridged in b)
    ensures var d := BridgedChip(a, b, env, env.apNames[..2], c.events + [IfaceAdded(ApIface, Bridge(env))]);
            Took(c, env, OpCreateBridgedAp(BUILT), d) && Careful(c, env, OpCreateBridgedAp(BUILT))
  {
    CurrentOfTwo(c, a, b);
    FitOne(a, b, ApBridged);
    FreeNames(c, env, 1);
    assert LiveTypes(c) + [ApBridged] == [ApBridged];
    assert env.apNames[..2] == [env.apNames[0], env.apNames[1]];
    UnchangedTypes(c, Bridge(env));
  }

  lemma RemoveOneOfTwo(a: string, b: string)
    requires a != b
    ensures RemoveAll([a, b], a) == [b]
  {
    assert [a, b][1..] == [b] && [b][1..] == [];
    assert RemoveAll([b], a) == [b] + RemoveAll([], a);
  }

  /** Its first instance is removed; the access point is plain from then on. */
  lemma SplitBridge(a: Slot, b: Slot, env: Env, events: seq<Event>)
    requires OrdinaryNames(env)
    ensures var c := BridgedChip(a, b, env, env.apNames[..2], events);
            var d := BridgedChip(a, b, env, [env.apNames[1]], events);
            var op := OpRemoveInstance(Bridge(env), env.apNames[0], true, true);
            && Took(c, env, op, d) && LiveTypes(d) == [Ap] && Current(d) == [TwoSlots(a, b)]
            && (Careful(c, env, op) <==> Ap in a || Ap in b)
  {
    var c, d := BridgedChip(a, b, env, env.apNames[..2], events), BridgedChip(a, b, env, [env.apNames[1]], events);
    assert env.apNames[0] in env.apNames && env.apNames[..2] == [env.apNames[0], env.apNames[1]];
    RemoveOneOfTwo(env.apNames[0], env.apNames[1]);
    assert c.bridges[Bridge(env) := [env.apNames[1]]] == d.bridges;
    CurrentOfTwo(c, a, b);
    CurrentOfTwo(d, a, b);
    FitOne(a, b, Ap);
    assert TypesWith(c, Bridge(env), Ap) == [Ap];
  }

  // ---- Leaving the limits of the mode ----

  /** By a split, in every two-slot mode without plain access points: configure, create a bridged
      access point, remove its first instance. */
  lemma SplitBreaksRoom(a: Slot, b: Slot, env: Env) returns (d: Chip)
    requires OrdinaryNames(env) && Sta !in a && Sta !in b && (ApBridged in a || ApBridged in b) && Ap !in a && Ap !in b
    ensures IsReachedAtLast(ModesOf(a, b), d) && !HasRoom(d)
  {
    var events := BridgeIsReached(a, b, env);
    d := BridgedChip(a, b, env, [env.apNames[1]], events);
    SplitBridge(a, b, env, events);
    FitOne(a, b, Ap);
  }

  /** By reusing the name of a bridge that was split, in a mode that has one slot for plain and one
      for either kind of access points. */
  lemma ReuseBreaksRoom(env: Env) returns (d: Chip)
    requires OrdinaryNames(env)
    ensures IsReachedAtLast(ModesOf([Ap], [Ap, ApBridged]), d) && !HasRoom(d)
  {
    var a, b := [Ap], [Ap, ApBridged];
    var events := BridgeIsReached(a, b, env);
    SplitBridge(a, b, env, events);
    var c := BridgedChip(a, b, env, [env.apNames[1]], events);
    ReachedNext(ModesOf(a, b), BridgedChip(a, b, env, env.apNames[..2], events), env,
                OpRemoveInstance(Bridge(env), env.apNames[0], true, true), c);
    d := SecondBridge(c, env, events);
  }

  lemma SecondBridge(c: Chip, env: Env, events: seq<Event>) returns (d: Chip)
    requires OrdinaryNames(env) && c == BridgedChip([Ap], [Ap, ApBridged], env, [env.apNames[1]], events)
    ensures Took(c, env, OpCreateBridgedAp(BUILT), d) && !HasRoom(d)
  {
    var a, b := [Ap], [Ap, ApBridged];
    CurrentOfTwo(c, a, b);
    NamesInUse(c, Bridge(env), [env.apNames[1]], env.apNames[0]);
    NamesInUse(c, Bridge(env), [env.apNames[1]], env.apNames[1]);
    NamesInUse(c, Bridge(env), [env.apNames[1]], env.apNames[2]);
    FreeNames(c, env, 2);
    FitTwo(a, b, Ap, ApBridged);
    FitTwo(a, b, ApBridged, ApBridged);
    assert LiveTypes(c) + [ApBridged] == [Ap, ApBridged];
    d := CreateBridgedAp(c, env, BUILT).chip;
    CurrentOfTwo(d, a, b);
    assert d.aps == [Bridge(env), Bridge(env)];
    assert LiveTypes(d) == [ApBridged, ApBridged];
  }

  const UNBRIDGED := BridgeCalls(true, true, false, true, true)

  /** By a bridge that cannot be created under a live name, with two predefined names: the live
      bridged access point loses its entry and becomes a plain one. */
  lemma FailureBreaksRoom(env: Env) returns (d: Chip)
    requires |env.predefinedAps| == 2
    ensures IsReachedAtLast(ModesOf([ApBridged], [ApBridged]), d) && !HasRoom(d)
  {
    var a, b := [ApBridged], [ApBridged];
    var name := AP_BRIDGE_PREFIX + env.predefinedAps[0];
    var c := LiveChip(a, b, [], map[], [], [ChipReconfigured(MODE_V3)]);
    var e := LiveChip(a, b, [name], map[name := env.predefinedAps], [], c.events + [IfaceAdded(ApIface, name)]);
    ConfiguredIsReached(a, b, env);
    PredefinedBridge(c, env, name);
    ReachedNext(ModesOf(a, b), c, env, OpCreateBridgedAp(BUILT), e);
    d := FailedBridge(e, env, name);
  }

  lemma PredefinedBridge(c: Chip, env: Env, name: string)
    requires |env.predefinedAps| == 2 && name == AP_BRIDGE_PREFIX + env.predefinedAps[0]
    requires c == LiveChip([ApBridged], [ApBridged], [], map[], [], c.events)
    ensures var d := LiveChip([ApBridged], [ApBridged], [name], map[name := env.predefinedAps], [],
                              c.events + [IfaceAdded(ApIface, name)]);
            Took(c, env, OpCreateBridgedAp(BUILT), d) && Careful(c, env, OpCreateBridgedAp(BUILT))
  {
    CurrentOfTwo(c, [ApBridged], [ApBridged]);
    FitOne([ApBridged], [ApBridged], ApBridged);
    assert LiveTypes(c) + [ApBridged] == [ApBridged];
    UnchangedTypes(c, name);
  }

  lemma FailedBridge(c: Chip, env: Env, name: string) returns (d: Chip)
    requires |env.predefinedAps| == 2 && name == AP_BRIDGE_PREFIX + env.predefinedAps[0]
    requires c == LiveChip([ApBridged], [ApBridged], [name], map[name := env.predefinedAps], [], c.events)
    ensures Took(c, env, OpCreateBridgedAp(UNBRIDGED), d) && !HasRoom(d)
  {
    var a, b := [ApBridged], [ApBridged];
    CurrentOfTwo(c, a, b);
    FitTwo(a, b, ApBridged, ApBridged);
    FitOne(a, b, Ap);
    assert LiveTypes(c) + [ApBridged] == [ApBridged, ApBridged];
    d := CreateBridgedAp(c, env, UNBRIDGED).chip;
    CurrentOfTwo(d, a, b);
    assert d.aps == [name] && name !in d.bridges;
    assert LiveTypes(d) == [Ap];
  }

  // ---- Dependants that survive ----

  /** An aware interface without a name of its own is named after the first instance of the only
      access point, a bridge, and is still there after that bridge was removed. */
  lemma DependantSurvives(env: Env) returns (d: Chip)
    requires OrdinaryNames(env) && env.nanName == ""
    ensures IsReachedAtLast(ModesOf([ApBridged], [Nan]), d) && d.aps == [] && d.nans == [env.apNames[0]]
  {
    var a, b := [ApBridged], [Nan];
    var events := BridgeIsReached(a, b, env);
    var c := BridgedChip(a, b, env, env.apNames[..2], events);
    var e := NanOverBridge(c, env, events);
    ReachedNext(ModesOf(a, b), c, env, OpCreateNan, e);
    d := BridgeWithoutNan(e, env);
  }

  lemma NanOverBridge(c: Chip, env: Env, events: seq<Event>) returns (d: Chip)
    requires OrdinaryNames(env) && env.nanName == ""
    requires c == BridgedChip([ApBridged], [Nan], env, env.apNames[..2], events)
    ensures Took(c, env, OpCreateNan, d) && Careful(c, env, OpCreateNan)
    ensures d == LiveChip([ApBridged], [Nan], c.aps, c.bridges, [env.apNames[0]], d.events)
  {
    CurrentOfTwo(c, [ApBridged], [Nan]);
    FitTwo([ApBridged], [Nan], ApBridged, Nan);
    assert LiveTypes(c) + [Nan] == [ApBridged, Nan];
    d := CreateNan(c, env).chip;
    assert c.bridges[Bridge(env)][0] == env.apNames[0];
  }

  lemma BridgeWithoutNan(c: Chip, env: Env) returns (d: Chip)
    requires OrdinaryNames(env) && c.aps == [Bridge(env)] && c.nans == [env.apNames[0]]
    ensures Took(c, env, OpRemoveAp(Bridge(env)), d) && d.aps == [] && d.nans == c.nans
  {
    d := RemoveAp(c, env, Bridge(env)).chip;
    assert |Bridge(env)| > |env.apNames[0]|;
    assert RemoveAll([env.apNames[0]], Bridge(env)) == [env.apNames[0]] by { assert [env.apNames[0]][1..] == []; }
    assert RemoveFirst([Bridge(env)], Bridge(env)) == [];
  }

  // ---- Instances with one name ----

  /** A plain access point takes the first name; a bridged one then gets the second name twice. */
  lemma InstancesCoincide(env: Env) returns (c: Chip)
    requires OrdinaryNames(env)
    ensures IsReached(ModesOf([Ap], [Ap, ApBridged]), c) && NamesUnique(c) && Admits(c, ApBridged)
    ensures InstanceNames(c, env) == Some([env.apNames[1], env.apNames[1]])
  {
    var a, b := [Ap], [Ap, ApBridged];
    var e := LiveChip(a, b, [], map[], [], [ChipReconfigured(MODE_V3)]);
    ConfiguredIsReached(a, b, env);
    c := PlainAp(e, env);
    ReachedNext(ModesOf(a, b), e, env, OpCreateAp(true), c);
    FirstNameTaken(c, env);
  }

  lemma PlainAp(c: Chip, env: Env) returns (d: Chip)
    requires OrdinaryNames(env) && c == LiveChip([Ap], [Ap, ApBridged], [], map[], [], c.events)
    ensures Took(c, env, OpCreateAp(true), d)
    ensures d == LiveChip([Ap], [Ap, ApBridged], [env.apNames[0]], map[], [], d.events)
  {
    CurrentOfTwo(c, [Ap], [Ap, ApBridged]);
    FitOne([Ap], [Ap, ApBridged], Ap);
    assert LiveTypes(c) + [Ap] == [Ap];
    assert FirstFree(c, env.apNames, 0) == Some(0);
    d := CreateAp(c, env, true).chip;
  }

  lemma FirstNameTaken(c: Chip, env: Env)
    requires OrdinaryNames(env) && c == LiveChip([Ap], [Ap, ApBridged], [env.apNames[0]], map[], [], c.events)
    ensures NamesUnique(c) && Admits(c, ApBridged) && InstanceNames(c, env) == Some([env.apNames[1], env.apNames[1]])
  {
    CurrentOfTwo(c, [Ap], [Ap, ApBridged]);
    FitTwo([Ap], [Ap, ApBridged], Ap, ApBridged);
    assert LiveTypes(c) + [ApBridged] == [Ap, ApBridged];
    assert forall n :: InUse(c, n) <==> n == env.apNames[0];
    assert FirstFree(c, env.apNames, 1) == Some(1);
    assert FirstFree(c, env.apNames, 0) == Some(1);
    assert env.apNames[1] in env.apNames;
    assert NonEmpty(env.apNames[1]) + NonEmpty(env.apNames[1]) == [env.apNames[1], env.apNames[1]];
  }
}
