/** The chip object: fields updated in place, admission by enumeration, names by search.

    Every method is shown to do to the fields exactly what `ChipSpec` says, so the
    results of `ChipRuns` and `ChipNames` speak about this class.
  */
module WifiChipClass {
  import opened Options
  import opened Concurrency
  import opened Matching
  import Spec = ChipSpec
  import Runs = ChipRuns

  class WifiChip {
    var modes: seq<Spec.ChipMode>
    var currentMode: int
    var usingDynamicCombination: bool
    var apIfaces: seq<string>
    var staIfaces: seq<string>
    var p2pIfaces: seq<string>
    var nanIfaces: seq<string>
    var rttControllers: seq<string>
    var bridgedInstances: map<string, seq<string>>
    var events: seq<Spec.Event>

    ghost function State(): Spec.Chip
      reads this
    {
      Spec.Chip(modes, currentMode, usingDynamicCombination, apIfaces, staIfaces, p2pIfaces, nanIfaces, rttControllers,
                bridgedInstances, events)
    }

    /** Every mode can be expanded. */
    ghost predicate Ready()
      reads this
    {
      Runs.ModesExpandable(modes)
    }

    /** The events sent so far describe the live interfaces. */
    ghost predicate Valid()
      reads this
    {
      Runs.Described(State())
    }

    constructor (chipModes: seq<Spec.ChipMode>)
      requires Runs.ModesExpandable(chipModes)
      ensures Valid() && Ready() && State() == Spec.NewChip(chipModes)
    {
      modes, currentMode, usingDynamicCombination := chipModes, Spec.MODE_INVALID, false;
      apIfaces, staIfaces, p2pIfaces, nanIfaces, rttControllers := [], [], [], [], [];
      bridgedInstances, events := map[], [];
    }

    // ---- Admission ----

    method CurrentModeCombinations() returns (combinations: seq<Combination>)
      ensures combinations == Spec.Current(State())
    {
      for i := 0 to |modes|
        invariant Spec.CombinationsOf(modes, currentMode) == Spec.CombinationsOf(modes[i..], currentMode)
      {
        assert modes[i..][1..] == modes[i + 1..];
        if modes[i].id == currentMode {
          return modes[i].combinations;
        }
      }
      combinations := [];
    }

    /** Counts the live interfaces by concurrency type. */
    method CurrentCombination() returns (counts: Counts)
      ensures counts == Tally(Spec.LiveTypes(State()))
    {
      var numAp, numApBridged := 0, 0;
      ghost var types := Spec.ApTypes(apIfaces, bridgedInstances);
      for i := 0 to |apIfaces|
        invariant numAp == multiset(types[..i])[Ap] && numApBridged == multiset(types[..i])[ApBridged]
        invariant forall t :: t != Ap && t != ApBridged ==> multiset(types[..i])[t] == 0
      {
        PrefixCount(types, i);
        if apIfaces[i] in bridgedInstances && |bridgedInstances[apIfaces[i]]| > 1 {
          numApBridged := numApBridged + 1;
        } else {
          numAp := numAp + 1;
        }
      }
      assert types[..|apIfaces|] == types;
      counts := map[Ap := numAp, ApBridged := numApBridged, Nan := |nanIfaces|, P2p := |p2pIfaces|, Sta := |staIfaces|];
      LiveCounts(State(), numAp, numApBridged);
    }

    /** Room for one more interface in the current mode? */
    method CanSupport(requested: ConcurrencyType) returns (ok: bool)
      requires Ready()
      ensures ok <==> Spec.Admits(State(), requested)
    {
      var combinations := CurrentModeCombinations();
      Runs.CurrentExpandable(modes, currentMode);
      var current := CurrentCombination();
      ok := CanModeSupport(combinations, current, requested, Spec.LiveTypes(State()));
    }

    method StartIdxOfApIface() returns (idx: nat)
      requires Ready()
      ensures idx == Spec.StartIdx(State())
    {
      var combinations := CurrentModeCombinations();
      Runs.CurrentExpandable(modes, currentMode);
      RequestsPairs();
      var dualSta := CanModeSupportCombo(combinations, map[Sta := 2], [Sta, Sta]);
      if dualSta {
        return 2;
      }
      var staAp := CanModeSupportCombo(combinations, map[Sta := 1, Ap := 1], [Sta, Ap]);
      idx := if staAp then 1 else 0;
    }

    // ---- Names ----

    /** First unused name of a table from an index on. */
    method AllocateIfaceName(names: Spec.NameTable, start: nat) returns (name: Option<string>)
      ensures var i := Spec.FirstFree(State(), names, start);
              name == if i.None? then None else Some(names[i.value])
    {
      var idx := start;
      while idx < Spec.MAX_WLAN_IFACES
        invariant start <= idx
        invariant Spec.FirstFree(State(), names, start) == Spec.FirstFree(State(), names, idx)
      {
        var inInstances := exists b :: b in bridgedInstances && names[idx] in bridgedInstances[b];
        if names[idx] !in bridgedInstances && !inInstances && names[idx] !in apIfaces && names[idx] !in staIfaces {
          return Some(names[idx]);
        }
        idx := idx + 1;
      }
      name := None;
    }

    method AllocateApIfaceName(env: Spec.Env) returns (name: Option<string>)
      requires Ready()
      ensures name == Spec.ApName(State(), env)
    {
      for i := 0 to |env.predefinedAps|
        invariant Spec.FirstUnused(env.predefinedAps, apIfaces) == Spec.FirstUnused(env.predefinedAps[i..], apIfaces)
      {
        assert env.predefinedAps[i..][1..] == env.predefinedAps[i + 1..];
        if env.predefinedAps[i] !in apIfaces {
          return Some(env.predefinedAps[i]);
        }
      }
      var start := StartIdxOfApIface();
      name := AllocateIfaceName(env.apNames, start);
    }

    method AllocateBridgedApInstanceNames(env: Spec.Env) returns (instances: Option<seq<string>>)
      requires Ready() && |env.predefinedAps| <= 2
      ensures instances == Spec.InstanceNames(State(), env)
    {
      var found := env.predefinedAps;
      if |found| == 2 {
        return Some(found);
      }
      var needed := 2 - |found|;
      var start := StartIdxOfApIface();
      var i := 0;
      ghost var given := env.predefinedAps;
      ghost var first, second := Spec.AllocateAp(State(), env, start), Spec.AllocateAp(State(), env, start + 1);
      while i < needed
        invariant 0 <= i <= needed <= 2 && needed == 2 - |given| && needed > 0
        invariant i >= 1 ==> first.Some?
        invariant i >= 2 ==> second.Some?
        invariant i == 0 ==> found == given
        invariant i == 1 ==> found == given + Spec.NonEmpty(first.value)
        invariant i == 2 ==> found == given + Spec.NonEmpty(first.value) + Spec.NonEmpty(second.value)
      {
        var name := AllocateIfaceName(env.apNames, start + i);
        if name.None? {
          return None;
        }
        if name.value != "" {
          found := found + [name.value];
        }
        i := i + 1;
      }
      assert given == [] ==> given + Spec.NonEmpty(first.value) == Spec.NonEmpty(first.value);
      instances := Some(found);
    }

    method FirstActiveWlanIfaceName(env: Spec.Env) returns (name: Option<string>)
      ensures name == Spec.FirstActive(State(), env)
      ensures name.Some? && (staIfaces != [] || apIfaces != []) ==> Spec.InUse(State(), name.value)
    {
      if |staIfaces| > 0 {
        return Some(staIfaces[0]);
      }
      if |apIfaces| > 0 {
        if apIfaces[0] in bridgedInstances {
          var instances := bridgedInstances[apIfaces[0]];
          return if instances == [] then None else Some(instances[0]);
        }
        return Some(apIfaces[0]);
      }
      name := Some(env.staNames[0]);
    }

    method PublishActive(env: Spec.Env) returns (status: Spec.Status)
      ensures status == Spec.Publish(State(), env).status
    {
      var name := FirstActiveWlanIfaceName(env);
      status := if name.None? then Spec.Aborted else Spec.Success;
    }

    // ---- Removal helpers ----

    /** Erases the aware interfaces and ranging controllers that run over an interface. */
    method InvalidateAndRemoveDependencies(name: string)
      modifies this`nanIfaces, this`rttControllers, this`events
      ensures State() == Spec.DropDependencies(old(State()), name)
    {
      var i, kept := 0, [];
      ghost var nans, log := nanIfaces, events;
      assert nans[..0] == [] && log + [] == log;
      while i < |nanIfaces|
        invariant 0 <= i <= |nans| && nanIfaces == nans && rttControllers == old(rttControllers)
        invariant kept == Spec.RemoveAll(nans[..i], name)
        invariant events == log + Spec.NanEvents(nans[..i], name)
      {
        assert nans[..i + 1] == nans[..i] + [nans[i]];
        RemoveAllAppend(nans[..i], nans[i], name);
        if nanIfaces[i] == name {
          events := events + [Spec.IfaceRemoved(Spec.NanIface, name)];
        } else {
          kept := kept + [nanIfaces[i]];
        }
        i := i + 1;
      }
      assert nans[..i] == nans;
      nanIfaces := kept;
      var controllers := EraseAll(rttControllers, name);
      rttControllers := controllers;
    }

    // ---- Operations ----

    method CreateApIfaceInternal(env: Spec.Env, driver: bool) returns (status: Spec.Status)
      requires Ready()
      modifies this`apIfaces, this`events
      ensures Ready() && Spec.Outcome(State(), status) == Spec.CreateAp(old(State()), env, driver)
    {
      var ok := CanSupport(Ap);
      if !ok {
        return Spec.NotAvailable;
      }
      var name := AllocateApIfaceName(env);
      if name.None? {
        return Spec.Aborted;
      }
      if !driver {
        return Spec.LegacyError;
      }
      apIfaces := apIfaces + [name.value];
      events := events + [Spec.IfaceAdded(Spec.ApIface, name.value)];
      status := PublishActive(env);
    }

    method CreateBridgedApIfaceInternal(env: Spec.Env, calls: Spec.BridgeCalls) returns (status: Spec.Status)
      requires Ready() && |env.predefinedAps| <= 2
      modifies this`apIfaces, this`bridgedInstances, this`events
      ensures Ready() && Spec.Outcome(State(), status) == Spec.CreateBridgedAp(old(State()), env, calls)
    {
      var ok := CanSupport(ApBridged);
      if !ok {
        return Spec.NotAvailable;
      }
      var instances := AllocateBridgedApInstanceNames(env);
      if instances.None? {
        return Spec.Aborted;
      }
      if |instances.value| < 2 {
        return Spec.NotAvailable;
      }
      var name := Spec.AP_BRIDGE_PREFIX + instances.value[0];
      if !calls.create0 || !calls.create1 {
        return Spec.LegacyError;
      }
      bridgedInstances := bridgedInstances[name := instances.value];
      if !calls.createBridge || !calls.bind0 || !calls.bind1 {
        bridgedInstances := bridgedInstances - {name};
        assert bridgedInstances == old(bridgedInstances) - {name};
        return Spec.NotAvailable;
      }
      apIfaces := apIfaces + [name];
      events := events + [Spec.IfaceAdded(Spec.ApIface, name)];
      status := PublishActive(env);
    }

    method RemoveApIfaceInternal(env: Spec.Env, name: string) returns (status: Spec.Status)
      modifies this`apIfaces, this`nanIfaces, this`rttControllers, this`bridgedInstances, this`events
      ensures Spec.Outcome(State(), status) == Spec.RemoveAp(old(State()), env, name)
    {
      if name !in apIfaces {
        return Spec.InvalidArgs;
      }
      InvalidateAndRemoveDependencies(name);
      if name != "" {
        bridgedInstances := bridgedInstances - {name};
      }
      apIfaces := EraseFirst(apIfaces, name);
      events := events + [Spec.IfaceRemoved(Spec.ApIface, name)];
      status := PublishActive(env);
    }

    method RemoveIfaceInstanceFromBridgedApIfaceInternal(env: Spec.Env, name: string, instance: string, unbind: bool,
                                                         delete: bool)
      returns (status: Spec.Status)
      modifies this`bridgedInstances
      ensures Spec.Outcome(State(), status)
           == Spec.RemoveInstance(old(State()), env, name, instance, unbind, delete)
    {
      if name !in apIfaces || instance == "" {
        return Spec.InvalidArgs;
      }
      if name in bridgedInstances && instance in bridgedInstances[name] {
        if !unbind {
          return Spec.NotAvailable;
        }
        if !delete {
          return Spec.LegacyError;
        }
        var left := EraseAll(bridgedInstances[name], instance);
        bridgedInstances := bridgedInstances[name := left];
      }
      status := PublishActive(env);
    }

    method CreateNanIfaceInternal(env: Spec.Env) returns (status: Spec.Status)
      requires Ready()
      modifies this`nanIfaces, this`events
      ensures Ready() && Spec.Outcome(State(), status) == Spec.CreateNan(old(State()), env)
    {
      var ok := CanSupport(Nan);
      if !ok {
        return Spec.NotAvailable;
      }
      var name := Some(env.nanName);
      if env.nanName == "" || !env.nanExists {
        name := FirstActiveWlanIfaceName(env);
      }
      if name.None? {
        return Spec.Aborted;
      }
      nanIfaces := nanIfaces + [name.value];
      events := events + [Spec.IfaceAdded(Spec.NanIface, name.value)];
      status := Spec.Success;
    }

    method RemoveNanIfaceInternal(name: string) returns (status: Spec.Status)
      modifies this`nanIfaces, this`events
      ensures Spec.Outcome(State(), status) == Spec.RemoveNan(old(State()), name)
    {
      if name !in nanIfaces {
        return Spec.InvalidArgs;
      }
      nanIfaces := EraseFirst(nanIfaces, name);
      events := events + [Spec.IfaceRemoved(Spec.NanIface, name)];
      status := Spec.Success;
    }

    method CreateP2pIfaceInternal(env: Spec.Env) returns (status: Spec.Status)
      requires Ready()
      modifies this`p2pIfaces, this`events
      ensures Ready() && Spec.Outcome(State(), status) == Spec.CreateP2p(old(State()), env)
    {
      var ok := CanSupport(P2p);
      if !ok {
        return Spec.NotAvailable;
      }
      p2pIfaces := p2pIfaces + [env.p2pName];
      events := events + [Spec.IfaceAdded(Spec.P2pIface, env.p2pName)];
      status := Spec.Success;
    }

    method RemoveP2pIfaceInternal(name: string) returns (status: Spec.Status)
      modifies this`p2pIfaces, this`events
      ensures Spec.Outcome(State(), status) == Spec.RemoveP2p(old(State()), name)
    {
      if name !in p2pIfaces {
        return Spec.InvalidArgs;
      }
      p2pIfaces := EraseFirst(p2pIfaces, name);
      events := events + [Spec.IfaceRemoved(Spec.P2pIface, name)];
      status := Spec.Success;
    }

    method CreateStaIfaceInternal(env: Spec.Env, driver: bool) returns (status: Spec.Status)
      requires Ready()
      modifies this`staIfaces, this`events
      ensures Ready() && Spec.Outcome(State(), status) == Spec.CreateSta(old(State()), env, driver)
    {
      var ok := CanSupport(Sta);
      if !ok {
        return Spec.NotAvailable;
      }
      var name := AllocateIfaceName(env.staNames, 0);
      if name.None? {
        return Spec.Aborted;
      }
      if !driver {
        return Spec.LegacyError;
      }
      staIfaces := staIfaces + [name.value];
      events := events + [Spec.IfaceAdded(Spec.StaIface, name.value)];
      status := PublishActive(env);
    }

    method RemoveStaIfaceInternal(env: Spec.Env, name: string) returns (status: Spec.Status)
      modifies this`staIfaces, this`nanIfaces, this`rttControllers, this`events
      ensures Spec.Outcome(State(), status) == Spec.RemoveSta(old(State()), env, name)
    {
      if name !in staIfaces {
        return Spec.InvalidArgs;
      }
      InvalidateAndRemoveDependencies(name);
      staIfaces := EraseFirst(staIfaces, name);
      events := events + [Spec.IfaceRemoved(Spec.StaIface, name)];
      status := PublishActive(env);
    }

    method CreateRttControllerInternal(env: Spec.Env) returns (status: Spec.Status)
      requires Ready()
      modifies this`rttControllers
      ensures Ready() && Spec.Outcome(State(), status) == Spec.CreateRtt(old(State()), env)
    {
      if |staIfaces| == 0 {
        var ok := CanSupport(Sta);
        if !ok {
          return Spec.NotAvailable;
        }
      }
      var name := FirstActiveWlanIfaceName(env);
      if name.None? {
        return Spec.Aborted;
      }
      rttControllers := rttControllers + [name.value];
      status := Spec.Success;
    }

    method ConfigureChipInternal(env: Spec.Env, id: int, calls: Spec.ConfigureCalls) returns (status: Spec.Status)
      modifies this
      ensures Spec.Outcome(State(), status) == Spec.Configure(old(State()), env, id, calls)
      ensures currentMode != old(currentMode) && old(Runs.LiveOnlyInMode(State())) ==> Spec.NoLive(State())
    {
      if !Spec.IsValidMode(modes, id) {
        return Spec.InvalidArgs;
      }
      if id == currentMode {
        return Spec.Success;
      }
      status := HandleChipConfiguration(id, calls);
      if status != Spec.Success {
        events := events + [Spec.ChipReconfigureFailure];
        return;
      }
      events := events + [Spec.ChipReconfigured(id)];
      currentMode := id;
      status := PublishActive(env);
    }

    /** Stops the HAL if it runs, changes the firmware mode, starts it and loads the
        driver's matrix once. */
    method HandleChipConfiguration(id: int, calls: Spec.ConfigureCalls) returns (status: Spec.Status)
      modifies this
      ensures Spec.Outcome(State(), status) == Spec.HandleConfiguration(old(State()), id, calls)
      ensures old(Runs.LiveOnlyInMode(State())) ==> Spec.NoLive(State())
    {
      if Spec.IsValidMode(modes, currentMode) {
        apIfaces, staIfaces, p2pIfaces, nanIfaces, rttControllers := [], [], [], [], [];
        bridgedInstances := map[];
        if !calls.stop {
          return Spec.LegacyError;
        }
      }
      if (id == Spec.MODE_V1_STA || id == Spec.MODE_V1_AP) && !calls.firmware {
        return Spec.UnknownError;
      }
      if !calls.start {
        return Spec.LegacyError;
      }
      if !usingDynamicCombination && calls.matrix.Some? {
        modes := [Spec.ChipMode(Spec.MODE_V3, calls.matrix.value)];
        usingDynamicCombination := true;
      }
      status := Spec.Success;
    }

    // ---- What clients call ----

    method CreateApIface(env: Spec.Env, driver: bool) returns (status: Spec.Status)
      requires Valid() && Ready()
      modifies this`apIfaces, this`events
      ensures Valid() && Spec.Outcome(State(), status) == Spec.CreateAp(old(State()), env, driver)
      ensures old(Runs.Safe(State())) ==>
                (Runs.Safe(State()) <==> old(Runs.Careful(State(), env, Spec.OpCreateAp(driver))))
    {
      ghost var before := State();
      status := CreateApIfaceInternal(env, driver);
      StepKeeps(before, env, Spec.OpCreateAp(driver), State());
    }

    method CreateBridgedApIface(env: Spec.Env, calls: Spec.BridgeCalls) returns (status: Spec.Status)
      requires Valid() && Ready() && |env.predefinedAps| <= 2
      modifies this`apIfaces, this`bridgedInstances, this`events
      ensures Valid() && Spec.Outcome(State(), status) == Spec.CreateBridgedAp(old(State()), env, calls)
      ensures old(Runs.Safe(State())) ==>
                (Runs.Safe(State()) <==> old(Runs.Careful(State(), env, Spec.OpCreateBridgedAp(calls))))
    {
      ghost var before := State();
      status := CreateBridgedApIfaceInternal(env, calls);
      StepKeeps(before, env, Spec.OpCreateBridgedAp(calls), State());
    }

    method RemoveApIface(env: Spec.Env, name: string) returns (status: Spec.Status)
      requires Valid()
      modifies this`apIfaces, this`nanIfaces, this`rttControllers, this`bridgedInstances, this`events
      ensures Valid() && Spec.Outcome(State(), status) == Spec.RemoveAp(old(State()), env, name)
      ensures old(Runs.Safe(State())) ==>
                (Runs.Safe(State()) <==> old(Runs.Careful(State(), env, Spec.OpRemoveAp(name))))
    {
      ghost var before := State();
      status := RemoveApIfaceInternal(env, name);
      StepKeeps(before, env, Spec.OpRemoveAp(name), State());
    }

    method RemoveIfaceInstanceFromBridgedApIface(env: Spec.Env, name: string, instance: string, unbind: bool,
                                                 delete: bool)
      returns (status: Spec.Status)
      requires Valid()
      modifies this`bridgedInstances
      ensures Valid() && Spec.Outcome(State(), status)
           == Spec.RemoveInstance(old(State()), env, name, instance, unbind, delete)
      ensures old(Runs.Safe(State())) ==>
                (Runs.Safe(State()) <==>
                 old(Runs.Careful(State(), env, Spec.OpRemoveInstance(name, instance, unbind, delete))))
    {
      ghost var before := State();
      status := RemoveIfaceInstanceFromBridgedApIfaceInternal(env, name, instance, unbind, delete);
      StepKeeps(before, env, Spec.OpRemoveInstance(name, instance, unbind, delete), State());
    }

    method CreateNanIface(env: Spec.Env) returns (status: Spec.Status)
      requires Valid() && Ready()
      modifies this`nanIfaces, this`events
      ensures Valid() && Spec.Outcome(State(), status) == Spec.CreateNan(old(State()), env)
      ensures old(Runs.Safe(State())) ==>
                (Runs.Safe(State()) <==> old(Runs.Careful(State(), env, Spec.OpCreateNan)))
    {
      ghost var before := State();
      status := CreateNanIfaceInternal(env);
      StepKeeps(before, env, Spec.OpCreateNan, State());
    }

    method RemoveNanIface(name: string) returns (status: Spec.Status)
      requires Valid()
      modifies this`nanIfaces, this`events
      ensures Valid() && Spec.Outcome(State(), status) == Spec.RemoveNan(old(State()), name)
      ensures old(Runs.Safe(State())) ==> Runs.Safe(State())
    {
      ghost var before := State();
      ghost var env: Spec.Env := *;
      status := RemoveNanIfaceInternal(name);
      StepKeeps(before, env, Spec.OpRemoveNan(name), State());
    }

    method CreateP2pIface(env: Spec.Env) returns (status: Spec.Status)
      requires Valid() && Ready()
      modifies this`p2pIfaces, this`events
      ensures Valid() && Spec.Outcome(State(), status) == Spec.CreateP2p(old(State()), env)
      ensures old(Runs.Safe(State())) ==>
                (Runs.Safe(State()) <==> old(Runs.Careful(State(), env, Spec.OpCreateP2p)))
    {
      ghost var before := State();
      status := CreateP2pIfaceInternal(env);
      StepKeeps(before, env, Spec.OpCreateP2p, State());
    }

    method RemoveP2pIface(name: string) returns (status: Spec.Status)
      requires Valid()
      modifies this`p2pIfaces, this`events
      ensures Valid() && Spec.Outcome(State(), status) == Spec.RemoveP2p(old(State()), name)
      ensures old(Runs.Safe(State())) ==> Runs.Safe(State())
    {
      ghost var before := State();
      ghost var env: Spec.Env := *;
      status := RemoveP2pIfaceInternal(name);
      StepKeeps(before, env, Spec.OpRemoveP2p(name), State());
    }

    method CreateStaIface(env: Spec.Env, driver: bool) returns (status: Spec.Status)
      requires Valid() && Ready()
      modifies this`staIfaces, this`events
      ensures Valid() && Spec.Outcome(State(), status) == Spec.CreateSta(old(State()), env, driver)
      ensures old(Runs.Safe(State())) ==>
                (Runs.Safe(State()) <==> old(Runs.Careful(State(), env, Spec.OpCreateSta(driver))))
    {
      ghost var before := State();
      status := CreateStaIfaceInternal(env, driver);
      StepKeeps(before, env, Spec.OpCreateSta(driver), State());
    }

    method RemoveStaIface(env: Spec.Env, name: string) returns (status: Spec.Status)
      requires Valid()
      modifies this`staIfaces, this`nanIfaces, this`rttControllers, this`events
      ensures Valid() && Spec.Outcome(State(), status) == Spec.RemoveSta(old(State()), env, name)
      ensures old(Runs.Safe(State())) ==>
                (Runs.Safe(State()) <==> old(Runs.Careful(State(), env, Spec.OpRemoveSta(name))))
    {
      ghost var before := State();
      status := RemoveStaIfaceInternal(env, name);
      StepKeeps(before, env, Spec.OpRemoveSta(name), State());
    }

    method CreateRttController(env: Spec.Env) returns (status: Spec.Status)
      requires Valid() && Ready()
      modifies this`rttControllers
      ensures Valid() && Spec.Outcome(State(), status) == Spec.CreateRtt(old(State()), env)
      ensures old(Runs.Safe(State())) ==>
                (Runs.Safe(State()) <==> old(Runs.Careful(State(), env, Spec.OpCreateRtt)))
    {
      ghost var before := State();
      status := CreateRttControllerInternal(env);
      StepKeeps(before, env, Spec.OpCreateRtt, State());
    }

    method ConfigureChip(env: Spec.Env, id: int, calls: Spec.ConfigureCalls) returns (status: Spec.Status)
      requires Valid()
      modifies this
      ensures Valid() && Spec.Outcome(State(), status) == Spec.Configure(old(State()), env, id, calls)
      ensures currentMode != old(currentMode) ==> Spec.NoLive(State())
      ensures old(Ready()) && (calls.matrix.Some? ==> Expandable(calls.matrix.value)) ==> Ready()
      ensures old(Runs.Safe(State())) ==>
                (Runs.Safe(State()) <==> old(Runs.Careful(State(), env, Spec.OpConfigure(id, calls))))
    {
      ghost var before := State();
      status := ConfigureChipInternal(env, id, calls);
      StepKeeps(before, env, Spec.OpConfigure(id, calls), State());
    }
  }

  /** What every operation keeps. */
  lemma StepKeeps(c: Spec.Chip, env: Spec.Env, op: Spec.Op, d: Spec.Chip)
    requires Runs.Described(c) && d == Spec.Step(c, env, op).chip
    ensures Runs.Described(d)
    ensures Runs.Safe(c) ==> (Runs.Safe(d) <==> Runs.Careful(c, env, op))
  {
    Runs.StepDescribed(c, env, op);
    if Runs.Safe(c) {
      Runs.StepSafeIff(c, env, op);
    }
  }

  lemma {:induction false} RemoveAllAppend(names: seq<string>, last: string, name: string)
    ensures Spec.RemoveAll(names + [last], name) == Spec.RemoveAll(names, name) + if last == name then [] else [last]
    ensures Spec.NanEvents(names + [last], name)
         == Spec.NanEvents(names, name) + if last == name then [Spec.IfaceRemoved(Spec.NanIface, name)] else []
  {
    if names != [] {
      assert (names + [last])[1..] == names[1..] + [last];
      RemoveAllAppend(names[1..], last, name);
    }
  }

  lemma {:induction false} RemoveFirstAt(names: seq<string>, i: nat, name: string)
    requires i < |names| && names[i] == name && name !in names[..i]
    ensures Spec.RemoveFirst(names, name) == names[..i] + names[i + 1..]
  {
    if i > 0 {
      assert names[0] == names[..i][0];
      assert forall n :: n in names[1..][..i - 1] ==> n in names[..i];
      RemoveFirstAt(names[1..], i - 1, name);
      assert names[..i] == [names[0]] + names[1..][..i - 1];
      assert names[i + 1..] == names[1..][i..];
    }
  }

  /** std::remove followed by erase. */
  method EraseAll(names: seq<string>, name: string) returns (kept: seq<string>)
    ensures kept == Spec.RemoveAll(names, name)
  {
    kept := [];
    for i := 0 to |names|
      invariant kept == Spec.RemoveAll(names[..i], name)
    {
      assert names[..i + 1] == names[..i] + [names[i]];
      RemoveAllAppend(names[..i], names[i], name);
      if names[i] != name {
        kept := kept + [names[i]];
      }
    }
    assert names[..|names|] == names;
  }

  /** Erases the first interface of that name. */
  method EraseFirst(names: seq<string>, name: string) returns (kept: seq<string>)
    ensures kept == Spec.RemoveFirst(names, name)
  {
    for i := 0 to |names|
      invariant name !in names[..i]
    {
      if names[i] == name {
        RemoveFirstAt(names, i, name);
        return names[..i] + names[i + 1..];
      }
    }
    assert names[..|names|] == names;
    kept := names;
  }

  lemma PrefixCount(types: seq<ConcurrencyType>, i: nat)
    requires i < |types|
    ensures forall t :: multiset(types[..i + 1])[t] == multiset(types[..i])[t] + if t == types[i] then 1 else 0
  {
    assert types[..i + 1] == types[..i] + [types[i]];
  }

  lemma CopiesCount(t: ConcurrencyType, n: nat, u: ConcurrencyType)
    ensures multiset(Spec.Copies(t, n))[u] == if u == t then n else 0
  {
    if n > 0 {
      CopiesCount(t, n - 1, u);
      Runs.CopiesGrow(t, n - 1);
    }
  }

  lemma LiveCountOf(c: Spec.Chip, t: ConcurrencyType)
    ensures multiset(Spec.LiveTypes(c))[t] == multiset(Spec.ApTypes(c.aps, c.bridges))[t]
                                            + (if t == Nan then |c.nans| else 0)
                                            + (if t == P2p then |c.p2ps| else 0) + (if t == Sta then |c.stas| else 0)
  {
    Runs.LiveMultiset(c);
    CopiesCount(Nan, |c.nans|, t);
    CopiesCount(P2p, |c.p2ps|, t);
    CopiesCount(Sta, |c.stas|, t);
  }

  lemma LiveCounts(c: Spec.Chip, numAp: nat, numApBridged: nat)
    requires var types := multiset(Spec.ApTypes(c.aps, c.bridges));
             && numAp == types[Ap] && numApBridged == types[ApBridged]
             && types[Nan] == 0 && types[P2p] == 0 && types[Sta] == 0
    ensures map[Ap := numAp, ApBridged := numApBridged, Nan := |c.nans|, P2p := |c.p2ps|, Sta := |c.stas|]
         == Tally(Spec.LiveTypes(c))
  {
    LiveCountOf(c, Ap);
    LiveCountOf(c, ApBridged);
    LiveCountOf(c, Nan);
    LiveCountOf(c, P2p);
    LiveCountOf(c, Sta);
    TallyIs(Spec.LiveTypes(c), numAp, numApBridged, |c.nans|, |c.p2ps|, |c.stas|);
  }

  lemma TallyIs(types: seq<ConcurrencyType>, ap: nat, apBridged: nat, nan: nat, p2p: nat, sta: nat)
    requires var m := multiset(types);
             m[Ap] == ap && m[ApBridged] == apBridged && m[Nan] == nan && m[P2p] == p2p && m[Sta] == sta
    ensures map[Ap := ap, ApBridged := apBridged, Nan := nan, P2p := p2p, Sta := sta] == Tally(types)
  {
    var counts := map[Ap := ap, ApBridged := apBridged, Nan := nan, P2p := p2p, Sta := sta];
    forall t ensures t in counts && counts[t] == multiset(types)[t] {
      match t case Ap => case ApBridged => case Nan => case P2p => case Sta =>
    }
  }

  lemma RequestsPairs()
    ensures Requests(map[Sta := 2], [Sta, Sta]) && Requests(map[Sta := 1, Ap := 1], [Sta, Ap])
  {
    assert multiset([Sta, Sta]) == multiset{Sta, Sta};
    assert multiset([Sta, Ap]) == multiset{Sta, Ap};
  }
}
