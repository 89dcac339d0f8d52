/** Names handed out by a Wi-Fi chip: when they are fresh, and when they are not.

    The allocator picks the first index whose name is not in use.  Bridged access points
    ask it twice without registering the first answer, and name their bridge after it;
    both habits have an exact condition under which they go wrong.
  */
module ChipNames {
  import opened Options
  import opened Concurrency
  import opened Matching
  import opened ChipSpec
  import opened ChipRuns

  lemma {:induction false} FirstFreeGivesUpIff(c: Chip, names: NameTable, start: nat)
    ensures FirstFree(c, names, start).None? <==> forall i :: start <= i < MAX_WLAN_IFACES ==> InUse(c, names[i])
    decreases MAX_WLAN_IFACES - start
  {
    if start < MAX_WLAN_IFACES {
      FirstFreeGivesUpIff(c, names, start + 1);
    }
  }

  /** Without predefined names the two instances of a bridged access point are names not
      in use; they are different exactly if the index the search starts at is free. */
  lemma InstancesDifferIff(c: Chip, env: Env)
    requires env.predefinedAps == [] && Distinct(env.apNames) && "" !in env.apNames
    requires InstanceNames(c, env).Some?
    ensures var instances := InstanceNames(c, env).value;
            && |instances| == 2
            && !InUse(c, instances[0]) && !InUse(c, instances[1])
            && (instances[0] != instances[1] <==> !InUse(c, env.apNames[StartIdx(c)]))
  {
    var start := StartIdx(c);
    var first, second := FirstFree(c, env.apNames, start), FirstFree(c, env.apNames, start + 1);
    assert env.apNames[first.value] in env.apNames && env.apNames[second.value] in env.apNames;
    if InUse(c, env.apNames[start]) {
      assert first == second;
    } else {
      assert first.value == start < second.value;
    }
  }

  // ---- No two live devices share a name ----

  ghost predicate DisjointNames(a: seq<string>, b: seq<string>) {
    forall n :: n in a ==> n !in b
  }

  /** Stations, access points, bridges and bridge instances all have different names. */
  ghost predicate NamesUnique(c: Chip) {
    && Distinct(c.stas) && Distinct(c.aps) && DisjointNames(c.stas, c.aps) && "" !in c.bridges
    && (forall b :: b in c.bridges ==> b in c.aps && Distinct(c.bridges[b]))
    && (forall b :: b in c.bridges ==> DisjointNames(c.bridges[b], c.aps) && DisjointNames(c.bridges[b], c.stas))
    && (forall a, b :: a in c.bridges && b in c.bridges && a != b ==> DisjointNames(c.bridges[a], c.bridges[b]))
  }

  /** The first index is free, and the bridge gets a name that is neither in use nor its second instance's. */
  ghost predicate IsFreshBridge(c: Chip, env: Env)
    requires InstanceNames(c, env).Some? && |InstanceNames(c, env).value| >= 2
  {
    var instances := InstanceNames(c, env).value;
    && !InUse(c, env.apNames[StartIdx(c)]) && !InUse(c, BridgeName(instances)) && instances[1] != BridgeName(instances)
  }

  /** No predefined names, and a bridged access point is built only with fresh ones. */
  ghost predicate NamesCareful(c: Chip, env: Env, op: Op) {
    && env.predefinedAps == [] && Distinct(env.apNames) && "" !in env.apNames
    && (op.OpCreateBridgedAp? && Builds(c, env, op.bridge) ==> IsFreshBridge(c, env))
  }

  lemma AddedApUnique(c: Chip, d: Chip, name: string)
    requires NamesUnique(c) && !InUse(c, name) && d == c.(aps := c.aps + [name], events := d.events)
    ensures NamesUnique(d)
  {
  }

  lemma AddedStaUnique(c: Chip, d: Chip, name: string)
    requires NamesUnique(c) && !InUse(c, name) && d == c.(stas := c.stas + [name], events := d.events)
    ensures NamesUnique(d)
  {
  }

  lemma AddedBridgeUnique(c: Chip, d: Chip, name: string, one: string, two: string)
    requires NamesUnique(c) && !InUse(c, name) && !InUse(c, one) && !InUse(c, two) && name != ""
    requires one != two && one != name && two != name
    requires d == c.(aps := c.aps + [name], bridges := c.bridges[name := [one, two]], events := d.events)
    ensures NamesUnique(d)
  {
    forall a, b | a in d.bridges && b in d.bridges && a != b
      ensures DisjointNames(d.bridges[a], d.bridges[b])
    {
      forall n | n in d.bridges[a] ensures n !in d.bridges[b] {
        if a == name {
          assert n == one || n == two;
        } else if b == name {
          assert InUse(c, n);
        }
      }
    }
    forall b | b in d.bridges
      ensures DisjointNames(d.bridges[b], d.aps) && DisjointNames(d.bridges[b], d.stas)
    {
      forall n | n in d.bridges[b] ensures n !in d.aps && n !in d.stas {
        if b != name {
          assert n != name by { assert InUse(c, n); }
        } else {
          assert n == one || n == two;
        }
      }
    }
  }

  lemma FreshBridgeUnique(c: Chip, env: Env, calls: BridgeCalls)
    requires NamesUnique(c) && env.predefinedAps == [] && Distinct(env.apNames) && "" !in env.apNames
    requires Builds(c, env, calls) && IsFreshBridge(c, env)
    ensures NamesUnique(CreateBridgedAp(c, env, calls).chip)
  {
    InstancesDifferIff(c, env);
    var instances := InstanceNames(c, env).value;
    assert instances == [instances[0], instances[1]];
    assert |BridgeName(instances)| > |instances[0]|;
    AddedBridgeUnique(c, CreateBridgedAp(c, env, calls).chip, BridgeName(instances), instances[0], instances[1]);
  }

  lemma TwiceIsNotDistinct(names: seq<string>, name: string)
    requires name in names
    ensures !Distinct(names + [name])
  {
    var i :| 0 <= i < |names| && names[i] == name;
    assert (names + [name])[i] == (names + [name])[|names|];
  }

  lemma UniqueBridgeIsFresh(c: Chip, d: Chip, name: string, one: string, two: string)
    requires NamesUnique(c) && NamesUnique(d)
    requires d == c.(aps := c.aps + [name], bridges := c.bridges[name := [one, two]], events := d.events)
    ensures one != two && two != name && !InUse(c, name)
  {
    var instances := d.bridges[name];
    assert instances[0] != instances[1];
    assert name in d.aps && two in instances;
    if name in c.aps {
      TwiceIsNotDistinct(c.aps, name);
    }
    forall b | b in c.bridges ensures name !in c.bridges[b] {
      assert b in c.aps && d.bridges[b] == c.bridges[b];
    }
  }

  /** Names stay apart exactly if the new bridge's are fresh. */
  lemma BridgeNamesIff(c: Chip, env: Env, calls: BridgeCalls)
    requires NamesUnique(c) && env.predefinedAps == [] && Distinct(env.apNames) && "" !in env.apNames
    requires Builds(c, env, calls)
    ensures NamesUnique(CreateBridgedAp(c, env, calls).chip) <==> IsFreshBridge(c, env)
  {
    var d := CreateBridgedAp(c, env, calls).chip;
    if IsFreshBridge(c, env) {
      FreshBridgeUnique(c, env, calls);
    }
    if NamesUnique(d) {
      InstancesDifferIff(c, env);
      var instances := InstanceNames(c, env).value;
      assert instances == [instances[0], instances[1]];
      UniqueBridgeIsFresh(c, d, BridgeName(instances), instances[0], instances[1]);
    }
  }

  lemma CreateBridgedApUnique(c: Chip, env: Env, calls: BridgeCalls)
    requires NamesUnique(c) && NamesCareful(c, env, OpCreateBridgedAp(calls))
    ensures NamesUnique(CreateBridgedAp(c, env, calls).chip)
  {
    if Builds(c, env, calls) {
      FreshBridgeUnique(c, env, calls);
    } else {
      FewerNamesUnique(c, CreateBridgedAp(c, env, calls).chip);
    }
  }

  lemma {:induction false} RemoveFirstSub(names: seq<string>, name: string)
    requires Distinct(names)
    ensures Distinct(RemoveFirst(names, name))
    ensures forall n :: n in RemoveFirst(names, name) ==> n in names && n != name
  {
    if name in names {
      var j := RemoveFirstIsWithout(names, name);
      WithoutDistinct(names, j);
    }
  }

  lemma {:induction false} RemoveAllDistinct(names: seq<string>, name: string)
    requires Distinct(names)
    ensures Distinct(RemoveAll(names, name))
  {
    if names != [] {
      RemoveAllDistinct(names[1..], name);
      var r := RemoveAll(names[1..], name);
      forall i | 0 <= i < |r| ensures r[i] != names[0] {
        assert r[i] in r;
        assert r[i] in names[1..];
      }
    }
  }

  ghost predicate Within(a: seq<string>, b: seq<string>) {
    forall n :: n in a ==> n in b
  }

  lemma FewerNamesUnique(c: Chip, d: Chip)
    requires NamesUnique(c) && Distinct(d.aps) && Distinct(d.stas) && Within(d.aps, c.aps) && Within(d.stas, c.stas)
    requires forall b :: b in d.bridges ==> b in c.bridges && b in d.aps && Distinct(d.bridges[b])
    requires forall b :: b in d.bridges ==> Within(d.bridges[b], c.bridges[b])
    ensures NamesUnique(d)
  {
  }

  lemma RemovedApUnique(c: Chip, env: Env, name: string)
    requires NamesUnique(c)
    ensures NamesUnique(RemoveAp(c, env, name).chip)
  {
    var d := RemoveAp(c, env, name).chip;
    if name in c.aps {
      RemoveFirstSub(c.aps, name);
      var j := RemoveFirstIsWithout(c.aps, name);
      forall b | b in d.bridges ensures b in d.aps {
        BridgeKept(c.aps, j, b);
      }
      FewerNamesUnique(c, d);
    }
  }

  lemma RemovedStaUnique(c: Chip, env: Env, name: string)
    requires NamesUnique(c)
    ensures NamesUnique(RemoveSta(c, env, name).chip)
  {
    RemoveFirstSub(c.stas, name);
    FewerNamesUnique(c, RemoveSta(c, env, name).chip);
  }

  lemma RemovedInstanceUnique(c: Chip, env: Env, name: string, instance: string, unbind: bool, delete: bool)
    requires NamesUnique(c)
    ensures NamesUnique(RemoveInstance(c, env, name, instance, unbind, delete).chip)
  {
    var d := RemoveInstance(c, env, name, instance, unbind, delete).chip;
    if d != c {
      RemoveAllDistinct(c.bridges[name], instance);
      FewerNamesUnique(c, d);
    }
  }

  lemma SameNamesUnique(c: Chip, d: Chip)
    requires NamesUnique(c) && d.aps == c.aps && d.stas == c.stas && d.bridges == c.bridges
    ensures NamesUnique(d)
  {
  }

  lemma ConfiguredUnique(c: Chip, env: Env, id: int, calls: ConfigureCalls)
    requires NamesUnique(c)
    ensures NamesUnique(Configure(c, env, id, calls).chip)
  {
    var d := Configure(c, env, id, calls).chip;
    if d.aps == c.aps && d.stas == c.stas && d.bridges == c.bridges {
      SameNamesUnique(c, d);
    } else {
      assert d.aps == [] && d.stas == [] && d.bridges == map[];
    }
  }

  lemma CreatedUnique(c: Chip, env: Env, driver: bool)
    requires NamesUnique(c) && env.predefinedAps == []
    ensures NamesUnique(CreateAp(c, env, driver).chip) && NamesUnique(CreateSta(c, env, driver).chip)
  {
    var d, e := CreateAp(c, env, driver).chip, CreateSta(c, env, driver).chip;
    if d != c {
      AddedApUnique(c, d, ApName(c, env).value);
    }
    if e != c {
      AddedStaUnique(c, e, e.stas[|c.stas|]);
    }
  }

  lemma OthersUnique(c: Chip, env: Env, name: string)
    requires NamesUnique(c)
    ensures NamesUnique(CreateNan(c, env).chip) && NamesUnique(RemoveNan(c, name).chip)
    ensures NamesUnique(CreateP2p(c, env).chip) && NamesUnique(RemoveP2p(c, name).chip)
    ensures NamesUnique(CreateRtt(c, env).chip)
  {
    SameNamesUnique(c, CreateNan(c, env).chip);
    SameNamesUnique(c, RemoveNan(c, name).chip);
    SameNamesUnique(c, CreateP2p(c, env).chip);
    SameNamesUnique(c, RemoveP2p(c, name).chip);
    SameNamesUnique(c, CreateRtt(c, env).chip);
  }

  lemma StepKeepsNames(c: Chip, env: Env, op: Op)
    requires NamesUnique(c) && NamesCareful(c, env, op)
    ensures NamesUnique(Step(c, env, op).chip)
  {
    match op
    case OpCreateAp(driver) => CreatedUnique(c, env, driver);
    case OpCreateBridgedAp(calls) => CreateBridgedApUnique(c, env, calls);
    case OpRemoveAp(name) => RemovedApUnique(c, env, name);
    case OpRemoveInstance(name, instance, unbind, delete) =>
      RemovedInstanceUnique(c, env, name, instance, unbind, delete);
    case OpCreateNan => OthersUnique(c, env, "");
    case OpRemoveNan(name) => OthersUnique(c, env, name);
    case OpCreateP2p => OthersUnique(c, env, "");
    case OpRemoveP2p(name) => OthersUnique(c, env, name);
    case OpCreateSta(driver) => CreatedUnique(c, env, driver);
    case OpRemoveSta(name) => RemovedStaUnique(c, env, name);
    case OpCreateRtt => OthersUnique(c, env, "");
    case OpConfigure(id, calls) => ConfiguredUnique(c, env, id, calls);
  }

  /** In every run that is careful about names, no two live devices ever share one. */
  lemma {:induction false} LiveNamesUnique(modes: seq<ChipMode>, states: seq<Chip>, envs: seq<Env>, ops: seq<Op>,
                                           i: nat)
    requires IsRun(modes, states, envs, ops) && i < |states|
    requires forall k :: 0 <= k < |ops| ==> NamesCareful(states[k], envs[k], ops[k])
    ensures NamesUnique(states[i])
  {
    if i > 0 {
      LiveNamesUnique(modes, states, envs, ops, i - 1);
      assert Took(states[i - 1], envs[i - 1], ops[i - 1], states[i]);
      StepKeepsNames(states[i - 1], envs[i - 1], ops[i - 1]);
    }
  }

  // ---- What reusing a bridge name does ----

  /** Creating a bridged access point under the name of a live one turns the live one
      into a bridged access point as well. */
  lemma ReuseRetypes(c: Chip, env: Env, calls: BridgeCalls) returns (j: nat)
    requires Distinct(c.aps) && Builds(c, env, calls) && BridgeName(InstanceNames(c, env).value) in c.aps
    ensures var d := CreateBridgedAp(c, env, calls).chip;
            && j < |c.aps| && c.aps[j] == BridgeName(InstanceNames(c, env).value)
            && ApTypes(d.aps, d.bridges) == ApTypes(c.aps, c.bridges)[j := ApBridged] + [ApBridged]
  {
    var name := BridgeName(InstanceNames(c, env).value);
    j :| j < |c.aps| && c.aps[j] == name;
  }

  // ---- What is named after a bridge instance ----

  /** An aware interface that gets its name from the first access point goes with it exactly if the
      access point is not bridged, or is named like its first instance; otherwise it survives. */
  lemma DependantGoesIff(c: Chip, env: Env)
    requires c.stas == [] && c.aps != [] && Admits(c, Nan) && (env.nanName == "" || !env.nanExists)
    requires FirstActive(c, env).Some?
    ensures var ap, name := c.aps[0], FirstActive(c, env).value;
            var d := CreateNan(c, env).chip;
            && name in d.nans
            && (name !in RemoveAp(d, env, ap).chip.nans <==> ap !in c.bridges || c.bridges[ap][0] == ap)
  {
  }

  /** The same for ranging controllers. */
  lemma ControllerGoesIff(c: Chip, env: Env)
    requires c.stas == [] && c.aps != [] && Admits(c, Sta) && FirstActive(c, env).Some?
    ensures var ap, name := c.aps[0], FirstActive(c, env).value;
            var d := CreateRtt(c, env).chip;
            && name in d.rtts
            && (name !in RemoveAp(d, env, ap).chip.rtts <==> ap !in c.bridges || c.bridges[ap][0] == ap)
  {
  }
}
