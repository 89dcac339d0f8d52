/** What holds in every run of a Wi-Fi chip.

    Two results.  Replaying the events a client received reproduces the live interfaces
    after every operation.  And the live interfaces have room in the current mode after
    every operation exactly if every call is careful: where it changes the types of live
    access points, the changed list has to fit.
  */
module ChipRuns {
  import opened Options
  import opened Concurrency
  import opened Matching
  import opened ChipSpec

  // ---- Replaying events ----

  /** How often a client saw an interface added minus removed since the last
      reconfiguration; a reconfiguration, failed or not, ends all interfaces. */
  ghost function Balance(events: seq<Event>, kind: IfaceType, name: string): int {
    if events == [] then 0 else
      var before := Balance(events[..|events| - 1], kind, name);
      match events[|events| - 1]
      case IfaceAdded(k, n) => if k == kind && n == name then before + 1 else before
      case IfaceRemoved(k, n) => if k == kind && n == name then before - 1 else before
      case ChipReconfigured(_) => 0
      case ChipReconfigureFailure => 0
  }

  ghost function Occurs(names: seq<string>, name: string): nat {
    if names == [] then 0 else (if names[0] == name then 1 else 0) + Occurs(names[1..], name)
  }

  ghost function NamesOf(c: Chip, kind: IfaceType): seq<string> {
    match kind
    case ApIface => c.aps
    case StaIface => c.stas
    case P2pIface => c.p2ps
    case NanIface => c.nans
  }

  /** The client's view is right: as a multiset, what it saw is what is live. */
  ghost predicate Described(c: Chip) {
    && LiveOnlyInMode(c)
    && forall kind, name :: Balance(c.events, kind, name) == Occurs(NamesOf(c, kind), name)
  }

  lemma {:induction false} OccursAppend(names: seq<string>, added: string, name: string)
    ensures Occurs(names + [added], name) == Occurs(names, name) + if added == name then 1 else 0
  {
    if names != [] {
      assert (names + [added])[1..] == names[1..] + [added];
      OccursAppend(names[1..], added, name);
    }
  }

  lemma {:induction false} OccursRemoveFirst(names: seq<string>, removed: string, name: string)
    requires removed in names
    ensures Occurs(RemoveFirst(names, removed), name) == Occurs(names, name) - if removed == name then 1 else 0
  {
    if names[0] != removed {
      OccursRemoveFirst(names[1..], removed, name);
      var r := RemoveFirst(names, removed);
      assert r[0] == names[0] && r[1..] == RemoveFirst(names[1..], removed);
    }
  }

  lemma {:induction false} OccursRemoveAll(names: seq<string>, removed: string, name: string)
    ensures Occurs(RemoveAll(names, removed), name) == if removed == name then 0 else Occurs(names, name)
  {
    if names != [] {
      OccursRemoveAll(names[1..], removed, name);
      var r := RemoveAll(names, removed);
      assert names[0] != removed ==> r[0] == names[0] && r[1..] == RemoveAll(names[1..], removed);
      assert names[0] == removed ==> r == RemoveAll(names[1..], removed);
    }
  }

  lemma BalanceOne(events: seq<Event>, e: Event, kind: IfaceType, name: string)
    ensures var before, after := Balance(events, kind, name), Balance(events + [e], kind, name);
            match e
            case IfaceAdded(k, n) => after == if k == kind && n == name then before + 1 else before
            case IfaceRemoved(k, n) => after == if k == kind && n == name then before - 1 else before
            case ChipReconfigured(_) => after == 0
            case ChipReconfigureFailure => after == 0
  {
    assert (events + [e])[..|events|] == events;
  }

  /** The removal events of dependent aware interfaces account for all of them. */
  lemma {:induction false} BalanceNanEvents(events: seq<Event>, nans: seq<string>, removed: string, kind: IfaceType,
                                            name: string)
    ensures Balance(events + NanEvents(nans, removed), kind, name)
         == Balance(events, kind, name) - if kind == NanIface && removed == name then Occurs(nans, name) else 0
    decreases nans
  {
    if nans == [] {
      assert events + [] == events;
    } else if nans[0] != removed {
      BalanceNanEvents(events, nans[1..], removed, kind, name);
      assert NanEvents(nans, removed) == NanEvents(nans[1..], removed);
    } else {
      var e := IfaceRemoved(NanIface, removed);
      BalanceNanEvents(events + [e], nans[1..], removed, kind, name);
      BalanceOne(events, e, kind, name);
      RegroupEvents(events, e, NanEvents(nans[1..], removed));
    }
  }

  lemma RegroupEvents(events: seq<Event>, e: Event, more: seq<Event>)
    ensures events + ([e] + more) == events + [e] + more
  {
  }

  /** Without a valid mode nothing is live: creating needs a mode, and only
      configuring changes it. */
  ghost predicate LiveOnlyInMode(c: Chip) {
    IsValidMode(c.modes, c.mode) || NoLive(c)
  }

  lemma {:induction false} NoModeNoCombinations(modes: seq<ChipMode>, id: int)
    requires !IsValidMode(modes, id)
    ensures CombinationsOf(modes, id) == []
  {
    if modes != [] {
      assert modes[0] in modes;
      NoModeNoCombinations(modes[1..], id);
    }
  }

  lemma AdmitsNeedsMode(c: Chip, t: ConcurrencyType)
    requires Admits(c, t)
    ensures IsValidMode(c.modes, c.mode)
  {
    if !IsValidMode(c.modes, c.mode) {
      NoModeNoCombinations(c.modes, c.mode);
    }
  }

  lemma SameDescribed(c: Chip, d: Chip)
    requires Described(c) && d == c.(bridges := d.bridges, rtts := d.rtts)
    ensures Described(d)
  {
    forall kind ensures NamesOf(d, kind) == NamesOf(c, kind) {
      match kind case ApIface => case StaIface => case P2pIface => case NanIface =>
    }
  }

  lemma DropDependenciesDescribed(c: Chip, removed: string)
    requires Described(c)
    ensures Described(DropDependencies(c, removed))
  {
    var d := DropDependencies(c, removed);
    forall kind, name ensures Balance(d.events, kind, name) == Occurs(NamesOf(d, kind), name) {
      BalanceNanEvents(c.events, c.nans, removed, kind, name);
      OccursRemoveAll(c.nans, removed, name);
    }
  }

  /** d differs from c by one more interface of a kind, and says so. */
  lemma AddDescribed(c: Chip, d: Chip, t: ConcurrencyType, kind: IfaceType, added: string)
    requires Described(c) && Admits(c, t) && d.modes == c.modes && d.mode == c.mode
    requires d.events == c.events + [IfaceAdded(kind, added)]
    requires forall k :: NamesOf(d, k) == if k == kind then NamesOf(c, k) + [added] else NamesOf(c, k)
    ensures Described(d)
  {
    AdmitsNeedsMode(c, t);
    forall k, name ensures Balance(d.events, k, name) == Occurs(NamesOf(d, k), name) {
      BalanceOne(c.events, IfaceAdded(kind, added), k, name);
      OccursAppend(NamesOf(c, k), added, name);
    }
  }

  lemma RemoveDescribed(c: Chip, d: Chip, kind: IfaceType, removed: string)
    requires Described(c) && removed in NamesOf(c, kind) && d.modes == c.modes && d.mode == c.mode
    requires d.events == c.events + [IfaceRemoved(kind, removed)]
    requires forall k :: NamesOf(d, k) == if k == kind then RemoveFirst(NamesOf(c, k), removed) else NamesOf(c, k)
    ensures Described(d)
  {
    assert !NoLive(c);
    forall k, name ensures Balance(d.events, k, name) == Occurs(NamesOf(d, k), name) {
      BalanceOne(c.events, IfaceRemoved(kind, removed), k, name);
      if k == kind {
        OccursRemoveFirst(NamesOf(c, k), removed, name);
      }
    }
  }

  lemma CreateApDescribed(c: Chip, env: Env, driver: bool)
    requires Described(c)
    ensures Described(CreateAp(c, env, driver).chip)
  {
    var d := CreateAp(c, env, driver).chip;
    if d != c {
      var name := ApName(c, env).value;
      AddDescribed(c, d, Ap, ApIface, name);
    }
  }

  lemma CreateBridgedApDescribed(c: Chip, env: Env, calls: BridgeCalls)
    requires Described(c)
    ensures Described(CreateBridgedAp(c, env, calls).chip)
  {
    var d := CreateBridgedAp(c, env, calls).chip;
    if d.aps != c.aps {
      var name := BridgeName(InstanceNames(c, env).value);
      AddDescribed(c, d, ApBridged, ApIface, name);
    } else {
      SameDescribed(c, d);
    }
  }

  lemma RemoveApDescribed(c: Chip, env: Env, name: string)
    requires Described(c)
    ensures Described(RemoveAp(c, env, name).chip)
  {
    if name in c.aps {
      DropDependenciesDescribed(c, name);
      RemoveDescribed(DropDependencies(c, name), RemoveAp(c, env, name).chip, ApIface, name);
    }
  }

  lemma RemoveStaDescribed(c: Chip, env: Env, name: string)
    requires Described(c)
    ensures Described(RemoveSta(c, env, name).chip)
  {
    if name in c.stas {
      DropDependenciesDescribed(c, name);
      RemoveDescribed(DropDependencies(c, name), RemoveSta(c, env, name).chip, StaIface, name);
    }
  }

  lemma NanDescribed(c: Chip, env: Env, name: string)
    requires Described(c)
    ensures Described(CreateNan(c, env).chip) && Described(RemoveNan(c, name).chip)
  {
    var d := CreateNan(c, env).chip;
    if d != c {
      var added := d.nans[|c.nans|];
      AddDescribed(c, d, Nan, NanIface, added);
    }
    if name in c.nans {
      RemoveDescribed(c, RemoveNan(c, name).chip, NanIface, name);
    }
  }

  lemma P2pDescribed(c: Chip, env: Env, name: string)
    requires Described(c)
    ensures Described(CreateP2p(c, env).chip) && Described(RemoveP2p(c, name).chip)
  {
    var d := CreateP2p(c, env).chip;
    if d != c {
      AddDescribed(c, d, P2p, P2pIface, env.p2pName);
    }
    if name in c.p2ps {
      RemoveDescribed(c, RemoveP2p(c, name).chip, P2pIface, name);
    }
  }

  lemma CreateStaDescribed(c: Chip, env: Env, driver: bool)
    requires Described(c)
    ensures Described(CreateSta(c, env, driver).chip)
  {
    var d := CreateSta(c, env, driver).chip;
    if d != c {
      var name := d.stas[|c.stas|];
      AddDescribed(c, d, Sta, StaIface, name);
    }
  }

  /** A configuration that goes past its two early returns ends with nothing live. */
  lemma ConfigureClears(c: Chip, env: Env, id: int, calls: ConfigureCalls)
    requires LiveOnlyInMode(c)
    ensures var d := Configure(c, env, id, calls).chip;
            || d == c
            || (NoLive(d) && exists e ::
                  d.events == c.events + [e] && (e == ChipReconfigured(id) || e == ChipReconfigureFailure))
  {
    var d := Configure(c, env, id, calls).chip;
    if d.events != c.events {
      assert d.events == c.events + [d.events[|c.events|]];
    }
  }

  lemma ConfigureDescribed(c: Chip, env: Env, id: int, calls: ConfigureCalls)
    requires Described(c)
    ensures Described(Configure(c, env, id, calls).chip)
  {
    var d := Configure(c, env, id, calls).chip;
    ConfigureClears(c, env, id, calls);
    if d != c {
      forall kind, name ensures Balance(d.events, kind, name) == Occurs(NamesOf(d, kind), name) {
        BalanceOne(c.events, ChipReconfigured(id), kind, name);
        BalanceOne(c.events, ChipReconfigureFailure, kind, name);
      }
    }
  }

  lemma StepDescribed(c: Chip, env: Env, op: Op)
    requires Described(c)
    ensures Described(Step(c, env, op).chip)
  {
    match op
    case OpCreateAp(driver) => CreateApDescribed(c, env, driver);
    case OpCreateBridgedAp(calls) => CreateBridgedApDescribed(c, env, calls);
    case OpRemoveAp(name) => RemoveApDescribed(c, env, name);
    case OpRemoveInstance(name, instance, unbind, delete) =>
      SameDescribed(c, RemoveInstance(c, env, name, instance, unbind, delete).chip);
    case OpCreateNan => NanDescribed(c, env, "");
    case OpRemoveNan(name) => NanDescribed(c, env, name);
    case OpCreateP2p => P2pDescribed(c, env, "");
    case OpRemoveP2p(name) => P2pDescribed(c, env, name);
    case OpCreateSta(driver) => CreateStaDescribed(c, env, driver);
    case OpRemoveSta(name) => RemoveStaDescribed(c, env, name);
    case OpCreateRtt => SameDescribed(c, CreateRtt(c, env).chip);
    case OpConfigure(id, calls) => ConfigureDescribed(c, env, id, calls);
  }

  /** In every run, after every operation, replaying all events gives the live interfaces. */
  lemma {:induction false} EventsDescribeLive(modes: seq<ChipMode>, states: seq<Chip>, envs: seq<Env>, ops: seq<Op>,
                                              i: nat)
    requires IsRun(modes, states, envs, ops) && i < |states|
    ensures Described(states[i])
  {
    if i > 0 {
      EventsDescribeLive(modes, states, envs, ops, i - 1);
      assert Took(states[i - 1], envs[i - 1], ops[i - 1], states[i]);
      StepDescribed(states[i - 1], envs[i - 1], ops[i - 1]);
    }
  }

  /** Removing a station removes every aware interface and ranging controller named after it. */
  lemma NoDependentSurvives(c: Chip, env: Env, name: string)
    requires name in c.stas
    ensures var d := RemoveSta(c, env, name).chip;
            && name !in d.nans && name !in d.rtts
            && (forall n :: n in c.nans && n != name ==> n in d.nans)
            && (forall n :: n in c.rtts && n != name ==> n in d.rtts)
            && |d.stas| == |c.stas| - 1
  {
    RemoveFirstLength(c.stas, name);
  }

  lemma {:induction false} RemoveFirstLength(names: seq<string>, name: string)
    requires name in names
    ensures |RemoveFirst(names, name)| == |names| - 1
  {
    if names[0] != name {
      RemoveFirstLength(names[1..], name);
    }
  }

  /** Loading the driver's matrix leaves the chip in a mode that exists exactly if the
      request was for the mode the matrix is stored under. */
  lemma DynamicModeIsValidIff(c: Chip, env: Env, id: int, calls: ConfigureCalls)
    requires IsValidMode(c.modes, id) && id != c.mode && !c.dynamic && calls.matrix.Some?
    requires LiveOnlyInMode(c)
    requires calls.stop && calls.firmware && calls.start
    ensures var o := Configure(c, env, id, calls);
            && o.status == Success && o.chip.mode == id
            && (IsValidMode(o.chip.modes, o.chip.mode) <==> id == MODE_V3)
  {
    var d := Configure(c, env, id, calls).chip;
    assert d.modes == [ChipMode(MODE_V3, calls.matrix.value)];
    assert d.modes[0].id == MODE_V3;
    assert NoLive(d);
  }

  // ---- Room in the current mode ----

  ghost predicate ModesExpandable(modes: seq<ChipMode>) {
    forall m :: m in modes ==> Expandable(m.combinations)
  }

  ghost predicate Distinct(names: seq<string>) {
    forall i, j :: 0 <= i < j < |names| ==> names[i] != names[j]
  }

  /** Every bridge belongs to a live access point. */
  ghost predicate BridgesLive(c: Chip) {
    "" !in c.bridges && forall b :: b in c.bridges ==> b in c.aps
  }

  ghost predicate HasRoom(c: Chip) {
    NoLive(c) || Fits(Current(c), LiveTypes(c))
  }

  ghost predicate Safe(c: Chip) {
    ModesExpandable(c.modes) && LiveOnlyInMode(c) && BridgesLive(c) && HasRoom(c)
  }

  /** The live types if every access point of that name were of type t. */
  function TypesWith(c: Chip, name: string, t: ConcurrencyType): seq<ConcurrencyType> {
    ApTypesWith(c, name, t) + Copies(Nan, |c.nans|) + Copies(P2p, |c.p2ps|) + Copies(Sta, |c.stas|)
  }

  function ApTypesWith(c: Chip, name: string, t: ConcurrencyType): (ts: seq<ConcurrencyType>)
    ensures |ts| == |c.aps|
    ensures forall i :: 0 <= i < |ts| ==> ts[i] == if c.aps[i] == name then t else ApTypeOf(c.bridges, c.aps[i])
  {
    seq(|c.aps|, i requires 0 <= i < |c.aps| => if c.aps[i] == name then t else ApTypeOf(c.bridges, c.aps[i]))
  }

  /** A bridged access point is admitted, gets its names, and its two interfaces are created. */
  ghost predicate GetsBridge(c: Chip, env: Env, calls: BridgeCalls) {
    && Admits(c, ApBridged) && InstanceNames(c, env).Some? && |InstanceNames(c, env).value| >= 2
    && calls.create0 && calls.create1
  }

  ghost predicate Builds(c: Chip, env: Env, calls: BridgeCalls) {
    GetsBridge(c, env, calls) && calls.createBridge && calls.bind0 && calls.bind1
  }

  ghost function NewBridge(c: Chip, env: Env): string
    requires InstanceNames(c, env).Some? && |InstanceNames(c, env).value| >= 2
  {
    BridgeName(InstanceNames(c, env).value)
  }

  /** A bridge that is built retypes the live access points of its name; one that fails unbridges them. */
  ghost predicate BridgeFits(c: Chip, env: Env, calls: BridgeCalls) {
    GetsBridge(c, env, calls) ==>
      var name := NewBridge(c, env);
      if Builds(c, env, calls) then Fits(Current(c), TypesWith(c, name, ApBridged) + [ApBridged])
      else ApTypeOf(c.bridges, name) == ApBridged ==> Fits(Current(c), TypesWith(c, name, Ap))
  }

  /** Removing the instance leaves a bridge that had several with at most one. */
  predicate Splits(c: Chip, name: string, instance: string, unbind: bool, delete: bool) {
    && unbind && delete && instance != "" && name in c.aps && name in c.bridges && instance in c.bridges[name]
    && |c.bridges[name]| > 1 && |RemoveAll(c.bridges[name], instance)| <= 1
  }

  /** Removing a bridged access point unbridges another one of the same name. */
  predicate Unbridges(c: Chip, name: string) {
    name in c.aps && ApTypeOf(c.bridges, name) == ApBridged && name in RemoveFirst(c.aps, name)
  }

  /** The chip without the access point and what runs over it, its bridge still there. */
  function WithoutAp(c: Chip, name: string): Chip {
    DropDependencies(c, name).(aps := RemoveFirst(c.aps, name))
  }

  /** The call comes as far as taking over the driver's matrix. */
  predicate TakesMatrix(c: Chip, id: int, calls: ConfigureCalls) {
    && IsValidMode(c.modes, id) && id != c.mode && !c.dynamic && calls.matrix.Some?
    && (IsValidMode(c.modes, c.mode) ==> calls.stop) && (id == MODE_V1_STA || id == MODE_V1_AP ==> calls.firmware)
    && calls.start
  }

  /** What the caller has to respect.  The conditions speak about the chip before the call: where the
      call changes the types of live access points, the changed list has to fit. */
  ghost predicate Careful(c: Chip, env: Env, op: Op) {
    match op
    case OpCreateBridgedAp(calls) => BridgeFits(c, env, calls)
    case OpRemoveAp(name) => Unbridges(c, name) ==> Fits(Current(c), TypesWith(WithoutAp(c, name), name, Ap))
    case OpRemoveInstance(name, instance, unbind, delete) =>
      Splits(c, name, instance, unbind, delete) ==> Fits(Current(c), TypesWith(c, name, Ap))
    case OpConfigure(id, calls) => TakesMatrix(c, id, calls) ==> Expandable(calls.matrix.value)
    case _ => true
  }

  lemma {:induction false} CurrentExpandable(modes: seq<ChipMode>, id: int)
    requires ModesExpandable(modes)
    ensures Expandable(CombinationsOf(modes, id))
  {
    if modes != [] {
      assert modes[0] in modes;
      CurrentExpandable(modes[1..], id);
    }
  }

  lemma LiveMultiset(c: Chip)
    ensures multiset(LiveTypes(c)) == multiset(ApTypes(c.aps, c.bridges)) + multiset(Copies(Nan, |c.nans|))
                                    + multiset(Copies(P2p, |c.p2ps|)) + multiset(Copies(Sta, |c.stas|))
  {
  }

  lemma SumShrinks<T>(a: multiset<T>, b: multiset<T>, c: multiset<T>, d: multiset<T>,
                      a': multiset<T>, b': multiset<T>, c': multiset<T>, d': multiset<T>)
    requires a' <= a && b' <= b && c' <= c && d' <= d
    ensures a' + b' + c' + d' <= a + b + c + d
  {
  }

  lemma CopiesGrow(t: ConcurrencyType, n: nat)
    ensures multiset(Copies(t, n + 1)) == multiset(Copies(t, n)) + multiset{t}
  {
    assert Copies(t, n + 1) == Copies(t, n) + [t];
  }

  lemma {:induction false} CopiesShrink(t: ConcurrencyType, m: nat, n: nat)
    requires m <= n
    ensures multiset(Copies(t, m)) <= multiset(Copies(t, n))
    decreases n - m
  {
    if m < n {
      CopiesShrink(t, m + 1, n);
      CopiesGrow(t, m);
    }
  }

  /** An admitted interface has room once it is there. */
  lemma RoomAfterCreate(c: Chip, d: Chip, t: ConcurrencyType)
    requires ModesExpandable(c.modes) && Admits(c, t)
    requires d.modes == c.modes && d.mode == c.mode
    requires multiset(LiveTypes(d)) == multiset(LiveTypes(c)) + multiset{t}
    ensures Fits(Current(d), LiveTypes(d))
  {
    CurrentExpandable(c.modes, c.mode);
    assert multiset(LiveTypes(c) + [t]) == multiset(LiveTypes(c)) + multiset{t};
    FitsFewer(Current(c), LiveTypes(c) + [t], LiveTypes(d));
  }

  lemma RoomAfterRemove(c: Chip, d: Chip)
    requires ModesExpandable(c.modes) && HasRoom(c) && !NoLive(c)
    requires d.modes == c.modes && d.mode == c.mode
    requires multiset(LiveTypes(d)) <= multiset(LiveTypes(c))
    ensures HasRoom(d)
  {
    CurrentExpandable(c.modes, c.mode);
    FitsFewer(Current(c), LiveTypes(c), LiveTypes(d));
  }

  lemma ApTypesAppend(aps: seq<string>, bridges: map<string, seq<string>>, bridges': map<string, seq<string>>,
                      name: string)
    requires forall n :: n in aps ==> ApTypeOf(bridges, n) == ApTypeOf(bridges', n)
    ensures multiset(ApTypes(aps + [name], bridges'))
         == multiset(ApTypes(aps, bridges)) + multiset{ApTypeOf(bridges', name)}
  {
    assert ApTypes(aps + [name], bridges') == ApTypes(aps, bridges) + [ApTypeOf(bridges', name)];
  }

  /** One more access point, of the type its bridge gives it. */
  lemma ApAddedSafe(c: Chip, d: Chip, name: string)
    requires Safe(c) && Admits(c, ApTypeOf(d.bridges, name)) && name !in c.aps
    requires d == c.(aps := c.aps + [name], bridges := d.bridges, events := d.events)
    requires forall b :: b in d.bridges ==> b == name || (b in c.bridges && d.bridges[b] == c.bridges[b])
    requires forall b :: b in c.bridges && b != name ==> b in d.bridges
    requires "" !in d.bridges
    ensures Safe(d)
  {
    var t := ApTypeOf(d.bridges, name);
    AdmitsNeedsMode(c, t);
    ApTypesAppend(c.aps, c.bridges, d.bridges, name);
    ApGrows(c, d, t);
    RoomAfterCreate(c, d, t);
  }

  lemma ApGrows(c: Chip, d: Chip, t: ConcurrencyType)
    requires d.nans == c.nans && d.p2ps == c.p2ps && d.stas == c.stas
    requires multiset(ApTypes(d.aps, d.bridges)) == multiset(ApTypes(c.aps, c.bridges)) + multiset{t}
    ensures multiset(LiveTypes(d)) == multiset(LiveTypes(c)) + multiset{t}
  {
    var rest := Copies(Nan, |c.nans|) + Copies(P2p, |c.p2ps|) + Copies(Sta, |c.stas|);
    assert LiveTypes(c) == ApTypes(c.aps, c.bridges) + rest;
    assert LiveTypes(d) == ApTypes(d.aps, d.bridges) + rest;
  }

  lemma CreateApSafe(c: Chip, env: Env, driver: bool)
    requires Safe(c)
    ensures Safe(CreateAp(c, env, driver).chip)
  {
    var d := CreateAp(c, env, driver).chip;
    if d != c {
      ApAddedSafe(c, d, ApName(c, env).value);
    }
  }

  lemma SameFit(combinations: seq<Combination>, a: seq<ConcurrencyType>, b: seq<ConcurrencyType>)
    requires multiset(a) == multiset(b)
    ensures Fits(combinations, a) <==> Fits(combinations, b)
  {
    if Fits(combinations, a) {
      FitsFewer(combinations, a, b);
    }
    if Fits(combinations, b) {
      FitsFewer(combinations, b, a);
    }
  }

  /** Giving a name new instances gives its access points the type that goes with them. */
  lemma RetypedTypes(c: Chip, name: string, bridges: map<string, seq<string>>)
    requires forall b :: b != name ==> (b in bridges <==> b in c.bridges)
    requires forall b :: b in bridges && b != name ==> bridges[b] == c.bridges[b]
    ensures ApTypes(c.aps, bridges) == ApTypesWith(c, name, ApTypeOf(bridges, name))
  {
  }

  lemma BuiltRoom(c: Chip, d: Chip, name: string)
    requires ModesExpandable(c.modes) && d.modes == c.modes && d.mode == c.mode && d.aps == c.aps + [name]
    requires d.nans == c.nans && d.p2ps == c.p2ps && d.stas == c.stas
    requires name in d.bridges && |d.bridges[name]| > 1 && d.bridges == c.bridges[name := d.bridges[name]]
    ensures HasRoom(d) <==> Fits(Current(c), TypesWith(c, name, ApBridged) + [ApBridged])
  {
    RetypedTypes(c, name, d.bridges);
    var aps := ApTypesWith(c, name, ApBridged);
    var rest := Copies(Nan, |c.nans|) + Copies(P2p, |c.p2ps|) + Copies(Sta, |c.stas|);
    assert ApTypes(d.aps, d.bridges) == aps + [ApBridged];
    assert TypesWith(c, name, ApBridged) + [ApBridged] == aps + rest + [ApBridged];
    assert LiveTypes(d) == aps + [ApBridged] + rest;
    InsertOne(aps, rest, ApBridged);
    CurrentExpandable(c.modes, c.mode);
    SameFit(Current(c), LiveTypes(d), TypesWith(c, name, ApBridged) + [ApBridged]);
  }

  /** A chip that differs in the instances of one name only. */
  lemma RetypedRoom(c: Chip, d: Chip, name: string)
    requires d == c.(bridges := d.bridges) && name in c.aps
    requires forall b :: b != name ==> (b in d.bridges <==> b in c.bridges)
    requires forall b :: b in d.bridges && b != name ==> d.bridges[b] == c.bridges[b]
    ensures HasRoom(d) <==> Fits(Current(c), TypesWith(c, name, ApTypeOf(d.bridges, name)))
  {
    RetypedTypes(c, name, d.bridges);
  }

  lemma UnchangedTypes(c: Chip, name: string)
    ensures TypesWith(c, name, ApTypeOf(c.bridges, name)) == LiveTypes(c)
    ensures name !in c.aps ==> forall t :: TypesWith(c, name, t) == LiveTypes(c)
  {
    assert ApTypesWith(c, name, ApTypeOf(c.bridges, name)) == ApTypes(c.aps, c.bridges);
    if name !in c.aps {
      forall t ensures ApTypesWith(c, name, t) == ApTypes(c.aps, c.bridges) {
      }
    }
  }

  /** For every pattern of driver failures: the limits hold after the call exactly if the live
      interfaces fit with the access points of the bridge's name retyped as the call does. */
  lemma BridgeRoomIff(c: Chip, env: Env, calls: BridgeCalls)
    requires Safe(c)
    ensures HasRoom(CreateBridgedAp(c, env, calls).chip) <==> BridgeFits(c, env, calls)
  {
    var d := CreateBridgedAp(c, env, calls).chip;
    if GetsBridge(c, env, calls) {
      var name := NewBridge(c, env);
      if Builds(c, env, calls) {
        BuiltRoom(c, d, name);
      } else if name in c.aps {
        RetypedRoom(c, d, name);
        UnchangedTypes(c, name);
        AdmitsNeedsMode(c, ApBridged);
      } else {
        assert d.bridges == c.bridges;
      }
    }
  }

  lemma CreateBridgedApSafeIff(c: Chip, env: Env, calls: BridgeCalls)
    requires Safe(c)
    ensures Safe(CreateBridgedAp(c, env, calls).chip) <==> BridgeFits(c, env, calls)
  {
    BridgeRoomIff(c, env, calls);
    if GetsBridge(c, env, calls) {
      AdmitsNeedsMode(c, ApBridged);
      assert |NewBridge(c, env)| > 0;
    }
  }

  lemma {:induction false} RemoveFirstIsWithout(names: seq<string>, name: string) returns (j: nat)
    requires name in names
    ensures j < |names| && names[j] == name && RemoveFirst(names, name) == Without(names, j)
  {
    j := 0;
    if names[0] != name {
      j := RemoveFirstIsWithout(names[1..], name);
      j := j + 1;
      assert Without(names, j) == [names[0]] + Without(names[1..], j - 1);
    }
  }

  lemma {:induction false} RemoveAllShorter(names: seq<string>, name: string)
    ensures |RemoveAll(names, name)| <= |names|
  {
    if names != [] {
      RemoveAllShorter(names[1..], name);
    }
  }

  lemma BridgesStayLive(c: Chip, name: string)
    requires BridgesLive(c) && name in c.aps
    ensures BridgesLive(c.(aps := RemoveFirst(c.aps, name), bridges := c.bridges - {name}))
  {
    var j := RemoveFirstIsWithout(c.aps, name);
    forall b | b in c.bridges && b != name ensures b in RemoveFirst(c.aps, name) {
      BridgeKept(c.aps, j, b);
    }
  }

  lemma WithoutDistinct(names: seq<string>, j: nat)
    requires Distinct(names) && j < |names|
    ensures Distinct(Without(names, j)) && names[j] !in Without(names, j)
  {
    var r := Without(names, j);
    forall i | 0 <= i < |r| ensures r[i] == names[if i < j then i else i + 1] {
    }
  }

  lemma TypesWithout(aps: seq<string>, j: nat, small: map<string, seq<string>>, large: map<string, seq<string>>)
    requires j < |aps|
    requires forall n :: n in Without(aps, j) ==> ApTypeOf(small, n) == ApTypeOf(large, n)
    ensures multiset(ApTypes(Without(aps, j), small)) <= multiset(ApTypes(aps, large))
  {
    var ts := ApTypes(aps, large);
    var us := ApTypes(Without(aps, j), small);
    forall i | 0 <= i < |us| ensures us[i] == Without(ts, j)[i] {
      assert Without(aps, j)[i] in Without(aps, j);
    }
    assert us == Without(ts, j);
    WithoutMultiset(ts, j);
  }

  /** What is left of the access points, with the bridge gone, is plain where it had the name. */
  lemma RemovedApTypes(c: Chip, d: Chip, name: string)
    requires d.aps == RemoveFirst(c.aps, name) && d.bridges == c.bridges - {name}
    requires d.nans == RemoveAll(c.nans, name) && d.p2ps == c.p2ps && d.stas == c.stas
    ensures LiveTypes(d) == TypesWith(WithoutAp(c, name), name, Ap)
  {
    assert ApTypes(d.aps, d.bridges) == ApTypesWith(WithoutAp(c, name), name, Ap);
  }

  /** Another access point of the name stays behind without its bridge. */
  lemma UnbridgedRoom(c: Chip, d: Chip, name: string)
    requires Unbridges(c, name) && d == WithoutAp(c, name).(bridges := c.bridges - {name}, events := d.events)
    ensures HasRoom(d) <==> Fits(Current(c), TypesWith(WithoutAp(c, name), name, Ap))
  {
    RemovedApTypes(c, d, name);
    assert d.aps != [];
  }

  lemma TypesLeft(c: Chip, name: string, n: string)
    requires name in c.aps && !Unbridges(c, name) && n in RemoveFirst(c.aps, name)
    ensures ApTypeOf(c.bridges - {name}, n) == ApTypeOf(c.bridges, n)
  {
  }

  lemma RemovedApShrinks(c: Chip, d: Chip, name: string)
    requires Safe(c) && name in c.aps && !Unbridges(c, name)
    requires d == WithoutAp(c, name).(bridges := c.bridges - {name}, events := d.events)
    ensures Safe(d)
  {
    BridgesStayLive(c, name);
    var j := RemoveFirstIsWithout(c.aps, name);
    assert multiset(ApTypes(d.aps, d.bridges)) <= multiset(ApTypes(c.aps, c.bridges)) by {
      forall n | n in d.aps ensures ApTypeOf(d.bridges, n) == ApTypeOf(c.bridges, n) {
        TypesLeft(c, name, n);
      }
      TypesWithout(c.aps, j, d.bridges, c.bridges);
    }
    RemoveAllShorter(c.nans, name);
    Shrinks(c, d);
  }

  lemma RemoveApSafeIff(c: Chip, env: Env, name: string)
    requires Safe(c)
    ensures Safe(RemoveAp(c, env, name).chip) <==> Careful(c, env, OpRemoveAp(name))
  {
    var d := RemoveAp(c, env, name).chip;
    if name in c.aps {
      assert d.bridges == c.bridges - {name};
      if Unbridges(c, name) {
        BridgesStayLive(c, name);
        UnbridgedRoom(c, d, name);
      } else {
        RemovedApShrinks(c, d, name);
      }
    }
  }

  lemma LiveShrinks(c: Chip, d: Chip)
    requires multiset(ApTypes(d.aps, d.bridges)) <= multiset(ApTypes(c.aps, c.bridges))
    requires |d.nans| <= |c.nans| && |d.p2ps| <= |c.p2ps| && |d.stas| <= |c.stas|
    ensures multiset(LiveTypes(d)) <= multiset(LiveTypes(c))
  {
    CopiesShrink(Nan, |d.nans|, |c.nans|);
    CopiesShrink(P2p, |d.p2ps|, |c.p2ps|);
    CopiesShrink(Sta, |d.stas|, |c.stas|);
    LiveMultiset(c);
    LiveMultiset(d);
    SumShrinks(multiset(ApTypes(c.aps, c.bridges)), multiset(Copies(Nan, |c.nans|)),
               multiset(Copies(P2p, |c.p2ps|)), multiset(Copies(Sta, |c.stas|)),
               multiset(ApTypes(d.aps, d.bridges)), multiset(Copies(Nan, |d.nans|)),
               multiset(Copies(P2p, |d.p2ps|)), multiset(Copies(Sta, |d.stas|)));
  }

  lemma Shrinks(c: Chip, d: Chip)
    requires Safe(c) && !NoLive(c) && d.modes == c.modes && d.mode == c.mode && BridgesLive(d)
    requires multiset(ApTypes(d.aps, d.bridges)) <= multiset(ApTypes(c.aps, c.bridges))
    requires |d.nans| <= |c.nans| && |d.p2ps| <= |c.p2ps| && |d.stas| <= |c.stas|
    ensures Safe(d)
  {
    LiveShrinks(c, d);
    RoomAfterRemove(c, d);
  }

  lemma BridgeKept(aps: seq<string>, j: nat, b: string)
    requires j < |aps| && b in aps && b != aps[j]
    ensures b in Without(aps, j)
  {
    var i :| 0 <= i < |aps| && aps[i] == b;
    assert Without(aps, j)[if i < j then i else i - 1] == b;
  }

  lemma RemoveInstanceSafeIff(c: Chip, env: Env, name: string, instance: string, unbind: bool, delete: bool)
    requires Safe(c)
    ensures Safe(RemoveInstance(c, env, name, instance, unbind, delete).chip)
       <==> Careful(c, env, OpRemoveInstance(name, instance, unbind, delete))
  {
    var d := RemoveInstance(c, env, name, instance, unbind, delete).chip;
    if d != c {
      RetypedRoom(c, d, name);
      RemoveAllShorter(c.bridges[name], instance);
      UnchangedTypes(c, name);
    }
  }

  lemma InsertOne(a: seq<ConcurrencyType>, b: seq<ConcurrencyType>, t: ConcurrencyType)
    ensures multiset(a + [t] + b) == multiset(a + b) + multiset{t}
  {
  }

  lemma OthersGrow(c: Chip, d: Chip, t: ConcurrencyType)
    requires d.aps == c.aps && d.bridges == c.bridges && t in [Nan, P2p, Sta]
    requires |d.nans| == |c.nans| + (if t == Nan then 1 else 0)
    requires |d.p2ps| == |c.p2ps| + (if t == P2p then 1 else 0)
    requires |d.stas| == |c.stas| + (if t == Sta then 1 else 0)
    ensures multiset(LiveTypes(d)) == multiset(LiveTypes(c)) + multiset{t}
  {
    var a := ApTypes(c.aps, c.bridges);
    var n, p, s := Copies(Nan, |c.nans|), Copies(P2p, |c.p2ps|), Copies(Sta, |c.stas|);
    if t == Nan {
      assert Copies(Nan, |d.nans|) == n + [t];
      InsertOne(a + n, p + s, t);
      assert LiveTypes(d) == (a + n) + [t] + (p + s) && LiveTypes(c) == (a + n) + (p + s);
    } else if t == P2p {
      assert Copies(P2p, |d.p2ps|) == p + [t];
      InsertOne(a + n + p, s, t);
      assert LiveTypes(d) == (a + n + p) + [t] + s && LiveTypes(c) == (a + n + p) + s;
    } else {
      assert Copies(Sta, |d.stas|) == s + [t];
      InsertOne(a + n + p + s, [], t);
      assert LiveTypes(d) == (a + n + p + s) + [t] + [] && LiveTypes(c) == (a + n + p + s) + [];
    }
  }

  lemma CreateOthersSafe(c: Chip, d: Chip, t: ConcurrencyType)
    requires Safe(c) && Admits(c, t) && d.modes == c.modes && d.mode == c.mode
    requires d.aps == c.aps && d.bridges == c.bridges && t in [Nan, P2p, Sta]
    requires |d.nans| == |c.nans| + (if t == Nan then 1 else 0)
    requires |d.p2ps| == |c.p2ps| + (if t == P2p then 1 else 0)
    requires |d.stas| == |c.stas| + (if t == Sta then 1 else 0)
    ensures Safe(d)
  {
    AdmitsNeedsMode(c, t);
    OthersGrow(c, d, t);
    RoomAfterCreate(c, d, t);
  }

  lemma ConfigureShape(c: Chip, env: Env, id: int, calls: ConfigureCalls)
    requires LiveOnlyInMode(c) && BridgesLive(c)
    ensures var d := Configure(c, env, id, calls).chip;
            && d.modes == (if TakesMatrix(c, id, calls) then [ChipMode(MODE_V3, calls.matrix.value)] else c.modes)
            && (d != c ==> NoLive(d) && d.bridges == map[])
  {
    if !IsValidMode(c.modes, c.mode) {
      assert c.bridges == map[] by { assert forall b :: b !in c.bridges; }
    }
  }

  lemma ConfigureSafeIff(c: Chip, env: Env, id: int, calls: ConfigureCalls)
    requires Safe(c)
    ensures Safe(Configure(c, env, id, calls).chip) <==> Careful(c, env, OpConfigure(id, calls))
  {
    ConfigureShape(c, env, id, calls);
    ConfiguredSafeIff(c, Configure(c, env, id, calls).chip, id, calls);
  }

  lemma ConfiguredSafeIff(c: Chip, d: Chip, id: int, calls: ConfigureCalls)
    requires Safe(c) && (d != c ==> NoLive(d) && d.bridges == map[])
    requires d.modes == if TakesMatrix(c, id, calls) then [ChipMode(MODE_V3, calls.matrix.value)] else c.modes
    ensures Safe(d) <==> (TakesMatrix(c, id, calls) ==> Expandable(calls.matrix.value))
  {
    if TakesMatrix(c, id, calls) {
      assert d.modes[0] in d.modes;
    }
  }

  lemma RemoveOthersSafe(c: Chip, env: Env, name: string)
    requires Safe(c)
    ensures Safe(RemoveNan(c, name).chip) && Safe(RemoveP2p(c, name).chip) && Safe(RemoveSta(c, env, name).chip)
  {
    if name in c.nans {
      RemoveFirstLength(c.nans, name);
      Shrinks(c, RemoveNan(c, name).chip);
    }
    if name in c.p2ps {
      RemoveFirstLength(c.p2ps, name);
      Shrinks(c, RemoveP2p(c, name).chip);
    }
    if name in c.stas {
      RemoveFirstLength(c.stas, name);
      RemoveAllShorter(c.nans, name);
      Shrinks(c, RemoveSta(c, env, name).chip);
    }
  }

  lemma CreateAnySafe(c: Chip, env: Env, driver: bool)
    requires Safe(c)
    ensures Safe(CreateNan(c, env).chip) && Safe(CreateP2p(c, env).chip) && Safe(CreateSta(c, env, driver).chip)
    ensures Safe(CreateRtt(c, env).chip)
  {
    if CreateNan(c, env).chip != c {
      CreateOthersSafe(c, CreateNan(c, env).chip, Nan);
    }
    if CreateP2p(c, env).chip != c {
      CreateOthersSafe(c, CreateP2p(c, env).chip, P2p);
    }
    if CreateSta(c, env, driver).chip != c {
      CreateOthersSafe(c, CreateSta(c, env, driver).chip, Sta);
    }
  }

  /** Every operation keeps the live interfaces within the mode exactly if the call is careful. */
  lemma StepSafeIff(c: Chip, env: Env, op: Op)
    requires Safe(c)
    ensures Safe(Step(c, env, op).chip) <==> Careful(c, env, op)
  {
    match op
    case OpCreateAp(driver) => CreateApSafe(c, env, driver);
    case OpCreateBridgedAp(calls) => CreateBridgedApSafeIff(c, env, calls);
    case OpRemoveAp(name) => RemoveApSafeIff(c, env, name);
    case OpRemoveInstance(name, instance, unbind, delete) =>
      RemoveInstanceSafeIff(c, env, name, instance, unbind, delete);
    case OpCreateNan => CreateAnySafe(c, env, true);
    case OpRemoveNan(name) => RemoveOthersSafe(c, env, name);
    case OpCreateP2p => CreateAnySafe(c, env, true);
    case OpRemoveP2p(name) => RemoveOthersSafe(c, env, name);
    case OpCreateSta(driver) => CreateAnySafe(c, env, driver);
    case OpRemoveSta(name) => RemoveOthersSafe(c, env, name);
    case OpCreateRtt => CreateAnySafe(c, env, true);
    case OpConfigure(id, calls) => ConfigureSafeIff(c, env, id, calls);
  }

  lemma {:induction false} SafeUpTo(modes: seq<ChipMode>, states: seq<Chip>, envs: seq<Env>, ops: seq<Op>, i: nat)
    requires IsRun(modes, states, envs, ops) && i < |states| && ModesExpandable(modes)
    requires forall k :: 0 <= k < i ==> Careful(states[k], envs[k], ops[k])
    ensures Safe(states[i])
  {
    if i > 0 {
      SafeUpTo(modes, states, envs, ops, i - 1);
      assert Took(states[i - 1], envs[i - 1], ops[i - 1], states[i]);
      StepSafeIff(states[i - 1], envs[i - 1], ops[i - 1]);
    }
  }

  /** In every run the live interfaces have room in one combination of the current mode, after every
      operation, exactly if every call is careful. */
  lemma LiveAlwaysFits(modes: seq<ChipMode>, states: seq<Chip>, envs: seq<Env>, ops: seq<Op>)
    requires IsRun(modes, states, envs, ops) && ModesExpandable(modes)
    ensures (forall i :: 0 <= i < |states| ==> Safe(states[i]))
       <==> (forall k :: 0 <= k < |ops| ==> Careful(states[k], envs[k], ops[k]))
  {
    if forall k :: 0 <= k < |ops| ==> Careful(states[k], envs[k], ops[k]) {
      forall i | 0 <= i < |states| ensures Safe(states[i]) {
        SafeUpTo(modes, states, envs, ops, i);
      }
    }
    if forall i :: 0 <= i < |states| ==> Safe(states[i]) {
      forall k | 0 <= k < |ops| ensures Careful(states[k], envs[k], ops[k]) {
        assert Took(states[k], envs[k], ops[k], states[k + 1]);
        StepSafeIff(states[k], envs[k], ops[k]);
      }
    }
  }

  // ---- Calls that need no care ----

  /** Some bridged access points of the list become plain ones. */
  ghost predicate AreSplits(before: seq<ConcurrencyType>, after: seq<ConcurrencyType>) {
    |after| == |before| &&
    forall i :: 0 <= i < |before| ==> after[i] == before[i] || (before[i] == ApBridged && after[i] == Ap)
  }

  lemma OneMoreSplit(before: seq<ConcurrencyType>, after: seq<ConcurrencyType>, n: nat)
    requires AreSplits(before, after) && n < |before|
    ensures var last, next := after[..n] + before[n..], after[..n + 1] + before[n + 1..];
            next == last || IsSplit(last, next)
  {
    var last, next := after[..n] + before[n..], after[..n + 1] + before[n + 1..];
    assert next == last[n := after[n]];
    if next != last {
      assert last[n] == ApBridged && next == last[n := Ap];
    }
  }

  lemma {:induction false} SplitsFit(combinations: seq<Combination>, before: seq<ConcurrencyType>,
                                     after: seq<ConcurrencyType>, n: nat)
    requires Expandable(combinations) && SplitTolerant(combinations) && Fits(combinations, before)
    requires AreSplits(before, after) && n <= |before|
    ensures Fits(combinations, after[..n] + before[n..])
  {
    if n == 0 {
      assert after[..n] + before[n..] == before;
    } else {
      SplitsFit(combinations, before, after, n - 1);
      var last, next := after[..n - 1] + before[n - 1..], after[..n] + before[n..];
      OneMoreSplit(before, after, n - 1);
      if next != last {
        SplitFits(combinations, last, next);
      }
    }
  }

  lemma PlainFits(c: Chip, name: string)
    requires ModesExpandable(c.modes) && SplitTolerant(Current(c)) && Fits(Current(c), LiveTypes(c))
    ensures Fits(Current(c), TypesWith(c, name, Ap))
  {
    CurrentExpandable(c.modes, c.mode);
    var before, after := LiveTypes(c), TypesWith(c, name, Ap);
    SplitsFit(Current(c), before, after, |before|);
    assert after[..|before|] + before[|before|..] == after;
  }

  lemma WithoutApFits(c: Chip, name: string)
    requires Safe(c) && name in c.aps
    ensures Fits(Current(c), LiveTypes(WithoutAp(c, name)))
  {
    var d := WithoutAp(c, name);
    var j := RemoveFirstIsWithout(c.aps, name);
    TypesWithout(c.aps, j, c.bridges, c.bridges);
    RemoveAllShorter(c.nans, name);
    LiveShrinks(c, d);
    CurrentExpandable(c.modes, c.mode);
    FitsFewer(Current(c), LiveTypes(c), LiveTypes(d));
  }

  /** In a mode that tolerates splits, only a new bridge under a live name needs care. */
  lemma TolerantNeedsNoCare(c: Chip, env: Env, op: Op)
    requires Safe(c) && SplitTolerant(Current(c)) && !op.OpConfigure?
    requires op.OpCreateBridgedAp? && Builds(c, env, op.bridge) ==> NewBridge(c, env) !in c.aps
    ensures Careful(c, env, op)
  {
    match op
    case OpCreateBridgedAp(calls) =>
      if GetsBridge(c, env, calls) {
        var name := NewBridge(c, env);
        if Builds(c, env, calls) {
          UnchangedTypes(c, name);
        } else if name in c.aps {
          PlainFits(c, name);
        }
      }
    case OpRemoveAp(name) =>
      if Unbridges(c, name) {
        WithoutApFits(c, name);
        PlainFits(WithoutAp(c, name), name);
      }
    case OpRemoveInstance(name, instance, unbind, delete) =>
      if name in c.aps {
        PlainFits(c, name);
      }
    case _ =>
  }
}
