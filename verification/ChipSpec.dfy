/** What every operation of a Wi-Fi chip does to the chip's interfaces.

    A chip keeps its interfaces by kind, the instances of its bridged access points and
    the mode it is configured in.  Each operation is a function from the chip and the
    answers of the system (property values, driver calls) to the next chip and a status.
    Requests are admitted by the matching problem of `Matching`, not by the enumeration;
    the class `WifiChip` is shown to agree.
  */
module ChipSpec {
  import opened Options
  import opened Concurrency
  import opened Matching

  datatype IfaceType = StaIface | ApIface | P2pIface | NanIface

  datatype ChipMode = ChipMode(id: int, combinations: seq<Combination>)

  datatype Event =
    | IfaceAdded(kind: IfaceType, name: string)
    | IfaceRemoved(kind: IfaceType, name: string)
    | ChipReconfigured(id: int)
    | ChipReconfigureFailure

  datatype Chip = Chip(
    modes: seq<ChipMode>,
    mode: int,
    dynamic: bool,
    aps: seq<string>,
    stas: seq<string>,
    p2ps: seq<string>,
    nans: seq<string>,
    rtts: seq<string>,
    bridges: map<string, seq<string>>,
    events: seq<Event>)

  /** Aborted: a CHECK failed or a vector was read past its end. */
  datatype Status = Success | NotAvailable | InvalidArgs | LegacyError | UnknownError | Aborted

  datatype Outcome = Outcome(chip: Chip, status: Status)

  const MAX_WLAN_IFACES := 5
  const MODE_INVALID := -1
  const MODE_V1_STA := 0
  const MODE_V1_AP := 1
  const MODE_V3 := 3
  const AP_BRIDGE_PREFIX := "ap_br_"

  /** MAX_WLAN_IFACES interface names, by index. */
  type NameTable = names: seq<string> | |names| == MAX_WLAN_IFACES
    witness ["wlan0", "wlan1", "wlan2", "wlan3", "wlan4"]

  /** Names read from properties or the driver. */
  datatype Env = Env(
    apNames: NameTable,
    staNames: NameTable,
    predefinedAps: seq<string>,
    nanName: string,
    nanExists: bool,
    p2pName: string)

  /** Driver answers while a bridged access point is built. */
  datatype BridgeCalls = BridgeCalls(create0: bool, create1: bool, createBridge: bool, bind0: bool, bind1: bool)

  /** Driver answers while the chip is configured; a matrix replaces the built-in modes. */
  datatype ConfigureCalls = ConfigureCalls(stop: bool, firmware: bool, start: bool, matrix: Option<seq<Combination>>)

  function NewChip(modes: seq<ChipMode>): Chip {
    Chip(modes, MODE_INVALID, false, [], [], [], [], [], map[], [])
  }

  // ---- Modes and live interfaces ----

  predicate IsValidMode(modes: seq<ChipMode>, id: int) {
    exists m :: m in modes && m.id == id
  }

  /** The combinations of the first mode with this id. */
  function CombinationsOf(modes: seq<ChipMode>, id: int): seq<Combination> {
    if modes == [] then [] else
    if modes[0].id == id then modes[0].combinations else CombinationsOf(modes[1..], id)
  }

  function Current(c: Chip): seq<Combination> {
    CombinationsOf(c.modes, c.mode)
  }

  /** An access point counts as bridged while its bridge has more than one instance. */
  function ApTypeOf(bridges: map<string, seq<string>>, name: string): ConcurrencyType {
    if name in bridges && |bridges[name]| > 1 then ApBridged else Ap
  }

  function ApTypes(aps: seq<string>, bridges: map<string, seq<string>>): (ts: seq<ConcurrencyType>)
    ensures |ts| == |aps|
    ensures forall i :: 0 <= i < |aps| ==> ts[i] == ApTypeOf(bridges, aps[i])
  {
    seq(|aps|, i requires 0 <= i < |aps| => ApTypeOf(bridges, aps[i]))
  }

  function Copies(t: ConcurrencyType, n: nat): (ts: seq<ConcurrencyType>)
    ensures |ts| == n && forall i :: 0 <= i < n ==> ts[i] == t
  {
    seq(n, _ => t)
  }

  function LiveTypes(c: Chip): seq<ConcurrencyType> {
    ApTypes(c.aps, c.bridges) + Copies(Nan, |c.nans|) + Copies(P2p, |c.p2ps|) + Copies(Sta, |c.stas|)
  }

  predicate NoLive(c: Chip) {
    c.aps == [] && c.nans == [] && c.p2ps == [] && c.stas == []
  }

  /** The live interfaces and one more of type t have room in the current mode. */
  ghost predicate Admits(c: Chip, t: ConcurrencyType) {
    Fits(Current(c), LiveTypes(c) + [t])
  }

  // ---- Names ----

  predicate InUse(c: Chip, name: string) {
    name in c.bridges || (exists b :: b in c.bridges && name in c.bridges[b]) || name in c.aps || name in c.stas
  }

  /** The first index from `start` on whose name is not in use. */
  function FirstFree(c: Chip, names: NameTable, start: nat): (r: Option<nat>)
    ensures r.Some? ==> start <= r.value < MAX_WLAN_IFACES && !InUse(c, names[r.value])
    ensures r.Some? ==> forall i :: start <= i < r.value ==> InUse(c, names[i])
    ensures r.None? ==> forall i :: start <= i < MAX_WLAN_IFACES ==> InUse(c, names[i])
    decreases MAX_WLAN_IFACES - start
  {
    if start >= MAX_WLAN_IFACES then None
    else if !InUse(c, names[start]) then Some(start)
    else FirstFree(c, names, start + 1)
  }

  /** Access points start behind the indices kept for stations. */
  ghost function StartIdx(c: Chip): (idx: nat)
    ensures idx <= 2
  {
    if Fits(Current(c), [Sta, Sta]) then 2 else if Fits(Current(c), [Sta, Ap]) then 1 else 0
  }

  ghost function AllocateAp(c: Chip, env: Env, start: nat): Option<string> {
    var i := FirstFree(c, env.apNames, start);
    if i.None? then None else Some(env.apNames[i.value])
  }

  function FirstUnused(names: seq<string>, used: seq<string>): (r: Option<string>)
    ensures r.Some? ==> r.value in names && r.value !in used
    ensures r.None? ==> forall n :: n in names ==> n in used
  {
    if names == [] then None else if names[0] !in used then Some(names[0]) else FirstUnused(names[1..], used)
  }

  ghost function ApName(c: Chip, env: Env): Option<string> {
    var dedicated := FirstUnused(env.predefinedAps, c.aps);
    if dedicated.Some? then dedicated else AllocateAp(c, env, StartIdx(c))
  }

  function NonEmpty(name: string): seq<string> {
    if name == "" then [] else [name]
  }

  /** Two instance names, predefined ones first; None if the allocator gives up. */
  ghost function InstanceNames(c: Chip, env: Env): Option<seq<string>> {
    var given := env.predefinedAps;
    if |given| >= 2 then Some(given) else
      var first := AllocateAp(c, env, StartIdx(c));
      if first.None? then None
      else if |given| == 1 then Some(given + NonEmpty(first.value))
      else
        var second := AllocateAp(c, env, StartIdx(c) + 1);
        if second.None? then None else Some(NonEmpty(first.value) + NonEmpty(second.value))
  }

  /** The interface chip-wide calls are sent to; None if a bridge has lost all its instances. */
  function FirstActive(c: Chip, env: Env): Option<string> {
    if c.stas != [] then Some(c.stas[0])
    else if c.aps != [] then
      if c.aps[0] in c.bridges
      then if c.bridges[c.aps[0]] == [] then None else Some(c.bridges[c.aps[0]][0])
      else Some(c.aps[0])
    else Some(env.staNames[0])
  }

  /** Every change of the access points or stations publishes the active interface. */
  function Publish(c: Chip, env: Env): Outcome {
    Outcome(c, if FirstActive(c, env).None? then Aborted else Success)
  }

  // ---- Removal from lists ----

  function RemoveFirst(names: seq<string>, name: string): (r: seq<string>)
    ensures name !in names ==> r == names
  {
    if names == [] then []
    else if names[0] == name then names[1..]
    else [names[0]] + RemoveFirst(names[1..], name)
  }

  function RemoveAll(names: seq<string>, name: string): (r: seq<string>)
    ensures name !in r
    ensures forall n :: n in r <==> n in names && n != name
  {
    if names == [] then []
    else (if names[0] == name then [] else [names[0]]) + RemoveAll(names[1..], name)
  }

  /** One removal event per aware interface of that name. */
  function NanEvents(nans: seq<string>, name: string): (es: seq<Event>)
    ensures forall e :: e in es ==> e == IfaceRemoved(NanIface, name)
  {
    if nans == [] then []
    else (if nans[0] == name then [IfaceRemoved(NanIface, name)] else []) + NanEvents(nans[1..], name)
  }

  /** Objects that run over an interface go with it. */
  function DropDependencies(c: Chip, name: string): Chip {
    c.(nans := RemoveAll(c.nans, name),
       rtts := RemoveAll(c.rtts, name),
       events := c.events + NanEvents(c.nans, name))
  }

  // ---- Operations ----

  ghost function CreateAp(c: Chip, env: Env, driver: bool): Outcome {
    if !Admits(c, Ap) then Outcome(c, NotAvailable) else
      var name := ApName(c, env);
      if name.None? then Outcome(c, Aborted)
      else if !driver then Outcome(c, LegacyError)
      else Publish(c.(aps := c.aps + [name.value], events := c.events + [IfaceAdded(ApIface, name.value)]), env)
  }

  ghost function BridgeName(instances: seq<string>): string
    requires |instances| >= 2
  {
    AP_BRIDGE_PREFIX + instances[0]
  }

  ghost function CreateBridgedAp(c: Chip, env: Env, calls: BridgeCalls): Outcome {
    if !Admits(c, ApBridged) then Outcome(c, NotAvailable) else
      var instances := InstanceNames(c, env);
      if instances.None? then Outcome(c, Aborted)
      else if |instances.value| < 2 then Outcome(c, NotAvailable)
      else if !calls.create0 || !calls.create1 then Outcome(c, LegacyError)
      else
        var name := BridgeName(instances.value);
        if !calls.createBridge || !calls.bind0 || !calls.bind1
        then Outcome(c.(bridges := c.bridges - {name}), NotAvailable)
        else Publish(c.(bridges := c.bridges[name := instances.value],
                        aps := c.aps + [name],
                        events := c.events + [IfaceAdded(ApIface, name)]), env)
  }

  function RemoveAp(c: Chip, env: Env, name: string): Outcome {
    if name !in c.aps then Outcome(c, InvalidArgs) else
      var d := DropDependencies(c, name);
      Publish(d.(bridges := if name == "" then d.bridges else d.bridges - {name},
                 aps := RemoveFirst(d.aps, name),
                 events := d.events + [IfaceRemoved(ApIface, name)]), env)
  }

  function RemoveInstance(c: Chip, env: Env, name: string, instance: string, unbind: bool, delete: bool): Outcome {
    if name !in c.aps || instance == "" then Outcome(c, InvalidArgs)
    else if name in c.bridges && instance in c.bridges[name] then
      if !unbind then Outcome(c, NotAvailable)
      else if !delete then Outcome(c, LegacyError)
      else Publish(c.(bridges := c.bridges[name := RemoveAll(c.bridges[name], instance)]), env)
    else Publish(c, env)
  }

  ghost function CreateNan(c: Chip, env: Env): Outcome {
    if !Admits(c, Nan) then Outcome(c, NotAvailable) else
      var name := if env.nanName == "" || !env.nanExists then FirstActive(c, env) else Some(env.nanName);
      if name.None? then Outcome(c, Aborted)
      else Outcome(c.(nans := c.nans + [name.value], events := c.events + [IfaceAdded(NanIface, name.value)]), Success)
  }

  function RemoveNan(c: Chip, name: string): Outcome {
    if name !in c.nans then Outcome(c, InvalidArgs)
    else Outcome(c.(nans := RemoveFirst(c.nans, name), events := c.events + [IfaceRemoved(NanIface, name)]), Success)
  }

  ghost function CreateP2p(c: Chip, env: Env): Outcome {
    if !Admits(c, P2p) then Outcome(c, NotAvailable)
    else Outcome(c.(p2ps := c.p2ps + [env.p2pName], events := c.events + [IfaceAdded(P2pIface, env.p2pName)]), Success)
  }

  function RemoveP2p(c: Chip, name: string): Outcome {
    if name !in c.p2ps then Outcome(c, InvalidArgs)
    else Outcome(c.(p2ps := RemoveFirst(c.p2ps, name), events := c.events + [IfaceRemoved(P2pIface, name)]), Success)
  }

  ghost function CreateSta(c: Chip, env: Env, driver: bool): Outcome {
    if !Admits(c, Sta) then Outcome(c, NotAvailable) else
      var i := FirstFree(c, env.staNames, 0);
      if i.None? then Outcome(c, Aborted)
      else if !driver then Outcome(c, LegacyError)
      else
        var name := env.staNames[i.value];
        Publish(c.(stas := c.stas + [name], events := c.events + [IfaceAdded(StaIface, name)]), env)
  }

  function RemoveSta(c: Chip, env: Env, name: string): Outcome {
    if name !in c.stas then Outcome(c, InvalidArgs) else
      var d := DropDependencies(c, name);
      Publish(d.(stas := RemoveFirst(d.stas, name), events := d.events + [IfaceRemoved(StaIface, name)]), env)
  }

  ghost function CreateRtt(c: Chip, env: Env): Outcome {
    if c.stas == [] && !Admits(c, Sta) then Outcome(c, NotAvailable) else
      var name := FirstActive(c, env);
      if name.None? then Outcome(c, Aborted) else Outcome(c.(rtts := c.rtts + [name.value]), Success)
  }

  function Cleared(c: Chip): Chip {
    c.(aps := [], stas := [], p2ps := [], nans := [], rtts := [], bridges := map[])
  }

  /** Stops the HAL if the chip is configured, changes the firmware mode, starts the HAL
      and loads the driver's matrix once. */
  function HandleConfiguration(c: Chip, id: int, calls: ConfigureCalls): Outcome {
    var running := IsValidMode(c.modes, c.mode);
    var d := if running then Cleared(c) else c;
    if running && !calls.stop then Outcome(d, LegacyError)
    else if (id == MODE_V1_STA || id == MODE_V1_AP) && !calls.firmware then Outcome(d, UnknownError)
    else if !calls.start then Outcome(d, LegacyError)
    else if c.dynamic || calls.matrix.None? then Outcome(d, Success)
    else Outcome(d.(modes := [ChipMode(MODE_V3, calls.matrix.value)], dynamic := true), Success)
  }

  function Configure(c: Chip, env: Env, id: int, calls: ConfigureCalls): Outcome {
    if !IsValidMode(c.modes, id) then Outcome(c, InvalidArgs)
    else if id == c.mode then Outcome(c, Success)
    else
      var o := HandleConfiguration(c, id, calls);
      var d := o.chip;
      if o.status != Success
      then Outcome(d.(events := d.events + [ChipReconfigureFailure]), o.status)
      else Publish(d.(mode := id, events := d.events + [ChipReconfigured(id)]), env)
  }

  // ---- Runs ----

  datatype Op =
    | OpCreateAp(driver: bool)
    | OpCreateBridgedAp(bridge: BridgeCalls)
    | OpRemoveAp(name: string)
    | OpRemoveInstance(name: string, instance: string, unbind: bool, delete: bool)
    | OpCreateNan
    | OpRemoveNan(name: string)
    | OpCreateP2p
    | OpRemoveP2p(name: string)
    | OpCreateSta(driver: bool)
    | OpRemoveSta(name: string)
    | OpCreateRtt
    | OpConfigure(id: int, config: ConfigureCalls)

  ghost function Step(c: Chip, env: Env, op: Op): Outcome {
    match op
    case OpCreateAp(driver) => CreateAp(c, env, driver)
    case OpCreateBridgedAp(calls) => CreateBridgedAp(c, env, calls)
    case OpRemoveAp(name) => RemoveAp(c, env, name)
    case OpRemoveInstance(name, instance, unbind, delete) => RemoveInstance(c, env, name, instance, unbind, delete)
    case OpCreateNan => CreateNan(c, env)
    case OpRemoveNan(name) => RemoveNan(c, name)
    case OpCreateP2p => CreateP2p(c, env)
    case OpRemoveP2p(name) => RemoveP2p(c, name)
    case OpCreateSta(driver) => CreateSta(c, env, driver)
    case OpRemoveSta(name) => RemoveSta(c, env, name)
    case OpCreateRtt => CreateRtt(c, env)
    case OpConfigure(id, calls) => Configure(c, env, id, calls)
  }

  /** States a chip passes through; the names the system offers may change at any time. */
  ghost predicate IsRun(modes: seq<ChipMode>, states: seq<Chip>, envs: seq<Env>, ops: seq<Op>) {
    && |states| == |ops| + 1 && |envs| == |ops| && states[0] == NewChip(modes)
    && forall i :: 0 <= i < |ops| ==> Took(states[i], envs[i], ops[i], states[i + 1])
  }

  ghost predicate Took(c: Chip, env: Env, op: Op, d: Chip) {
    Step(c, env, op).status != Aborted && Step(c, env, op).chip == d
  }
}
