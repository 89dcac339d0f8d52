/** What each call on a Wi-Fi chip does, said from the outside.

    Whether a request is granted is stated by the limits of the chip's mode, against which
    every interface has to be counted; names by the first entry of a table that no device
    has; removals by what is left of a list.  Together the lemmas cover every case of every
    call, so that a call that did nothing, or something else, would contradict them.
  */
module ChipCalls {
  import opened Options
  import opened Concurrency
  import opened Matching
  import opened Selections
  import opened ChipSpec
  import opened ChipRuns

  // ---- Room ----

  /** The first mode with the id the chip is configured in. */
  ghost predicate IsCurrentMode(c: Chip, i: nat) {
    i < |c.modes| && c.modes[i].id == c.mode && forall j :: 0 <= j < i ==> c.modes[j].id != c.mode
  }

  /** Some combination of the chip's mode has limits for interfaces of these types, all at once. */
  ghost predicate Allows(c: Chip, types: seq<ConcurrencyType>) {
    exists i: nat, k: nat, f :: IsCurrentMode(c, i) && k < |c.modes[i].combinations|
      && IsAssignment(c.modes[i].combinations[k], types, f)
  }

  ghost function BridgedAt(c: Chip): set<nat> {
    set i: nat | i < |c.aps| && c.aps[i] in c.bridges && |c.bridges[c.aps[i]]| >= 2
  }

  /** One type per live interface, in any order; an access point over two instances is a bridged one. */
  ghost predicate ListsLive(c: Chip, types: seq<ConcurrencyType>) {
    var count := multiset(types);
    && count[Sta] == |c.stas| && count[P2p] == |c.p2ps| && count[Nan] == |c.nans|
    && count[ApBridged] == |BridgedAt(c)| && count[Ap] == |c.aps| - |BridgedAt(c)|
  }

  /** The limits of the mode take the live interfaces and one more. */
  ghost predicate HasPlace(c: Chip, t: ConcurrencyType) {
    exists types :: ListsLive(c, types) && Allows(c, types + [t])
  }

  lemma {:induction false} CurrentIs(modes: seq<ChipMode>, id: int, i: nat)
    requires i < |modes| && modes[i].id == id && forall j :: 0 <= j < i ==> modes[j].id != id
    ensures CombinationsOf(modes, id) == modes[i].combinations
  {
    if i > 0 {
      CurrentIs(modes[1..], id, i - 1);
    }
  }

  lemma {:induction false} FirstMode(modes: seq<ChipMode>, id: int) returns (i: nat)
    requires CombinationsOf(modes, id) != []
    ensures i < |modes| && modes[i].id == id && forall j :: 0 <= j < i ==> modes[j].id != id
  {
    if modes[0].id == id {
      i := 0;
    } else {
      i := FirstMode(modes[1..], id);
      i := i + 1;
      assert forall j :: 0 < j < i ==> modes[j] == modes[1..][j - 1];
    }
  }

  lemma AllowsIff(c: Chip, types: seq<ConcurrencyType>)
    ensures Allows(c, types) <==> Fits(Current(c), types)
  {
    if Allows(c, types) {
      var i: nat, k: nat, f :| IsCurrentMode(c, i) && k < |c.modes[i].combinations|
        && IsAssignment(c.modes[i].combinations[k], types, f);
      CurrentIs(c.modes, c.mode, i);
      PlaceableIffAssigned(Current(c)[k], types);
    }
    if Fits(Current(c), types) {
      var k :| 0 <= k < |Current(c)| && Placeable(Slots(Current(c)[k]), types);
      var i := FirstMode(c.modes, c.mode);
      CurrentIs(c.modes, c.mode, i);
      PlaceableIffAssigned(Current(c)[k], types);
      var f :| IsAssignment(Current(c)[k], types, f);
      assert IsCurrentMode(c, i) && IsAssignment(c.modes[i].combinations[k], types, f);
    }
  }

  ghost function PlacesOf<T>(s: seq<T>, x: T): set<nat> {
    set i: nat | i < |s| && s[i] == x
  }

  lemma {:induction false} CountIsPlaces<T>(s: seq<T>, x: T)
    ensures multiset(s)[x] == |PlacesOf(s, x)|
  {
    if s != [] {
      var n := |s| - 1;
      CountIsPlaces(s[..n], x);
      assert s == s[..n] + [s[n]];
      assert PlacesOf(s, x) == PlacesOf(s[..n], x) + if s[n] == x then {n} else {};
    }
  }

  lemma CopiesCount(t: ConcurrencyType, n: nat, u: ConcurrencyType)
    ensures multiset(Copies(t, n))[u] == if u == t then n else 0
  {
    if n > 0 {
      CopiesCount(t, n - 1, u);
      assert Copies(t, n) == Copies(t, n - 1) + [t];
    }
  }

  lemma {:induction false} OnlyAps(types: seq<ConcurrencyType>)
    requires forall i :: 0 <= i < |types| ==> types[i] == Ap || types[i] == ApBridged
    ensures multiset(types)[Ap] + multiset(types)[ApBridged] == |types|
    ensures multiset(types)[Sta] == 0 && multiset(types)[P2p] == 0 && multiset(types)[Nan] == 0
  {
    if types != [] {
      OnlyAps(types[..|types| - 1]);
      assert types == types[..|types| - 1] + [types[|types| - 1]];
    }
  }

  lemma LiveIsListed(c: Chip)
    ensures ListsLive(c, LiveTypes(c))
  {
    var aps := ApTypes(c.aps, c.bridges);
    OnlyAps(aps);
    CountIsPlaces(aps, ApBridged);
    assert PlacesOf(aps, ApBridged) == BridgedAt(c);
    forall u ensures multiset(LiveTypes(c))[u] == multiset(aps)[u] + (if u == Nan then |c.nans| else 0)
                      + (if u == P2p then |c.p2ps| else 0) + (if u == Sta then |c.stas| else 0) {
      CopiesCount(Nan, |c.nans|, u);
      CopiesCount(P2p, |c.p2ps|, u);
      CopiesCount(Sta, |c.stas|, u);
    }
  }

  lemma SameListing(c: Chip, a: seq<ConcurrencyType>, b: seq<ConcurrencyType>)
    requires ListsLive(c, a) && ListsLive(c, b)
    ensures multiset(a) == multiset(b)
  {
    forall u ensures multiset(a)[u] == multiset(b)[u] {
      match u
      case Ap =>
      case ApBridged =>
      case Nan =>
      case P2p =>
      case Sta =>
    }
  }

  /** Requests are admitted exactly if the limits of the mode take one more interface. */
  lemma PlaceIff(c: Chip, t: ConcurrencyType)
    ensures Admits(c, t) <==> HasPlace(c, t)
  {
    LiveIsListed(c);
    AllowsIff(c, LiveTypes(c) + [t]);
    if types :| ListsLive(c, types) && Allows(c, types + [t]) {
      SameListing(c, types, LiveTypes(c));
      assert multiset(types + [t]) == multiset(LiveTypes(c) + [t]);
      AllowsIff(c, types + [t]);
      SameFit(Current(c), types + [t], LiveTypes(c) + [t]);
    }
  }

  // ---- Names ----

  /** Every name of an access point, a station, a bridge or an instance of one. */
  ghost function Devices(c: Chip): set<string> {
    (set n | n in c.aps) + (set n | n in c.stas) + c.bridges.Keys
      + (set b, n | b in c.bridges && n in c.bridges[b] :: n)
  }

  lemma InUseIff(c: Chip, name: string)
    ensures InUse(c, name) <==> name in Devices(c)
  {
  }

  /** The first entry from an index on that no device has. */
  ghost predicate IsFirstFree(c: Chip, names: NameTable, start: nat, i: nat) {
    start <= i < |names| && names[i] !in Devices(c) && forall j :: start <= j < i ==> names[j] in Devices(c)
  }

  ghost predicate AllTaken(c: Chip, names: NameTable, start: nat) {
    forall j :: start <= j < |names| ==> names[j] in Devices(c)
  }

  lemma FirstFreeIs(c: Chip, names: NameTable, start: nat)
    ensures FirstFree(c, names, start).None? <==> AllTaken(c, names, start)
    ensures forall i: nat :: FirstFree(c, names, start) == Some(i) <==> IsFirstFree(c, names, start, i)
  {
    forall j | 0 <= j < |names| ensures InUse(c, names[j]) <==> names[j] in Devices(c) {
      InUseIff(c, names[j]);
    }
  }

  /** Where the names of access points start: behind those of two stations, or of one. */
  ghost predicate IsStart(c: Chip, start: nat) {
    start == if Allows(c, [Sta, Sta]) then 2 else if Allows(c, [Sta, Ap]) then 1 else 0
  }

  lemma StartIs(c: Chip)
    ensures IsStart(c, StartIdx(c))
  {
    AllowsIff(c, [Sta, Sta]);
    AllowsIff(c, [Sta, Ap]);
  }

  /** The first of the predefined names that no access point has. */
  ghost predicate IsPredefined(c: Chip, env: Env, name: string) {
    exists i :: 0 <= i < |env.predefinedAps| && env.predefinedAps[i] == name && name !in c.aps
      && forall j :: 0 <= j < i ==> env.predefinedAps[j] in c.aps
  }

  ghost predicate AllPredefinedUsed(c: Chip, env: Env) {
    forall n :: n in env.predefinedAps ==> n in c.aps
  }

  lemma {:induction false} FirstUnusedIs(names: seq<string>, used: seq<string>) returns (i: nat)
    requires exists n :: n in names && n !in used
    ensures i < |names| && FirstUnused(names, used) == Some(names[i]) && names[i] !in used
    ensures forall j :: 0 <= j < i ==> names[j] in used
  {
    i := 0;
    if names[0] in used {
      i := FirstUnusedIs(names[1..], used);
      i := i + 1;
      assert forall j :: 0 < j < i ==> names[j] == names[1..][j - 1];
    }
  }

  /** The name the next access point gets. */
  ghost predicate IsApName(c: Chip, env: Env, name: string) {
    if AllPredefinedUsed(c, env)
    then exists start: nat, i: nat ::
           IsStart(c, start) && IsFirstFree(c, env.apNames, start, i) && name == env.apNames[i]
    else IsPredefined(c, env, name)
  }

  lemma ApNameIs(c: Chip, env: Env)
    ensures ApName(c, env).Some? ==> IsApName(c, env, ApName(c, env).value)
    ensures ApName(c, env).None? <==> AllPredefinedUsed(c, env) && AllTaken(c, env.apNames, StartIdx(c))
  {
    if AllPredefinedUsed(c, env) {
      StartIs(c);
      FirstFreeIs(c, env.apNames, StartIdx(c));
    } else {
      var _ := FirstUnusedIs(env.predefinedAps, c.aps);
    }
  }

  /** The interface chip-wide calls go to: the first station, else the first access point or the first
      instance of its bridge, else the first name of the stations' table. */
  ghost predicate IsActive(c: Chip, env: Env, name: string) {
    if c.stas != [] then name == c.stas[0]
    else if c.aps == [] then name == env.staNames[0]
    else if c.aps[0] !in c.bridges then name == c.aps[0]
    else c.bridges[c.aps[0]] != [] && name == c.bridges[c.aps[0]][0]
  }

  /** The first access point is a bridge that has lost all its instances. */
  ghost predicate NoneActive(c: Chip) {
    c.stas == [] && c.aps != [] && c.aps[0] in c.bridges && c.bridges[c.aps[0]] == []
  }

  lemma ActiveIs(c: Chip, env: Env)
    ensures FirstActive(c, env).None? <==> NoneActive(c)
    ensures forall n :: FirstActive(c, env) == Some(n) <==> IsActive(c, env, n)
  {
  }

  /** Publishing the active interface succeeds, unless there is none. */
  ghost predicate IsPublished(d: Chip, status: Status) {
    status == if NoneActive(d) then Aborted else Success
  }

  // ---- Creating ----

  /** A station is created exactly if the mode has a place, a name is free and the driver agrees; it gets
      the first free name, one event is sent, and in every other case nothing changes. */
  lemma CreateStaIs(c: Chip, env: Env, driver: bool)
    ensures var o := CreateSta(c, env, driver);
            && (!HasPlace(c, Sta) ==> o == Outcome(c, NotAvailable))
            && (HasPlace(c, Sta) && AllTaken(c, env.staNames, 0) ==> o == Outcome(c, Aborted))
            && (HasPlace(c, Sta) && !AllTaken(c, env.staNames, 0) && !driver ==> o == Outcome(c, LegacyError))
            && forall i: nat :: HasPlace(c, Sta) && IsFirstFree(c, env.staNames, 0, i) && driver ==>
                 var name := env.staNames[i];
                 o == Outcome(c.(stas := c.stas + [name], events := c.events + [IfaceAdded(StaIface, name)]), Success)
  {
    PlaceIff(c, Sta);
    FirstFreeIs(c, env.staNames, 0);
    ActiveIs(CreateSta(c, env, driver).chip, env);
  }

  lemma CreateP2pIs(c: Chip, env: Env)
    ensures CreateP2p(c, env) ==
            if !HasPlace(c, P2p) then Outcome(c, NotAvailable)
            else Outcome(c.(p2ps := c.p2ps + [env.p2pName],
                            events := c.events + [IfaceAdded(P2pIface, env.p2pName)]), Success)
  {
    PlaceIff(c, P2p);
  }

  /** An aware interface has its own name if that is a device, and otherwise that of the active interface. */
  lemma CreateNanIs(c: Chip, env: Env)
    ensures var o, own := CreateNan(c, env), env.nanName != "" && env.nanExists;
            && (!HasPlace(c, Nan) ==> o == Outcome(c, NotAvailable))
            && (HasPlace(c, Nan) && !own && NoneActive(c) ==> o == Outcome(c, Aborted))
            && forall name :: HasPlace(c, Nan) && (if own then name == env.nanName else IsActive(c, env, name)) ==>
                 o == Outcome(c.(nans := c.nans + [name], events := c.events + [IfaceAdded(NanIface, name)]), Success)
  {
    PlaceIff(c, Nan);
    ActiveIs(c, env);
  }

  /** A ranging controller needs a station or a place for one, and runs over the active interface. */
  lemma CreateRttIs(c: Chip, env: Env)
    ensures var o, possible := CreateRtt(c, env), c.stas != [] || HasPlace(c, Sta);
            && (!possible ==> o == Outcome(c, NotAvailable))
            && (possible && NoneActive(c) ==> o == Outcome(c, Aborted))
            && forall name :: possible && IsActive(c, env, name) ==>
                 o == Outcome(c.(rtts := c.rtts + [name]), Success)
  {
    PlaceIff(c, Sta);
    ActiveIs(c, env);
  }

  lemma CreateApIs(c: Chip, env: Env, driver: bool)
    ensures var o := CreateAp(c, env, driver);
            var named := exists n :: IsApName(c, env, n);
            && (!HasPlace(c, Ap) ==> o == Outcome(c, NotAvailable))
            && (HasPlace(c, Ap) && !named ==> o == Outcome(c, Aborted))
            && (HasPlace(c, Ap) && named && !driver ==> o == Outcome(c, LegacyError))
            && forall n :: HasPlace(c, Ap) && IsApName(c, env, n) && driver ==>
                 && o.chip == c.(aps := c.aps + [n], events := c.events + [IfaceAdded(ApIface, n)])
                 && IsPublished(o.chip, o.status)
  {
    PlaceIff(c, Ap);
    ApNameIsUnique(c, env);
    ActiveIs(CreateAp(c, env, driver).chip, env);
  }

  lemma ApNameIsUnique(c: Chip, env: Env)
    ensures forall n :: IsApName(c, env, n) <==> ApName(c, env) == Some(n)
  {
    ApNameIs(c, env);
    StartIs(c);
    FirstFreeIs(c, env.apNames, StartIdx(c));
    forall n | IsApName(c, env, n) ensures ApName(c, env) == Some(n) {
      if !AllPredefinedUsed(c, env) {
        var i := FirstUnusedIs(env.predefinedAps, c.aps);
      }
    }
  }

  /** The instances a bridged access point gets: the predefined names if there are two, and otherwise
      searched for, each search starting one index further and not knowing of the one before. */
  ghost predicate AreInstances(c: Chip, env: Env, names: seq<string>) {
    if |env.predefinedAps| >= 2 then names == env.predefinedAps
    else exists start: nat, i: nat, j: nat :: AreFound(c, env, start, i, j, names)
  }

  ghost predicate AreFound(c: Chip, env: Env, start: nat, i: nat, j: nat, names: seq<string>) {
    && IsStart(c, start) && IsFirstFree(c, env.apNames, start, i)
    && if |env.predefinedAps| == 1 then names == env.predefinedAps + NonEmpty(env.apNames[i])
       else IsFirstFree(c, env.apNames, start + 1, j) && names == NonEmpty(env.apNames[i]) + NonEmpty(env.apNames[j])
  }

  lemma InstancesAre(c: Chip, env: Env)
    ensures forall names :: AreInstances(c, env, names) <==> InstanceNames(c, env) == Some(names)
  {
    var start := StartIdx(c);
    StartIs(c);
    FirstFreeIs(c, env.apNames, start);
    FirstFreeIs(c, env.apNames, start + 1);
    if |env.predefinedAps| < 2 {
      forall names | InstanceNames(c, env) == Some(names) ensures AreInstances(c, env, names) {
        var i, second := FirstFree(c, env.apNames, start).value, FirstFree(c, env.apNames, start + 1);
        assert AreFound(c, env, start, i, if second.Some? then second.value else 0, names);
      }
    }
  }

  lemma BuiltIs(c: Chip, env: Env, calls: BridgeCalls, names: seq<string>)
    requires Admits(c, ApBridged) && InstanceNames(c, env) == Some(names)
    ensures var o := CreateBridgedAp(c, env, calls);
            if |names| < 2 then o == Outcome(c, NotAvailable)
            else if !calls.create0 || !calls.create1 then o == Outcome(c, LegacyError)
            else IsBuilt(c, names, calls, o)
  {
    ActiveIs(CreateBridgedAp(c, env, calls).chip, env);
  }

  /** The bridge is named after its first instance, takes all of them, and is there only if the driver
      made the two interfaces, the bridge and both bindings; a bridge that failed has no instances. */
  lemma CreateBridgedApIs(c: Chip, env: Env, calls: BridgeCalls)
    ensures var o := CreateBridgedAp(c, env, calls);
            var named := exists names :: AreInstances(c, env, names);
            && (!HasPlace(c, ApBridged) ==> o == Outcome(c, NotAvailable))
            && (HasPlace(c, ApBridged) && !named ==> o == Outcome(c, Aborted))
            && forall names :: HasPlace(c, ApBridged) && AreInstances(c, env, names) ==>
                 if |names| < 2 then o == Outcome(c, NotAvailable)
                 else if !calls.create0 || !calls.create1 then o == Outcome(c, LegacyError)
                 else IsBuilt(c, names, calls, o)
  {
    PlaceIff(c, ApBridged);
    InstancesAre(c, env);
    if Admits(c, ApBridged) && InstanceNames(c, env).Some? {
      BuiltIs(c, env, calls, InstanceNames(c, env).value);
    }
  }

  ghost predicate IsBuilt(c: Chip, names: seq<string>, calls: BridgeCalls, o: Outcome)
    requires |names| >= 2
  {
    var name := "ap_br_" + names[0];
    if calls.createBridge && calls.bind0 && calls.bind1 then
      && o.chip == c.(aps := c.aps + [name], bridges := c.bridges[name := names],
                      events := c.events + [IfaceAdded(ApIface, name)])
      && IsPublished(o.chip, o.status)
    else
      o.status == NotAvailable && o.chip == c.(bridges := map b | b in c.bridges && b != name :: c.bridges[b])
  }

  // ---- Removing ----

  lemma {:induction false} FirstRemoved(names: seq<string>, name: string)
    requires name in names
    ensures IsWithoutFirst(names, name, RemoveFirst(names, name))
  {
    assert names == [names[0]] + names[1..];
    if names[0] == name {
      WithoutHead(name, names[1..]);
    } else {
      FirstRemoved(names[1..], name);
      WithoutLater(names[0], names[1..], name, RemoveFirst(names[1..], name));
    }
  }

  lemma {:induction false} AllRemoved(names: seq<string>, name: string)
    ensures RemoveAll(names, name) == Filter(names, n => n != name)
  {
    if names != [] {
      AllRemoved(names[1..], name);
    }
  }

  lemma {:induction false} EventPerNan(nans: seq<string>, name: string)
    ensures NanEvents(nans, name) == seq(multiset(nans)[name], _ => IfaceRemoved(NanIface, name))
  {
    if nans != [] {
      EventPerNan(nans[1..], name);
      assert nans == [nans[0]] + nans[1..];
    }
  }

  lemma RemoveNanIs(c: Chip, name: string)
    ensures name !in c.nans ==> RemoveNan(c, name) == Outcome(c, InvalidArgs)
    ensures name in c.nans ==> var o := RemoveNan(c, name);
              && IsWithoutFirst(c.nans, name, o.chip.nans) && o.status == Success
              && o.chip == c.(nans := o.chip.nans, events := c.events + [IfaceRemoved(NanIface, name)])
  {
    if name in c.nans {
      FirstRemoved(c.nans, name);
    }
  }

  lemma RemoveP2pIs(c: Chip, name: string)
    ensures name !in c.p2ps ==> RemoveP2p(c, name) == Outcome(c, InvalidArgs)
    ensures name in c.p2ps ==> var o := RemoveP2p(c, name);
              && IsWithoutFirst(c.p2ps, name, o.chip.p2ps) && o.status == Success
              && o.chip == c.(p2ps := o.chip.p2ps, events := c.events + [IfaceRemoved(P2pIface, name)])
  {
    if name in c.p2ps {
      FirstRemoved(c.p2ps, name);
    }
  }

  /** What runs over an interface is gone, with one event for each aware interface, then the interface
      itself with an event of its own. */
  ghost predicate AreDropped(c: Chip, d: Chip, name: string, kind: IfaceType) {
    && d.nans == Filter(c.nans, n => n != name) && d.rtts == Filter(c.rtts, n => n != name)
    && d.events == c.events + seq(multiset(c.nans)[name], _ => IfaceRemoved(NanIface, name))
                   + [IfaceRemoved(kind, name)]
  }

  lemma RemoveStaIs(c: Chip, env: Env, name: string)
    ensures name !in c.stas ==> RemoveSta(c, env, name) == Outcome(c, InvalidArgs)
    ensures name in c.stas ==> var o := RemoveSta(c, env, name); var d := o.chip;
              && IsWithoutFirst(c.stas, name, d.stas) && AreDropped(c, d, name, StaIface) && IsPublished(d, o.status)
              && d == c.(stas := d.stas, nans := d.nans, rtts := d.rtts, events := d.events)
  {
    if name in c.stas {
      FirstRemoved(c.stas, name);
      AllRemoved(c.nans, name);
      AllRemoved(c.rtts, name);
      EventPerNan(c.nans, name);
      ActiveIs(RemoveSta(c, env, name).chip, env);
    }
  }

  lemma RemoveApIs(c: Chip, env: Env, name: string)
    ensures name !in c.aps ==> RemoveAp(c, env, name) == Outcome(c, InvalidArgs)
    ensures name in c.aps ==> var o := RemoveAp(c, env, name); var d := o.chip;
              && IsWithoutFirst(c.aps, name, d.aps) && AreDropped(c, d, name, ApIface) && IsPublished(d, o.status)
              && d.bridges == (map b | b in c.bridges && (b != name || name == "") :: c.bridges[b])
              && d == c.(aps := d.aps, bridges := d.bridges, nans := d.nans, rtts := d.rtts, events := d.events)
  {
    if name in c.aps {
      FirstRemoved(c.aps, name);
      AllRemoved(c.nans, name);
      AllRemoved(c.rtts, name);
      EventPerNan(c.nans, name);
      ActiveIs(RemoveAp(c, env, name).chip, env);
    }
  }

  /** An instance leaves its bridge, whose other instances stay, exactly if the driver unbinds and deletes it. */
  lemma RemoveInstanceIs(c: Chip, env: Env, name: string, instance: string, unbind: bool, delete: bool)
    ensures var o := RemoveInstance(c, env, name, instance, unbind, delete);
            var known := name in c.bridges && instance in c.bridges[name];
            if name !in c.aps || instance == "" then o == Outcome(c, InvalidArgs)
            else if !known then o.chip == c && IsPublished(c, o.status)
            else if !unbind then o == Outcome(c, NotAvailable)
            else if !delete then o == Outcome(c, LegacyError)
            else
              && o.chip == c.(bridges := c.bridges[name := Filter(c.bridges[name], n => n != instance)])
              && IsPublished(o.chip, o.status)
  {
    if name in c.bridges {
      AllRemoved(c.bridges[name], instance);
    }
    ActiveIs(RemoveInstance(c, env, name, instance, unbind, delete).chip, env);
  }

  // ---- Configuring ----

  ghost predicate Lists(c: Chip, id: int) {
    exists i :: 0 <= i < |c.modes| && c.modes[i].id == id
  }

  lemma ListsIff(c: Chip, id: int)
    ensures IsValidMode(c.modes, id) <==> Lists(c, id)
  {
    if IsValidMode(c.modes, id) {
      var m :| m in c.modes && m.id == id;
    }
    if i :| 0 <= i < |c.modes| && c.modes[i].id == id {
      assert c.modes[i] in c.modes;
    }
  }

  /** Why a configuration fails, if it does: a configured chip's HAL does not stop, the firmware of the
      first two modes is not changed, or the HAL does not start. */
  ghost function Failure(c: Chip, id: int, calls: ConfigureCalls): Status {
    if Lists(c, c.mode) && !calls.stop then LegacyError
    else if (id == 0 || id == 1) && !calls.firmware then UnknownError
    else if !calls.start then LegacyError
    else Success
  }

  /** A listed mode that is not the current one: a configured chip loses everything live first, and the
      mode, the event and the driver's matrix follow only if nothing failed. */
  ghost predicate IsConfigured(c: Chip, id: int, calls: ConfigureCalls, o: Outcome) {
    var d, failure := o.chip, Failure(c, id, calls);
    var base := if !Lists(c, c.mode) then c
                else c.(aps := [], stas := [], p2ps := [], nans := [], rtts := [], bridges := map[]);
    if failure != Success
    then o == Outcome(base.(events := c.events + [ChipReconfigureFailure]), failure)
    else
      && d.mode == id && d.events == c.events + [ChipReconfigured(id)] && IsPublished(d, o.status)
      && d == base.(mode := id, events := d.events, modes := d.modes, dynamic := d.dynamic)
      && if c.dynamic || calls.matrix.None? then d.modes == c.modes && d.dynamic == c.dynamic
         else d.modes == [ChipMode(3, calls.matrix.value)] && d.dynamic
  }

  lemma ConfigureIs(c: Chip, env: Env, id: int, calls: ConfigureCalls)
    ensures var o := Configure(c, env, id, calls);
            if !Lists(c, id) then o == Outcome(c, InvalidArgs)
            else if id == c.mode then o == Outcome(c, Success)
            else IsConfigured(c, id, calls, o)
  {
    ListsIff(c, id);
    ListsIff(c, c.mode);
    ActiveIs(Configure(c, env, id, calls).chip, env);
  }
}
