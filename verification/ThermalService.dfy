/** The thermal helper and service objects, shown to do what `ThermalSpec` says. */
module ThermalService {
  import opened Options
  import opened Severity
  import opened Selections
  import opened ThermalSpec
  import opened ThermalOutcomes

  class ThermalHelper {
    const infos: Infos
    const order: seq<string>
    var statuses: Statuses

    ghost predicate Valid()
      reads this
    {
      GoodConfig(Config(infos, order)) && statuses.Keys == infos.Keys
    }

    constructor (infos: Infos, order: seq<string>)
      requires GoodConfig(Config(infos, order))
      ensures Valid() && this.infos == infos && this.order == order
      ensures forall n :: n in infos ==> statuses[n] == SensorStatus(NONE, NONE, NONE)
    {
      this.infos, this.order := infos, order;
      statuses := map n | n in infos :: SensorStatus(NONE, NONE, NONE);
    }

    /** Judges a reading by the remembered severities without changing them. */
    method ReadTemperature(name: string, reading: Option<real>)
      returns (temp: Option<Temperature>, hot: Level, cold: Level)
      requires Valid() && name in infos
      ensures temp.Some? <==> reading.Some?
      ensures temp.Some? ==>
                var st := if infos[name].isMonitored then Observed(infos[name], statuses[name], reading.value)
                          else SensorStatus(NONE, NONE, NONE);
                && temp.value == Temperature(infos[name].kind, name, reading.value, st.severity)
                && hot == st.prevHot && cold == st.prevCold
      ensures temp.Some? ==> IsJoined(SensorStatus(temp.value.status, hot, cold))
    {
      temp, hot, cold := None, NONE, NONE;
      if reading.None? {
        return;
      }
      var info := infos[name];
      if info.isMonitored {
        hot, cold := GetSeverityFromThresholds(info.hot, info.cold, info.hotHysteresis, info.coldHysteresis,
                                               statuses[name].prevHot, statuses[name].prevCold, reading.value);
      }
      temp := Some(Temperature(info.kind, name, reading.value, if hot > cold then hot else cold));
    }

    /** Re-evaluates the sensors; returns the report and whether any severity is raised. */
    method WatcherCallback(uevents: set<string>, readings: map<string, real>)
      returns (temps: seq<Temperature>, triggered: bool)
      requires Valid()
      modifies this`statuses
      ensures Valid()
      ensures temps == WatchReport(infos, uevents, readings, old(statuses), order)
      ensures statuses == WatchStatuses(infos, uevents, readings, old(statuses), order)
      ensures triggered <==> exists n :: n in infos && infos[n].isMonitored && statuses[n].severity > NONE
                                          && (n in readings || (uevents != {} && n !in uevents))
    {
      temps, triggered := [], false;
      ghost var w := Watching(infos, uevents, readings, order);
      assert order[0..] == order;
      for i := 0 to |order|
        invariant Valid()
        invariant Pending(w, old(statuses), statuses, temps, i)
        invariant triggered <==> AnyTriggered(infos, uevents, readings, statuses, order[..i])
      {
        var reported, raised := VisitNext(uevents, readings, old(statuses), temps, i);
        temps := temps + reported;
        triggered := triggered || raised;
      }
      assert order[..|order|] == order && order[|order|..] == [] && temps + [] == temps;
      TriggeredIff(infos, uevents, readings, statuses, order);
    }

    /** One round of the watcher's loop, as part of the whole call. */
    method VisitNext(uevents: set<string>, readings: map<string, real>, ghost before: Statuses,
                     ghost temps: seq<Temperature>, i: nat)
      returns (reported: seq<Temperature>, raised: bool)
      requires Valid() && i < |order| && (forall n :: n in order ==> n in before)
      requires Pending(Watching(infos, uevents, readings, order), before, statuses, temps, i)
      modifies this`statuses
      ensures Valid()
      ensures Pending(Watching(infos, uevents, readings, order), before, statuses, temps + reported, i + 1)
      ensures AnyTriggered(infos, uevents, readings, statuses, order[..i + 1])
         <==> (raised || old(AnyTriggered(infos, uevents, readings, statuses, order[..i])))
    {
      ghost var w := Watching(infos, uevents, readings, order);
      assert order[i] in order;
      PendingStep(w, before, statuses, temps, i);
      TriggeredStep(w, statuses, i);
      reported, raised := VisitSensor(uevents, readings, order[i]);
    }

    /** Looks at one sensor. */
    method VisitSensor(uevents: set<string>, readings: map<string, real>, name: string)
      returns (reported: seq<Temperature>, raised: bool)
      requires Valid() && name in infos
      modifies this`statuses
      ensures Valid()
      ensures reported == Change(infos, uevents, readings, old(statuses), name)
      ensures statuses == Visit(infos, uevents, readings, old(statuses), name)
      ensures raised <==> Counted(infos, uevents, readings, name) && statuses[name].severity != NONE
    {
      reported, raised := [], false;
      if !infos[name].isMonitored {
        return;
      }
      if uevents != {} && name !in uevents {
        raised := statuses[name].severity != NONE;
        return;
      }
      var temp, hot, cold := ReadTemperature(name, if name in readings then Some(readings[name]) else None);
      if temp.None? {
        return;
      }
      if temp.value.status != statuses[name].severity {
        reported := [temp.value];
      }
      statuses := statuses[name := SensorStatus(temp.value.status, hot, cold)];
      raised := statuses[name].severity != NONE;
    }

    /** All current temperatures of a kind; fails if one cannot be read or there is none. */
    method FillCurrentTemperatures(isFilter: bool, kind: Kind, readings: map<string, real>)
      returns (ok: bool, temps: seq<Temperature>)
      requires Valid()
      ensures ok ==> temps == Snapshot(infos, statuses, readings, isFilter, kind, order)
      ensures ok <==> Readable(infos, readings, isFilter, kind, order)
                      && Snapshot(infos, statuses, readings, isFilter, kind, order) != []
    {
      temps := [];
      for i := 0 to |order|
        invariant Readable(infos, readings, isFilter, kind, order[..i])
        invariant temps == Snapshot(infos, statuses, readings, isFilter, kind, order[..i])
      {
        assert order[i] in order;
        assert order[..i + 1] == order[..i] + [order[i]];
        SnapshotStep(infos, statuses, readings, isFilter, kind, order[..i], order[i]);
        if isFilter && infos[order[i]].kind != kind {
          continue;
        }
        var temp, _, _ := ReadTemperature(order[i], if order[i] in readings then Some(readings[order[i]]) else None);
        if temp.None? {
          return false, [];
        }
        temps := temps + [temp.value];
      }
      assert order[..|order|] == order;
      ok := temps != [];
    }
  }

  ghost predicate Readable(infos: Infos, readings: map<string, real>, isFilter: bool, kind: Kind, names: seq<string>) {
    forall n :: n in names && n in infos && (!isFilter || infos[n].kind == kind) ==> n in readings
  }

  /** One sensor judged by the remembered severities. */
  ghost function Judged(info: SensorInfo, st: SensorStatus, name: string, value: real): Temperature {
    Temperature(info.kind, name, value, if info.isMonitored then Observed(info, st, value).severity else NONE)
  }

  ghost function Snapshot(infos: Infos, statuses: Statuses, readings: map<string, real>, isFilter: bool, kind: Kind,
                          names: seq<string>): seq<Temperature>
    requires statuses.Keys == infos.Keys
  {
    if names == [] then []
    else
      (if names[0] in infos && names[0] in readings && (!isFilter || infos[names[0]].kind == kind)
       then [Judged(infos[names[0]], statuses[names[0]], names[0], readings[names[0]])] else []) +
      Snapshot(infos, statuses, readings, isFilter, kind, names[1..])
  }

  lemma {:induction false} SnapshotStep(infos: Infos, statuses: Statuses, readings: map<string, real>, isFilter: bool,
                                        kind: Kind, names: seq<string>, n: string)
    requires statuses.Keys == infos.Keys && n in infos
    ensures Snapshot(infos, statuses, readings, isFilter, kind, names + [n])
         == Snapshot(infos, statuses, readings, isFilter, kind, names) +
            if n in readings && (!isFilter || infos[n].kind == kind)
            then [Judged(infos[n], statuses[n], n, readings[n])] else []
  {
    if names != [] {
      assert (names + [n])[1..] == names[1..] + [n];
      SnapshotStep(infos, statuses, readings, isFilter, kind, names[1..], n);
    } else {
      assert names + [n] == [n] && [n][1..] == [];
    }
  }

  predicate IsWanted(infos: Infos, readings: map<string, real>, isFilter: bool, kind: Kind, n: string) {
    n in infos && n in readings && (!isFilter || infos[n].kind == kind)
  }

  /** The temperature is the sensor's reading, judged by the remembered severities if it is monitored. */
  ghost predicate IsCurrent(infos: Infos, statuses: Statuses, readings: map<string, real>, t: Temperature)
    requires statuses.Keys == infos.Keys
  {
    && t.name in infos && t.name in readings && t.kind == infos[t.name].kind && t.value == readings[t.name]
    && if infos[t.name].isMonitored
       then exists st :: IsJudgement(infos[t.name], statuses[t.name], t.value, st) && t.status == st.severity
       else t.status == NONE
  }

  /** All sensors of the kind that can be read, in order, with their judged readings. */
  lemma {:induction false} SnapshotIs(infos: Infos, statuses: Statuses, readings: map<string, real>, isFilter: bool,
                                      kind: Kind, names: seq<string>)
    requires statuses.Keys == infos.Keys
    ensures var temps := Snapshot(infos, statuses, readings, isFilter, kind, names);
            && Names(temps) == Filter(names, n => IsWanted(infos, readings, isFilter, kind, n))
            && forall t :: t in temps ==> IsCurrent(infos, statuses, readings, t)
  {
    if names != [] {
      var n := names[0];
      SnapshotIs(infos, statuses, readings, isFilter, kind, names[1..]);
      if IsWanted(infos, readings, isFilter, kind, n) {
        ObservedIs(infos[n], statuses[n], readings[n]);
        NamesConcat([Judged(infos[n], statuses[n], n, readings[n])],
                    Snapshot(infos, statuses, readings, isFilter, kind, names[1..]));
      }
    }
  }

  /** There are current temperatures exactly if there are sensors of the kind and all of them can be read. */
  lemma FilledIff(infos: Infos, statuses: Statuses, readings: map<string, real>, isFilter: bool, kind: Kind,
                  order: seq<string>)
    requires statuses.Keys == infos.Keys && GoodConfig(Config(infos, order))
    ensures Readable(infos, readings, isFilter, kind, order)
              && Snapshot(infos, statuses, readings, isFilter, kind, order) != []
       <==> && (forall n :: n in infos && (!isFilter || infos[n].kind == kind) ==> n in readings)
            && exists n :: n in infos && (!isFilter || infos[n].kind == kind)
  {
    var temps := Snapshot(infos, statuses, readings, isFilter, kind, order);
    SnapshotIs(infos, statuses, readings, isFilter, kind, order);
    if n :| n in infos && n in readings && (!isFilter || infos[n].kind == kind) {
      FilterIff(order, m => IsWanted(infos, readings, isFilter, kind, m), n);
      assert n in Names(temps);
    }
    if temps != [] {
      var n := Names(temps)[0];
      FilterIff(order, m => IsWanted(infos, readings, isFilter, kind, m), n);
    }
  }

  /** One call of the watcher: its arguments and the sensors it goes through. */
  datatype Watching = Watching(infos: Infos, uevents: set<string>, readings: map<string, real>, order: seq<string>)

  /** What is reported so far and what is still to come make up the whole call. */
  ghost predicate Pending(w: Watching, before: Statuses, now: Statuses, temps: seq<Temperature>, i: nat)
    requires i <= |w.order|
    requires forall n :: n in w.order ==> n in before && n in now
  {
    && WatchReport(w.infos, w.uevents, w.readings, before, w.order)
       == temps + WatchReport(w.infos, w.uevents, w.readings, now, w.order[i..])
    && WatchStatuses(w.infos, w.uevents, w.readings, before, w.order)
       == WatchStatuses(w.infos, w.uevents, w.readings, now, w.order[i..])
  }

  lemma WatchUnfold(w: Watching, now: Statuses, names: seq<string>)
    requires names != [] && forall n :: n in names ==> n in now
    ensures var next := Visit(w.infos, w.uevents, w.readings, now, names[0]);
            && (forall n :: n in names ==> n in next)
            && WatchReport(w.infos, w.uevents, w.readings, now, names)
               == Change(w.infos, w.uevents, w.readings, now, names[0]) + WatchReport(w.infos, w.uevents, w.readings,
                                                                                      next, names[1..])
            && WatchStatuses(w.infos, w.uevents, w.readings, now, names)
               == WatchStatuses(w.infos, w.uevents, w.readings, next, names[1..])
  {
  }

  lemma Regroup<T>(a: seq<T>, b: seq<T>, c: seq<T>)
    ensures a + (b + c) == (a + b) + c
  {
  }

  lemma PendingStep(w: Watching, before: Statuses, now: Statuses, temps: seq<Temperature>, i: nat)
    requires i < |w.order|
    requires forall n :: n in w.order ==> n in before && n in now
    requires Pending(w, before, now, temps, i)
    ensures Pending(w, before, Visit(w.infos, w.uevents, w.readings, now, w.order[i]),
                    temps + Change(w.infos, w.uevents, w.readings, now, w.order[i]), i + 1)
  {
    var names := w.order[i..];
    var next := Visit(w.infos, w.uevents, w.readings, now, names[0]);
    assert names[0] == w.order[i] && names[1..] == w.order[i + 1..];
    WatchUnfold(w, now, names);
    Regroup(temps, Change(w.infos, w.uevents, w.readings, now, names[0]),
            WatchReport(w.infos, w.uevents, w.readings, next, names[1..]));
  }

  /** The sensor is looked at, or passed over by an event that does not name it. */
  ghost predicate Counted(infos: Infos, uevents: set<string>, readings: map<string, real>, name: string) {
    name in infos && infos[name].isMonitored && (name in readings || !Selected(uevents, name))
  }

  ghost predicate AnyTriggered(infos: Infos, uevents: set<string>, readings: map<string, real>, statuses: Statuses,
                               names: seq<string>)
  {
    exists n :: n in names && n in statuses && Counted(infos, uevents, readings, n) && statuses[n].severity != NONE
  }

  lemma TriggeredIff(infos: Infos, uevents: set<string>, readings: map<string, real>, statuses: Statuses,
                     order: seq<string>)
    requires GoodConfig(Config(infos, order)) && statuses.Keys == infos.Keys
    ensures AnyTriggered(infos, uevents, readings, statuses, order)
       <==> exists n :: n in infos && infos[n].isMonitored && statuses[n].severity > NONE
                        && (n in readings || (uevents != {} && n !in uevents))
  {
  }

  lemma TriggeredStep(w: Watching, now: Statuses, i: nat)
    requires GoodConfig(Config(w.infos, w.order)) && i < |w.order|
    requires forall n :: n in w.order ==> n in now
    ensures var next := Visit(w.infos, w.uevents, w.readings, now, w.order[i]);
            && w.order[i] in next
            && (AnyTriggered(w.infos, w.uevents, w.readings, next, w.order[..i + 1])
                <==> (AnyTriggered(w.infos, w.uevents, w.readings, now, w.order[..i])
                      || (Counted(w.infos, w.uevents, w.readings, w.order[i]) && next[w.order[i]].severity != NONE)))
  {
    var next := Visit(w.infos, w.uevents, w.readings, now, w.order[i]);
    assert w.order[..i + 1] == w.order[..i] + [w.order[i]];
    forall n | n in w.order[..i] ensures n in now && n != w.order[i] && n in next && next[n] == now[n] {
      var k :| 0 <= k < i && w.order[..i][k] == n;
      assert w.order[k] in w.order;
    }
  }

  datatype Status = Ok | IllegalArgument | IllegalState

  class Thermal {
    const helper: ThermalHelper
    var callbacks: seq<Callback>
    var log: seq<Delivery>
    ghost var announced: Statuses  // what was stored when the last report was sent

    /** The service between two calls: no report is under way. */
    ghost function State(): Service
      reads this, helper
    {
      Service(helper.statuses, announced, None, callbacks, log)
    }

    ghost predicate Valid()
      reads this, helper
    {
      helper.Valid() && announced.Keys == helper.infos.Keys
    }

    ghost function Configuration(): Config {
      Config(helper.infos, helper.order)
    }

    constructor (helper: ThermalHelper)
      requires helper.Valid()
      ensures this.helper == helper && callbacks == [] && log == []
      ensures Valid() && Good(Configuration(), State())
    {
      this.helper := helper;
      callbacks, log, announced := [], [], helper.statuses;
      new;
      forall n | n in helper.order ensures n in helper.statuses && ReportFits(State(), n) {
      }
    }

    /** Forwards a report; callbacks that fail are erased while it is sent. */
    method SendThermalChangedCallback(temps: seq<Temperature>, failures: Failures)
      modifies this`callbacks, this`log
      ensures callbacks == KeptAll(old(callbacks), temps, failures)
      ensures log == old(log) + NotifiedAll(old(callbacks), temps, failures)
    {
      ghost var told := [];
      assert old(log) + [] == log;
      for i := 0 to |temps|
        invariant log == old(log) + told
        invariant KeptAll(callbacks, temps[i..], failures) == KeptAll(old(callbacks), temps, failures)
        invariant told + NotifiedAll(callbacks, temps[i..], failures) == NotifiedAll(old(callbacks), temps, failures)
      {
        assert temps[i..][0] == temps[i] && temps[i..][1..] == temps[i + 1..];
        ghost var notified := Notified(callbacks, temps[i]);
        ghost var rest := NotifiedAll(Kept(callbacks, temps[i], failures), temps[i + 1..], failures);
        assert told + (notified + rest) == (told + notified) + rest;
        SendOne(temps[i], failures);
        assert (old(log) + told) + notified == old(log) + (told + notified);
        told := told + notified;
      }
      assert temps[|temps|..] == [] && told + [] == told;
    }

    /** remove_if over the callbacks for one temperature. */
    method SendOne(t: Temperature, failures: Failures)
      modifies this`callbacks, this`log
      ensures callbacks == Kept(old(callbacks), t, failures)
      ensures log == old(log) + Notified(old(callbacks), t)
    {
      var kept: seq<Callback> := [];
      ghost var told: seq<Delivery> := [];
      assert old(log) + [] == log;
      for i := 0 to |callbacks|
        invariant callbacks == old(callbacks) && log == old(log) + told
        invariant kept == Kept(callbacks[..i], t, failures)
        invariant told == Notified(callbacks[..i], t)
      {
        var c := callbacks[i];
        assert callbacks[..i + 1] == callbacks[..i] + [c];
        KeptAppend(callbacks[..i], c, t, failures);
        var ok := true;
        if !c.isFilter || t.kind == c.kind {
          log := log + [Delivery(c.client, t.name, t.status, false)];
          told := told + [Delivery(c.client, t.name, t.status, false)];
          ok := (c.client, t.name) !in failures;
        }
        if ok {
          kept := kept + [c];
        }
      }
      assert callbacks[..|callbacks|] == callbacks;
      callbacks := kept;
    }

    /** One call of the watcher, with the report sent on if there is one. */
    method OnWatch(uevents: set<string>, readings: map<string, real>, failures: Failures) returns (triggered: bool)
      requires Valid()
      modifies this`callbacks, this`log, this`announced, helper`statuses
      ensures Valid() && Knows(Configuration(), old(State()))
      ensures var stored := Do(Configuration(), old(State()), Store(uevents, readings));
              Knows(Configuration(), stored) && State() == Do(Configuration(), stored, Send(failures))
      ensures old(Good(Configuration(), State())) ==> Good(Configuration(), State())
    {
      ghost var before := State();
      assert Knows(Configuration(), before);
      ghost var stored := Do(Configuration(), before, Store(uevents, readings));
      if Good(Configuration(), before) {
        StepKeepsGood(Configuration(), before, Store(uevents, readings));
        StepKeepsGood(Configuration(), stored, Send(failures));
      }
      var temps;
      temps, triggered := helper.WatcherCallback(uevents, readings);
      if temps != [] {
        SendThermalChangedCallback(temps, failures);
      } else {
        assert log + [] == log;
      }
      announced := helper.statuses;
    }

    /** Sends the temperatures at registration; a callback that fails is not dropped here. */
    method NotifyInitial(c: Callback, temps: seq<Temperature>)
      modifies this`log
      ensures log == old(log) + InitialDeliveries(c, temps)
    {
      ghost var told: seq<Delivery> := [];
      assert old(log) + [] == log;
      for i := 0 to |temps|
        invariant log == old(log) + told
        invariant told == InitialDeliveries(c, temps[..i])
      {
        assert temps[..i + 1] == temps[..i] + [temps[i]];
        InitialAppend(c, temps[..i], temps[i]);
        if !c.isFilter || temps[i].kind == c.kind {
          log := log + [Delivery(c.client, temps[i].name, temps[i].status, true)];
          told := told + [Delivery(c.client, temps[i].name, temps[i].status, true)];
        }
      }
      assert temps[..|temps|] == temps;
    }

    /** What a new callback is told: every sensor of its kind, or nothing if one cannot be read. */
    ghost function Initial(isFilter: bool, kind: Kind, readings: map<string, real>): seq<Temperature>
      requires helper.Valid()
      reads helper
    {
      if Readable(helper.infos, readings, isFilter, kind, helper.order)
      then Snapshot(helper.infos, helper.statuses, readings, isFilter, kind, helper.order) else []
    }

    method RegisterThermalChangedCallback(callback: Option<Client>, isFilter: bool, kind: Kind, initialized: bool,
                                          readings: map<string, real>)
      returns (status: Status)
      requires Valid()
      modifies this`callbacks, this`log
      ensures Knows(Configuration(), old(State()))
      ensures status == Ok ==>
                callback.Some? && !IsRegistered(old(callbacks), callback.value) &&
                State() == Do(Configuration(), old(State()),
                              Register(Callback(callback.value, isFilter, kind),
                                       old(Initial(isFilter, kind, readings))))
      ensures status != Ok ==> State() == old(State())
      ensures status == Ok <==> callback.Some? && initialized && !IsRegistered(old(callbacks), callback.value)
      ensures status == IllegalState <==> callback.Some? && !initialized
    {
      if callback.None? {
        return IllegalArgument;
      }
      if !initialized {
        return IllegalState;
      }
      if IsRegistered(callbacks, callback.value) {
        return IllegalArgument;
      }
      var c := Callback(callback.value, isFilter, kind);
      callbacks := callbacks + [c];
      var ok, current := helper.FillCurrentTemperatures(isFilter, kind, readings);
      if ok {
        NotifyInitial(c, current);
      } else {
        assert log + [] == log;
      }
      status := Ok;
    }

    method UnregisterThermalChangedCallback(callback: Option<Client>) returns (status: Status)
      requires Valid()
      modifies this`callbacks
      ensures Knows(Configuration(), old(State()))
      ensures callback.Some? ==> State() == Do(Configuration(), old(State()), Unregister(callback.value))
      ensures callback.None? ==> State() == old(State())
      ensures status == Ok <==> callback.Some? && IsRegistered(old(callbacks), callback.value)
      ensures status != Ok ==> status == IllegalArgument
    {
      if callback.None? {
        return IllegalArgument;
      }
      var kept, removed := [], false;
      for i := 0 to |callbacks|
        invariant callbacks == old(callbacks)
        invariant kept == Unregistered(callbacks[..i], callback.value)
        invariant removed <==> IsRegistered(callbacks[..i], callback.value)
      {
        assert callbacks[..i + 1] == callbacks[..i] + [callbacks[i]];
        UnregisteredAppend(callbacks[..i], callbacks[i], callback.value);
        if callbacks[i].client == callback.value {
          removed := true;
        } else {
          kept := kept + [callbacks[i]];
        }
      }
      assert callbacks[..|callbacks|] == callbacks;
      callbacks := kept;
      status := if removed then Ok else IllegalArgument;
    }
  }

  lemma {:induction false} KeptAppend(callbacks: seq<Callback>, c: Callback, t: Temperature, failures: Failures)
    ensures Kept(callbacks + [c], t, failures)
         == Kept(callbacks, t, failures) + if Matches(c, t.kind) && (c.client, t.name) in failures then [] else [c]
    ensures Notified(callbacks + [c], t)
         == Notified(callbacks, t) + if Matches(c, t.kind) then [Delivery(c.client, t.name, t.status, false)] else []
  {
    if callbacks != [] {
      assert (callbacks + [c])[1..] == callbacks[1..] + [c];
      KeptAppend(callbacks[1..], c, t, failures);
    }
  }

  lemma {:induction false} InitialAppend(c: Callback, temps: seq<Temperature>, t: Temperature)
    ensures InitialDeliveries(c, temps + [t])
         == InitialDeliveries(c, temps) +
                if Matches(c, t.kind) then [Delivery(c.client, t.name, t.status, true)] else []
  {
    if temps != [] {
      assert (temps + [t])[1..] == temps[1..] + [t];
      InitialAppend(c, temps[1..], t);
    }
  }

  lemma {:induction false} UnregisteredAppend(callbacks: seq<Callback>, c: Callback, client: Client)
    ensures Unregistered(callbacks + [c], client) == Unregistered(callbacks, client) +
            if c.client == client then [] else [c]
    ensures IsRegistered(callbacks + [c], client) <==> IsRegistered(callbacks, client) || c.client == client
  {
    if callbacks != [] {
      assert (callbacks + [c])[1..] == callbacks[1..] + [c];
      UnregisteredAppend(callbacks[1..], c, client);
    }
    assert c in callbacks + [c];
    assert forall d :: d in callbacks ==> d in callbacks + [c];
  }
}
