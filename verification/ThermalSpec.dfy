/** The thermal watcher and its subscribers.

    The watcher re-evaluates sensors, remembers their severities and reports those that
    changed; the service forwards reports to the registered callbacks and drops callbacks
    that fail.  Storing and sending are two steps, so clients come and go in between.  The
    main result: a subscriber that stays registered hears exactly the changes of a sensor,
    so what it heard last is what the watcher has stored, once the report is sent.
  */
module ThermalSpec {
  import opened Options
  import opened Severity

  /** The TemperatureType of a sensor or filter. */
  type Kind = nat
  type Client = nat

  datatype SensorInfo = SensorInfo(kind: Kind, hot: Thresholds, cold: Thresholds,
                                   hotHysteresis: Hysteresis, coldHysteresis: Hysteresis, isMonitored: bool)

  datatype SensorStatus = SensorStatus(severity: Level, prevHot: Level, prevCold: Level)

  datatype Temperature = Temperature(kind: Kind, name: string, value: real, status: Level)

  type Infos = map<string, SensorInfo>
  type Statuses = map<string, SensorStatus>

  function Max(a: Level, b: Level): Level {
    if a > b then a else b
  }

  /** The status of a monitored sensor after a reading. */
  ghost function Observed(info: SensorInfo, st: SensorStatus, v: real): SensorStatus {
    var hot := Hot(info.hot, info.hotHysteresis, st.prevHot, v);
    var cold := Cold(info.cold, info.coldHysteresis, st.prevCold, v);
    SensorStatus(Max(hot, cold), hot, cold)
  }

  /** An event names the sensors to look at; without names all of them are. */
  predicate Selected(uevents: set<string>, name: string) {
    uevents == {} || name in uevents
  }

  /** The sensor is looked at and its file could be read. */
  predicate Visited(infos: Infos, uevents: set<string>, readings: map<string, real>, name: string) {
    name in infos && infos[name].isMonitored && Selected(uevents, name) && name in readings
  }

  ghost function Visit(infos: Infos, uevents: set<string>, readings: map<string, real>, statuses: Statuses,
                       name: string): Statuses
    requires name in statuses
  {
    if Visited(infos, uevents, readings, name)
    then statuses[name := Observed(infos[name], statuses[name], readings[name])]
    else statuses
  }

  /** What one sensor contributes to the report: its temperature if the severity changed. */
  ghost function Change(infos: Infos, uevents: set<string>, readings: map<string, real>, statuses: Statuses,
                        name: string)
    : (temps: seq<Temperature>)
    requires name in statuses
    ensures forall t :: t in temps ==> t.name == name && name in infos && t.kind == infos[name].kind
  {
    if Visited(infos, uevents, readings, name) then
      var st := Observed(infos[name], statuses[name], readings[name]);
      if st.severity != statuses[name].severity
      then [Temperature(infos[name].kind, name, readings[name], st.severity)] else []
    else []
  }

  /** Sensors are visited in the order of their names in the status map. */
  ghost function WatchStatuses(infos: Infos, uevents: set<string>, readings: map<string, real>, statuses: Statuses,
                               order: seq<string>)
    : (after: Statuses)
    requires forall n :: n in order ==> n in statuses
    ensures after.Keys == statuses.Keys
    decreases order
  {
    if order == [] then statuses
    else WatchStatuses(infos, uevents, readings, Visit(infos, uevents, readings, statuses, order[0]), order[1..])
  }

  ghost function WatchReport(infos: Infos, uevents: set<string>, readings: map<string, real>, statuses: Statuses,
                             order: seq<string>)
    : seq<Temperature>
    requires forall n :: n in order ==> n in statuses
    decreases order
  {
    if order == [] then [] else
      Change(infos, uevents, readings, statuses, order[0]) +
      WatchReport(infos, uevents, readings, Visit(infos, uevents, readings, statuses, order[0]), order[1..])
  }

  // ---- Subscribers ----

  datatype Callback = Callback(client: Client, isFilter: bool, kind: Kind)

  datatype Delivery = Delivery(client: Client, sensor: string, severity: Level, initial: bool)

  predicate Matches(c: Callback, kind: Kind) {
    !c.isFilter || c.kind == kind
  }

  /** Which clients fail to take a report about which sensor. */
  type Failures = set<(Client, string)>

  ghost function Kept(callbacks: seq<Callback>, t: Temperature, failures: Failures): seq<Callback> {
    if callbacks == [] then [] else
      (if Matches(callbacks[0], t.kind) && (callbacks[0].client, t.name) in failures then [] else [callbacks[0]]) +
      Kept(callbacks[1..], t, failures)
  }

  ghost function Notified(callbacks: seq<Callback>, t: Temperature): seq<Delivery> {
    if callbacks == [] then [] else
      (if Matches(callbacks[0], t.kind) then [Delivery(callbacks[0].client, t.name, t.status, false)] else []) +
      Notified(callbacks[1..], t)
  }

  ghost function KeptAll(callbacks: seq<Callback>, temps: seq<Temperature>, failures: Failures): seq<Callback>
    decreases temps
  {
    if temps == [] then callbacks else KeptAll(Kept(callbacks, temps[0], failures), temps[1..], failures)
  }

  ghost function NotifiedAll(callbacks: seq<Callback>, temps: seq<Temperature>, failures: Failures): seq<Delivery>
    decreases temps
  {
    if temps == [] then []
    else Notified(callbacks, temps[0]) + NotifiedAll(Kept(callbacks, temps[0], failures), temps[1..], failures)
  }

  predicate IsRegistered(callbacks: seq<Callback>, client: Client) {
    exists c :: c in callbacks && c.client == client
  }

  /** A new subscriber is told the current temperatures it asked for. */
  function InitialDeliveries(c: Callback, temps: seq<Temperature>): (ds: seq<Delivery>)
    ensures forall d :: d in ds ==> d.initial
  {
    if temps == [] then [] else
      (if Matches(c, temps[0].kind) then [Delivery(c.client, temps[0].name, temps[0].status, true)] else []) +
      InitialDeliveries(c, temps[1..])
  }

  function Unregistered(callbacks: seq<Callback>, client: Client): (r: seq<Callback>)
    ensures !IsRegistered(r, client)
    ensures forall c :: c in r ==> c in callbacks
    ensures forall c :: c in callbacks && c.client != client ==> c in r
  {
    if callbacks == [] then []
    else (if callbacks[0].client == client then [] else [callbacks[0]]) + Unregistered(callbacks[1..], client)
  }

  // ---- The service as a whole ----

  datatype Config = Config(infos: Infos, order: seq<string>)

  /** Every configured sensor is listed once. */
  ghost predicate GoodConfig(c: Config) {
    && (forall n :: n in c.order <==> n in c.infos)
    && (forall i, j :: 0 <= i < j < |c.order| ==> c.order[i] != c.order[j])
  }

  /** `announced` is what was stored when the last report was sent; `report` waits to be sent. */
  datatype Service = Service(
    statuses: Statuses,
    announced: Statuses,
    report: Option<seq<Temperature>>,
    callbacks: seq<Callback>,
    log: seq<Delivery>)

  datatype Step =
    | Store(uevents: set<string>, readings: map<string, real>)
    | Send(failures: Failures)
    | Register(callback: Callback, temps: seq<Temperature>)
    | Unregister(client: Client)

  ghost predicate Knows(cfg: Config, s: Service) {
    forall n :: n in cfg.order ==> n in s.statuses && n in s.announced
  }

  /** The one watcher thread sends what it stored before it looks again. */
  predicate Enabled(s: Service, step: Step) {
    (step.Store? ==> s.report.None?) && (step.Send? ==> s.report.Some?)
  }

  ghost function Do(cfg: Config, s: Service, step: Step): Service
    requires Knows(cfg, s) && Enabled(s, step)
  {
    match step
    case Store(uevents, readings) =>
      s.(statuses := WatchStatuses(cfg.infos, uevents, readings, s.statuses, cfg.order),
         report := Some(WatchReport(cfg.infos, uevents, readings, s.statuses, cfg.order)))
    case Send(failures) =>
      s.(announced := s.statuses, report := None,
         callbacks := KeptAll(s.callbacks, s.report.value, failures),
         log := s.log + NotifiedAll(s.callbacks, s.report.value, failures))
    case Register(c, temps) =>
      if IsRegistered(s.callbacks, c.client) then s
      else s.(callbacks := s.callbacks + [c], log := s.log + InitialDeliveries(c, temps))
    case Unregister(client) => s.(callbacks := Unregistered(s.callbacks, client))
  }

  // ---- What a report says about one sensor ----

  ghost function Severities(temps: seq<Temperature>, name: string): seq<Level> {
    if temps == [] then []
    else (if temps[0].name == name then [temps[0].status] else []) + Severities(temps[1..], name)
  }

  lemma {:induction false} SeveritiesConcat(a: seq<Temperature>, b: seq<Temperature>, name: string)
    ensures Severities(a + b, name) == Severities(a, name) + Severities(b, name)
  {
    if a == [] {
      assert a + b == b;
    } else {
      assert (a + b)[1..] == a[1..] + b;
      SeveritiesConcat(a[1..], b, name);
      var head := if a[0].name == name then [a[0].status] else [];
      assert Severities(a, name) == head + Severities(a[1..], name);
      assert Severities(a + b, name) == head + (Severities(a[1..], name) + Severities(b, name));
    }
  }

  lemma {:induction false} SeveritiesOfOthers(temps: seq<Temperature>, name: string)
    requires forall t :: t in temps ==> t.name != name
    ensures Severities(temps, name) == []
  {
    if temps != [] {
      SeveritiesOfOthers(temps[1..], name);
    }
  }

  /** A sensor that is not visited keeps its status and is not reported. */
  lemma {:induction false} NotListedNotReported(infos: Infos, uevents: set<string>, readings: map<string, real>,
                                                statuses: Statuses,
                                                order: seq<string>, name: string)
    requires (forall n :: n in order ==> n in statuses) && name in statuses && name !in order
    ensures WatchStatuses(infos, uevents, readings, statuses, order)[name] == statuses[name]
    ensures Severities(WatchReport(infos, uevents, readings, statuses, order), name) == []
    decreases order
  {
    if order != [] {
      var change := Change(infos, uevents, readings, statuses, order[0]);
      var next := Visit(infos, uevents, readings, statuses, order[0]);
      NotListedNotReported(infos, uevents, readings, next, order[1..], name);
      SeveritiesOfOthers(change, name);
      SeveritiesConcat(change, WatchReport(infos, uevents, readings, next, order[1..]), name);
    }
  }

  ghost predicate ReportsChange(before: Level, reported: seq<Level>, after: Level) {
    if before == after then reported == [] else reported == [after]
  }

  /** The report lists a sensor once if its stored severity changed, and not otherwise. */
  lemma {:induction false} ReportIsChange(infos: Infos, uevents: set<string>, readings: map<string, real>,
                                          statuses: Statuses,
                                          order: seq<string>, name: string)
    requires (forall n :: n in order ==> n in statuses) && name in order
    requires forall i, j :: 0 <= i < j < |order| ==> order[i] != order[j]
    ensures ReportsChange(statuses[name].severity,
                          Severities(WatchReport(infos, uevents, readings, statuses, order), name),
                          WatchStatuses(infos, uevents, readings, statuses, order)[name].severity)
    decreases order
  {
    var change := Change(infos, uevents, readings, statuses, order[0]);
    var next := Visit(infos, uevents, readings, statuses, order[0]);
    SeveritiesConcat(change, WatchReport(infos, uevents, readings, next, order[1..]), name);
    if order[0] == name {
      NotListedNotReported(infos, uevents, readings, next, order[1..], name);
    } else {
      SeveritiesOfOthers(change, name);
      ReportIsChange(infos, uevents, readings, next, order[1..], name);
    }
  }

  /** Where every sensor is listed once, its status is the one it gets when it is visited. */
  lemma {:induction false} StoredAt(infos: Infos, uevents: set<string>, readings: map<string, real>, statuses: Statuses,
                                    order: seq<string>, name: string)
    requires (forall n :: n in order ==> n in statuses) && name in order
    requires forall i, j :: 0 <= i < j < |order| ==> order[i] != order[j]
    ensures WatchStatuses(infos, uevents, readings, statuses, order)[name]
         == Visit(infos, uevents, readings, statuses, name)[name]
    decreases order
  {
    var next := Visit(infos, uevents, readings, statuses, order[0]);
    if order[0] == name {
      NotListedNotReported(infos, uevents, readings, next, order[1..], name);
    } else {
      StoredAt(infos, uevents, readings, next, order[1..], name);
    }
  }

  lemma {:induction false} ReportKinds(infos: Infos, uevents: set<string>, readings: map<string, real>,
                                       statuses: Statuses, order: seq<string>)
    requires forall n :: n in order ==> n in statuses
    ensures forall t :: t in WatchReport(infos, uevents, readings, statuses, order) ==>
              t.name in infos && t.kind == infos[t.name].kind
    decreases order
  {
    if order != [] {
      ReportKinds(infos, uevents, readings, Visit(infos, uevents, readings, statuses, order[0]), order[1..]);
    }
  }

  // ---- What one subscriber receives ----

  /** The severities a client got from the watcher for one sensor. */
  ghost function Heard(log: seq<Delivery>, client: Client, sensor: string): seq<Level> {
    if log == [] then [] else
      (if log[0].client == client && log[0].sensor == sensor && !log[0].initial then [log[0].severity] else []) +
      Heard(log[1..], client, sensor)
  }

  lemma {:induction false} HeardConcat(a: seq<Delivery>, b: seq<Delivery>, client: Client, sensor: string)
    ensures Heard(a + b, client, sensor) == Heard(a, client, sensor) + Heard(b, client, sensor)
  {
    if a == [] {
      assert a + b == b;
    } else {
      assert (a + b)[1..] == a[1..] + b;
      HeardConcat(a[1..], b, client, sensor);
      var head := if a[0].client == client && a[0].sensor == sensor && !a[0].initial then [a[0].severity] else [];
      assert Heard(a, client, sensor) == head + Heard(a[1..], client, sensor);
      assert Heard(a + b, client, sensor) == head + (Heard(a[1..], client, sensor) + Heard(b, client, sensor));
    }
  }

  lemma {:induction false} HeardNothing(log: seq<Delivery>, client: Client, sensor: string)
    requires forall d :: d in log ==> d.client != client || d.sensor != sensor || d.initial
    ensures Heard(log, client, sensor) == []
  {
    if log != [] {
      HeardNothing(log[1..], client, sensor);
    }
  }

  ghost predicate UniqueClients(callbacks: seq<Callback>) {
    forall i, j :: 0 <= i < j < |callbacks| ==> callbacks[i].client != callbacks[j].client
  }

  /** The client is registered with a callback that takes this kind. */
  ghost predicate Subscribed(callbacks: seq<Callback>, client: Client, kind: Kind) {
    exists c :: c in callbacks && c.client == client && (!c.isFilter || c.kind == kind)
  }

  lemma {:induction false} NotifiedClients(callbacks: seq<Callback>, t: Temperature)
    ensures forall d :: d in Notified(callbacks, t) ==> d.sensor == t.name && IsRegistered(callbacks, d.client)
  {
    if callbacks != [] {
      NotifiedClients(callbacks[1..], t);
      assert callbacks[0] in callbacks;
    }
  }

  /** A subscriber hears a report about its sensor once. */
  lemma {:induction false} HearsOne(callbacks: seq<Callback>, t: Temperature, client: Client)
    requires UniqueClients(callbacks) && Subscribed(callbacks, client, t.kind)
    ensures Heard(Notified(callbacks, t), client, t.name) == [t.status]
  {
    var head := if Matches(callbacks[0], t.kind) then [Delivery(callbacks[0].client, t.name, t.status, false)] else [];
    HeardConcat(head, Notified(callbacks[1..], t), client, t.name);
    NotifiedClients(callbacks[1..], t);
    if callbacks[0].client == client {
      forall d | d in Notified(callbacks[1..], t) ensures d.client != client {
        var c :| c in callbacks[1..] && c.client == d.client;
      }
      HeardNothing(Notified(callbacks[1..], t), client, t.name);
      assert Heard(head, client, t.name) == [t.status];
    } else {
      HearsOne(callbacks[1..], t, client);
      HeardNothing(head, client, t.name);
    }
  }

  lemma {:induction false} KeptIsSub(callbacks: seq<Callback>, t: Temperature, failures: Failures)
    ensures forall c :: c in Kept(callbacks, t, failures) ==> c in callbacks
    ensures forall c :: c in callbacks && !(Matches(c, t.kind) && (c.client, t.name) in failures) ==>
              c in Kept(callbacks, t, failures)
    ensures UniqueClients(callbacks) ==> UniqueClients(Kept(callbacks, t, failures))
  {
    if callbacks != [] {
      KeptIsSub(callbacks[1..], t, failures);
      var rest := Kept(callbacks[1..], t, failures);
      if UniqueClients(callbacks) {
        assert UniqueClients(callbacks[1..]);
        forall j | 0 <= j < |rest| ensures rest[j].client != callbacks[0].client {
          assert rest[j] in callbacks[1..];
        }
      }
    }
  }

  /** A subscriber that does not fail hears every report about its sensor, in order. */
  lemma {:induction false} HearsAll(callbacks: seq<Callback>, temps: seq<Temperature>, failures: Failures,
                                    client: Client, sensor: string, kind: Kind)
    requires UniqueClients(callbacks) && Subscribed(callbacks, client, kind)
    requires forall n :: (client, n) !in failures
    requires forall t :: t in temps && t.name == sensor ==> t.kind == kind
    ensures Heard(NotifiedAll(callbacks, temps, failures), client, sensor) == Severities(temps, sensor)
    decreases temps
  {
    if temps != [] {
      var t := temps[0];
      var kept := Kept(callbacks, t, failures);
      KeptIsSub(callbacks, t, failures);
      assert Subscribed(kept, client, kind) by {
        var c :| c in callbacks && c.client == client && (!c.isFilter || c.kind == kind);
        assert c in kept;
      }
      HearsAll(kept, temps[1..], failures, client, sensor, kind);
      HeardConcat(Notified(callbacks, t), NotifiedAll(kept, temps[1..], failures), client, sensor);
      if t.name == sensor {
        HearsOne(callbacks, t, client);
      } else {
        NotifiedClients(callbacks, t);
        HeardNothing(Notified(callbacks, t), client, sensor);
      }
    }
  }

  lemma {:induction false} KeptAllUnique(callbacks: seq<Callback>, temps: seq<Temperature>, failures: Failures)
    requires UniqueClients(callbacks)
    ensures UniqueClients(KeptAll(callbacks, temps, failures))
    decreases temps
  {
    if temps != [] {
      KeptIsSub(callbacks, temps[0], failures);
      KeptAllUnique(Kept(callbacks, temps[0], failures), temps[1..], failures);
    }
  }

  lemma {:induction false} UnregisteredUnique(callbacks: seq<Callback>, client: Client)
    requires UniqueClients(callbacks)
    ensures UniqueClients(Unregistered(callbacks, client))
  {
    if callbacks != [] {
      UnregisteredUnique(callbacks[1..], client);
      var rest := Unregistered(callbacks[1..], client);
      forall j | 0 <= j < |rest| ensures rest[j].client != callbacks[0].client {
        assert rest[j] in callbacks[1..];
      }
    }
  }

  // ---- Runs ----

  /** What waits to be sent about a sensor is the difference between announced and stored. */
  ghost predicate ReportFits(s: Service, sensor: string)
    requires sensor in s.statuses && sensor in s.announced
  {
    ReportsChange(s.announced[sensor].severity, if s.report.None? then [] else Severities(s.report.value, sensor),
                  s.statuses[sensor].severity)
  }

  ghost predicate KindsFit(cfg: Config, s: Service) {
    s.report.Some? ==> forall t :: t in s.report.value ==> t.name in cfg.infos && t.kind == cfg.infos[t.name].kind
  }

  ghost predicate Good(cfg: Config, s: Service) {
    && Knows(cfg, s) && UniqueClients(s.callbacks) && KindsFit(cfg, s)
    && forall n :: n in cfg.order ==> ReportFits(s, n)
  }

  ghost predicate IsRun(cfg: Config, states: seq<Service>, steps: seq<Step>) {
    && |states| == |steps| + 1
    && Good(cfg, states[0])
    && forall i :: 0 <= i < |steps| ==> Took(cfg, states[i], steps[i], states[i + 1])
  }

  ghost predicate Took(cfg: Config, s: Service, step: Step, d: Service) {
    Knows(cfg, s) && Enabled(s, step) && d == Do(cfg, s, step)
  }

  lemma StoreKeepsGood(cfg: Config, s: Service, uevents: set<string>, readings: map<string, real>)
    requires GoodConfig(cfg) && Good(cfg, s) && s.report.None?
    ensures Good(cfg, Do(cfg, s, Store(uevents, readings)))
  {
    var d := Do(cfg, s, Store(uevents, readings));
    ReportKinds(cfg.infos, uevents, readings, s.statuses, cfg.order);
    forall n | n in cfg.order ensures ReportFits(d, n) {
      assert ReportFits(s, n);
      ReportIsChange(cfg.infos, uevents, readings, s.statuses, cfg.order, n);
    }
  }

  lemma StepKeepsGood(cfg: Config, s: Service, step: Step)
    requires GoodConfig(cfg) && Good(cfg, s) && Enabled(s, step)
    ensures Good(cfg, Do(cfg, s, step))
  {
    match step
    case Store(uevents, readings) => StoreKeepsGood(cfg, s, uevents, readings);
    case Send(failures) =>
      KeptAllUnique(s.callbacks, s.report.value, failures);
    case Register(c, _) =>
      SameReportFits(cfg, s, Do(cfg, s, step));
      if !IsRegistered(s.callbacks, c.client) {
        forall i | 0 <= i < |s.callbacks| ensures s.callbacks[i].client != c.client {
          assert s.callbacks[i] in s.callbacks;
        }
      }
    case Unregister(client) =>
      SameReportFits(cfg, s, Do(cfg, s, step));
      UnregisteredUnique(s.callbacks, client);
  }

  lemma SameReportFits(cfg: Config, s: Service, d: Service)
    requires Good(cfg, s) && d.statuses == s.statuses && d.announced == s.announced && d.report == s.report
    ensures forall n :: n in cfg.order ==> n in d.statuses && n in d.announced && ReportFits(d, n)
  {
    forall n | n in cfg.order ensures ReportFits(d, n) {
      assert ReportFits(s, n);
    }
  }

  lemma {:induction false} RunGood(cfg: Config, states: seq<Service>, steps: seq<Step>, i: nat)
    requires GoodConfig(cfg) && IsRun(cfg, states, steps) && i < |states|
    ensures Good(cfg, states[i])
  {
    if i > 0 {
      RunGood(cfg, states, steps, i - 1);
      assert Took(cfg, states[i - 1], steps[i - 1], states[i]);
      StepKeepsGood(cfg, states[i - 1], steps[i - 1]);
    }
  }

  /** The list is the sequence of values taken after `before`: each differs from the one
      before it and the last one is `after`. */
  ghost predicate IsChangeLog(before: Level, changes: seq<Level>, after: Level)
    decreases changes
  {
    if changes == [] then before == after
    else changes[0] != before && IsChangeLog(changes[0], changes[1..], after)
  }

  lemma {:induction false} ChangeLogAppend(before: Level, changes: seq<Level>, middle: Level, reported: seq<Level>,
                                           after: Level)
    requires IsChangeLog(before, changes, middle) && ReportsChange(middle, reported, after)
    ensures IsChangeLog(before, changes + reported, after)
    decreases changes
  {
    if changes == [] {
      assert changes + reported == reported;
    } else {
      assert (changes + reported)[1..] == changes[1..] + reported;
      ChangeLogAppend(changes[0], changes[1..], middle, reported, after);
    }
  }

  /** The client is there all the time and takes every call. */
  ghost predicate Stays(cfg: Config, states: seq<Service>, steps: seq<Step>, since: nat, until: nat, client: Client,
                        sensor: string)
    requires sensor in cfg.infos
  {
    && since <= until < |states| && |states| == |steps| + 1
    && (forall k :: since <= k <= until ==> Subscribed(states[k].callbacks, client, cfg.infos[sensor].kind))
    && (forall k, n :: since <= k < until && steps[k].Send? ==> (client, n) !in steps[k].failures)
  }

  /** One step appends to the log; what the client hears in it is the change of what was announced. */
  lemma StepIsHeard(cfg: Config, s: Service, step: Step, d: Service, client: Client, sensor: string)
    requires Good(cfg, s) && sensor in cfg.order && sensor in cfg.infos && Took(cfg, s, step, d)
    requires Subscribed(s.callbacks, client, cfg.infos[sensor].kind)
    requires step.Send? ==> forall n :: (client, n) !in step.failures
    ensures s.log <= d.log && sensor in s.announced && sensor in d.announced
    ensures ReportsChange(s.announced[sensor].severity, Heard(d.log[|s.log|..], client, sensor),
                          d.announced[sensor].severity)
  {
    match step
    case Store(_, _) =>
      assert d.log[|s.log|..] == [];
    case Send(failures) =>
      assert ReportFits(s, sensor);
      HearsAll(s.callbacks, s.report.value, failures, client, sensor, cfg.infos[sensor].kind);
      assert d.log[|s.log|..] == NotifiedAll(s.callbacks, s.report.value, failures);
    case Register(c, temps) =>
      HeardNothing(d.log[|s.log|..], client, sensor);
    case Unregister(_) =>
      assert d.log[|s.log|..] == [];
  }

  lemma ExtendHeard(start: seq<Delivery>, middle: seq<Delivery>, end: seq<Delivery>, client: Client, sensor: string,
                    before: Level, between: Level, after: Level)
    requires start <= middle <= end
    requires IsChangeLog(before, Heard(middle[|start|..], client, sensor), between)
    requires ReportsChange(between, Heard(end[|middle|..], client, sensor), after)
    ensures IsChangeLog(before, Heard(end[|start|..], client, sensor), after)
  {
    assert end[|start|..] == middle[|start|..] + end[|middle|..];
    HeardConcat(middle[|start|..], end[|middle|..], client, sensor);
    ChangeLogAppend(before, Heard(middle[|start|..], client, sensor), between, Heard(end[|middle|..], client, sensor),
                    after);
  }

  /** In every run, as long as a subscriber stays, what it hears about a sensor is the sequence of
      changes of the severity, from what was announced when it came to what is announced now. */
  lemma {:induction false} HeardIsChangeLog(cfg: Config, states: seq<Service>, steps: seq<Step>, since: nat, until: nat,
                                            client: Client, sensor: string)
    requires GoodConfig(cfg) && IsRun(cfg, states, steps) && sensor in cfg.infos
    requires Stays(cfg, states, steps, since, until, client, sensor)
    ensures Knows(cfg, states[since]) && Knows(cfg, states[until]) && states[since].log <= states[until].log
    ensures sensor in states[since].announced && sensor in states[until].announced
    ensures IsChangeLog(states[since].announced[sensor].severity,
                        Heard(states[until].log[|states[since].log|..], client, sensor),
                        states[until].announced[sensor].severity)
    decreases until
  {
    assert sensor in cfg.order;
    RunGood(cfg, states, steps, since);
    RunGood(cfg, states, steps, until);
    if since == until {
      assert states[until].log[|states[since].log|..] == [];
    } else {
      HeardIsChangeLog(cfg, states, steps, since, until - 1, client, sensor);
      RunGood(cfg, states, steps, until - 1);
      var s, d := states[until - 1], states[until];
      assert Took(cfg, s, steps[until - 1], d);
      StepIsHeard(cfg, s, steps[until - 1], d, client, sensor);
      ExtendHeard(states[since].log, s.log, d.log, client, sensor,
                  states[since].announced[sensor].severity, s.announced[sensor].severity, d.announced[sensor].severity);
    }
  }

  /** So whatever it heard last is the stored severity whenever no report is under way, and two
      notifications in a row always differ. */
  lemma SubscriberHearsChanges(cfg: Config, states: seq<Service>, steps: seq<Step>, since: nat, until: nat,
                               client: Client, sensor: string)
    requires GoodConfig(cfg) && IsRun(cfg, states, steps) && sensor in cfg.infos
    requires Stays(cfg, states, steps, since, until, client, sensor)
    ensures states[since].log <= states[until].log && sensor in states[until].statuses
    ensures var heard := Heard(states[until].log[|states[since].log|..], client, sensor);
            && (heard != [] && states[until].report.None? ==>
                  heard[|heard| - 1] == states[until].statuses[sensor].severity)
            && forall i :: 0 <= i < |heard| - 1 ==> heard[i] != heard[i + 1]
  {
    HeardIsChangeLog(cfg, states, steps, since, until, client, sensor);
    var heard := Heard(states[until].log[|states[since].log|..], client, sensor);
    ChangeLogFacts(states[since].announced[sensor].severity, heard, states[until].announced[sensor].severity);
    RunGood(cfg, states, steps, until);
    assert sensor in cfg.order && ReportFits(states[until], sensor);
  }

  /** Consequence: the last severity heard is the stored one, and no two in a row are equal. */
  lemma {:induction false} ChangeLogFacts(before: Level, changes: seq<Level>, after: Level)
    requires IsChangeLog(before, changes, after)
    ensures changes != [] ==> changes[|changes| - 1] == after
    ensures forall i :: 0 <= i < |changes| - 1 ==> changes[i] != changes[i + 1]
    decreases changes
  {
    if changes != [] {
      ChangeLogFacts(changes[0], changes[1..], after);
      forall i | 0 <= i < |changes| - 1 ensures changes[i] != changes[i + 1] {
        if i > 0 {
          assert changes[i] == changes[1..][i - 1] && changes[i + 1] == changes[1..][i];
        }
      }
    }
  }

  // ---- The stored hot and cold severities ----

  /** The levels remembered for a sensor are none or levels with thresholds. */
  predicate IsReachable(info: SensorInfo, st: SensorStatus) {
    Reachable(info.hot, st.prevHot) && Reachable(info.cold, st.prevCold)
  }

  ghost predicate AllReachable(cfg: Config, s: Service) {
    forall n :: n in cfg.order && n in cfg.infos && n in s.statuses ==> IsReachable(cfg.infos[n], s.statuses[n])
  }

  /** A step changes the status of a sensor only by storing a reading of it. */
  lemma StatusChanges(cfg: Config, s: Service, step: Step, n: string)
    requires GoodConfig(cfg) && Knows(cfg, s) && Enabled(s, step) && n in cfg.order
    ensures var d := Do(cfg, s, step);
            n in d.statuses && d.statuses[n] ==
            if step.Store? && Visited(cfg.infos, step.uevents, step.readings, n)
            then Observed(cfg.infos[n], s.statuses[n], step.readings[n]) else s.statuses[n]
  {
    if step.Store? {
      StoredAt(cfg.infos, step.uevents, step.readings, s.statuses, cfg.order, n);
    }
  }

  lemma ObservedReachable(info: SensorInfo, st: SensorStatus, v: real)
    ensures IsReachable(info, Observed(info, st, v))
  {
    HotIsReachable(info.hot, info.hotHysteresis, st.prevHot, v);
    HotIsReachable(Mirrored(info.cold), info.coldHysteresis, st.prevCold, -v);
  }

  lemma {:induction false} RunReachable(cfg: Config, states: seq<Service>, steps: seq<Step>, i: nat)
    requires GoodConfig(cfg) && IsRun(cfg, states, steps) && i < |states| && AllReachable(cfg, states[0])
    ensures AllReachable(cfg, states[i])
  {
    if i > 0 {
      RunReachable(cfg, states, steps, i - 1);
      var s, step := states[i - 1], steps[i - 1];
      assert Took(cfg, s, step, states[i]);
      forall n | n in cfg.order && n in cfg.infos && n in states[i].statuses
        ensures IsReachable(cfg.infos[n], states[i].statuses[n])
      {
        StatusChanges(cfg, s, step, n);
        if step.Store? && Visited(cfg.infos, step.uevents, step.readings, n) {
          ObservedReachable(cfg.infos[n], s.statuses[n], step.readings[n]);
        }
      }
    }
  }

  /** The step stores a reading at or below the hot threshold of the stored level minus its hysteresis. */
  ghost predicate LeavesHot(cfg: Config, s: Service, step: Step, n: string)
    requires n in cfg.infos && n in s.statuses
  {
    var info, prev := cfg.infos[n], s.statuses[n].prevHot;
    && prev > NONE && step.Store? && Visited(cfg.infos, step.uevents, step.readings, n)
    && info.hot[prev].Some? && step.readings[n] <= info.hot[prev].value - info.hotHysteresis[prev]
  }

  /** The dual: at or above the cold threshold plus its hysteresis. */
  ghost predicate LeavesCold(cfg: Config, s: Service, step: Step, n: string)
    requires n in cfg.infos && n in s.statuses
  {
    var info, prev := cfg.infos[n], s.statuses[n].prevCold;
    && prev > NONE && step.Store? && Visited(cfg.infos, step.uevents, step.readings, n)
    && info.cold[prev].Some? && step.readings[n] >= info.cold[prev].value + info.coldHysteresis[prev]
  }

  predicate ProperBands(th: Thresholds, hy: Hysteresis) {
    PositiveHysteresis(th, hy) && NonOverlapping(th, hy)
  }

  /** In every run the stored hot severity of a sensor falls only when a reading out of its level's band
      is stored, and where the bands are proper it falls at every such reading; so does the cold one. */
  lemma StoredFallsOutOfBand(cfg: Config, states: seq<Service>, steps: seq<Step>, i: nat, n: string)
    requires GoodConfig(cfg) && IsRun(cfg, states, steps) && i < |steps| && n in cfg.order
    requires AllReachable(cfg, states[0])
    ensures n in cfg.infos && n in states[i].statuses && n in states[i + 1].statuses
    ensures var info, before, after := cfg.infos[n], states[i].statuses[n], states[i + 1].statuses[n];
            && (after.prevHot < before.prevHot ==> LeavesHot(cfg, states[i], steps[i], n))
            && (after.prevCold < before.prevCold ==> LeavesCold(cfg, states[i], steps[i], n))
            && (ProperBands(info.hot, info.hotHysteresis) && LeavesHot(cfg, states[i], steps[i], n) ==>
                  after.prevHot < before.prevHot)
            && (ProperBands(Mirrored(info.cold), info.coldHysteresis) && LeavesCold(cfg, states[i], steps[i], n) ==>
                  after.prevCold < before.prevCold)
  {
    RunReachable(cfg, states, steps, i);
    assert Took(cfg, states[i], steps[i], states[i + 1]);
    StatusChanges(cfg, states[i], steps[i], n);
    var info, before, after := cfg.infos[n], states[i].statuses[n], states[i + 1].statuses[n];
    if after.prevHot < before.prevHot {
      FallsOnlyOutOfBand(info.hot, info.hotHysteresis, before.prevHot, steps[i].readings[n]);
    }
    if after.prevCold < before.prevCold {
      ColdFallsOnlyOutOfBand(info.cold, info.coldHysteresis, before.prevCold, steps[i].readings[n]);
    }
    if ProperBands(info.hot, info.hotHysteresis) && LeavesHot(cfg, states[i], steps[i], n) {
      FallsIffOutOfBand(info.hot, info.hotHysteresis, before.prevHot, steps[i].readings[n]);
    }
    if ProperBands(Mirrored(info.cold), info.coldHysteresis) && LeavesCold(cfg, states[i], steps[i], n) {
      FallsIffOutOfBand(Mirrored(info.cold), info.coldHysteresis, before.prevCold, -steps[i].readings[n]);
    }
  }
}
