/** What the thermal service does to one sensor and to one client, said from the outside.

    A sensor's stored severity is tied to its thresholds and to the reading alone, a report
    to the sensors whose severity changed, and what a client is told to what it registered
    for.
  */
module ThermalOutcomes {
  import opened Options
  import opened Severity
  import opened Selections
  import opened ThermalSpec

  // ---- Sensors ----

  /** The watcher looks at the sensor: it is monitored, no event names only others, and it can be read. */
  ghost predicate Reads(cfg: Config, step: Step, n: string) {
    && step.Store? && n in cfg.infos && cfg.infos[n].isMonitored
    && (step.uevents == {} || n in step.uevents) && n in step.readings
  }

  /** The severity is the higher of the two remembered ones. */
  predicate IsJoined(st: SensorStatus) {
    st.severity >= st.prevHot && st.severity >= st.prevCold && (st.severity == st.prevHot || st.severity == st.prevCold)
  }

  /** The status a reading leaves, by thresholds and hysteresis alone. */
  ghost predicate IsJudgement(info: SensorInfo, before: SensorStatus, v: real, after: SensorStatus) {
    && IsNextHot(info.hot, info.hotHysteresis, before.prevHot, v, after.prevHot)
    && IsNextCold(info.cold, info.coldHysteresis, before.prevCold, v, after.prevCold)
    && IsJoined(after)
  }

  lemma ObservedIs(info: SensorInfo, before: SensorStatus, v: real)
    ensures IsJudgement(info, before, v, Observed(info, before, v))
  {
    HotIsNext(info.hot, info.hotHysteresis, before.prevHot, v, Observed(info, before, v).prevHot);
    ColdIsNext(info.cold, info.coldHysteresis, before.prevCold, v, Observed(info, before, v).prevCold);
  }

  /** In every run a sensor that is read gets the severities its thresholds say, and their maximum; one
      that is not read keeps its status. */
  lemma StoredIs(cfg: Config, states: seq<Service>, steps: seq<Step>, i: nat, n: string)
    requires GoodConfig(cfg) && IsRun(cfg, states, steps) && i < |steps| && n in cfg.order
    ensures n in cfg.infos && n in states[i].statuses && n in states[i + 1].statuses
    ensures var before, after := states[i].statuses[n], states[i + 1].statuses[n];
            if Reads(cfg, steps[i], n) then IsJudgement(cfg.infos[n], before, steps[i].readings[n], after)
            else after == before
  {
    RunGood(cfg, states, steps, i);
    assert Took(cfg, states[i], steps[i], states[i + 1]);
    StatusChanges(cfg, states[i], steps[i], n);
    if Reads(cfg, steps[i], n) {
      ObservedIs(cfg.infos[n], states[i].statuses[n], steps[i].readings[n]);
    }
  }

  /** So, from a fresh start, no sensor ever has a severity other than the higher of its two. */
  lemma {:induction false} AlwaysJoined(cfg: Config, states: seq<Service>, steps: seq<Step>, i: nat, n: string)
    requires GoodConfig(cfg) && IsRun(cfg, states, steps) && i < |states| && n in cfg.order
    requires n in states[0].statuses && IsJoined(states[0].statuses[n])
    ensures n in states[i].statuses && IsJoined(states[i].statuses[n])
    ensures states[i].statuses[n].severity == NONE
       <==> states[i].statuses[n].prevHot == NONE && states[i].statuses[n].prevCold == NONE
  {
    if i > 0 {
      AlwaysJoined(cfg, states, steps, i - 1, n);
      StoredIs(cfg, states, steps, i - 1, n);
    }
  }

  // ---- Reports ----

  ghost function Names(temps: seq<Temperature>): (names: seq<string>)
    ensures |names| == |temps| && forall k :: 0 <= k < |temps| ==> names[k] == temps[k].name
  {
    seq(|temps|, k requires 0 <= k < |temps| => temps[k].name)
  }

  /** Reported temperatures are the readings, with the severity that is now stored. */
  ghost predicate AreReadings(cfg: Config, readings: map<string, real>, after: Statuses, temps: seq<Temperature>) {
    forall t :: t in temps ==>
      && t.name in cfg.infos && t.kind == cfg.infos[t.name].kind
      && t.name in readings && t.value == readings[t.name] && t.name in after && t.status == after[t.name].severity
  }

  ghost predicate Distinct(names: seq<string>) {
    forall i, j :: 0 <= i < j < |names| ==> names[i] != names[j]
  }

  /** Visiting a sensor leaves the others as they are, and later visits leave it. */
  lemma VisitFirst(cfg: Config, uevents: set<string>, readings: map<string, real>, statuses: Statuses,
                   order: seq<string>)
    requires order != [] && (forall n :: n in order ==> n in statuses) && Distinct(order)
    ensures var next := Visit(cfg.infos, uevents, readings, statuses, order[0]);
            && Distinct(order[1..]) && (forall n :: n in order[1..] ==> n in next && next[n] == statuses[n])
            && WatchStatuses(cfg.infos, uevents, readings, next, order[1..])
               == WatchStatuses(cfg.infos, uevents, readings, statuses, order)
            && WatchStatuses(cfg.infos, uevents, readings, statuses, order)[order[0]] == next[order[0]]
  {
    var n, rest := order[0], order[1..];
    forall m | m in rest ensures m != n {
      var k :| 0 <= k < |rest| && rest[k] == m;
      assert order[k + 1] == m;
    }
    NotListedNotReported(cfg.infos, uevents, readings, Visit(cfg.infos, uevents, readings, statuses, n), rest, n);
  }

  lemma ChangeNames(cfg: Config, uevents: set<string>, readings: map<string, real>, statuses: Statuses, n: string)
    requires n in statuses
    ensures Names(Change(cfg.infos, uevents, readings, statuses, n))
         == if Visit(cfg.infos, uevents, readings, statuses, n)[n].severity != statuses[n].severity then [n] else []
  {
  }

  lemma NamesConcat(a: seq<Temperature>, b: seq<Temperature>)
    ensures Names(a + b) == Names(a) + Names(b)
  {
  }

  /** The sensors reported are those whose severity changed, in order. */
  lemma {:induction false} ReportNames(cfg: Config, uevents: set<string>, readings: map<string, real>,
                                       statuses: Statuses, order: seq<string>, changed: string -> bool)
    requires (forall n :: n in order ==> n in statuses) && Distinct(order)
    requires var after := WatchStatuses(cfg.infos, uevents, readings, statuses, order);
             forall n :: n in order ==> (changed(n) <==> after[n].severity != statuses[n].severity)
    ensures Names(WatchReport(cfg.infos, uevents, readings, statuses, order)) == Filter(order, changed)
    decreases order
  {
    if order != [] {
      var next := Visit(cfg.infos, uevents, readings, statuses, order[0]);
      VisitFirst(cfg, uevents, readings, statuses, order);
      ReportNames(cfg, uevents, readings, next, order[1..], changed);
      ChangeNames(cfg, uevents, readings, statuses, order[0]);
      NamesConcat(Change(cfg.infos, uevents, readings, statuses, order[0]),
                  WatchReport(cfg.infos, uevents, readings, next, order[1..]));
    }
  }

  lemma {:induction false} ReportReadings(cfg: Config, uevents: set<string>, readings: map<string, real>,
                                          statuses: Statuses, order: seq<string>)
    requires (forall n :: n in order ==> n in statuses) && Distinct(order)
    ensures AreReadings(cfg, readings, WatchStatuses(cfg.infos, uevents, readings, statuses, order),
                        WatchReport(cfg.infos, uevents, readings, statuses, order))
    decreases order
  {
    if order != [] {
      VisitFirst(cfg, uevents, readings, statuses, order);
      ReportReadings(cfg, uevents, readings, Visit(cfg.infos, uevents, readings, statuses, order[0]), order[1..]);
    }
  }

  /** In every run the report of a watcher call names, in order, exactly the sensors whose stored severity
      differs from the one before, with their readings and new severities. */
  lemma StoreReports(cfg: Config, states: seq<Service>, steps: seq<Step>, i: nat)
    requires GoodConfig(cfg) && IsRun(cfg, states, steps) && i < |steps| && steps[i].Store?
    ensures Knows(cfg, states[i]) && Knows(cfg, states[i + 1]) && states[i + 1].report.Some?
    ensures var before, after := states[i].statuses, states[i + 1].statuses;
            && Names(states[i + 1].report.value)
               == Filter(cfg.order, n => n in before && n in after && after[n].severity != before[n].severity)
            && AreReadings(cfg, steps[i].readings, after, states[i + 1].report.value)
  {
    RunGood(cfg, states, steps, i);
    RunGood(cfg, states, steps, i + 1);
    assert Took(cfg, states[i], steps[i], states[i + 1]);
    var before, after := states[i].statuses, states[i + 1].statuses;
    ReportNames(cfg, steps[i].uevents, steps[i].readings, before, cfg.order,
                n => n in before && n in after && after[n].severity != before[n].severity);
    ReportReadings(cfg, steps[i].uevents, steps[i].readings, before, cfg.order);
  }

  /** A reading at or above a hot threshold, of the remembered level or of a higher one, leaves at least
      that severity, and it is reported unless the severity was that already. */
  lemma HotReadingIsReported(cfg: Config, states: seq<Service>, steps: seq<Step>, i: nat, n: string, j: Level)
    requires GoodConfig(cfg) && IsRun(cfg, states, steps) && i < |steps| && n in cfg.order && Reads(cfg, steps[i], n)
    requires n in states[i].statuses && j > NONE && j >= states[i].statuses[n].prevHot
    requires cfg.infos[n].hot[j].Some? && cfg.infos[n].hot[j].value <= steps[i].readings[n]
    ensures n in states[i + 1].statuses && states[i + 1].statuses[n].severity >= j
    ensures states[i].statuses[n].severity < j ==>
              states[i + 1].report.Some? && exists t :: t in states[i + 1].report.value && t.name == n && t.status >= j
  {
    StoredIs(cfg, states, steps, i, n);
    if states[i].statuses[n].severity < j {
      StoreReports(cfg, states, steps, i);
      var before, after := states[i].statuses, states[i + 1].statuses;
      var temps := states[i + 1].report.value;
      FilterIff(cfg.order, m => m in before && m in after && after[m].severity != before[m].severity, n);
      var p :| 0 <= p < |temps| && Names(temps)[p] == n;
      assert temps[p] in temps;
    }
  }

  // ---- Clients ----

  /** The callback was registered for this kind, or for all. */
  predicate Takes(c: Callback, kind: Kind) {
    !c.isFilter || c.kind == kind
  }

  /** Telling the callback of this temperature fails. */
  predicate Fails(c: Callback, t: Temperature, failures: Failures) {
    Takes(c, t.kind) && (c.client, t.name) in failures
  }

  ghost predicate NeverFails(c: Callback, temps: seq<Temperature>, failures: Failures) {
    forall t :: t in temps ==> !Fails(c, t, failures)
  }

  lemma {:induction false} KeptIs(callbacks: seq<Callback>, t: Temperature, failures: Failures)
    ensures Kept(callbacks, t, failures) == Filter(callbacks, c => !Fails(c, t, failures))
  {
    if callbacks != [] {
      KeptIs(callbacks[1..], t, failures);
    }
  }

  /** A report leaves, in order, the callbacks that took all of it. */
  lemma {:induction false} KeptAllIs(callbacks: seq<Callback>, temps: seq<Temperature>, failures: Failures)
    ensures KeptAll(callbacks, temps, failures) == Filter(callbacks, c => NeverFails(c, temps, failures))
    decreases temps
  {
    if temps == [] {
      FilterAll(callbacks, c => NeverFails(c, temps, failures));
    } else {
      KeptIs(callbacks, temps[0], failures);
      KeptAllIs(Kept(callbacks, temps[0], failures), temps[1..], failures);
      forall c ensures NeverFails(c, temps, failures)
                  <==> !Fails(c, temps[0], failures) && NeverFails(c, temps[1..], failures) {
        assert temps == [temps[0]] + temps[1..];
      }
      FilterTwice(callbacks, c => !Fails(c, temps[0], failures), c => NeverFails(c, temps[1..], failures),
                  c => NeverFails(c, temps, failures));
    }
  }

  /** One temperature is told, in order, to the callbacks that take its kind. */
  lemma {:induction false} NotifiedIs(callbacks: seq<Callback>, t: Temperature)
    ensures var takers, told := Filter(callbacks, c => Takes(c, t.kind)), Notified(callbacks, t);
            && |told| == |takers|
            && forall k :: 0 <= k < |told| ==> told[k] == Delivery(takers[k].client, t.name, t.status, false)
  {
    if callbacks != [] {
      NotifiedIs(callbacks[1..], t);
    }
  }

  /** At registration a callback is told the temperatures of its kind, in order. */
  lemma {:induction false} InitialIs(c: Callback, temps: seq<Temperature>)
    ensures var wanted, told := Filter(temps, (t: Temperature) => Takes(c, t.kind)), InitialDeliveries(c, temps);
            && |told| == |wanted|
            && forall k :: 0 <= k < |told| ==> told[k] == Delivery(c.client, wanted[k].name, wanted[k].status, true)
  {
    if temps != [] {
      InitialIs(c, temps[1..]);
    }
  }

  lemma {:induction false} UnregisteredIs(callbacks: seq<Callback>, client: Client)
    ensures Unregistered(callbacks, client) == Filter(callbacks, (c: Callback) => c.client != client)
  {
    if callbacks != [] {
      UnregisteredIs(callbacks[1..], client);
    }
  }

  /** Sending ends the report, announces what is stored and keeps the callbacks that took all of it. */
  lemma SendIs(cfg: Config, s: Service, failures: Failures)
    requires Knows(cfg, s) && s.report.Some?
    ensures var d := Do(cfg, s, Send(failures));
            && d.report.None? && d.announced == s.statuses && d.statuses == s.statuses
            && d.callbacks == Filter(s.callbacks, c => NeverFails(c, s.report.value, failures))
            && s.log <= d.log && forall k :: |s.log| <= k < |d.log| ==> !d.log[k].initial
  {
    KeptAllIs(s.callbacks, s.report.value, failures);
    NoneInitial(s.callbacks, s.report.value, failures);
  }

  lemma {:induction false} NoneInitial(callbacks: seq<Callback>, temps: seq<Temperature>, failures: Failures)
    ensures forall d :: d in NotifiedAll(callbacks, temps, failures) ==> !d.initial
    decreases temps
  {
    if temps != [] {
      NotifiedIs(callbacks, temps[0]);
      NoneInitial(Kept(callbacks, temps[0], failures), temps[1..], failures);
    }
  }

  /** A callback is added once and told the present temperatures; a second registration changes nothing. */
  lemma RegisterIs(cfg: Config, s: Service, c: Callback, temps: seq<Temperature>)
    requires Knows(cfg, s)
    ensures var d, again := Do(cfg, s, Register(c, temps)), exists b :: b in s.callbacks && b.client == c.client;
            if again then d == s
            else d == s.(callbacks := s.callbacks + [c], log := s.log + InitialDeliveries(c, temps))
  {
  }

  lemma UnregisterIs(cfg: Config, s: Service, client: Client)
    requires Knows(cfg, s)
    ensures Do(cfg, s, Unregister(client)) == s.(callbacks := Filter(s.callbacks, (c: Callback) => c.client != client))
  {
    UnregisteredIs(s.callbacks, client);
  }

  /** A client whose callbacks do not take the kind of a sensor is told nothing about it. */
  lemma {:induction false} OthersHearNothing(callbacks: seq<Callback>, temps: seq<Temperature>, failures: Failures,
                                             client: Client, sensor: string, kind: Kind)
    requires forall c :: c in callbacks && c.client == client ==> !Takes(c, kind)
    requires forall t :: t in temps && t.name == sensor ==> t.kind == kind
    ensures Heard(NotifiedAll(callbacks, temps, failures), client, sensor) == []
    decreases temps
  {
    if temps != [] {
      var t, kept := temps[0], Kept(callbacks, temps[0], failures);
      KeptIsSub(callbacks, t, failures);
      OthersHearNothing(kept, temps[1..], failures, client, sensor, kind);
      HeardConcat(Notified(callbacks, t), NotifiedAll(kept, temps[1..], failures), client, sensor);
      ToldTakers(callbacks, t);
      HeardNothing(Notified(callbacks, t), client, sensor);
    }
  }

  lemma ToldTakers(callbacks: seq<Callback>, t: Temperature)
    ensures forall d :: d in Notified(callbacks, t) ==>
              d.sensor == t.name && exists c :: c in callbacks && c.client == d.client && Takes(c, t.kind)
  {
    NotifiedIs(callbacks, t);
    var takers := Filter(callbacks, c => Takes(c, t.kind));
    forall d | d in Notified(callbacks, t)
      ensures d.sensor == t.name && exists c :: c in callbacks && c.client == d.client && Takes(c, t.kind)
    {
      var k :| 0 <= k < |takers| && d == Delivery(takers[k].client, t.name, t.status, false);
      FilterIff(callbacks, c => Takes(c, t.kind), takers[k]);
    }
  }

  // ---- From registration on ----

  /** The client came at this step, has not left since and took every call. */
  ghost predicate Lasts(states: seq<Service>, steps: seq<Step>, since: nat, until: nat, c: Callback) {
    && since < until < |states| && |states| == |steps| + 1
    && steps[since].Register? && steps[since].callback == c
    && (forall b :: b in states[since].callbacks ==> b.client != c.client)
    && (forall k :: since < k < until ==> steps[k] != Unregister(c.client))
    && forall k, n :: since < k < until && steps[k].Send? ==> (c.client, n) !in steps[k].failures
  }

  lemma StaysRegistered(cfg: Config, s: Service, step: Step, c: Callback)
    requires Knows(cfg, s) && Enabled(s, step) && c in s.callbacks && step != Unregister(c.client)
    requires step.Send? ==> forall n :: (c.client, n) !in step.failures
    ensures c in Do(cfg, s, step).callbacks
  {
    match step
    case Store(_, _) =>
    case Send(failures) =>
      SendIs(cfg, s, failures);
      FilterIff(s.callbacks, b => NeverFails(b, s.report.value, failures), c);
    case Register(_, _) =>
    case Unregister(_) =>
  }

  lemma {:induction false} RegisteredStays(cfg: Config, states: seq<Service>, steps: seq<Step>, since: nat, until: nat,
                                           c: Callback)
    requires IsRun(cfg, states, steps) && Lasts(states, steps, since, until, c)
    ensures c in states[until].callbacks
    decreases until
  {
    assert Took(cfg, states[until - 1], steps[until - 1], states[until]);
    if since < until - 1 {
      RegisteredStays(cfg, states, steps, since, until - 1, c);
      StaysRegistered(cfg, states[until - 1], steps[until - 1], c);
    } else {
      RegisterIs(cfg, states[since], c, steps[since].temps);
    }
  }

  /** In every run a client that registers for a sensor, for its kind or for all, hears from then on the
      changes of its announced severity, until it leaves or a call to it fails. */
  lemma RegisteredHearsChanges(cfg: Config, states: seq<Service>, steps: seq<Step>, since: nat, until: nat,
                               c: Callback, sensor: string)
    requires GoodConfig(cfg) && IsRun(cfg, states, steps) && sensor in cfg.infos
    requires Lasts(states, steps, since, until, c) && Takes(c, cfg.infos[sensor].kind)
    ensures states[since + 1].log <= states[until].log
    ensures sensor in states[since + 1].announced && sensor in states[until].announced
    ensures IsChangeLog(states[since + 1].announced[sensor].severity,
                        Heard(states[until].log[|states[since + 1].log|..], c.client, sensor),
                        states[until].announced[sensor].severity)
  {
    forall k | since + 1 <= k <= until ensures Subscribed(states[k].callbacks, c.client, cfg.infos[sensor].kind) {
      RegisteredStays(cfg, states, steps, since, k, c);
    }
    HeardIsChangeLog(cfg, states, steps, since + 1, until, c.client, sensor);
  }
}
