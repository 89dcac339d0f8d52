/** The Type-C role switch: callers and the uevent thread interleaving on three locks. */
module UsbRoleSwitch {
  import opened Options

  type Thread = nat

  const UEVENT: Thread := 0

  /** What the threads did, in order. */
  datatype Event =
    | Wrote(who: Thread)                    // a mode was written to the port
    | TimedOut(who: Thread)                 // the wait for a partner ended without a signal
    | PartnerAdded                          // the uevent thread recorded a partner
    | Verdict(who: Thread, success: bool)   // a mode switch was decided
    | Reset(who: Thread)                    // a port was set back to dual role
    | Notified(who: Thread, success: bool)  // the client's callback, if there is one, was given the status

  /** Where a thread is; the names starting with U are places of the uevent thread. */
  datatype Place =
    | Idle
    | WantRole(mode: bool) | HasRole(mode: bool) | WantPartner | Writing | Written | Waiting | Waking(timedOut: bool)
    | Decided(success: bool) | Failed | WantNotify(success: bool) | Notifying | Leaving
    | WantCallback | HasCallback
    | UWantPartner | UHasPartner | UWantCallback | UHasCallback | UTry | UReset

  /** The outcomes that are not up to the thread itself. */
  datatype Choice = SwitchMode | SwitchRole | Query | Succeed | Fail | TimeOut | PartnerEvent | TypeCEvent

  datatype State = State(places: seq<Place>, role: Option<Thread>, partner: Option<Thread>, callback: Option<Thread>,
                         partnerUp: bool, log: seq<Event>)

  ghost predicate IsInitial(s: State) {
    && s.places != [] && AllIdle(s.places)
    && s.role == None && s.partner == None && s.callback == None && !s.partnerUp && s.log == []
  }

  datatype LockUse = Keep | Take | Release

  /** What one step of a thread changes. */
  datatype Effect = Effect(place: Place, role: LockUse, partner: LockUse, callback: LockUse, up: Option<bool>,
                           event: Option<Event>)

  function GoTo(p: Place): Effect {
    Effect(p, Keep, Keep, Keep, None, None)
  }

  /** What a thread sees: which locks are free, and whether a partner was recorded. */
  datatype View = View(role: bool, partner: bool, callback: bool, up: bool)

  /** One step of a thread, unless it is blocked. */
  function Move(p: Place, t: Thread, free: View, c: Choice): Option<Effect> {
    match p
    case Idle =>
      if t == UEVENT then
        if c == PartnerEvent then Some(GoTo(UWantPartner))
        else if c == TypeCEvent then Some(GoTo(UWantCallback))
        else None
      else if c == SwitchMode then Some(GoTo(WantRole(true)))
      else if c == SwitchRole then Some(GoTo(WantRole(false)))
      else if c == Query then Some(GoTo(WantCallback))
      else None
    case WantRole(mode) => if free.role then Some(GoTo(HasRole(mode)).(role := Take)) else None
    case HasRole(mode) =>
      if !mode then Some(GoTo(WantNotify(c != Fail)))
      else if c == Fail then Some(GoTo(Failed).(event := Some(Verdict(t, false))))
      else Some(GoTo(WantPartner))
    case WantPartner => if free.partner then Some(GoTo(Writing).(partner := Take)) else None
    case Writing =>
      if c == Fail then Some(GoTo(Decided(false)).(up := Some(false), event := Some(Verdict(t, false))))
      else Some(GoTo(Written).(up := Some(false), event := Some(Wrote(t))))
    case Written => Some(GoTo(Waiting).(partner := Release))
    case Waiting =>
      Some(if c == TimeOut then GoTo(Waking(true)).(event := Some(TimedOut(t))) else GoTo(Waking(false)))
    case Waking(timedOut) =>
      if !free.partner then None
      else if timedOut then Some(GoTo(Decided(false)).(partner := Take, event := Some(Verdict(t, false))))
      else if !free.up then Some(GoTo(Written).(partner := Take))
      else Some(GoTo(Decided(true)).(partner := Take, event := Some(Verdict(t, true))))
    case Decided(success) => Some(GoTo(if success then WantNotify(true) else Failed).(partner := Release))
    case Failed => Some(GoTo(WantNotify(false)).(event := Some(Reset(t))))
    case WantNotify(success) =>
      if free.callback then Some(GoTo(Notifying).(callback := Take, event := Some(Notified(t, success)))) else None
    case Notifying => Some(GoTo(Leaving).(callback := Release))
    case Leaving => Some(GoTo(Idle).(role := Release))
    case WantCallback => if free.callback then Some(GoTo(HasCallback).(callback := Take)) else None
    case HasCallback => Some(GoTo(Idle).(callback := Release))
    case UWantPartner =>
      if !free.partner then None
      else Some(GoTo(UHasPartner).(partner := Take, up := Some(true), event := Some(PartnerAdded)))
    case UHasPartner => Some(GoTo(Idle).(partner := Release))
    case UWantCallback => if free.callback then Some(GoTo(UHasCallback).(callback := Take)) else None
    case UHasCallback => Some(GoTo(UTry).(callback := Release))
    case UTry => Some(if free.role then GoTo(UReset).(role := Take) else GoTo(Idle))
    case UReset => Some(if c == Fail then GoTo(UReset).(event := Some(Reset(t))) else GoTo(Idle).(role := Release))
  }

  function Used(lock: Option<Thread>, t: Thread, use: LockUse): Option<Thread> {
    match use
    case Keep => lock
    case Take => Some(t)
    case Release => None
  }

  function Apply(s: State, t: Thread, e: Effect): State
    requires t < |s.places|
  {
    State(s.places[t := e.place], Used(s.role, t, e.role), Used(s.partner, t, e.partner),
          Used(s.callback, t, e.callback),
          if e.up.Some? then e.up.value else s.partnerUp, if e.event.Some? then s.log + [e.event.value] else s.log)
  }

  function ViewOf(s: State): View {
    View(s.role.None?, s.partner.None?, s.callback.None?, s.partnerUp)
  }

  function MoveOf(s: State, t: Thread, c: Choice): Option<Effect>
    requires t < |s.places|
  {
    Move(s.places[t], t, ViewOf(s), c)
  }

  function Step(s: State, t: Thread, c: Choice): Option<State>
    requires t < |s.places|
  {
    if MoveOf(s, t, c).None? then None else Some(Apply(s, t, MoveOf(s, t, c).value))
  }

  // ----- Who holds what -----

  predicate HoldsRole(p: Place) {
    p.HasRole? || p == WantPartner || p == Writing || Switching(p) || p.Decided? || p == Failed || p.WantNotify? ||
    p == Notifying || p == Leaving || p == UReset
  }

  predicate HoldsPartner(p: Place) {
    p == Writing || p == Written || p.Decided? || p == UHasPartner
  }

  predicate HoldsCallback(p: Place) {
    p == Notifying || p == HasCallback || p == UHasCallback
  }

  /** Between the write of a mode and the verdict. */
  predicate Switching(p: Place) {
    p == Written || p == Waiting || p.Waking?
  }

  predicate IsUeventPlace(p: Place) {
    p == UWantPartner || p == UHasPartner || p == UWantCallback || p == UHasCallback || p == UTry || p == UReset
  }

  // ----- The log since the last write -----

  /** The mode switch still undecided at the end of the log, and what happened since its write. */
  datatype Attempt = Attempt(who: Thread, added: bool, timedOut: bool)

  ghost function Pending(log: seq<Event>): Option<Attempt> {
    if log == [] then None
    else
      var before := Pending(log[..|log| - 1]);
      match log[|log| - 1]
      case Wrote(t) => Some(Attempt(t, false, false))
      case PartnerAdded => if before.Some? then Some(before.value.(added := true)) else None
      case TimedOut(_) => if before.Some? then Some(before.value.(timedOut := true)) else None
      case Reset(_) => before
      case Notified(_, _) => before
      case Verdict(_, _) => None
  }

  lemma PendingStep(log: seq<Event>, e: Event)
    ensures Pending(log + [e]) ==
            match e
            case Wrote(t) => Some(Attempt(t, false, false))
            case PartnerAdded => if Pending(log).Some? then Some(Pending(log).value.(added := true)) else None
            case TimedOut(_) => if Pending(log).Some? then Some(Pending(log).value.(timedOut := true)) else None
            case Reset(_) => Pending(log)
            case Notified(_, _) => Pending(log)
            case Verdict(_, _) => None
  {
    assert (log + [e])[..|log|] == log;
  }

  /** What may be appended to a log: writes and resets only while no switch is undecided, and success
      exactly if the wait did not time out. */
  ghost predicate IsSoundNext(log: seq<Event>, e: Event) {
    match e
    case Wrote(_) => Pending(log).None?
    case Reset(_) => Pending(log).None?
    case Notified(_, _) => Pending(log).None?
    case PartnerAdded => true
    case TimedOut(t) => Pending(log).Some? && Pending(log).value.who == t && !Pending(log).value.timedOut
    case Verdict(t, success) =>
      if Pending(log).None? then !success
      else
        var a := Pending(log).value;
        a.who == t && (success <==> !a.timedOut) && (success ==> a.added)
  }

  ghost predicate IsSound(log: seq<Event>) {
    forall j :: 0 <= j < |log| ==> IsSoundNext(log[..j], log[j])
  }

  lemma SoundStep(log: seq<Event>, e: Event)
    requires IsSound(log) && IsSoundNext(log, e)
    ensures IsSound(log + [e])
  {
    forall j | 0 <= j < |log + [e]| ensures IsSoundNext((log + [e])[..j], (log + [e])[j]) {
      if j < |log| {
        assert (log + [e])[..j] == log[..j];
      } else {
        assert (log + [e])[..j] == log;
      }
    }
  }

  // ----- What every step keeps -----

  /** Which threads are in a place that holds the lock. */
  ghost function Holding(places: seq<Place>, holds: Place -> bool): (flags: seq<bool>)
    ensures |flags| == |places|
  {
    if places == [] then [] else Holding(places[..|places| - 1], holds) + [holds(places[|places| - 1])]
  }

  lemma {:induction false} HoldingAt(places: seq<Place>, holds: Place -> bool, t: nat)
    requires t < |places|
    ensures Holding(places, holds)[t] == holds(places[t])
  {
    if t < |places| - 1 {
      HoldingAt(places[..|places| - 1], holds, t);
    }
  }

  lemma {:induction false} HoldingUpdate(places: seq<Place>, holds: Place -> bool, t: nat, p: Place)
    requires t < |places|
    ensures Holding(places[t := p], holds) == Holding(places, holds)[t := holds(p)]
  {
    var n := |places| - 1;
    if t == n {
      assert places[t := p][..n] == places[..n];
    } else {
      assert places[t := p][..n] == places[..n][t := p];
      HoldingUpdate(places[..n], holds, t, p);
    }
  }

  ghost predicate LocksMatch(s: State) {
    && Owns(s.role, Holding(s.places, HoldsRole))
    && Owns(s.partner, Holding(s.places, HoldsPartner))
    && Owns(s.callback, Holding(s.places, HoldsCallback))
    && Apart(s.places)
  }

  /** Only the uevent thread is in its places, and it is in no other. */
  ghost predicate Apart(places: seq<Place>) {
    forall t :: 0 <= t < |places| ==> IsPlaceOf(places[t], t)
  }

  predicate IsPlaceOf(p: Place, t: Thread) {
    p != Idle ==> (IsUeventPlace(p) <==> t == UEVENT)
  }

  /** The log's undecided switch is that of the thread between its write and its verdict. */
  ghost predicate LogMatches(s: State) {
    && (forall t :: 0 <= t < |s.places| && Switching(s.places[t]) ==>
          Pending(s.log) == Some(Attempt(t, s.partnerUp, s.places[t] == Waking(true))))
    && (Pending(s.log).Some? ==> Pending(s.log).value.who < |s.places| && Switching(s.places[Pending(s.log).value.who]))
  }

  ghost predicate Good(s: State) {
    LocksMatch(s) && LogMatches(s) && IsSound(s.log)
  }

  /** A lock is taken when free, given up by its holder, and held exactly in the places that hold it. */
  ghost predicate IsFairUse(before: bool, after: bool, free: bool, use: LockUse) {
    match use
    case Keep => after == before
    case Take => free && !before && after
    case Release => before && !after
  }

  lemma RoleUseIsFair(p: Place, t: Thread, free: View, c: Choice)
    requires Move(p, t, free, c).Some?
    ensures var e := Move(p, t, free, c).value; IsFairUse(HoldsRole(p), HoldsRole(e.place), free.role, e.role)
  {
  }

  lemma PartnerUseIsFair(p: Place, t: Thread, free: View, c: Choice)
    requires Move(p, t, free, c).Some?
    ensures var e := Move(p, t, free, c).value;
            IsFairUse(HoldsPartner(p), HoldsPartner(e.place), free.partner, e.partner)
  {
  }

  lemma CallbackUseIsFair(p: Place, t: Thread, free: View, c: Choice)
    requires Move(p, t, free, c).Some?
    ensures var e := Move(p, t, free, c).value;
            IsFairUse(HoldsCallback(p), HoldsCallback(e.place), free.callback, e.callback)
  {
  }

  lemma MoveStaysApart(p: Place, t: Thread, free: View, c: Choice)
    requires Move(p, t, free, c).Some? && IsPlaceOf(p, t)
    ensures IsPlaceOf(Move(p, t, free, c).value.place, t)
  {
  }

  /** The owner of a lock is the thread in a place that holds it. */
  ghost predicate Owns(lock: Option<Thread>, holds: seq<bool>) {
    && (lock.Some? ==> lock.value < |holds|)
    && forall t :: 0 <= t < |holds| ==> (holds[t] <==> lock == Some(t))
  }

  lemma UseKeepsOwner(lock: Option<Thread>, holds: seq<bool>, t: Thread, after: bool, use: LockUse)
    requires Owns(lock, holds) && t < |holds| && IsFairUse(holds[t], after, lock.None?, use)
    ensures Owns(Used(lock, t, use), holds[t := after])
  {
  }

  lemma StepKeepsLocks(s: State, t: Thread, c: Choice)
    requires LocksMatch(s) && t < |s.places| && Step(s, t, c).Some?
    ensures LocksMatch(Step(s, t, c).value)
  {
    var e, free := MoveOf(s, t, c).value, ViewOf(s);
    RoleUseIsFair(s.places[t], t, free, c);
    PartnerUseIsFair(s.places[t], t, free, c);
    CallbackUseIsFair(s.places[t], t, free, c);
    MoveStaysApart(s.places[t], t, free, c);
    EffectKeepsLocks(s, t, e);
  }

  lemma EffectKeepsLocks(s: State, t: Thread, e: Effect)
    requires LocksMatch(s) && t < |s.places| && IsPlaceOf(e.place, t)
    requires IsFairUse(HoldsRole(s.places[t]), HoldsRole(e.place), s.role.None?, e.role)
    requires IsFairUse(HoldsPartner(s.places[t]), HoldsPartner(e.place), s.partner.None?, e.partner)
    requires IsFairUse(HoldsCallback(s.places[t]), HoldsCallback(e.place), s.callback.None?, e.callback)
    ensures LocksMatch(Apply(s, t, e))
  {
    StaysApart(s.places, t, e.place);
    MoveKeepsOwner(s.places, HoldsRole, s.role, t, e.place, e.role);
    MoveKeepsOwner(s.places, HoldsPartner, s.partner, t, e.place, e.partner);
    MoveKeepsOwner(s.places, HoldsCallback, s.callback, t, e.place, e.callback);
  }

  lemma StaysApart(places: seq<Place>, t: Thread, p: Place)
    requires Apart(places) && t < |places| && IsPlaceOf(p, t)
    ensures Apart(places[t := p])
  {
  }

  lemma MoveKeepsOwner(places: seq<Place>, holds: Place -> bool, lock: Option<Thread>, t: Thread, p: Place,
                       use: LockUse)
    requires Owns(lock, Holding(places, holds)) && t < |places|
    requires IsFairUse(holds(places[t]), holds(p), lock.None?, use)
    ensures Owns(Used(lock, t, use), Holding(places[t := p], holds))
  {
    HoldingAt(places, holds, t);
    UseKeepsOwner(lock, Holding(places, holds), t, holds(p), use);
    HoldingUpdate(places, holds, t, p);
  }

  /** A thread that holds the role lock is the only one that can be switching. */
  lemma OnlyOwnerSwitches(s: State, t: Thread)
    requires LocksMatch(s) && t < |s.places| && HoldsRole(s.places[t])
    ensures forall u :: 0 <= u < |s.places| && u != t ==> !Switching(s.places[u])
  {
    HoldingAt(s.places, HoldsRole, t);
    forall u | 0 <= u < |s.places| && u != t ensures !Switching(s.places[u]) {
      HoldingAt(s.places, HoldsRole, u);
    }
  }

  /** What a step writes to the log, by the place it starts from. */
  lemma MoveLogs(p: Place, t: Thread, free: View, c: Choice)
    requires Move(p, t, free, c).Some?
    ensures var e := Move(p, t, free, c).value;
            && (e.event.None? ==> e.up.None? && (Switching(e.place) <==> Switching(p)))
            && (e.event.None? ==> (e.place == Waking(true) <==> p == Waking(true)))
            && (e.event.Some? && e.event.value.TimedOut? ==>
                  e.event.value.who == t && p == Waiting && e.place == Waking(true) && e.up.None?)
            && (e.event.Some? && e.event.value.Wrote? ==>
                  && e.event.value.who == t && HoldsRole(p) && !Switching(p) && Switching(e.place)
                  && e.up == Some(false) && e.place != Waking(true))
            && (e.event.Some? && e.event.value.PartnerAdded? ==>
                  !Switching(p) && !Switching(e.place) && e.up == Some(true))
            && (e.event.Some? && (e.event.value.Reset? || e.event.value.Notified?) ==>
                  HoldsRole(p) && !Switching(p) && !Switching(e.place) && e.up.None?)
            && (e.event.Some? && e.event.value.Verdict? ==>
                  && e.event.value.who == t && HoldsRole(p) && !Switching(e.place)
                  && (e.event.value.success ==> Switching(p) && free.up)
                  && (Switching(p) ==> (e.event.value.success <==> p != Waking(true))))
  {
  }

  lemma NothingPending(s: State, t: Thread)
    requires Good(s) && t < |s.places| && HoldsRole(s.places[t]) && !Switching(s.places[t])
    ensures Pending(s.log).None?
  {
    OnlyOwnerSwitches(s, t);
  }

  lemma StepIsSound(s: State, t: Thread, c: Choice)
    requires Good(s) && t < |s.places| && Step(s, t, c).Some? && MoveOf(s, t, c).value.event.Some?
    ensures IsSoundNext(s.log, MoveOf(s, t, c).value.event.value)
  {
    MoveLogs(s.places[t], t, ViewOf(s), c);
    if HoldsRole(s.places[t]) && !Switching(s.places[t]) {
      NothingPending(s, t);
    }
  }

  /** A step that writes nothing leaves the switch as it was. */
  lemma QuietStep(s: State, t: Thread, e: Effect)
    requires LogMatches(s) && t < |s.places| && e.event.None? && e.up.None?
    requires Switching(e.place) <==> Switching(s.places[t])
    requires e.place == Waking(true) <==> s.places[t] == Waking(true)
    ensures LogMatches(Apply(s, t, e))
  {
  }

  lemma WroteStep(s: State, t: Thread, e: Effect)
    requires LocksMatch(s) && LogMatches(s) && t < |s.places| && e.event == Some(Wrote(t))
    requires HoldsRole(s.places[t]) && Switching(e.place) && e.place != Waking(true) && e.up == Some(false)
    ensures LogMatches(Apply(s, t, e))
  {
    PendingStep(s.log, Wrote(t));
    OnlyOwnerSwitches(s, t);
  }

  lemma TimedOutStep(s: State, t: Thread, e: Effect)
    requires LocksMatch(s) && LogMatches(s) && t < |s.places| && e.event == Some(TimedOut(t))
    requires s.places[t] == Waiting && e.place == Waking(true) && e.up.None?
    ensures LogMatches(Apply(s, t, e))
  {
    PendingStep(s.log, TimedOut(t));
    OnlyOwnerSwitches(s, t);
  }

  lemma PartnerStep(s: State, t: Thread, e: Effect)
    requires LogMatches(s) && t < |s.places| && e.event == Some(PartnerAdded)
    requires !Switching(s.places[t]) && !Switching(e.place) && e.up == Some(true)
    ensures LogMatches(Apply(s, t, e))
  {
    PendingStep(s.log, PartnerAdded);
  }

  lemma ResetStep(s: State, t: Thread, e: Effect)
    requires LogMatches(s) && t < |s.places| && e.event.Some? && (e.event.value.Reset? || e.event.value.Notified?)
    requires !Switching(s.places[t]) && !Switching(e.place) && e.up.None?
    ensures LogMatches(Apply(s, t, e))
  {
    PendingStep(s.log, e.event.value);
  }

  lemma VerdictStep(s: State, t: Thread, e: Effect)
    requires LocksMatch(s) && LogMatches(s) && t < |s.places| && e.event.Some? && e.event.value.Verdict?
    requires HoldsRole(s.places[t]) && !Switching(e.place)
    ensures LogMatches(Apply(s, t, e))
  {
    PendingStep(s.log, e.event.value);
    OnlyOwnerSwitches(s, t);
    var n := Apply(s, t, e);
    assert Pending(n.log).None?;
    forall u | 0 <= u < |n.places| ensures !Switching(n.places[u]) {
      assert n.places[u] == if u == t then e.place else s.places[u];
    }
  }

  lemma StepMatchesLog(s: State, t: Thread, c: Choice)
    requires LocksMatch(s) && LogMatches(s) && t < |s.places| && Step(s, t, c).Some?
    ensures LogMatches(Step(s, t, c).value)
  {
    MoveLogs(s.places[t], t, ViewOf(s), c);
    var e := MoveOf(s, t, c).value;
    if e.event.None? {
      QuietStep(s, t, e);
    } else {
      match e.event.value {
        case Wrote(_) => WroteStep(s, t, e);
        case TimedOut(_) => TimedOutStep(s, t, e);
        case PartnerAdded => PartnerStep(s, t, e);
        case Reset(_) => ResetStep(s, t, e);
        case Notified(_, _) => ResetStep(s, t, e);
        case Verdict(_, _) => VerdictStep(s, t, e);
      }
    }
  }

  lemma StepKeepsLog(s: State, t: Thread, c: Choice)
    requires Good(s) && t < |s.places| && Step(s, t, c).Some?
    ensures LogMatches(Step(s, t, c).value) && IsSound(Step(s, t, c).value.log)
  {
    StepMatchesLog(s, t, c);
    var e := MoveOf(s, t, c).value;
    if e.event.Some? {
      StepIsSound(s, t, c);
      SoundStep(s.log, e.event.value);
    }
  }

  lemma StepKeepsGood(s: State, t: Thread, c: Choice)
    requires Good(s) && t < |s.places| && Step(s, t, c).Some?
    ensures Good(Step(s, t, c).value)
  {
    StepKeepsLocks(s, t, c);
    StepKeepsLog(s, t, c);
  }

  ghost predicate Follows(s: State, n: State) {
    exists t: nat, c :: t < |s.places| && Step(s, t, c) == Some(n)
  }

  ghost predicate IsRun(run: seq<State>) {
    run != [] && forall i :: 0 <= i < |run| - 1 ==> Follows(run[i], run[i + 1])
  }

  function Last(run: seq<State>): State
    requires run != []
  {
    run[|run| - 1]
  }

  ghost predicate AllIdle(places: seq<Place>) {
    forall t :: 0 <= t < |places| ==> places[t] == Idle
  }

  lemma IdleHoldsNothing(places: seq<Place>, holds: Place -> bool)
    requires AllIdle(places) && !holds(Idle)
    ensures Owns(None, Holding(places, holds))
  {
    forall t | 0 <= t < |places| ensures !Holding(places, holds)[t] {
      HoldingAt(places, holds, t);
    }
  }

  lemma InitialIsGood(s: State)
    requires IsInitial(s)
    ensures Good(s)
  {
    IdleHoldsNothing(s.places, HoldsRole);
    IdleHoldsNothing(s.places, HoldsPartner);
    IdleHoldsNothing(s.places, HoldsCallback);
  }

  lemma {:induction false} RunIsGood(run: seq<State>, i: nat)
    requires IsRun(run) && IsInitial(run[0]) && i < |run|
    ensures Good(run[i])
  {
    if i > 0 {
      RunIsGood(run, i - 1);
      assert Follows(run[i - 1], run[i]);
      var t: nat, c :| t < |run[i - 1].places| && Step(run[i - 1], t, c) == Some(run[i]);
      StepKeepsGood(run[i - 1], t, c);
    } else {
      InitialIsGood(run[0]);
    }
  }

  // ----- The properties, on the log itself -----

  /** A write of the thread, not yet decided, with or without a partner recorded since. */
  ghost predicate IsOpenSince(log: seq<Event>, i: nat, a: Attempt) {
    && i < |log| && log[i] == Wrote(a.who)
    && (forall k :: i < k < |log| ==> !log[k].Wrote? && !log[k].Verdict?)
    && (a.added <==> exists k :: i < k < |log| && log[k].PartnerAdded?)
    && (a.timedOut <==> exists k :: i < k < |log| && log[k].TimedOut?)
  }

  lemma {:induction false} PendingMeans(log: seq<Event>) returns (i: nat)
    requires Pending(log).Some?
    ensures IsOpenSince(log, i, Pending(log).value)
  {
    var n := |log| - 1;
    if log[n].Wrote? {
      i := n;
    } else {
      i := PendingMeans(log[..n]);
      assert forall k :: i < k < n ==> log[k] == log[..n][k];
      if Pending(log[..n]).value.added {
        var k :| i < k < n && log[..n][k].PartnerAdded?;
        assert log[k].PartnerAdded?;
      }
      if Pending(log[..n]).value.timedOut {
        var k :| i < k < n && log[..n][k].TimedOut?;
        assert log[k].TimedOut?;
      }
    }
  }

  /** In every interleaving, success is reported only after a partner was recorded since the write. */
  lemma SuccessMeansPartner(run: seq<State>, j: nat) returns (i: nat, k: nat)
    requires IsRun(run) && IsInitial(run[0])
    requires j < |Last(run).log| && Last(run).log[j].Verdict? && Last(run).log[j].success
    ensures var log := Last(run).log;
            && i < k < j && log[i] == Wrote(log[j].who) && log[k] == PartnerAdded
            && forall m :: i < m < j ==> !log[m].Wrote? && !log[m].Verdict?
  {
    var log := Last(run).log;
    RunIsGood(run, |run| - 1);
    assert IsSoundNext(log[..j], log[j]);
    i := PendingMeans(log[..j]);
    k :| i < k < j && log[..j][k].PartnerAdded?;
    forall m | i < m < j ensures !log[m].Wrote? && !log[m].Verdict? {
      assert log[m] == log[..j][m];
    }
  }

  /** A write stays undecided up to the next verdict. */
  lemma {:induction false} StillPending(log: seq<Event>, i: nat, j: nat)
    requires i < j <= |log| && log[i].Wrote? && forall m :: i < m < j ==> !log[m].Verdict?
    ensures Pending(log[..j]).Some?
    decreases j
  {
    assert log[..j][..j - 1] == log[..j - 1] && log[..j][j - 1] == log[j - 1];
    if i < j - 1 {
      StillPending(log, i, j - 1);
    }
  }

  lemma NoVerdictBetween(log: seq<Event>, i: nat, j: nat)
    requires i < j <= |log| && NoVerdict(log[i..j])
    ensures forall m :: i < m < j ==> !log[m].Verdict?
  {
    forall m | i < m < j ensures !log[m].Verdict? {
      assert log[i..j][m - i] == log[m];
    }
  }

  /**
   * Between a write and the verdict on it no port is reset, by the uevent thread or by another
   * caller, and no other mode is written.
   */
  lemma NoResetWhileSwitching(run: seq<State>, i: nat, k: nat)
    requires IsRun(run) && IsInitial(run[0])
    requires i < k < |Last(run).log| && Last(run).log[i].Wrote? && NoVerdict(Last(run).log[i..k])
    ensures !Last(run).log[k].Reset? && !Last(run).log[k].Wrote?
  {
    var log := Last(run).log;
    RunIsGood(run, |run| - 1);
    NoVerdictBetween(log, i, k);
    StillPending(log, i, k);
    assert IsSoundNext(log[..k], log[k]);
  }

  ghost predicate NoVerdict(log: seq<Event>) {
    forall k :: 0 <= k < |log| ==> !log[k].Verdict?
  }

  /**
   * The verdict on a write is success if and only if the wait for a partner did not time out since; a
   * partner recorded after that, or before the lock is regained, does not count.
   */
  lemma SuccessIff(run: seq<State>, i: nat, j: nat)
    requires IsRun(run) && IsInitial(run[0])
    requires i < j < |Last(run).log| && Last(run).log[i].Wrote? && NoVerdict(Last(run).log[i..j])
    requires Last(run).log[j].Verdict?
    ensures Last(run).log[j].who == Last(run).log[i].who
    ensures Last(run).log[j].success <==> NoTimeOut(Last(run).log[i..j])
  {
    var log := Last(run).log;
    RunIsGood(run, |run| - 1);
    NoVerdictBetween(log, i, j);
    StillPending(log, i, j);
    assert IsSoundNext(log[..j], log[j]);
    var w := PendingMeans(log[..j]);
    SameWrite(run, log[..j], i, w, j);
    NoTimeOutIff(log, i, j, Pending(log[..j]).value);
  }

  lemma NoTimeOutIff(log: seq<Event>, i: nat, j: nat, a: Attempt)
    requires i < j <= |log| && IsOpenSince(log[..j], i, a)
    ensures !a.timedOut <==> NoTimeOut(log[i..j])
  {
    assert forall k :: 0 <= k < j - i ==> log[i..j][k] == log[..j][i + k];
    if a.timedOut {
      var k :| i < k < j && log[..j][k].TimedOut?;
      assert log[i..j][k - i].TimedOut?;
    }
  }

  ghost predicate NoTimeOut(log: seq<Event>) {
    forall k :: 0 <= k < |log| ==> !log[k].TimedOut?
  }

  /** The write that is undecided is the only one since the last verdict. */
  lemma SameWrite(run: seq<State>, log: seq<Event>, i: nat, w: nat, j: nat)
    requires IsRun(run) && IsInitial(run[0]) && j < |Last(run).log| && log == Last(run).log[..j]
    requires i < j && log[i].Wrote? && NoVerdict(Last(run).log[i..j])
    requires Pending(log).Some? && IsOpenSince(log, w, Pending(log).value)
    ensures w == i
  {
    if i < w {
      assert forall m :: 0 <= m < w - i ==> Last(run).log[i..w][m] == Last(run).log[i..j][m];
      NoResetWhileSwitching(run, i, w);
      assert false;
    }
  }

  /** A run leads from the one state to the other. */
  ghost predicate LeadsTo(s: State, n: State) {
    exists run :: IsRun(run) && run[0] == s && Last(run) == n
  }

  lemma OneMore(s: State, m: State, t: Thread, c: Choice) returns (n: State)
    requires LeadsTo(s, m) && t < |m.places| && Step(m, t, c).Some?
    ensures LeadsTo(s, n) && n == Step(m, t, c).value
  {
    n := Step(m, t, c).value;
    var run :| IsRun(run) && run[0] == s && Last(run) == m;
    var more := run + [n];
    assert Follows(m, n);
    forall i | 0 <= i < |more| - 1 ensures Follows(more[i], more[i + 1]) {
      if i < |run| - 1 {
        assert Follows(run[i], run[i + 1]);
      }
    }
    assert Last(more) == n;
  }

  const START := State([Idle, Idle], None, None, None, false, [])

  /** A caller has taken the role lock, written the mode and waits. */
  lemma WaitIsReached()
    ensures LeadsTo(START, State([Idle, Waiting], Some(1), None, None, false, [Wrote(1)]))
  {
    assert IsRun([START]) && Last([START]) == START;
    var s := OneMore(START, START, 1, SwitchMode);
    assert s.places == [Idle, WantRole(true)];
    s := OneMore(START, s, 1, Succeed);
    assert s.places == [Idle, HasRole(true)];
    s := OneMore(START, s, 1, Succeed);
    assert s.places == [Idle, WantPartner];
    s := OneMore(START, s, 1, Succeed);
    assert s.places == [Idle, Writing];
    s := OneMore(START, s, 1, Succeed);
    assert s.places == [Idle, Written];
    s := OneMore(START, s, 1, Succeed);
    assert s.places == [Idle, Waiting] && s.log == [Wrote(1)];
  }

  /** Its wait times out, and only then is a partner about to be recorded. */
  lemma TimeOutIsReached()
    ensures LeadsTo(START, State([UWantPartner, Waking(true)], Some(1), None, None, false, [Wrote(1), TimedOut(1)]))
  {
    WaitIsReached();
    var n := State([Idle, Waiting], Some(1), None, None, false, [Wrote(1)]);
    n := OneMore(START, n, 1, TimeOut);
    assert n.places == [Idle, Waking(true)] && n.log == [Wrote(1), TimedOut(1)];
    n := OneMore(START, n, 0, PartnerEvent);
    assert n.places == [UWantPartner, Waking(true)];
  }

  lemma LatePartnerIsReached() returns (n: State)
    ensures LeadsTo(START, n)
    ensures n == State([Idle, Waking(true)], Some(1), None, None, true, [Wrote(1), TimedOut(1), PartnerAdded])
  {
    TimeOutIsReached();
    n := State([UWantPartner, Waking(true)], Some(1), None, None, false, [Wrote(1), TimedOut(1)]);
    n := OneMore(START, n, 0, Succeed);
    assert n.places == [UHasPartner, Waking(true)];
    n := OneMore(START, n, 0, Succeed);
    assert n.places == [Idle, Waking(true)];
  }

  /** A partner that is recorded between the time-out and the verdict comes too late. */
  lemma PartnerTooLate() returns (n: State)
    ensures IsInitial(START) && LeadsTo(START, n)
    ensures n.log == [Wrote(1), TimedOut(1), PartnerAdded, Verdict(1, false)]
  {
    n := LatePartnerIsReached();
    n := OneMore(START, n, 1, Succeed);
  }

  // ----- No deadlock -----

  /** How many steps a thread needs at most to be idle, if it is let and no partner comes. */
  function Remaining(p: Place): nat {
    match p
    case Idle => 0
    case WantRole(_) => 12
    case HasRole(_) => 11
    case WantPartner => 10
    case Writing => 9
    case Written => 8
    case Waiting => 7
    case Waking(timedOut) => if timedOut then 6 else 9
    case Decided(_) => 5
    case Failed => 4
    case WantNotify(_) => 3
    case Notifying => 2
    case Leaving => 1
    case WantCallback => 2
    case HasCallback => 1
    case UWantPartner => 2
    case UHasPartner => 1
    case UWantCallback => 4
    case UHasCallback => 3
    case UTry => 2
    case UReset => 1
  }

  function Total(places: seq<Place>): nat {
    if places == [] then 0 else Remaining(places[0]) + Total(places[1..])
  }

  lemma {:induction false} TotalUpdate(places: seq<Place>, t: nat, p: Place)
    requires t < |places|
    ensures Total(places[t := p]) == Total(places) - Remaining(places[t]) + Remaining(p)
  {
    if t == 0 {
      assert places[t := p][1..] == places[1..];
    } else {
      assert places[t := p][1..] == places[1..][t - 1 := p];
      TotalUpdate(places[1..], t - 1, p);
    }
  }

  lemma {:induction false} TotalZero(places: seq<Place>)
    requires Total(places) == 0
    ensures AllIdle(places)
  {
    if places != [] {
      TotalZero(places[1..]);
      assert forall t :: 0 < t < |places| ==> places[t] == places[1..][t - 1];
    }
  }

  lemma {:induction false} SomeoneBusy(places: seq<Place>) returns (t: nat)
    requires Total(places) > 0
    ensures t < |places| && places[t] != Idle
  {
    if places[0] != Idle {
      t := 0;
    } else {
      t := SomeoneBusy(places[1..]);
      t := t + 1;
    }
  }

  /** The thread can move on and is then closer to idle. */
  ghost predicate Advances(s: State, t: Thread, c: Choice) {
    && t < |s.places| && Step(s, t, c).Some?
    && Remaining(MoveOf(s, t, c).value.place) < Remaining(s.places[t])
  }

  /** A place moves on if it holds a lock others do not wait behind, or if the locks it wants are free. */
  lemma CanMove(p: Place, t: Thread, free: View)
    requires p != Idle
    requires HoldsCallback(p) || (free.callback && (HoldsPartner(p) || (free.partner && (HoldsRole(p) || free.role))))
    ensures Move(p, t, free, TimeOut).Some? && Remaining(Move(p, t, free, TimeOut).value.place) < Remaining(p)
  {
  }

  /** The holder of the innermost lock moves on; without any lock held, everyone does. */
  lemma SomeoneAdvances(s: State) returns (t: Thread)
    requires Good(s) && Total(s.places) > 0
    ensures Advances(s, t, TimeOut)
  {
    if s.callback.Some? {
      t := s.callback.value;
      HoldingAt(s.places, HoldsCallback, t);
    } else if s.partner.Some? {
      t := s.partner.value;
      HoldingAt(s.places, HoldsPartner, t);
    } else if s.role.Some? {
      t := s.role.value;
      HoldingAt(s.places, HoldsRole, t);
    } else {
      t := SomeoneBusy(s.places);
    }
    CanMove(s.places[t], t, ViewOf(s));
  }

  /** Some call that is not idle can take its next step, after which less is left to do. */
  lemma SomeStep(s: State) returns (n: State)
    requires Good(s) && Total(s.places) > 0
    ensures Good(n) && Follows(s, n) && Total(n.places) < Total(s.places)
  {
    var t := SomeoneAdvances(s);
    n := Step(s, t, TimeOut).value;
    StepKeepsGood(s, t, TimeOut);
    TotalUpdate(s.places, t, n.places[t]);
  }

  lemma StartEarlier(s: State, rest: seq<State>)
    requires IsRun(rest) && Follows(s, rest[0])
    ensures IsRun([s] + rest) && Last([s] + rest) == Last(rest)
  {
    var run := [s] + rest;
    forall i | 0 <= i < |run| - 1 ensures Follows(run[i], run[i + 1]) {
      if i > 0 {
        assert Follows(rest[i - 1], rest[i]);
      }
    }
  }

  /** From every reachable state all calls can finish: the locks never lead to a deadlock. */
  lemma {:induction false} CanAlwaysDrain(s: State) returns (run: seq<State>)
    requires Good(s)
    ensures IsRun(run) && run[0] == s
    ensures AllIdle(Last(run).places)
    decreases Total(s.places)
  {
    if Total(s.places) == 0 {
      TotalZero(s.places);
      run := [s];
    } else {
      var n := SomeStep(s);
      var rest := CanAlwaysDrain(n);
      StartEarlier(s, rest);
      run := [s] + rest;
    }
  }

  lemma NoReachableDeadlock(run: seq<State>) returns (rest: seq<State>)
    requires IsRun(run) && IsInitial(run[0])
    ensures IsRun(rest) && rest[0] == Last(run)
    ensures AllIdle(Last(rest).places)
  {
    RunIsGood(run, |run| - 1);
    rest := CanAlwaysDrain(Last(run));
  }
}
