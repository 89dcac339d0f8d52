/** What follows the verdict on a mode switch: the port is set back exactly after a failure, and the client
    is told what was decided, before the role lock is given up. */
module UsbOutcomes {
  import opened Options
  import opened UsbRoleSwitch

  /** What a caller still owes after a verdict. */
  datatype Duty = NoDuty | Undo | Tell(success: bool) | Broken

  predicate IsBy(e: Event, t: Thread) {
    !e.PartnerAdded? && e.who == t
  }

  /** A failure is followed by a reset, and then, as a success at once, by telling the client. */
  function DutyAfter(d: Duty, e: Event): Duty {
    match e
    case Verdict(_, success) => if d != NoDuty then Broken else if success then Tell(true) else Undo
    case Reset(_) => if d == Undo then Tell(false) else Broken
    case Notified(_, success) => if d == NoDuty || d == Tell(success) then NoDuty else Broken
    case _ => if d == NoDuty then NoDuty else Broken
  }

  ghost function DutyOf(log: seq<Event>, t: Thread): Duty {
    if log == [] then NoDuty
    else
      var before, e := DutyOf(log[..|log| - 1], t), log[|log| - 1];
      if IsBy(e, t) then DutyAfter(before, e) else before
  }

  lemma DutyStep(log: seq<Event>, e: Event, t: Thread)
    ensures DutyOf(log + [e], t) == if IsBy(e, t) then DutyAfter(DutyOf(log, t), e) else DutyOf(log, t)
  {
    assert (log + [e])[..|log|] == log;
  }

  /** The duty of a caller, by the place it is in. */
  predicate FitsPlace(p: Place, d: Duty) {
    match p
    case Decided(success) => d == if success then Tell(true) else Undo
    case Failed => d == Undo
    case WantNotify(success) => d == NoDuty || d == Tell(success)
    case _ => d == NoDuty
  }

  lemma MoveFits(p: Place, t: Thread, free: View, c: Choice, d: Duty)
    requires t != UEVENT && IsPlaceOf(p, t) && FitsPlace(p, d) && Move(p, t, free, c).Some?
    ensures var e := Move(p, t, free, c).value;
            FitsPlace(e.place, if e.event.Some? then DutyAfter(d, e.event.value) else d)
  {
  }

  lemma MoveIsBy(p: Place, t: Thread, free: View, c: Choice)
    requires Move(p, t, free, c).Some? && IsPlaceOf(p, t)
    ensures var e := Move(p, t, free, c).value;
            e.event.Some? ==> && (if e.event.value.PartnerAdded? then t == UEVENT else IsBy(e.event.value, t))
                              && (t == UEVENT ==> e.event.value.PartnerAdded? || e.event.value.Reset?)
  {
  }

  /** Every caller's place fits its duty. */
  ghost predicate DutiesFit(s: State) {
    forall t :: 0 < t < |s.places| ==> FitsPlace(s.places[t], DutyOf(s.log, t))
  }

  /** No caller's events break its duty, and nobody writes a mode while some caller has one left. */
  ghost predicate IsDutiful(log: seq<Event>, callers: nat) {
    forall j, t :: 0 <= j < |log| && 0 < t < callers ==> IsDutifulAt(log, j, t)
  }

  ghost predicate IsDutifulAt(log: seq<Event>, j: nat, t: Thread)
    requires j < |log|
  {
    DutyOf(log[..j + 1], t) != Broken && (log[j].Wrote? ==> DutyOf(log[..j], t) == NoDuty)
  }

  /** Events name threads there are; only callers switch modes, and only the uevent thread records partners. */
  ghost predicate AreNamed(log: seq<Event>, threads: nat) {
    forall j :: 0 <= j < |log| && !log[j].PartnerAdded? ==>
      log[j].who < threads && (log[j].who == UEVENT ==> log[j].Reset?)
  }

  ghost predicate IsKept(s: State) {
    LocksMatch(s) && DutiesFit(s) && IsDutiful(s.log, |s.places|) && AreNamed(s.log, |s.places|)
  }

  lemma DutiesStepFit(s: State, t: Thread, c: Choice)
    requires IsKept(s) && t < |s.places| && Step(s, t, c).Some?
    ensures DutiesFit(Step(s, t, c).value)
  {
    var e, n := MoveOf(s, t, c).value, Step(s, t, c).value;
    MoveIsBy(s.places[t], t, ViewOf(s), c);
    forall u | 0 < u < |n.places| ensures FitsPlace(n.places[u], DutyOf(n.log, u)) {
      if e.event.Some? {
        DutyStep(s.log, e.event.value, u);
      }
      if u == t {
        MoveFits(s.places[t], t, ViewOf(s), c, DutyOf(s.log, t));
      }
    }
  }

  /** A caller with a duty holds the role lock. */
  lemma DutyHoldsRole(s: State, t: Thread)
    requires LocksMatch(s) && DutiesFit(s) && 0 < t < |s.places| && DutyOf(s.log, t) != NoDuty
    ensures s.role == Some(t)
  {
    assert FitsPlace(s.places[t], DutyOf(s.log, t));
    HoldingAt(s.places, HoldsRole, t);
  }

  lemma WriterIsDutyFree(s: State, t: Thread, c: Choice, u: Thread)
    requires IsKept(s) && t < |s.places| && Step(s, t, c).Some? && 0 < u < |s.places|
    requires MoveOf(s, t, c).value.event.Some? && MoveOf(s, t, c).value.event.value.Wrote?
    ensures DutyOf(s.log, u) == NoDuty
  {
    MoveLogs(s.places[t], t, ViewOf(s), c);
    HoldingAt(s.places, HoldsRole, t);
    if DutyOf(s.log, u) != NoDuty {
      DutyHoldsRole(s, u);
    }
  }

  lemma DutifulStep(s: State, t: Thread, c: Choice)
    requires IsKept(s) && t < |s.places| && Step(s, t, c).Some?
    ensures IsDutiful(Step(s, t, c).value.log, |s.places|) && AreNamed(Step(s, t, c).value.log, |s.places|)
  {
    var e, n := MoveOf(s, t, c).value, Step(s, t, c).value;
    DutiesStepFit(s, t, c);
    MoveIsBy(s.places[t], t, ViewOf(s), c);
    if e.event.Some? {
      forall j, u | 0 <= j < |n.log| && 0 < u < |s.places| ensures IsDutifulAt(n.log, j, u) {
        if j < |s.log| {
          assert IsDutifulAt(s.log, j, u);
          assert n.log[..j + 1] == s.log[..j + 1] && n.log[..j] == s.log[..j];
        } else {
          assert n.log[..j + 1] == n.log && n.log[..j] == s.log;
          assert FitsPlace(n.places[u], DutyOf(n.log, u));
          if e.event.value.Wrote? {
            WriterIsDutyFree(s, t, c, u);
          }
        }
      }
    }
  }

  lemma {:induction false} RunIsDutiful(run: seq<State>, i: nat)
    requires IsRun(run) && IsInitial(run[0]) && i < |run|
    ensures IsKept(run[i]) && |run[i].places| == |run[0].places|
  {
    if i > 0 {
      RunIsDutiful(run, i - 1);
      assert Follows(run[i - 1], run[i]);
      var t: nat, c :| t < |run[i - 1].places| && Step(run[i - 1], t, c) == Some(run[i]);
      StepKeepsLocks(run[i - 1], t, c);
      DutiesStepFit(run[i - 1], t, c);
      DutifulStep(run[i - 1], t, c);
    } else {
      InitialIsGood(run[0]);
    }
  }

  // ----- On the log itself -----

  /** The duty stays as long as the thread logs nothing. */
  lemma {:induction false} DutyStays(log: seq<Event>, t: Thread, j: nat, m: nat)
    requires j <= m <= |log| && forall i :: j <= i < m ==> !IsBy(log[i], t)
    ensures DutyOf(log[..m], t) == DutyOf(log[..j], t)
    decreases m
  {
    if j < m {
      DutyStays(log, t, j, m - 1);
      assert log[..m] == log[..m - 1] + [log[m - 1]];
      DutyStep(log[..m - 1], log[m - 1], t);
    }
  }

  /** The next event of the thread, if it logs one. */
  lemma {:induction false} NextBy(log: seq<Event>, t: Thread, j: nat, m: nat) returns (k: nat)
    requires j <= m <= |log|
    ensures j <= k <= m && (forall i :: j <= i < k ==> !IsBy(log[i], t)) && (k < m ==> IsBy(log[k], t))
    decreases m - j
  {
    k := j;
    if j < m && !IsBy(log[j], t) {
      k := NextBy(log, t, j + 1, m);
    }
  }

  lemma DutyAtNext(log: seq<Event>, t: Thread, j: nat, m: nat) returns (k: nat)
    requires j <= m <= |log|
    ensures j <= k <= m && (forall i :: j <= i < k ==> !IsBy(log[i], t)) && (k < m ==> IsBy(log[k], t))
    ensures DutyOf(log[..k], t) == DutyOf(log[..j], t)
    ensures k < m ==> DutyOf(log[..k + 1], t) == DutyAfter(DutyOf(log[..j], t), log[k])
    ensures k == m ==> DutyOf(log[..m], t) == DutyOf(log[..j], t)
  {
    k := NextBy(log, t, j, m);
    DutyStays(log, t, j, k);
    if k < m {
      assert log[..k + 1] == log[..k] + [log[k]];
      DutyStep(log[..k], log[k], t);
    }
  }

  lemma VerdictIsDuty(log: seq<Event>, callers: nat, j: nat)
    requires IsDutiful(log, callers) && j < |log| && log[j].Verdict? && 0 < log[j].who < callers
    ensures DutyOf(log[..j + 1], log[j].who) == if log[j].success then Tell(true) else Undo
  {
    assert IsDutifulAt(log, j, log[j].who);
    assert log[..j + 1] == log[..j] + [log[j]];
    DutyStep(log[..j], log[j], log[j].who);
  }

  /** The next thing the thread logs after a failure is the reset. */
  lemma NextIsReset(log: seq<Event>, callers: nat, j: nat, m: nat) returns (k: nat)
    requires IsDutiful(log, callers) && j < m <= |log| && log[j].Verdict? && !log[j].success && 0 < log[j].who < callers
    requires DutyOf(log[..m], log[j].who) != Undo
    ensures j < k < m && log[k] == Reset(log[j].who) && forall i :: j < i < k ==> !IsBy(log[i], log[j].who)
    ensures DutyOf(log[..k + 1], log[j].who) == Tell(false)
  {
    VerdictIsDuty(log, callers, j);
    k := DutyAtNext(log, log[j].who, j + 1, m);
    assert IsDutifulAt(log, k, log[j].who);
  }

  /** The next thing the thread logs with something to tell is telling it. */
  lemma NextIsTold(log: seq<Event>, callers: nat, t: Thread, j: nat, m: nat) returns (k: nat)
    requires IsDutiful(log, callers) && j <= m <= |log| && 0 < t < callers && DutyOf(log[..j], t).Tell?
    requires DutyOf(log[..m], t) != DutyOf(log[..j], t)
    ensures j <= k < m && log[k] == Notified(t, DutyOf(log[..j], t).success)
    ensures forall i :: j <= i < k ==> !IsBy(log[i], t)
  {
    k := DutyAtNext(log, t, j, m);
    assert IsDutifulAt(log, k, t);
  }

  // ----- The properties -----

  /**
   * In every run a mode switch that failed is followed by a reset of the port and then by telling the
   * client of the failure, with nothing else logged by that caller in between, and both before the caller
   * gives up the role lock.
   */
  lemma FailureIsUndone(run: seq<State>, j: nat) returns (k: nat, m: nat)
    requires IsRun(run) && IsInitial(run[0]) && j < |Last(run).log|
    requires Last(run).log[j].Verdict? && !Last(run).log[j].success
    requires Last(run).role != Some(Last(run).log[j].who)
    ensures var log := Last(run).log; var t := log[j].who;
            && j < k < m < |log| && log[k] == Reset(t) && log[m] == Notified(t, false)
            && forall i :: j < i < m && i != k ==> !IsBy(log[i], t)
  {
    var s := Last(run);
    var log, t := s.log, s.log[j].who;
    RunIsDutiful(run, |run| - 1);
    if DutyOf(log, t) != NoDuty {
      DutyHoldsRole(s, t);
    }
    assert log[..|log|] == log;
    k := NextIsReset(log, |s.places|, j, |log|);
    m := NextIsTold(log, |s.places|, t, k + 1, |log|);
  }

  /** In every run a mode switch that succeeded is followed by telling the client so, with no reset before,
      and before the caller gives up the role lock. */
  lemma SuccessIsTold(run: seq<State>, j: nat) returns (m: nat)
    requires IsRun(run) && IsInitial(run[0]) && j < |Last(run).log|
    requires Last(run).log[j].Verdict? && Last(run).log[j].success
    requires Last(run).role != Some(Last(run).log[j].who)
    ensures var log := Last(run).log; var t := log[j].who;
            j < m < |log| && log[m] == Notified(t, true) && forall i :: j < i < m ==> !IsBy(log[i], t)
  {
    var s := Last(run);
    var log, t := s.log, s.log[j].who;
    RunIsDutiful(run, |run| - 1);
    if DutyOf(log, t) != NoDuty {
      DutyHoldsRole(s, t);
    }
    assert log[..|log|] == log;
    VerdictIsDuty(log, |s.places|, j);
    m := NextIsTold(log, |s.places|, t, j + 1, |log|);
  }

  /** In every run the port is set back before any mode is written again, by whatever caller. */
  lemma ResetBeforeNextWrite(run: seq<State>, j: nat, w: nat) returns (k: nat)
    requires IsRun(run) && IsInitial(run[0]) && j < w < |Last(run).log|
    requires Last(run).log[j].Verdict? && !Last(run).log[j].success && Last(run).log[w].Wrote?
    ensures j < k < w && Last(run).log[k] == Reset(Last(run).log[j].who)
  {
    var s := Last(run);
    RunIsDutiful(run, |run| - 1);
    assert IsDutifulAt(s.log, w, s.log[j].who);
    k := NextIsReset(s.log, |s.places|, j, w);
  }

  /** In every run a caller's reset comes after a failure of its own, with nothing of its own in between. */
  lemma ResetMeansFailure(run: seq<State>, k: nat) returns (j: nat)
    requires IsRun(run) && IsInitial(run[0]) && k < |Last(run).log|
    requires Last(run).log[k].Reset? && Last(run).log[k].who != UEVENT
    ensures var log := Last(run).log; var t := log[k].who;
            j < k && log[j] == Verdict(t, false) && forall i :: j < i < k ==> !IsBy(log[i], t)
  {
    var s := Last(run);
    var log, t := s.log, s.log[k].who;
    RunIsDutiful(run, |run| - 1);
    assert IsDutifulAt(log, k, t);
    assert log[..k + 1] == log[..k] + [log[k]];
    DutyStep(log[..k], log[k], t);
    j := WhereOwed(log, t, k);
  }

  lemma {:induction false} WhereOwed(log: seq<Event>, t: Thread, k: nat) returns (j: nat)
    requires k <= |log| && DutyOf(log[..k], t) == Undo
    ensures j < k && log[j] == Verdict(t, false) && forall i :: j < i < k ==> !IsBy(log[i], t)
    decreases k
  {
    assert log[..k] == log[..k - 1] + [log[k - 1]];
    DutyStep(log[..k - 1], log[k - 1], t);
    j := k - 1;
    if !IsBy(log[k - 1], t) {
      j := WhereOwed(log, t, k - 1);
    }
  }

  // ----- Runs that get there -----

  lemma SuccessIsReached() returns (n: State)
    ensures LeadsTo(START, n) && n.role == None
    ensures n.log == [Wrote(1), PartnerAdded, Verdict(1, true), Notified(1, true)]
  {
    n := PartnerIsReached();
    n := OneMore(START, n, 1, Succeed);
    assert n.places == [Idle, Waking(false)];
    n := OneMore(START, n, 1, Succeed);
    assert n.places == [Idle, Decided(true)] && n.log == [Wrote(1), PartnerAdded, Verdict(1, true)];
    n := Told(n);
  }

  lemma PartnerIsReached() returns (n: State)
    ensures LeadsTo(START, n) && n == State([Idle, Waiting], Some(1), None, None, true, [Wrote(1), PartnerAdded])
  {
    WaitIsReached();
    n := State([Idle, Waiting], Some(1), None, None, false, [Wrote(1)]);
    n := OneMore(START, n, 0, PartnerEvent);
    assert n.places == [UWantPartner, Waiting];
    n := OneMore(START, n, 0, Succeed);
    assert n.places == [UHasPartner, Waiting];
    n := OneMore(START, n, 0, Succeed);
    assert n.places == [Idle, Waiting] && n.log == [Wrote(1), PartnerAdded];
  }

  /** From a success on: the locks are given up one after the other, and the client is told. */
  lemma Told(s: State) returns (n: State)
    requires LeadsTo(START, s) && s == State([Idle, Decided(true)], Some(1), Some(1), None, s.partnerUp, s.log)
    ensures LeadsTo(START, n) && n.role == None && n.log == s.log + [Notified(1, true)]
  {
    n := OneMore(START, s, 1, Succeed);
    assert n.places == [Idle, WantNotify(true)];
    n := OneMore(START, n, 1, Succeed);
    assert n.places == [Idle, Notifying];
    n := OneMore(START, n, 1, Succeed);
    assert n.places == [Idle, Leaving];
    n := OneMore(START, n, 1, Succeed);
  }

  lemma UeventTries() returns (n: State)
    ensures LeadsTo(START, n) && n == START.(places := [UTry, Idle])
  {
    assert IsRun([START]) && Last([START]) == START;
    n := OneMore(START, START, 0, TypeCEvent);
    assert n.places == [UWantCallback, Idle];
    n := OneMore(START, n, 0, Succeed);
    assert n.places == [UHasCallback, Idle];
    n := OneMore(START, n, 0, Succeed);
    assert n.places == [UTry, Idle];
  }

  /** A port without a partner is set back by the uevent thread while no switch is going on. */
  lemma UeventResetIsReached() returns (n: State)
    ensures LeadsTo(START, n) && n.role == Some(UEVENT) && n.log == [Reset(UEVENT)]
  {
    n := UeventTries();
    n := OneMore(START, n, 0, Succeed);
    assert n.places == [UReset, Idle];
    n := OneMore(START, n, 0, Fail);
  }

  /** Another role than the mode is switched without a verdict; the client is told how it went. */
  lemma RoleSwitchIsTold(success: bool) returns (n: State)
    ensures LeadsTo(START, n) && n.log == [Notified(1, success)]
  {
    assert IsRun([START]) && Last([START]) == START;
    n := OneMore(START, START, 1, SwitchRole);
    assert n.places == [Idle, WantRole(false)];
    n := OneMore(START, n, 1, Succeed);
    assert n.places == [Idle, HasRole(false)];
    n := OneMore(START, n, 1, if success then Succeed else Fail);
    assert n.places == [Idle, WantNotify(success)];
    n := OneMore(START, n, 1, Succeed);
  }

  /** A query of the ports takes the callback lock only. */
  lemma QueryIsReached() returns (n: State)
    ensures LeadsTo(START, n) && n == START.(places := [Idle, HasCallback], callback := Some(1))
  {
    assert IsRun([START]) && Last([START]) == START;
    n := OneMore(START, START, 1, Query);
    assert n.places == [Idle, WantCallback];
    n := OneMore(START, n, 1, Succeed);
    assert n.places == [Idle, HasCallback];
  }
}
