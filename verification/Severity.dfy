/** Throttling severity with hysteresis.

    A sensor has an optional threshold and a hysteresis per severity.  A reading reaches a
    level at its threshold and keeps it down to threshold minus hysteresis.  Readings are
    reals here; a threshold that is not configured (NaN) is None.
  */
module Severity {
  import opened Options

  const SEVERITY_COUNT := 7
  const NONE := 0
  const SHUTDOWN := 6

  /** NONE, LIGHT, MODERATE, SEVERE, CRITICAL, EMERGENCY, SHUTDOWN */
  type Level = s: nat | s < SEVERITY_COUNT
  type Thresholds = t: seq<Option<real>> | |t| == SEVERITY_COUNT
    witness [None, None, None, None, None, None, None]
  type Hysteresis = h: seq<real> | |h| == SEVERITY_COUNT
    witness [0.0, 0.0, 0.0, 0.0, 0.0, 0.0, 0.0]

  /** The reading is at or above the threshold of level i. */
  predicate Reached(th: Thresholds, v: real, i: Level) {
    th[i].Some? && th[i].value <= v
  }

  /** The reading is above the lower end of level i. */
  predicate Held(th: Thresholds, hy: Hysteresis, v: real, i: Level) {
    th[i].Some? && th[i].value - hy[i] < v
  }

  /** The highest level up to `top` that the reading reaches, or NONE. */
  ghost function HighestReached(th: Thresholds, v: real, top: Level): (r: Level)
    ensures r <= top && (r == NONE || Reached(th, v, r))
    ensures forall j: Level :: r < j <= top ==> !Reached(th, v, j)
  {
    if top == NONE || Reached(th, v, top) then top else HighestReached(th, v, top - 1)
  }

  ghost function HighestHeld(th: Thresholds, hy: Hysteresis, v: real, top: Level): (r: Level)
    ensures r <= top && (r == NONE || Held(th, hy, v, r))
    ensures forall j: Level :: r < j <= top ==> !Held(th, hy, v, j)
  {
    if top == NONE || Held(th, hy, v, top) then top else HighestHeld(th, hy, v, top - 1)
  }

  ghost function Raw(th: Thresholds, v: real): Level {
    HighestReached(th, v, SHUTDOWN)
  }

  ghost function Keep(th: Thresholds, hy: Hysteresis, v: real): Level {
    HighestHeld(th, hy, v, SHUTDOWN)
  }

  /** The next hot severity: the level reached, or on the way down the level kept. */
  ghost function Hot(th: Thresholds, hy: Hysteresis, prev: Level, v: real): Level {
    if Raw(th, v) < prev then Keep(th, hy, v) else Raw(th, v)
  }

  /** Cold thresholds are hot ones seen upside down. */
  function Mirrored(th: Thresholds): (m: Thresholds)
    ensures forall i: Level :: m[i] == if th[i].None? then None else Some(-th[i].value)
  {
    seq(SEVERITY_COUNT, i requires 0 <= i < SEVERITY_COUNT => if th[i].None? then None else Some(-th[i].value))
  }

  ghost function Cold(th: Thresholds, hy: Hysteresis, prev: Level, v: real): Level {
    Hot(Mirrored(th), hy, prev, -v)
  }

  // ---- The computation ----

  /** r is the best of the levels above i. */
  ghost predicate BestReached(th: Thresholds, v: real, i: Level, r: Level) {
    && (r == NONE || (r > i && Reached(th, v, r)))
    && forall j: Level :: j > i && j > r ==> !Reached(th, v, j)
  }

  ghost predicate BestHeld(th: Thresholds, hy: Hysteresis, v: real, i: Level, r: Level) {
    && (r == NONE || (r > i && Held(th, hy, v, r)))
    && forall j: Level :: j > i && j > r ==> !Held(th, hy, v, j)
  }

  method GetSeverityFromThresholds(hot: Thresholds, cold: Thresholds, hotHysteresis: Hysteresis,
                                   coldHysteresis: Hysteresis,
                                   prevHot: Level, prevCold: Level, value: real)
    returns (retHot: Level, retCold: Level)
    ensures retHot == Hot(hot, hotHysteresis, prevHot, value)
    ensures retCold == Cold(cold, coldHysteresis, prevCold, value)
  {
    var retHotHysteresis: Level, retColdHysteresis: Level := NONE, NONE;
    retHot, retCold := NONE, NONE;
    var i: Level := SHUTDOWN;
    while i > NONE
      invariant BestReached(hot, value, i, retHot)
      invariant BestHeld(hot, hotHysteresis, value, i, retHotHysteresis)
      invariant BestReached(Mirrored(cold), -value, i, retCold)
      invariant BestHeld(Mirrored(cold), coldHysteresis, -value, i, retColdHysteresis)
    {
      if hot[i].Some? && hot[i].value <= value && retHot == NONE {
        retHot := i;
      }
      if hot[i].Some? && hot[i].value - hotHysteresis[i] < value && retHotHysteresis == NONE {
        retHotHysteresis := i;
      }
      if cold[i].Some? && cold[i].value >= value && retCold == NONE {
        retCold := i;
      }
      if cold[i].Some? && cold[i].value + coldHysteresis[i] > value && retColdHysteresis == NONE {
        retColdHysteresis := i;
      }
      i := i - 1;
    }
    if retHot < prevHot {
      retHot := retHotHysteresis;
    }
    if retCold < prevCold {
      retCold := retColdHysteresis;
    }
  }

  // ---- One reading ----

  /** What a run can have left behind: no severity, or that of a configured level. */
  predicate Reachable(th: Thresholds, s: Level) {
    s == NONE || th[s].Some?
  }

  predicate Increasing(th: Thresholds) {
    forall i: Level, j: Level :: 0 < i < j && th[i].Some? && th[j].Some? ==> th[i].value <= th[j].value
  }

  predicate PositiveHysteresis(th: Thresholds, hy: Hysteresis) {
    forall i: Level :: i > 0 && th[i].Some? ==> hy[i] > 0.0
  }

  /** The band of a level does not reach below the threshold of a lower one. */
  predicate NonOverlapping(th: Thresholds, hy: Hysteresis) {
    forall i: Level, j: Level :: 0 < i < j && th[i].Some? && th[j].Some? ==> th[i].value <= th[j].value - hy[j]
  }

  lemma HotIsReachable(th: Thresholds, hy: Hysteresis, prev: Level, v: real)
    ensures Reachable(th, Hot(th, hy, prev, v))
  {
  }

  /** The reading is at or above the threshold of the previous level or of a higher one. */
  ghost predicate StaysUp(th: Thresholds, prev: Level, v: real) {
    prev == NONE || exists k: Level :: k >= prev && th[k].Some? && th[k].value <= v
  }

  /** r is the next hot severity, by thresholds and hysteresis alone: the highest level whose threshold
      is at or below the reading, or, where that would be a fall, whose band reaches below it. */
  ghost predicate IsNextHot(th: Thresholds, hy: Hysteresis, prev: Level, v: real, r: Level) {
    if StaysUp(th, prev, v) then
      && (r == NONE || (th[r].Some? && th[r].value <= v))
      && forall j: Level :: j > r && th[j].Some? ==> v < th[j].value
    else
      && (r == NONE || (th[r].Some? && th[r].value - hy[r] < v))
      && forall j: Level :: j > r && th[j].Some? ==> v <= th[j].value - hy[j]
  }

  lemma HotIsNext(th: Thresholds, hy: Hysteresis, prev: Level, v: real, r: Level)
    ensures IsNextHot(th, hy, prev, v, r) <==> r == Hot(th, hy, prev, v)
  {
    var raw, keep := Raw(th, v), Keep(th, hy, v);
    assert StaysUp(th, prev, v) <==> raw >= prev by {
      if k: Level :| k >= prev && th[k].Some? && th[k].value <= v {
        assert Reached(th, v, k);
      }
      assert raw > NONE ==> Reached(th, v, raw);
    }
    forall j: Level | j > raw && th[j].Some? ensures v < th[j].value {
      assert !Reached(th, v, j);
    }
    forall j: Level | j > keep && th[j].Some? ensures v <= th[j].value - hy[j] {
      assert !Held(th, hy, v, j);
    }
    assert raw > NONE ==> Reached(th, v, raw);
    assert keep > NONE ==> Held(th, hy, v, keep);
  }

  /** A reading at or above the threshold of the previous level or of a higher one leaves at least that level. */
  lemma RisesToReached(th: Thresholds, hy: Hysteresis, prev: Level, v: real, j: Level)
    requires j > NONE && j >= prev && th[j].Some? && th[j].value <= v
    ensures Hot(th, hy, prev, v) >= j
  {
    HotIsNext(th, hy, prev, v, Hot(th, hy, prev, v));
  }

  /** With positive hysteresis that is so for every level. */
  lemma HoldsReached(th: Thresholds, hy: Hysteresis, prev: Level, v: real, j: Level)
    requires PositiveHysteresis(th, hy) && j > NONE && th[j].Some? && th[j].value <= v
    ensures Hot(th, hy, prev, v) >= j
  {
    HotIsNext(th, hy, prev, v, Hot(th, hy, prev, v));
    assert hy[j] > 0.0;
  }

  /** The severity falls below a configured level only if the reading is out of its band. */
  lemma FallsOnlyOutOfBand(th: Thresholds, hy: Hysteresis, prev: Level, v: real)
    requires Reachable(th, prev) && Hot(th, hy, prev, v) < prev
    ensures v <= th[prev].value - hy[prev]
  {
    assert Held(th, hy, v, prev) ==> prev <= Keep(th, hy, v);
  }

  /** With positive bands that do not overlap, exactly then. */
  lemma FallsIffOutOfBand(th: Thresholds, hy: Hysteresis, prev: Level, v: real)
    requires prev > NONE && th[prev].Some? && PositiveHysteresis(th, hy) && NonOverlapping(th, hy)
    ensures Hot(th, hy, prev, v) < prev <==> v <= th[prev].value - hy[prev]
  {
    if Hot(th, hy, prev, v) < prev {
      FallsOnlyOutOfBand(th, hy, prev, v);
    }
    if v <= th[prev].value - hy[prev] {
      forall j: Level | j >= prev ensures !Reached(th, v, j) && !Held(th, hy, v, j) {
        if j > prev && th[j].Some? {
          assert th[prev].value <= th[j].value - hy[j];
          assert hy[j] > 0.0;
        }
      }
    }
  }

  /** Above its previous level the severity is one whose threshold was reached. */
  lemma RisesOnlyByReaching(th: Thresholds, hy: Hysteresis, prev: Level, v: real)
    requires Reachable(th, prev) && NonOverlapping(th, hy)
    requires Hot(th, hy, prev, v) > prev
    ensures Reached(th, v, Hot(th, hy, prev, v))
  {
    var r := Hot(th, hy, prev, v);
    assert prev > NONE && Held(th, hy, v, r) ==> Reached(th, v, prev);
  }

  /** The severity rises only to levels whose thresholds are reached, whatever the reading. */
  ghost predicate RisesByReaching(th: Thresholds, hy: Hysteresis) {
    forall prev: Level, v: real {:trigger Hot(th, hy, prev, v)} ::
      Reachable(th, prev) && Hot(th, hy, prev, v) > prev ==> Reached(th, v, Hot(th, hy, prev, v))
  }

  /** Two overlapping bands: halfway between the lower threshold and the bottom of the upper band, the
      reading has left the lower level and is held by a higher one it has not reached. */
  lemma OverlapRisesUnreached(th: Thresholds, hy: Hysteresis, i: Level, j: Level)
    requires Increasing(th) && 0 < i < j && th[i].Some? && th[j].Some? && th[i].value > th[j].value - hy[j]
    ensures !RisesByReaching(th, hy)
  {
    var v := (th[i].value + (th[j].value - hy[j])) / 2.0;
    assert th[j].value - hy[j] < v < th[i].value;
    assert Held(th, hy, v, j);
    forall k: Level | k >= i ensures !Reached(th, v, k) {
      if k > i && th[k].Some? {
        assert th[i].value <= th[k].value;
      }
    }
    assert Raw(th, v) < i && Keep(th, hy, v) >= j;
    assert Hot(th, hy, i, v) == Keep(th, hy, v);
  }

  /** For increasing thresholds: every rise is to a reached level exactly if no bands overlap. */
  lemma RisesByReachingIff(th: Thresholds, hy: Hysteresis)
    requires Increasing(th)
    ensures RisesByReaching(th, hy) <==> NonOverlapping(th, hy)
  {
    if NonOverlapping(th, hy) {
      forall prev: Level, v: real | Reachable(th, prev) && Hot(th, hy, prev, v) > prev
        ensures Reached(th, v, Hot(th, hy, prev, v))
      {
        RisesOnlyByReaching(th, hy, prev, v);
      }
    } else {
      var i: Level, j: Level :| 0 < i < j && th[i].Some? && th[j].Some? && th[i].value > th[j].value - hy[j];
      OverlapRisesUnreached(th, hy, i, j);
    }
  }

  lemma OverlapRaises()
    ensures var th: Thresholds := [None, Some(50.0), Some(51.0), None, None, None, None];
            var hy: Hysteresis := [0.0, 0.25, 5.0, 0.0, 0.0, 0.0, 0.0];
            Increasing(th) && PositiveHysteresis(th, hy) && Hot(th, hy, 1, 49.5) == 2
  {
    var th: Thresholds := [None, Some(50.0), Some(51.0), None, None, None, None];
    var hy: Hysteresis := [0.0, 0.25, 5.0, 0.0, 0.0, 0.0, 0.0];
    assert forall j: Level :: j > 0 ==> !Reached(th, 49.5, j);
    assert Held(th, hy, 49.5, 2);
    assert forall j: Level :: j > 2 ==> !Held(th, hy, 49.5, j);
  }

  lemma PositiveKeepsReached(th: Thresholds, hy: Hysteresis, v: real)
    requires PositiveHysteresis(th, hy)
    ensures Raw(th, v) <= Keep(th, hy, v)
  {
    var r := Raw(th, v);
    if r > NONE {
      assert hy[r] > 0.0;
      assert Held(th, hy, v, r);
    }
  }

  /** Reading the same value again changes nothing, except exactly when the previous
      severity lets the value fall below a level it reaches. */
  lemma RepeatIsStableIff(th: Thresholds, hy: Hysteresis, prev: Level, v: real)
    ensures var s := Hot(th, hy, prev, v);
            Hot(th, hy, s, v) == s <==> !(Keep(th, hy, v) < Raw(th, v) < prev)
  {
  }

  lemma RepeatIsStable(th: Thresholds, hy: Hysteresis, prev: Level, v: real)
    requires PositiveHysteresis(th, hy)
    ensures var s := Hot(th, hy, prev, v); Hot(th, hy, s, v) == s
  {
    PositiveKeepsReached(th, hy, v);
  }

  ghost predicate OnBareThreshold(th: Thresholds, hy: Hysteresis, v: real, r: Level) {
    r > NONE && th[r] == Some(v) && hy[r] == 0.0 && forall j: Level :: j > r ==> !Held(th, hy, v, j)
  }

  /** For bands that are not negative this takes a reading that sits exactly on the
      threshold of the reached level, a zero band there, and no higher band around it. */
  lemma KeepsLessThanReachedIff(th: Thresholds, hy: Hysteresis, v: real)
    requires forall i: Level :: hy[i] >= 0.0
    ensures Keep(th, hy, v) < Raw(th, v) <==> OnBareThreshold(th, hy, v, Raw(th, v))
  {
    var r, k := Raw(th, v), Keep(th, hy, v);
    if k < r {
      assert !Held(th, hy, v, r);
    }
    if OnBareThreshold(th, hy, v, r) {
      assert !Held(th, hy, v, r);
    }
  }

  /** With the default zero hysteresis a steady reading makes the severity flicker. */
  lemma ZeroHysteresisFlickers()
    ensures var th: Thresholds := [None, Some(40.0), Some(50.0), None, None, None, None];
            var hy: Hysteresis := [0.0, 0.0, 0.0, 0.0, 0.0, 0.0, 0.0];
            Increasing(th) && Hot(th, hy, 2, 40.0) == 0 && Hot(th, hy, 0, 40.0) == 1
  {
    var th: Thresholds := [None, Some(40.0), Some(50.0), None, None, None, None];
    var hy: Hysteresis := [0.0, 0.0, 0.0, 0.0, 0.0, 0.0, 0.0];
    assert Reached(th, 40.0, 1) && forall j: Level :: j > 1 ==> !Reached(th, 40.0, j);
    assert forall j: Level :: j > 0 ==> !Held(th, hy, 40.0, j);
  }

  // ---- Streams of readings ----

  /** The severities after each of the readings. */
  ghost predicate IsTrace(th: Thresholds, hy: Hysteresis, readings: seq<real>, severities: seq<Level>) {
    && |severities| == |readings| + 1 && Reachable(th, severities[0])
    && forall i :: 0 <= i < |readings| ==> severities[i + 1] == Hot(th, hy, severities[i], readings[i])
  }

  /** All readings lie closer together than the smallest band. */
  ghost predicate Tight(th: Thresholds, hy: Hysteresis, readings: seq<real>) {
    forall i, j, k: Level :: 0 <= i < |readings| && 0 <= j < |readings| && k > 0 && th[k].Some? ==>
      readings[i] - readings[j] < hy[k]
  }

  lemma {:induction false} TraceReachable(th: Thresholds, hy: Hysteresis, readings: seq<real>, severities: seq<Level>,
                                          i: nat)
    requires IsTrace(th, hy, readings, severities) && i < |severities|
    ensures Reachable(th, severities[i])
  {
    if i > 0 {
      assert severities[i] == Hot(th, hy, severities[i - 1], readings[i - 1]);
      HotIsReachable(th, hy, severities[i - 1], readings[i - 1]);
    }
  }

  /** A level whose threshold one reading reached is not lost by a reading close to it. */
  lemma CloseReadingKeeps(th: Thresholds, hy: Hysteresis, s: Level, v: real, w: real)
    requires Reached(th, v, s) && v - w < hy[s]
    ensures Hot(th, hy, s, w) >= s
  {
    assert Held(th, hy, w, s);
    assert s <= Keep(th, hy, w);
  }

  /** Some reading up to i reached the level the severity has after it. */
  ghost predicate WasReached(th: Thresholds, readings: seq<real>, severities: seq<Level>, i: nat) {
    exists k :: 0 <= k < i && k < |readings| && i < |severities| && Reached(th, readings[k], severities[i])
  }

  /** No chatter: over readings that stay within the smallest band, once the severity has
      risen it never falls again. */
  lemma {:induction false} NoFallAfterRise(th: Thresholds, hy: Hysteresis, readings: seq<real>, severities: seq<Level>,
                                           rise: nat, i: nat)
    requires IsTrace(th, hy, readings, severities) && NonOverlapping(th, hy) && Tight(th, hy, readings)
    requires rise < i < |severities| && severities[rise] < severities[rise + 1]
    ensures WasReached(th, readings, severities, i)
    ensures i > rise + 1 ==> severities[i - 1] <= severities[i]
    decreases i
  {
    TraceReachable(th, hy, readings, severities, i - 1);
    assert severities[i] == Hot(th, hy, severities[i - 1], readings[i - 1]);
    if i == rise + 1 {
      RisesOnlyByReaching(th, hy, severities[rise], readings[rise]);
      assert Reached(th, readings[rise], severities[i]);
    } else {
      NoFallAfterRise(th, hy, readings, severities, rise, i - 1);
      var k :| 0 <= k < i - 1 && k < |readings| && Reached(th, readings[k], severities[i - 1]);
      if severities[i - 1] > 0 {
        CloseReadingKeeps(th, hy, severities[i - 1], readings[k], readings[i - 1]);
      }
      if severities[i] > severities[i - 1] {
        RisesOnlyByReaching(th, hy, severities[i - 1], readings[i - 1]);
        assert Reached(th, readings[i - 1], severities[i]);
      }
    }
  }

  ghost predicate StaysDown(th: Thresholds, prev: Level, v: real) {
    prev == NONE || exists k: Level :: k >= prev && th[k].Some? && th[k].value >= v
  }

  /** The dual of IsNextHot: thresholds from above, bands reaching up. */
  ghost predicate IsNextCold(th: Thresholds, hy: Hysteresis, prev: Level, v: real, r: Level) {
    if StaysDown(th, prev, v) then
      && (r == NONE || (th[r].Some? && th[r].value >= v))
      && forall j: Level :: j > r && th[j].Some? ==> v > th[j].value
    else
      && (r == NONE || (th[r].Some? && th[r].value + hy[r] > v))
      && forall j: Level :: j > r && th[j].Some? ==> v >= th[j].value + hy[j]
  }

  lemma ColdIsNext(th: Thresholds, hy: Hysteresis, prev: Level, v: real, r: Level)
    ensures IsNextCold(th, hy, prev, v, r) <==> r == Cold(th, hy, prev, v)
  {
    var m := Mirrored(th);
    assert StaysDown(th, prev, v) <==> StaysUp(m, prev, -v) by {
      if k: Level :| k >= prev && th[k].Some? && th[k].value >= v {
        assert m[k].Some? && m[k].value <= -v;
      }
      if k: Level :| k >= prev && m[k].Some? && m[k].value <= -v {
        assert th[k].Some? && th[k].value >= v;
      }
    }
    HotIsNext(m, hy, prev, -v, r);
  }

  lemma ColdRisesToReached(th: Thresholds, hy: Hysteresis, prev: Level, v: real, j: Level)
    requires j > NONE && j >= prev && th[j].Some? && th[j].value >= v
    ensures Cold(th, hy, prev, v) >= j
  {
    RisesToReached(Mirrored(th), hy, prev, -v, j);
  }

  lemma ColdHoldsReached(th: Thresholds, hy: Hysteresis, prev: Level, v: real, j: Level)
    requires PositiveHysteresis(th, hy) && j > NONE && th[j].Some? && th[j].value >= v
    ensures Cold(th, hy, prev, v) >= j
  {
    HoldsReached(Mirrored(th), hy, prev, -v, j);
  }

  /** The dual: the cold severity falls only if the reading is at or above its level's band. */
  lemma ColdFallsOnlyOutOfBand(th: Thresholds, hy: Hysteresis, prev: Level, v: real)
    requires Reachable(th, prev) && Cold(th, hy, prev, v) < prev
    ensures v >= th[prev].value + hy[prev]
  {
    FallsOnlyOutOfBand(Mirrored(th), hy, prev, -v);
  }

  lemma ColdRepeatIsStable(th: Thresholds, hy: Hysteresis, prev: Level, v: real)
    requires PositiveHysteresis(th, hy)
    ensures var s := Cold(th, hy, prev, v); Cold(th, hy, s, v) == s
  {
    RepeatIsStable(Mirrored(th), hy, prev, -v);
  }

  /** The dual: with cold thresholds in decreasing order, every cold rise is to a level the reading is
      at or below exactly if no mirrored bands overlap. */
  lemma ColdRisesByReachingIff(th: Thresholds, hy: Hysteresis)
    requires Increasing(Mirrored(th))
    ensures (forall prev: Level, v: real {:trigger Cold(th, hy, prev, v)} ::
               Reachable(th, prev) && Cold(th, hy, prev, v) > prev ==> ColdReached(th, v, Cold(th, hy, prev, v)))
       <==> NonOverlapping(Mirrored(th), hy)
  {
    RisesByReachingIff(Mirrored(th), hy);
    if NonOverlapping(Mirrored(th), hy) {
      forall prev: Level, v: real | Reachable(th, prev) && Cold(th, hy, prev, v) > prev
        ensures ColdReached(th, v, Cold(th, hy, prev, v))
      {
        RisesOnlyByReaching(Mirrored(th), hy, prev, -v);
      }
    } else {
      var prev: Level, w: real :| Reachable(Mirrored(th), prev) && Hot(Mirrored(th), hy, prev, w) > prev
                                  && !Reached(Mirrored(th), w, Hot(Mirrored(th), hy, prev, w));
      assert Cold(th, hy, prev, -w) == Hot(Mirrored(th), hy, prev, w) by { assert -(-w) == w; }
      assert !ColdReached(th, -w, Cold(th, hy, prev, -w));
    }
  }

  predicate ColdReached(th: Thresholds, v: real, k: Level) {
    th[k].Some? && v <= th[k].value
  }

  lemma MirroredTight(th: Thresholds, hy: Hysteresis, readings: seq<real>, mirrored: seq<real>)
    requires Tight(th, hy, readings)
    requires |mirrored| == |readings| && forall k :: 0 <= k < |readings| ==> mirrored[k] == -readings[k]
    ensures Tight(Mirrored(th), hy, mirrored)
  {
    forall a, b, k: Level | 0 <= a < |mirrored| && 0 <= b < |mirrored| && k > 0 && Mirrored(th)[k].Some?
      ensures mirrored[a] - mirrored[b] < hy[k]
    {
      assert readings[b] - readings[a] < hy[k];
    }
  }

  lemma MirroredTrace(th: Thresholds, hy: Hysteresis, readings: seq<real>, mirrored: seq<real>, severities: seq<Level>)
    requires |severities| == |readings| + 1 && Reachable(th, severities[0])
    requires forall k :: 0 <= k < |readings| ==> severities[k + 1] == Cold(th, hy, severities[k], readings[k])
    requires |mirrored| == |readings| && forall k :: 0 <= k < |readings| ==> mirrored[k] == -readings[k]
    ensures IsTrace(Mirrored(th), hy, mirrored, severities)
  {
  }

  /** The same for cold severities and falling readings. */
  lemma ColdNoFallAfterRise(th: Thresholds, hy: Hysteresis, readings: seq<real>, severities: seq<Level>, rise: nat,
                            i: nat)
    requires |severities| == |readings| + 1 && Reachable(th, severities[0])
    requires forall k :: 0 <= k < |readings| ==> severities[k + 1] == Cold(th, hy, severities[k], readings[k])
    requires NonOverlapping(Mirrored(th), hy) && Tight(th, hy, readings)
    requires rise + 1 < i < |severities| && severities[rise] < severities[rise + 1]
    ensures severities[i - 1] <= severities[i]
  {
    var mirrored := seq(|readings|, k requires 0 <= k < |readings| => -readings[k]);
    MirroredTight(th, hy, readings, mirrored);
    MirroredTrace(th, hy, readings, mirrored, severities);
    NoFallAfterRise(Mirrored(th), hy, mirrored, severities, rise, i);
  }
}
