/** What an expanded combination means: placing interfaces into slots.

    The chip admits a request by enumerating choices and comparing counts.  Here that
    search is shown to decide a matching problem: whether the wanted interfaces can all
    be put into different slots, each of which allows the interface's type.
  */
module Matching {
  import opened Concurrency

  /** Slot p[i] takes interface i: its types allow it and no slot is used twice. */
  ghost predicate IsPlacement(slots: seq<Slot>, wanted: seq<ConcurrencyType>, p: seq<nat>) {
    && |p| == |wanted|
    && (forall i :: 0 <= i < |p| ==> p[i] < |slots| && wanted[i] in slots[p[i]])
    && Injective(p)
  }

  ghost predicate Injective(p: seq<nat>) {
    forall i, j :: 0 <= i < j < |p| ==> p[i] != p[j]
  }

  ghost predicate Placeable(slots: seq<Slot>, wanted: seq<ConcurrencyType>) {
    exists p :: IsPlacement(slots, wanted, p)
  }

  /** Some combination of the mode has room for all wanted interfaces. */
  ghost predicate Fits(combinations: seq<Combination>, wanted: seq<ConcurrencyType>) {
    exists i :: 0 <= i < |combinations| && Placeable(Slots(combinations[i]), wanted)
  }

  /** The configuration a chip is built with: every combination can be expanded. */
  ghost predicate Expandable(combinations: seq<Combination>) {
    forall i :: 0 <= i < |combinations| ==>
      NoEmptySlot(Slots(combinations[i])) && NoOverflow(Slots(combinations[i]))
  }

  /** There are at least as many interfaces of every type as wanted. */
  ghost predicate Covers(counts: Counts, wanted: seq<ConcurrencyType>) {
    forall t :: t in counts && multiset(wanted)[t] <= counts[t]
  }

  ghost predicate SubMultiset<T>(a: seq<T>, b: seq<T>) {
    multiset(a) <= multiset(b)
  }

  // ---- Sub-multisets are injective maps into positions ----

  function Without<T>(s: seq<T>, j: nat): (r: seq<T>)
    requires j < |s|
    ensures |r| == |s| - 1
  {
    s[..j] + s[j + 1..]
  }

  lemma WithoutMultiset<T>(s: seq<T>, j: nat)
    requires j < |s|
    ensures multiset(s) == multiset(Without(s, j)) + multiset{s[j]}
  {
    assert s == s[..j] + [s[j]] + s[j + 1..];
  }

  lemma Cancel<T>(a: multiset<T>, b: multiset<T>, x: T)
    requires a + multiset{x} <= b + multiset{x}
    ensures a <= b
  {
    forall y ensures a[y] <= b[y] {
      assert (a + multiset{x})[y] <= (b + multiset{x})[y];
    }
  }

  /** Position i of `part` is position p[i] of `whole`, and no position is used twice. */
  ghost predicate Occupies<T>(whole: seq<T>, part: seq<T>, p: seq<nat>) {
    && |p| == |part|
    && (forall i :: 0 <= i < |p| ==> p[i] < |whole| && whole[p[i]] == part[i])
    && Injective(p)
  }

  lemma {:induction false} OccupiesIsSub<T>(whole: seq<T>, part: seq<T>, p: seq<nat>)
    requires Occupies(whole, part, p)
    ensures SubMultiset(part, whole)
  {
    if part != [] {
      var n := |part| - 1;
      var j := p[n];
      var q := seq(n, i requires 0 <= i < n => if p[i] > j then p[i] - 1 else p[i]);
      OccupiesIsSub(Without(whole, j), part[..n], q);
      WithoutMultiset(whole, j);
      assert part == part[..n] + [part[n]];
    }
  }

  lemma Reinsert<T>(whole: seq<T>, part: seq<T>, j: nat, q: seq<nat>) returns (p: seq<nat>)
    requires j < |whole| && Occupies(Without(whole, j), part, q)
    ensures Occupies(whole, part + [whole[j]], p)
  {
    p := seq(|q|, i requires 0 <= i < |q| => if q[i] >= j then q[i] + 1 else q[i]) + [j];
  }

  lemma SubWithoutLast<T>(whole: seq<T>, part: seq<T>) returns (j: nat)
    requires SubMultiset(part, whole) && part != []
    ensures j < |whole| && whole[j] == part[|part| - 1]
    ensures SubMultiset(part[..|part| - 1], Without(whole, j))
  {
    var n := |part| - 1;
    assert part == part[..n] + [part[n]];
    assert multiset(part) == multiset(part[..n]) + multiset{part[n]};
    assert part[n] in multiset(whole);
    j :| j < |whole| && whole[j] == part[n];
    WithoutMultiset(whole, j);
    Cancel(multiset(part[..n]), multiset(Without(whole, j)), part[n]);
  }

  lemma {:induction false} SubOccupies<T>(whole: seq<T>, part: seq<T>) returns (p: seq<nat>)
    requires SubMultiset(part, whole)
    ensures Occupies(whole, part, p)
  {
    p := [];
    if part != [] {
      var j := SubWithoutLast(whole, part);
      var q := SubOccupies(Without(whole, j), part[..|part| - 1]);
      p := Reinsert(whole, part[..|part| - 1], j, q);
      assert part == part[..|part| - 1] + [whole[j]];
    }
  }

  // ---- Placements are choices that cover ----

  lemma PlacementGivesChoice(slots: seq<Slot>, wanted: seq<ConcurrencyType>, p: seq<nat>)
    returns (c: seq<ConcurrencyType>)
    requires NoEmptySlot(slots) && IsPlacement(slots, wanted, p)
    ensures IsChoice(slots, c) && SubMultiset(wanted, c)
  {
    c := seq(|slots|, j requires 0 <= j < |slots| => slots[j][0]);
    for i := 0 to |p|
      invariant IsChoice(slots, c)
      invariant forall m :: 0 <= m < i ==> c[p[m]] == wanted[m]
    {
      c := c[p[i] := wanted[i]];
    }
    OccupiesIsSub(c, wanted, p);
  }

  lemma ChoiceGivesPlacement(slots: seq<Slot>, wanted: seq<ConcurrencyType>, c: seq<ConcurrencyType>)
    requires IsChoice(slots, c) && SubMultiset(wanted, c)
    ensures Placeable(slots, wanted)
  {
    var p := SubOccupies(c, wanted);
    assert IsPlacement(slots, wanted, p);
  }

  lemma CoversIsSub(wanted: seq<ConcurrencyType>, c: seq<ConcurrencyType>)
    ensures Covers(Tally(c), wanted) <==> SubMultiset(wanted, c)
  {
  }

  /** Enumerating choices and comparing counts decides whether a placement exists. */
  lemma PlaceableIffCovered(slots: seq<Slot>, expanded: seq<Counts>, wanted: seq<ConcurrencyType>)
    requires NoEmptySlot(slots) && IsExpansion(slots, expanded)
    ensures Placeable(slots, wanted) <==> exists k :: 0 <= k < |expanded| && Covers(expanded[k], wanted)
  {
    if Placeable(slots, wanted) {
      var p :| IsPlacement(slots, wanted, p);
      var c := PlacementGivesChoice(slots, wanted, p);
      var k := ChoiceHasIndex(slots, c);
      CoversIsSub(wanted, c);
      assert Covers(expanded[k], wanted);
    }
    if k :| 0 <= k < |expanded| && Covers(expanded[k], wanted) {
      var c := Picked(slots, Digits(slots, k));
      CoversIsSub(wanted, c);
      ChoiceGivesPlacement(slots, wanted, c);
    }
  }

  /** A count map is listed by the expansion exactly if some choice has these counts. */
  lemma ListedIffChoice(slots: seq<Slot>, expanded: seq<Counts>, counts: Counts)
    requires NoEmptySlot(slots) && IsExpansion(slots, expanded)
    ensures counts in expanded <==> exists c :: IsChoice(slots, c) && Tally(c) == counts
  {
    if c :| IsChoice(slots, c) && Tally(c) == counts {
      var k := ChoiceHasIndex(slots, c);
      assert expanded[k] == counts;
    }
    if counts in expanded {
      var k :| 0 <= k < |expanded| && expanded[k] == counts;
      assert IsChoice(slots, Picked(slots, Digits(slots, k)));
    }
  }

  /** Different indices pick different positions somewhere. */
  lemma IndicesDiffer(slots: seq<Slot>, k: nat, m: nat)
    requires NoEmptySlot(slots) && k < Product(slots) && m < Product(slots) && k != m
    ensures Digits(slots, k) != Digits(slots, m)
  {
    IndexOfDigits(slots, k);
    IndexOfDigits(slots, m);
  }

  // ---- Placements are assignments to limits ----

  /** Interface i counts against limit f[i], which allows its type, and no limit is overrun. */
  ghost predicate IsAssignment(c: Combination, wanted: seq<ConcurrencyType>, f: seq<nat>) {
    && |f| == |wanted|
    && (forall i :: 0 <= i < |f| ==> f[i] < |c| && wanted[i] in c[f[i]].types)
    && forall l: nat :: l in f ==> l < |c| && multiset(f)[l] <= c[l].maxIfaces
  }

  /** The limit each slot comes from. */
  ghost function Owners(c: Combination): seq<nat> {
    if c == [] then [] else
      var n := |c| - 1;
      Owners(c[..n]) + if c[n].maxIfaces <= 0 then [] else seq(c[n].maxIfaces, _ => n)
  }

  lemma {:induction false} OwnersFacts(c: Combination)
    ensures |Owners(c)| == |Slots(c)|
    ensures forall s :: 0 <= s < |Owners(c)| ==> Owners(c)[s] < |c| && Slots(c)[s] == c[Owners(c)[s]].types
  {
    if c != [] {
      OwnersFacts(c[..|c| - 1]);
    }
  }

  lemma {:induction false} SameCount(n: nat, x: nat)
    ensures multiset(seq(n, _ => x)) == multiset{}[x := n]
  {
    if n > 0 {
      SameCount(n - 1, x);
      assert seq(n, _ => x) == seq(n - 1, _ => x) + [x];
    }
  }

  lemma {:induction false} OwnersCount(c: Combination, l: nat)
    ensures multiset(Owners(c))[l] == if l < |c| && c[l].maxIfaces > 0 then c[l].maxIfaces else 0
  {
    if c != [] {
      var n := |c| - 1;
      OwnersCount(c[..n], l);
      if c[n].maxIfaces > 0 {
        SameCount(c[n].maxIfaces, n);
      }
    }
  }

  lemma WithinLimitsIff(c: Combination, f: seq<nat>)
    ensures SubMultiset(f, Owners(c)) <==> forall l: nat :: l in f ==> l < |c| && multiset(f)[l] <= c[l].maxIfaces
  {
    forall l: nat ensures multiset(f)[l] <= multiset(Owners(c))[l] <==>
                          (l in f ==> l < |c| && multiset(f)[l] <= c[l].maxIfaces) {
      OwnersCount(c, l);
      assert l in f <==> multiset(f)[l] > 0;
    }
    if SubMultiset(f, Owners(c)) {
      forall l: nat ensures multiset(f)[l] <= multiset(Owners(c))[l] {
      }
    }
  }

  /** Interfaces can be placed into the slots of a combination exactly if they can be shared out among
      its limits: what the combination says, without slots or an enumeration. */
  lemma PlaceableIffAssigned(c: Combination, wanted: seq<ConcurrencyType>)
    ensures Placeable(Slots(c), wanted) <==> exists f :: IsAssignment(c, wanted, f)
  {
    OwnersFacts(c);
    if p :| IsPlacement(Slots(c), wanted, p) {
      var f := seq(|p|, i requires 0 <= i < |p| => Owners(c)[p[i]]);
      OccupiesIsSub(Owners(c), f, p);
      WithinLimitsIff(c, f);
      assert IsAssignment(c, wanted, f);
    }
    if f :| IsAssignment(c, wanted, f) {
      WithinLimitsIff(c, f);
      var p := SubOccupies(Owners(c), f);
      assert IsPlacement(Slots(c), wanted, p);
    }
  }

  // ---- What keeps a placement ----

  /** Fewer interfaces, in any order, still fit. */
  lemma FitsFewer(combinations: seq<Combination>, wanted: seq<ConcurrencyType>, fewer: seq<ConcurrencyType>)
    requires Fits(combinations, wanted) && SubMultiset(fewer, wanted)
    ensures Fits(combinations, fewer)
  {
    var i :| 0 <= i < |combinations| && Placeable(Slots(combinations[i]), wanted);
    var p :| IsPlacement(Slots(combinations[i]), wanted, p);
    var q := SubOccupies(wanted, fewer);
    var r := seq(|q|, k requires 0 <= k < |q| => p[q[k]]);
    assert IsPlacement(Slots(combinations[i]), fewer, r);
  }

  /** A slot that takes a bridged access point also takes a plain one. */
  ghost predicate BridgedImpliesAp(slots: seq<Slot>) {
    forall j :: 0 <= j < |slots| && ApBridged in slots[j] ==> Ap in slots[j]
  }

  /** One bridged access point of the list becomes a plain one. */
  ghost predicate IsSplit(before: seq<ConcurrencyType>, after: seq<ConcurrencyType>) {
    exists i :: 0 <= i < |before| && before[i] == ApBridged && after == before[i := Ap]
  }

  lemma SplitKeepsPlacement(slots: seq<Slot>, before: seq<ConcurrencyType>, after: seq<ConcurrencyType>)
    requires BridgedImpliesAp(slots) && IsSplit(before, after) && Placeable(slots, before)
    ensures Placeable(slots, after)
  {
    var p :| IsPlacement(slots, before, p);
    assert IsPlacement(slots, after, p);
  }

  /** Number of slots that allow a type. */
  ghost function Offering(slots: seq<Slot>, t: ConcurrencyType): nat {
    if slots == [] then 0 else (if t in slots[0] then 1 else 0) + Offering(slots[1..], t)
  }

  lemma {:induction false} ChoiceWithinOffering(slots: seq<Slot>, c: seq<ConcurrencyType>, t: ConcurrencyType)
    requires IsChoice(slots, c)
    ensures multiset(c)[t] <= Offering(slots, t)
  {
    if slots != [] {
      ChoiceWithinOffering(slots[1..], c[1..], t);
      assert c == [c[0]] + c[1..];
    }
  }

  /** Takes Ap wherever it is allowed, otherwise ApBridged if that is. */
  ghost function PreferAp(slots: seq<Slot>): (c: seq<ConcurrencyType>)
    requires NoEmptySlot(slots)
    ensures IsChoice(slots, c)
  {
    seq(|slots|, j requires 0 <= j < |slots| =>
      if Ap in slots[j] then Ap else if ApBridged in slots[j] then ApBridged else slots[j][0])
  }

  lemma {:induction false} PreferApCount(slots: seq<Slot>)
    requires NoEmptySlot(slots)
    ensures multiset(PreferAp(slots))[Ap] == Offering(slots, Ap)
  {
    if slots != [] {
      PreferApCount(slots[1..]);
      assert PreferAp(slots) == [PreferAp(slots)[0]] + PreferAp(slots[1..]);
    }
  }

  lemma ApsCount(n: nat)
    ensures multiset(seq(n, _ => Ap)) == multiset{}[Ap := n]
  {
    if n > 0 {
      ApsCount(n - 1);
      assert seq(n, _ => Ap) == seq(n - 1, _ => Ap) + [Ap];
    }
  }

  /** A slot row that takes a bridged access point where it takes no plain one has a
      full assignment that cannot survive a split. */
  lemma SplitCounterexample(slots: seq<Slot>, j: nat)
    returns (before: seq<ConcurrencyType>, after: seq<ConcurrencyType>)
    requires NoEmptySlot(slots) && j < |slots| && ApBridged in slots[j] && Ap !in slots[j]
    ensures IsSplit(before, after) && Placeable(slots, before) && !Placeable(slots, after)
  {
    var a := Offering(slots, Ap);
    var aps := seq(a, _ => Ap);
    before, after := [ApBridged] + aps, [Ap] + aps;
    assert before[0] == ApBridged && after == before[0 := Ap];
    var c := PreferAp(slots);
    PreferApCount(slots);
    ApsCount(a);
    assert c[j] == ApBridged;
    assert multiset(before) == multiset{ApBridged} + multiset(aps);
    ChoiceGivesPlacement(slots, before, c);
    assert multiset(after) == multiset{Ap} + multiset(aps);
    if Placeable(slots, after) {
      var p :| IsPlacement(slots, after, p);
      var d := PlacementGivesChoice(slots, after, p);
      ChoiceWithinOffering(slots, d, Ap);
      assert false;
    }
  }

  /** Splitting is harmless in a row of slots exactly if no slot takes a bridged access
      point without taking a plain one. */
  lemma SplitSafeIff(slots: seq<Slot>)
    requires NoEmptySlot(slots)
    ensures BridgedImpliesAp(slots)
       <==> (forall before, after :: IsSplit(before, after) && Placeable(slots, before) ==> Placeable(slots, after))
  {
    if BridgedImpliesAp(slots) {
      forall before, after | IsSplit(before, after) && Placeable(slots, before)
        ensures Placeable(slots, after)
      {
        SplitKeepsPlacement(slots, before, after);
      }
    } else {
      var j :| 0 <= j < |slots| && ApBridged in slots[j] && Ap !in slots[j];
      var before, after := SplitCounterexample(slots, j);
    }
  }

  /** Whatever a combination offers with a bridged access point, some combination offers with a plain one instead. */
  ghost predicate SplitTolerant(combinations: seq<Combination>) {
    forall i, c, k :: HasBridgedAt(combinations, i, c, k) ==> Fits(combinations, c[k := Ap])
  }

  /** A choice of the i-th combination with a bridged access point at k. */
  ghost predicate HasBridgedAt(combinations: seq<Combination>, i: int, c: seq<ConcurrencyType>, k: int) {
    0 <= i < |combinations| && IsChoice(Slots(combinations[i]), c) && 0 <= k < |c| && c[k] == ApBridged
  }

  lemma UpdateMultiset<T>(s: seq<T>, k: nat, x: T)
    requires k < |s|
    ensures multiset(s[k := x]) + multiset{s[k]} == multiset(s) + multiset{x}
  {
    var u := s[k := x];
    WithoutMultiset(s, k);
    WithoutMultiset(u, k);
    assert Without(u, k) == Without(s, k);
  }

  /** If a list is part of another, so is its split part of a split of the other. */
  lemma SplitOfPart(part: seq<ConcurrencyType>, m: nat, whole: seq<ConcurrencyType>) returns (k: nat)
    requires SubMultiset(part, whole) && m < |part| && part[m] == ApBridged
    ensures k < |whole| && whole[k] == ApBridged && SubMultiset(part[m := Ap], whole[k := Ap])
  {
    assert ApBridged in multiset(part);
    k :| 0 <= k < |whole| && whole[k] == ApBridged;
    UpdateMultiset(part, m, Ap);
    UpdateMultiset(whole, k, Ap);
    Cancel(multiset(part[m := Ap]), multiset(whole[k := Ap]), ApBridged);
  }

  lemma SplitFits(combinations: seq<Combination>, before: seq<ConcurrencyType>, after: seq<ConcurrencyType>)
    requires Expandable(combinations) && SplitTolerant(combinations)
    requires Fits(combinations, before) && IsSplit(before, after)
    ensures Fits(combinations, after)
  {
    var i :| 0 <= i < |combinations| && Placeable(Slots(combinations[i]), before);
    var p :| IsPlacement(Slots(combinations[i]), before, p);
    var c := PlacementGivesChoice(Slots(combinations[i]), before, p);
    var m :| 0 <= m < |before| && before[m] == ApBridged && after == before[m := Ap];
    var k := SplitOfPart(before, m, c);
    assert HasBridgedAt(combinations, i, c, k);
    FitsFewer(combinations, c[k := Ap], after);
  }

  /** Any interfaces that fit still fit after a split. */
  ghost predicate SplitsKeepFit(combinations: seq<Combination>) {
    forall before, after :: IsSplit(before, after) && Fits(combinations, before) ==> Fits(combinations, after)
  }

  lemma ChoiceFits(combinations: seq<Combination>, i: nat, c: seq<ConcurrencyType>, k: nat)
    requires i < |combinations| && IsChoice(Slots(combinations[i]), c) && k < |c| && c[k] == ApBridged
    ensures Fits(combinations, c) && IsSplit(c, c[k := Ap])
  {
    ChoiceGivesPlacement(Slots(combinations[i]), c, c);
  }

  /** Splitting is harmless in a mode exactly if every choice of its combinations survives it. */
  lemma ModeSplitSafeIff(combinations: seq<Combination>)
    requires Expandable(combinations)
    ensures SplitTolerant(combinations) <==> SplitsKeepFit(combinations)
  {
    if SplitTolerant(combinations) {
      forall before, after | IsSplit(before, after) && Fits(combinations, before) ensures Fits(combinations, after) {
        SplitFits(combinations, before, after);
      }
    }
    if SplitsKeepFit(combinations) {
      forall i, c, k | HasBridgedAt(combinations, i, c, k) ensures Fits(combinations, c[k := Ap]) {
        ChoiceFits(combinations, i, c, k);
      }
    }
  }

  /** A mode whose limits all allow plain access points where they allow bridged ones is one of them. */
  lemma AllBridgedImplyAp(combinations: seq<Combination>)
    requires forall i :: 0 <= i < |combinations| ==> BridgedImpliesAp(Slots(combinations[i]))
    ensures SplitTolerant(combinations)
  {
    forall i, c, k | HasBridgedAt(combinations, i, c, k) ensures Fits(combinations, c[k := Ap]) {
      var d := c[k := Ap];
      assert IsChoice(Slots(combinations[i]), d);
      ChoiceGivesPlacement(Slots(combinations[i]), d, d);
    }
  }

  /** The converse fails: a split may land in another combination. */
  lemma OtherCombinationTakesSplit()
    ensures var mode: seq<Combination> := [[Limit(1, [ApBridged])], [Limit(1, [Ap])]];
            SplitTolerant(mode) && !BridgedImpliesAp(Slots(mode[0]))
  {
    var mode: seq<Combination> := [[Limit(1, [ApBridged])], [Limit(1, [Ap])]];
    OneSlot(ApBridged);
    OneSlot(Ap);
    assert ApBridged in Slots(mode[0])[0] && Ap !in Slots(mode[0])[0];
    forall i, c, k | HasBridgedAt(mode, i, c, k) ensures Fits(mode, c[k := Ap]) {
      assert c[k := Ap] == [Ap] && IsPlacement(Slots(mode[1]), [Ap], [0]);
      assert Placeable(Slots(mode[1]), [Ap]);
    }
  }

  lemma OneSlot(t: ConcurrencyType)
    ensures Slots([Limit(1, [t])]) == [[t]]
  {
    var c: Combination := [Limit(1, [t])];
    var none: Combination := [];
    assert c[..0] == none && Slots(none) == [];
    assert Slots(c) == Slots(c[..0]) + Repeat([t], 1);
  }

  // ---- The search ----

  /** Room for one more interface of the requested type in one expanded combination? */
  method CanExpandedComboSupport(expanded: Counts, current: Counts, requested: ConcurrencyType) returns (ok: bool)
    requires forall t :: t in expanded && t in current
    ensures ok <==> forall t :: current[t] + (if t == requested then 1 else 0) <= expanded[t]
  {
    var types := [Ap, ApBridged, Nan, P2p, Sta];
    for i := 0 to |types|
      invariant forall m :: 0 <= m < i ==>
        current[types[m]] + (if types[m] == requested then 1 else 0) <= expanded[types[m]]
    {
      var needed := current[types[i]];
      if types[i] == requested {
        needed := needed + 1;
      }
      if needed > expanded[types[i]] {
        return false;
      }
    }
    forall t ensures current[t] + (if t == requested then 1 else 0) <= expanded[t] {
      assert types[0] == Ap && types[1] == ApBridged && types[2] == Nan && types[3] == P2p && types[4] == Sta;
      match t case Ap => case ApBridged => case Nan => case P2p => case Sta =>
    }
    ok := true;
  }

  lemma TallyWithOne(live: seq<ConcurrencyType>, requested: ConcurrencyType, expanded: Counts)
    requires forall t :: t in expanded
    ensures Covers(expanded, live + [requested])
       <==> forall t :: Tally(live)[t] + (if t == requested then 1 else 0) <= expanded[t]
  {
    assert multiset(live + [requested]) == multiset(live) + multiset{requested};
  }

  method AnyExpandedComboSupports(expanded: seq<Counts>, current: Counts, requested: ConcurrencyType,
                                  ghost live: seq<ConcurrencyType>)
    returns (ok: bool)
    requires (forall k, t :: 0 <= k < |expanded| ==> t in expanded[k]) && current == Tally(live)
    ensures ok <==> exists k :: 0 <= k < |expanded| && Covers(expanded[k], live + [requested])
  {
    for k := 0 to |expanded|
      invariant forall m :: 0 <= m < k ==> !Covers(expanded[m], live + [requested])
    {
      TallyWithOne(live, requested, expanded[k]);
      var fits := CanExpandedComboSupport(expanded[k], current, requested);
      if fits {
        return true;
      }
    }
    ok := false;
  }

  /** The admission test for creating an interface while `live` exist. */
  method CanModeSupport(combinations: seq<Combination>, current: Counts, requested: ConcurrencyType,
                        ghost live: seq<ConcurrencyType>)
    returns (ok: bool)
    requires Expandable(combinations) && current == Tally(live)
    ensures ok <==> Fits(combinations, live + [requested])
  {
    for i := 0 to |combinations|
      invariant forall m :: 0 <= m < i ==> !Placeable(Slots(combinations[m]), live + [requested])
    {
      var expanded := Expand(combinations[i]);
      PlaceableIffCovered(Slots(combinations[i]), expanded, live + [requested]);
      var fits := AnyExpandedComboSupports(expanded, current, requested, live);
      if fits {
        return true;
      }
    }
    ok := false;
  }

  /** The requested combination lists only some types; the others are not wanted. */
  ghost predicate Requests(req: Counts, wanted: seq<ConcurrencyType>) {
    forall t :: multiset(wanted)[t] == if t in req then req[t] else 0
  }

  method CanExpandedComboSupportCombo(expanded: Counts, req: Counts, ghost wanted: seq<ConcurrencyType>)
    returns (ok: bool)
    requires (forall t :: t in expanded) && Requests(req, wanted)
    ensures ok <==> Covers(expanded, wanted)
  {
    var types := [Ap, ApBridged, Nan, P2p, Sta];
    for i := 0 to |types|
      invariant forall m :: 0 <= m < i ==> multiset(wanted)[types[m]] <= expanded[types[m]]
    {
      if types[i] !in req {
        continue;
      }
      if req[types[i]] > expanded[types[i]] {
        return false;
      }
    }
    forall t ensures multiset(wanted)[t] <= expanded[t] {
      assert types[0] == Ap && types[1] == ApBridged && types[2] == Nan && types[3] == P2p && types[4] == Sta;
      match t case Ap => case ApBridged => case Nan => case P2p => case Sta =>
    }
    ok := true;
  }

  method AnyExpandedComboSupportsCombo(expanded: seq<Counts>, req: Counts, ghost wanted: seq<ConcurrencyType>)
    returns (ok: bool)
    requires (forall k, t :: 0 <= k < |expanded| ==> t in expanded[k]) && Requests(req, wanted)
    ensures ok <==> exists k :: 0 <= k < |expanded| && Covers(expanded[k], wanted)
  {
    for k := 0 to |expanded|
      invariant forall m :: 0 <= m < k ==> !Covers(expanded[m], wanted)
    {
      var fits := CanExpandedComboSupportCombo(expanded[k], req, wanted);
      if fits {
        return true;
      }
    }
    ok := false;
  }

  /** Could the mode hold the requested interfaces if none were live? */
  method CanModeSupportCombo(combinations: seq<Combination>, req: Counts, ghost wanted: seq<ConcurrencyType>)
    returns (ok: bool)
    requires Expandable(combinations) && Requests(req, wanted)
    ensures ok <==> Fits(combinations, wanted)
  {
    for i := 0 to |combinations|
      invariant forall m :: 0 <= m < i ==> !Placeable(Slots(combinations[m]), wanted)
    {
      var expanded := Expand(combinations[i]);
      PlaceableIffCovered(Slots(combinations[i]), expanded, wanted);
      var fits := AnyExpandedComboSupportsCombo(expanded, req, wanted);
      if fits {
        return true;
      }
    }
    ok := false;
  }
}
