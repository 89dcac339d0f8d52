/** Converting the driver's interface matrix into a chip mode that the expansion can work on. */
module IfaceMatrix {
  import opened Concurrency
  import opened Selections

  /** A limit as the driver gives it: bit i of the mask allows interface type i. */
  datatype LegacyLimit = LegacyLimit(maxLimit: int, mask: nat)
  type LegacyCombination = seq<LegacyLimit>

  predicate HasBit(mask: nat, bit: nat) {
    if bit == 0 then mask % 2 == 1 else HasBit(mask / 2, bit - 1)
  }

  function BitOf(t: ConcurrencyType): (bit: nat)
    ensures bit < 5
  {
    match t
    case Sta => 0
    case Ap => 1
    case P2p => 2
    case Nan => 3
    case ApBridged => 4
  }

  function TypesOf(mask: nat): seq<ConcurrencyType> {
    (if HasBit(mask, 0) then [Sta] else []) + (if HasBit(mask, 1) then [Ap] else []) +
    (if HasBit(mask, 4) then [ApBridged] else []) + (if HasBit(mask, 2) then [P2p] else []) +
    (if HasBit(mask, 3) then [Nan] else [])
  }

  /** The types listed are exactly those whose bits are set. */
  lemma TypesAreBits(mask: nat, t: ConcurrencyType)
    ensures t in TypesOf(mask) <==> HasBit(mask, BitOf(t))
  {
  }

  lemma BitsByValue(mask: nat)
    ensures HasBit(mask, 0) <==> mask % 2 == 1
    ensures HasBit(mask, 1) <==> (mask / 2) % 2 == 1
    ensures HasBit(mask, 2) <==> (mask / 4) % 2 == 1
    ensures HasBit(mask, 3) <==> (mask / 8) % 2 == 1
    ensures HasBit(mask, 4) <==> (mask / 16) % 2 == 1
  {
    Halves(mask);
    assert HasBit(mask, 2) == HasBit(mask / 2, 1) && HasBit(mask, 3) == HasBit(mask / 2, 2) == HasBit(mask / 4, 1);
    assert HasBit(mask, 4) == HasBit(mask / 2, 3) == HasBit(mask / 4, 2) == HasBit(mask / 8, 1);
  }

  lemma Halves(mask: nat)
    ensures mask / 2 / 2 == mask / 4 && mask / 4 / 2 == mask / 8 && mask / 8 / 2 == mask / 16
  {
  }

  /** The types by the values of their bits: stations 1, access points 2, peer-to-peer 4, aware 8, bridged
      access points 16. */
  lemma TypesByValue(mask: nat)
    ensures Sta in TypesOf(mask) <==> mask % 2 == 1
    ensures Ap in TypesOf(mask) <==> (mask / 2) % 2 == 1
    ensures P2p in TypesOf(mask) <==> (mask / 4) % 2 == 1
    ensures Nan in TypesOf(mask) <==> (mask / 8) % 2 == 1
    ensures ApBridged in TypesOf(mask) <==> (mask / 16) % 2 == 1
  {
    BitsByValue(mask);
    TypesAreBits(mask, Sta);
    TypesAreBits(mask, Ap);
    TypesAreBits(mask, P2p);
    TypesAreBits(mask, Nan);
    TypesAreBits(mask, ApBridged);
  }

  predicate HasKnownBit(mask: nat) {
    HasBit(mask, 0) || HasBit(mask, 1) || HasBit(mask, 2) || HasBit(mask, 3) || HasBit(mask, 4)
  }

  lemma NoTypeIff(mask: nat)
    ensures TypesOf(mask) == [] <==> !HasKnownBit(mask)
  {
  }

  ghost function ConvertedLimits(limits: LegacyCombination): (r: Combination)
    ensures |r| == |limits|
  {
    if limits == [] then []
    else
      var last := limits[|limits| - 1];
      ConvertedLimits(limits[..|limits| - 1]) + [Limit(last.maxLimit, TypesOf(last.mask))]
  }

  ghost function Converted(matrix: seq<LegacyCombination>): seq<Combination> {
    if matrix == [] then []
    else
      var last := matrix[|matrix| - 1];
      Converted(matrix[..|matrix| - 1]) + if last == [] then [] else [ConvertedLimits(last)]
  }

  /** The masks the conversion refuses are the empty ones. */
  ghost predicate NoEmptyMask(matrix: seq<LegacyCombination>) {
    forall c, l :: c in matrix && l in c ==> l.mask != 0
  }

  /** Every limit is converted in its place: the same number of interfaces, of the types of its mask. */
  lemma {:induction false} LimitsAre(limits: LegacyCombination)
    ensures forall j :: 0 <= j < |limits| ==>
              && ConvertedLimits(limits)[j].maxIfaces == limits[j].maxLimit
              && ConvertedLimits(limits)[j].types == TypesOf(limits[j].mask)
  {
    if limits != [] {
      LimitsAre(limits[..|limits| - 1]);
    }
  }

  /** The combinations that have limits are converted, in order, and the others left out. */
  lemma {:induction false} CombinationsAre(matrix: seq<LegacyCombination>)
    ensures var given := Filter(matrix, (c: LegacyCombination) => c != []);
            && |Converted(matrix)| == |given|
            && forall i :: 0 <= i < |given| ==> Converted(matrix)[i] == ConvertedLimits(given[i])
  {
    if matrix != [] {
      var n := |matrix| - 1;
      CombinationsAre(matrix[..n]);
      FilterLast(matrix[..n], matrix[n], (c: LegacyCombination) => c != []);
      assert matrix == matrix[..n] + [matrix[n]];
    }
  }

  method ConvertLimits(limits: LegacyCombination) returns (ok: bool, converted: Combination)
    ensures ok <==> forall l :: l in limits ==> l.mask != 0
    ensures ok ==> converted == ConvertedLimits(limits)
  {
    converted := [];
    for j := 0 to |limits|
      invariant converted == ConvertedLimits(limits[..j])
      invariant forall l :: l in limits[..j] ==> l.mask != 0
    {
      assert limits[..j + 1][..j] == limits[..j] && limits[..j + 1] == limits[..j] + [limits[j]];
      if limits[j].mask == 0 {
        return false, [];
      }
      converted := converted + [Limit(limits[j].maxLimit, TypesOf(limits[j].mask))];
    }
    assert limits[..|limits|] == limits;
    ok := true;
  }

  method ConvertMatrix(matrix: seq<LegacyCombination>) returns (ok: bool, converted: seq<Combination>)
    ensures ok <==> matrix != [] && NoEmptyMask(matrix)
    ensures ok ==> converted == Converted(matrix)
  {
    converted := [];
    if |matrix| == 0 {
      return false, [];
    }
    for i := 0 to |matrix|
      invariant converted == Converted(matrix[..i]) && NoEmptyMask(matrix[..i])
    {
      assert matrix[..i + 1][..i] == matrix[..i] && matrix[..i + 1] == matrix[..i] + [matrix[i]];
      if |matrix[i]| == 0 {
        continue;
      }
      var fine, limits := ConvertLimits(matrix[i]);
      if !fine {
        assert matrix[i] in matrix;
        return false, [];
      }
      converted := converted + [limits];
    }
    assert matrix[..|matrix|] == matrix;
    ok := true;
  }

  /** Every limit that allows some interface allows a known type. */
  ghost predicate AllKnown(limits: LegacyCombination) {
    forall j :: 0 <= j < |limits| ==> limits[j].maxLimit > 0 ==> HasKnownBit(limits[j].mask)
  }

  lemma RepeatIsEmptyIff(slot: Slot, n: int)
    ensures NoEmptySlot(Repeat(slot, n)) <==> (n > 0 ==> slot != [])
  {
    if n > 0 {
      assert Repeat(slot, n)[0] == slot;
    }
  }

  lemma NoEmptyConcat(a: seq<Slot>, b: seq<Slot>)
    ensures NoEmptySlot(a + b) <==> NoEmptySlot(a) && NoEmptySlot(b)
  {
    assert forall j :: 0 <= j < |a| ==> (a + b)[j] == a[j];
    assert forall j :: 0 <= j < |b| ==> (a + b)[|a| + j] == b[j];
  }

  lemma AllKnownStep(limits: LegacyCombination)
    requires limits != []
    ensures var n := |limits| - 1;
            AllKnown(limits) <==> AllKnown(limits[..n]) && (limits[n].maxLimit > 0 ==> HasKnownBit(limits[n].mask))
  {
  }

  lemma SlotsStep(c: Combination, last: Limit)
    ensures NoEmptySlot(Slots(c + [last])) <==> NoEmptySlot(Slots(c)) && (last.maxIfaces > 0 ==> last.types != [])
  {
    assert (c + [last])[..|c|] == c;
    NoEmptyConcat(Slots(c), Repeat(last.types, last.maxIfaces));
    RepeatIsEmptyIff(last.types, last.maxIfaces);
  }

  lemma {:induction false} LimitsExpandIff(limits: LegacyCombination)
    ensures NoEmptySlot(Slots(ConvertedLimits(limits))) <==> AllKnown(limits)
  {
    if limits != [] {
      var n := |limits| - 1;
      LimitsExpandIff(limits[..n]);
      SlotsStep(ConvertedLimits(limits[..n]), Limit(limits[n].maxLimit, TypesOf(limits[n].mask)));
      NoTypeIff(limits[n].mask);
      AllKnownStep(limits);
    }
  }

  ghost predicate NoEmptySlots(combinations: seq<Combination>) {
    forall i :: 0 <= i < |combinations| ==> NoEmptySlot(Slots(combinations[i]))
  }

  /**
   * The mode the conversion makes can be expanded, without dividing by zero, if and only if every
   * limit that allows an interface has the bit of a known type.
   */
  lemma {:induction false} MatrixExpandsIff(matrix: seq<LegacyCombination>)
    ensures NoEmptySlots(Converted(matrix)) <==> forall i :: 0 <= i < |matrix| ==> AllKnown(matrix[i])
  {
    if matrix != [] {
      var n := |matrix| - 1;
      MatrixExpandsIff(matrix[..n]);
      LimitsExpandIff(matrix[n]);
      ConvertedStep(matrix);
      assert forall i :: 0 <= i < n ==> matrix[..n][i] == matrix[i];
    }
  }

  /** A limit whose mask has bits, but none of a known type, is accepted and cannot be expanded; 32 is such a mask. */
  lemma UnknownTypeIsAccepted(limit: LegacyLimit)
    requires limit.mask != 0 && !HasKnownBit(limit.mask) && limit.maxLimit > 0
    ensures NoEmptyMask([[limit]]) && !NoEmptySlots(Converted([[limit]])) && !HasKnownBit(32)
  {
    MatrixExpandsIff([[limit]]);
    assert !AllKnown([[limit]][0]) by { assert [limit][0] == limit; }
    assert !HasBit(16, 0) && !HasBit(8, 0) && !HasBit(4, 0) && !HasBit(2, 0);
  }

  lemma ConvertedStep(matrix: seq<LegacyCombination>)
    requires matrix != []
    ensures var n := |matrix| - 1;
            NoEmptySlots(Converted(matrix)) <==>
            NoEmptySlots(Converted(matrix[..n])) && NoEmptySlot(Slots(ConvertedLimits(matrix[n])))
  {
    var n := |matrix| - 1;
    var before := Converted(matrix[..n]);
    if matrix[n] == [] {
      assert Converted(matrix) == before + [] == before;
    } else {
      NoEmptyAppend(before, ConvertedLimits(matrix[n]));
    }
  }

  lemma NoEmptyAppend(before: seq<Combination>, c: Combination)
    ensures NoEmptySlots(before + [c]) <==> NoEmptySlots(before) && NoEmptySlot(Slots(c))
  {
    assert forall i :: 0 <= i < |before| ==> (before + [c])[i] == before[i];
    assert (before + [c])[|before|] == c;
  }
}
