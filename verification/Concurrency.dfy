/** Expansion of a chip mode's concurrency combinations.

    A combination is a list of limits, each saying "up to `maxIfaces` interfaces, drawn
    from these types".  It therefore offers a row of slots, and picking one type per slot
    is a choice.  `Expand` is the mixed-radix enumeration of all choices; the lemmas show
    that an index and a tuple of digits determine each other, so that every choice is
    listed once and nothing else is.
  */
module Concurrency {

  datatype ConcurrencyType = Ap | ApBridged | Nan | P2p | Sta

  datatype Limit = Limit(maxIfaces: int, types: seq<ConcurrencyType>)

  /** The `limits` of a ChipConcurrencyCombination. */
  type Combination = seq<Limit>

  /** The types that one interface position may take. */
  type Slot = seq<ConcurrencyType>

  /** Number of interfaces of each type. */
  type Counts = map<ConcurrencyType, nat>

  const INT32_MAX := 0x7FFF_FFFF

  const ZERO: Counts := map[Ap := 0, ApBridged := 0, Nan := 0, P2p := 0, Sta := 0]

  function Repeat(slot: Slot, n: int): (slots: seq<Slot>)
    ensures |slots| == if n < 0 then 0 else n
    ensures forall j :: 0 <= j < |slots| ==> slots[j] == slot
  {
    if n <= 0 then [] else seq(n, _ => slot)
  }

  /** One slot per interface the combination allows; a negative limit allows none. */
  function Slots(c: Combination): seq<Slot> {
    if c == [] then [] else
      var last := c[|c| - 1];
      Slots(c[..|c| - 1]) + Repeat(last.types, last.maxIfaces)
  }

  /** The enumeration divides by the length of every slot. */
  ghost predicate NoEmptySlot(slots: seq<Slot>) {
    forall j :: 0 <= j < |slots| ==> slots[j] != []
  }

  /** The number of choices. */
  function Product(slots: seq<Slot>): nat {
    if slots == [] then 1 else |slots[0]| * Product(slots[1..])
  }

  /** The positions that choice k picks in the slots, most significant slot first. */
  ghost function Digits(slots: seq<Slot>, k: nat): (ds: seq<nat>)
    requires NoEmptySlot(slots)
    ensures IsDigits(slots, ds)
  {
    if slots == [] then [] else
      ProductPositive(slots[1..]);
      [(k / Product(slots[1..])) % |slots[0]|] + Digits(slots[1..], k % Product(slots[1..]))
  }

  ghost predicate IsDigits(slots: seq<Slot>, ds: seq<nat>) {
    |ds| == |slots| && forall j :: 0 <= j < |slots| ==> ds[j] < |slots[j]|
  }

  /** The types picked by a tuple of digits. */
  ghost function Picked(slots: seq<Slot>, ds: seq<nat>): (c: seq<ConcurrencyType>)
    requires IsDigits(slots, ds)
    ensures IsChoice(slots, c)
  {
    seq(|slots|, j requires 0 <= j < |slots| => slots[j][ds[j]])
  }

  /** One allowed type per slot. */
  ghost predicate IsChoice(slots: seq<Slot>, c: seq<ConcurrencyType>) {
    |c| == |slots| && forall j :: 0 <= j < |c| ==> c[j] in slots[j]
  }

  /** The index a tuple of digits denotes: the inverse of Digits. */
  ghost function Index(slots: seq<Slot>, ds: seq<nat>): nat
    requires |ds| == |slots|
  {
    if slots == [] then 0 else ds[0] * Product(slots[1..]) + Index(slots[1..], ds[1..])
  }

  /** How often each type occurs. */
  ghost function Tally(types: seq<ConcurrencyType>): (counts: Counts)
    ensures forall t :: t in counts && counts[t] == multiset(types)[t]
  {
    map t: ConcurrencyType | true :: multiset(types)[t]
  }

  function Bump(counts: Counts, t: ConcurrencyType): Counts
    requires t in counts
  {
    counts[t := counts[t] + 1]
  }

  // ---- Products ----

  lemma ProductPositive(slots: seq<Slot>)
    requires NoEmptySlot(slots)
    ensures Product(slots) > 0
  {
  }

  lemma {:induction false} ProductConcat(a: seq<Slot>, b: seq<Slot>)
    ensures Product(a + b) == Product(a) * Product(b)
  {
    if a == [] {
      assert a + b == b;
    } else {
      assert (a + b)[1..] == a[1..] + b;
      ProductConcat(a[1..], b);
      var x, y, z := |a[0]|, Product(a[1..]), Product(b);
      assert x * (y * z) == (x * y) * z;
    }
  }

  lemma ProductStep(slots: seq<Slot>, j: nat)
    requires j < |slots|
    ensures Product(slots[..j + 1]) == Product(slots[..j]) * |slots[j]|
    ensures Product(slots[j..]) == |slots[j]| * Product(slots[j + 1..])
  {
    assert slots[..j + 1] == slots[..j] + [slots[j]];
    ProductConcat(slots[..j], [slots[j]]);
    assert Product([slots[j]]) == |slots[j]| * Product([]);
    assert slots[j..][1..] == slots[j + 1..];
  }

  // ---- Division facts ----

  lemma DivUnique(x: int, q: int, r: int, d: int)
    requires d > 0 && x == q * d + r && 0 <= r < d
    ensures x / d == q && x % d == r
  {
    var q', r' := x / d, x % d;
    assert x == q' * d + r';
    var e := q - q';
    assert e * d == r' - r;
    assert e >= 1 ==> e * d >= d;
    assert e <= -1 ==> e * d <= -d;
  }

  lemma ModOfSum(a: int, b: int, n: int)
    requires n > 0
    ensures (a * n + b) % n == b % n
  {
    var q := b / n;
    assert b == q * n + b % n;
    assert a * n + q * n == (a + q) * n;
    DivUnique(a * n + b, a + q, b % n, n);
  }

  /** Reducing k by a multiple of n * s first does not change the digit of weight s. */
  lemma DigitOfRemainder(k: nat, m: nat, n: nat, s: nat)
    requires m > 0 && n > 0 && s > 0 && m * n * s > 0
    ensures ((k % (m * n * s)) / s) % n == (k / s) % n
  {
    var S := m * n * s;
    var q, r := k / S, k % S;
    assert k == q * S + r;
    assert q * S == (q * m * n) * s;
    var rs := r / s;
    assert r == rs * s + r % s;
    assert k == (q * m * n + rs) * s + r % s by {
      assert (q * m * n + rs) * s == (q * m * n) * s + rs * s;
    }
    DivUnique(k, q * m * n + rs, r % s, s);
    ModOfSum(q * m, rs, n);
  }

  // ---- Index and digits determine each other ----

  /** The closed form the enumeration computes for the digit of slot j. */
  lemma {:induction false} DigitFormula(slots: seq<Slot>, k: nat, j: nat)
    requires NoEmptySlot(slots) && j < |slots|
    ensures Product(slots[j + 1..]) > 0
    ensures Digits(slots, k)[j] == (k / Product(slots[j + 1..])) % |slots[j]|
  {
    ProductPositive(slots[j + 1..]);
    if j > 0 {
      var rest := slots[1..];
      ProductPositive(rest);
      DigitFormula(rest, k % Product(rest), j - 1);
      assert rest[j..] == slots[j + 1..];
      RestProduct(slots, j);
      ProductPositive(rest[..j - 1]);
      DigitOfRemainder(k, Product(rest[..j - 1]), |slots[j]|, Product(slots[j + 1..]));
    }
  }

  lemma RestProduct(slots: seq<Slot>, j: nat)
    requires 0 < j < |slots|
    ensures Product(slots[1..]) == Product(slots[1..][..j - 1]) * |slots[j]| * Product(slots[j + 1..])
  {
    var rest := slots[1..];
    assert rest[j..] == slots[j + 1..];
    assert rest == rest[..j - 1] + rest[j - 1..];
    ProductConcat(rest[..j - 1], rest[j - 1..]);
    ProductStep(rest, j - 1);
    var m, n, s := Product(rest[..j - 1]), |slots[j]|, Product(slots[j + 1..]);
    assert m * (n * s) == m * n * s;
  }

  lemma QuotientBound(k: nat, n: nat, p: nat)
    requires p > 0 && k < n * p
    ensures k / p < n && (k / p) % n == k / p
    ensures (k / p) * p + k % p == k
  {
    var q := k / p;
    assert q >= n ==> q * p >= n * p;
    DivUnique(q, 0, q, n);
  }

  lemma {:induction false} IndexOfDigits(slots: seq<Slot>, k: nat)
    requires NoEmptySlot(slots) && k < Product(slots)
    ensures Index(slots, Digits(slots, k)) == k
  {
    if slots != [] {
      ProductPositive(slots[1..]);
      var p := Product(slots[1..]);
      QuotientBound(k, |slots[0]|, p);
      assert Digits(slots, k)[1..] == Digits(slots[1..], k % p);
      IndexOfDigits(slots[1..], k % p);
    }
  }

  lemma DigitPlusRest(d: nat, n: nat, p: nat, rest: nat)
    requires d < n && rest < p
    ensures d * p + rest < n * p
    ensures (d * p + rest) / p == d && (d * p + rest) % p == rest && d % n == d
  {
    assert d * p <= (n - 1) * p;
    assert (n - 1) * p + p == n * p;
    DivUnique(d * p + rest, d, rest, p);
    DivUnique(d, 0, d, n);
  }

  lemma {:induction false} DigitsOfIndex(slots: seq<Slot>, ds: seq<nat>)
    requires NoEmptySlot(slots) && IsDigits(slots, ds)
    ensures Index(slots, ds) < Product(slots)
    ensures Digits(slots, Index(slots, ds)) == ds
  {
    if slots != [] {
      DigitsOfIndex(slots[1..], ds[1..]);
      DigitPlusRest(ds[0], |slots[0]|, Product(slots[1..]), Index(slots[1..], ds[1..]));
      assert ds == [ds[0]] + ds[1..];
    }
  }

  /** Each choice of types is listed at some index. */
  lemma ChoiceHasIndex(slots: seq<Slot>, c: seq<ConcurrencyType>) returns (k: nat)
    requires NoEmptySlot(slots) && IsChoice(slots, c)
    ensures k < Product(slots)
    ensures Picked(slots, Digits(slots, k)) == c
  {
    var ds: seq<nat> := [];
    while |ds| < |slots|
      invariant |ds| <= |slots|
      invariant forall j :: 0 <= j < |ds| ==> ds[j] < |slots[j]| && slots[j][ds[j]] == c[j]
    {
      var d: nat :| d < |slots[|ds|]| && slots[|ds|][d] == c[|ds|];
      ds := ds + [d];
    }
    k := Index(slots, ds);
    DigitsOfIndex(slots, ds);
  }

  // ---- The enumeration ----

  lemma SlotsStep(c: Combination, l: nat)
    requires l < |c|
    ensures Slots(c[..l + 1]) == Slots(c[..l]) + Repeat(c[l].types, c[l].maxIfaces)
  {
    assert c[..l + 1][..l] == c[..l];
  }

  lemma {:induction false} SlotsPrefix(c: Combination, l: nat)
    requires l <= |c|
    ensures Slots(c[..l]) <= Slots(c)
    decreases |c| - l
  {
    if l == |c| {
      assert c[..l] == c;
    } else {
      SlotsStep(c, l);
      SlotsPrefix(c, l + 1);
    }
  }

  /** The slots of limit l start where those of the limits before it end. */
  lemma SlotsRound(c: Combination, l: nat)
    requires l < |c|
    ensures |Slots(c[..l + 1])| == |Slots(c[..l])| + |Repeat(c[l].types, c[l].maxIfaces)| <= |Slots(c)|
    ensures Repeat(c[l].types, c[l].maxIfaces) <= Slots(c)[|Slots(c[..l])|..]
  {
    SlotsStep(c, l);
    SlotsPrefix(c, l + 1);
  }

  /** Products of all prefixes fit the 32-bit counter. */
  ghost predicate NoOverflow(slots: seq<Slot>) {
    forall j :: 0 <= j <= |slots| ==> Product(slots[..j]) <= INT32_MAX
  }

  method CountLimit(num: nat, limit: Limit, ghost slots: seq<Slot>, ghost base: nat)
    returns (num': nat)
    requires base <= |slots| && num == Product(slots[..base])
    requires Repeat(limit.types, limit.maxIfaces) <= slots[base..]
    ensures num' == Product(slots[..base + |Repeat(limit.types, limit.maxIfaces)|])
  {
    num' := num;
    var i := 0;
    while i < limit.maxIfaces
      invariant 0 <= i && (i <= limit.maxIfaces || i == 0) && base + i <= |slots|
      invariant num' == Product(slots[..base + i])
    {
      assert slots[base + i] == slots[base..][i] == Repeat(limit.types, limit.maxIfaces)[i];
      ProductStep(slots, base + i);
      num' := num' * |limit.types|;
      i := i + 1;
    }
  }

  method CountChoices(c: Combination) returns (num: nat)
    requires NoOverflow(Slots(c))
    ensures num == Product(Slots(c)) <= INT32_MAX
  {
    num := 1;
    ghost var j := 0;
    for l := 0 to |c|
      invariant j == |Slots(c[..l])| <= |Slots(c)|
      invariant num == Product(Slots(c)[..j])
    {
      SlotsRound(c, l);
      num := CountLimit(num, c[l], Slots(c), j);
      j := j + |Repeat(c[l].types, c[l].maxIfaces)|;
    }
    assert c[..|c|] == c;
    assert Slots(c)[..j] == Slots(c);
  }

  ghost function Partial(slots: seq<Slot>, k: nat, j: nat): seq<ConcurrencyType>
    requires NoEmptySlot(slots) && j <= |slots|
  {
    Picked(slots, Digits(slots, k))[..j]
  }

  lemma TallyStep(slots: seq<Slot>, k: nat, j: nat)
    requires NoEmptySlot(slots) && j < |slots|
    ensures Product(slots[j + 1..]) > 0
    ensures Tally(Partial(slots, k, j + 1))
         == Bump(Tally(Partial(slots, k, j)), slots[j][(k / Product(slots[j + 1..])) % |slots[j]|])
  {
    DigitFormula(slots, k, j);
    var t := slots[j][Digits(slots, k)[j]];
    assert Partial(slots, k, j + 1) == Partial(slots, k, j) + [t];
    TallyAppend(Partial(slots, k, j), t);
  }

  lemma TallyNothing()
    ensures Tally([]) == ZERO
  {
    forall t: ConcurrencyType ensures t in ZERO && ZERO[t] == 0 {
      match t case Ap => case ApBridged => case Nan => case P2p => case Sta =>
    }
  }

  lemma TallyAppend(types: seq<ConcurrencyType>, t: ConcurrencyType)
    ensures Tally(types + [t]) == Bump(Tally(types), t)
  {
    assert multiset(types + [t]) == multiset(types) + multiset{t};
  }

  ghost predicate Total(combos: seq<Counts>) {
    forall k, t :: 0 <= k < |combos| ==> t in combos[k]
  }

  /** The effect of one slot: every index takes its type. */
  ghost function Bumped(combos: seq<Counts>, types: Slot, span: nat): (r: seq<Counts>)
    requires types != [] && span > 0 && Total(combos)
    ensures |r| == |combos|
  {
    seq(|combos|, k requires 0 <= k < |combos| => Bump(combos[k], types[(k / span) % |types|]))
  }

  method FillSlot(combos: array<Counts>, types: Slot, span: nat)
    requires types != [] && span > 0 && Total(combos[..])
    modifies combos
    ensures combos[..] == Bumped(old(combos[..]), types, span)
  {
    ghost var target := Bumped(combos[..], types, span);
    for k := 0 to combos.Length
      invariant forall m :: 0 <= m < k ==> combos[m] == target[m]
      invariant forall m :: k <= m < combos.Length ==> combos[m] == old(combos[m])
    {
      var ifaceType := types[(k / span) % |types|];
      assert ifaceType in old(combos[..])[k];
      combos[k] := combos[k][ifaceType := combos[k][ifaceType] + 1];
    }
  }

  /** The entries hold the counts of the first j slots. */
  ghost predicate Filled(combos: seq<Counts>, slots: seq<Slot>, j: nat)
    requires NoEmptySlot(slots) && j <= |slots|
  {
    forall k :: 0 <= k < |combos| ==> combos[k] == Tally(Partial(slots, k, j))
  }

  lemma FilledStep(combos: seq<Counts>, slots: seq<Slot>, j: nat)
    requires NoEmptySlot(slots) && j < |slots| && Filled(combos, slots, j)
    ensures Total(combos) && Product(slots[j + 1..]) > 0
    ensures Product(slots[j..]) / |slots[j]| == Product(slots[j + 1..])
    ensures Filled(Bumped(combos, slots[j], Product(slots[j + 1..])), slots, j + 1)
  {
    ProductPositive(slots[j + 1..]);
    ProductStep(slots, j);
    DivUnique(Product(slots[j..]), Product(slots[j + 1..]), 0, |slots[j]|);
    var next := Bumped(combos, slots[j], Product(slots[j + 1..]));
    forall k | 0 <= k < |next|
      ensures next[k] == Tally(Partial(slots, k, j + 1))
    {
      TallyStep(slots, k, j);
    }
  }

  /** All rounds of one limit, whose slots start at `base`; returns the span left after it. */
  method FillLimit(combos: array<Counts>, limit: Limit, span: nat, ghost slots: seq<Slot>, ghost base: nat)
    returns (span': nat, ghost next: nat)
    requires NoEmptySlot(slots) && base <= |slots| && span == Product(slots[base..])
    requires Repeat(limit.types, limit.maxIfaces) <= slots[base..]
    requires Filled(combos[..], slots, base)
    modifies combos
    ensures next == base + |Repeat(limit.types, limit.maxIfaces)| && span' == Product(slots[next..])
    ensures Filled(combos[..], slots, next)
  {
    span', next := span, base;
    var i := 0;
    while i < limit.maxIfaces
      invariant 0 <= i && (i <= limit.maxIfaces || i == 0) && next == base + i <= |slots|
      invariant span' == Product(slots[next..])
      invariant Filled(combos[..], slots, next)
    {
      assert slots[next] == slots[base..][i] == Repeat(limit.types, limit.maxIfaces)[i];
      FilledStep(combos[..], slots, next);
      assert span' / |limit.types| == Product(slots[next + 1..]);
      span' := span' / |limit.types|;
      FillSlot(combos, limit.types, span');
      i, next := i + 1, next + 1;
    }
  }

  /** One entry per choice, holding its counts. */
  ghost predicate IsExpansion(slots: seq<Slot>, expanded: seq<Counts>)
    requires NoEmptySlot(slots)
  {
    && |expanded| == Product(slots)
    && forall k :: 0 <= k < |expanded| ==> expanded[k] == Tally(Picked(slots, Digits(slots, k)))
  }

  lemma FilledAtStart(combos: seq<Counts>, slots: seq<Slot>)
    requires NoEmptySlot(slots) && forall k :: 0 <= k < |combos| ==> combos[k] == ZERO
    ensures Filled(combos, slots, 0)
  {
    forall k | 0 <= k < |combos| ensures Tally(Partial(slots, k, 0)) == ZERO {
      TallyNothing();
    }
  }

  lemma FilledAtEnd(combos: seq<Counts>, slots: seq<Slot>)
    requires NoEmptySlot(slots) && |combos| == Product(slots) && Filled(combos, slots, |slots|)
    ensures IsExpansion(slots, combos)
  {
    forall k | 0 <= k < |combos|
      ensures combos[k] == Tally(Picked(slots, Digits(slots, k)))
    {
      assert Partial(slots, k, |slots|) == Picked(slots, Digits(slots, k));
    }
  }

  /** Expands a combination: entry k holds the counts of choice k. */
  method Expand(c: Combination) returns (expanded: seq<Counts>)
    requires NoEmptySlot(Slots(c)) && NoOverflow(Slots(c))
    ensures IsExpansion(Slots(c), expanded)
  {
    var num := CountChoices(c);
    var combos: array<Counts> := new Counts[num](_ => ZERO);
    var span := num;
    FilledAtStart(combos[..], Slots(c));
    ghost var j := 0;
    for l := 0 to |c|
      invariant j == |Slots(c[..l])| <= |Slots(c)|
      invariant span == Product(Slots(c)[j..])
      invariant Filled(combos[..], Slots(c), j)
    {
      SlotsRound(c, l);
      span, j := FillLimit(combos, c[l], span, Slots(c), j);
    }
    assert c[..|c|] == c;
    expanded := combos[..];
    FilledAtEnd(expanded, Slots(c));
  }
}
