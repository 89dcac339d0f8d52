/** Sequences that keep some elements of another one, in order. */
module Selections {

  /** What is left of a sequence without the elements that are not kept. */
  ghost function Filter<T>(whole: seq<T>, keep: T -> bool): seq<T> {
    if whole == [] then []
    else if keep(whole[0]) then [whole[0]] + Filter(whole[1..], keep)
    else Filter(whole[1..], keep)
  }

  lemma {:induction false} FilterIff<T>(whole: seq<T>, keep: T -> bool, x: T)
    ensures x in Filter(whole, keep) <==> x in whole && keep(x)
  {
    if whole != [] {
      FilterIff(whole[1..], keep, x);
      assert whole == [whole[0]] + whole[1..];
    }
  }

  lemma {:induction false} FilterLast<T>(whole: seq<T>, x: T, keep: T -> bool)
    ensures Filter(whole + [x], keep) == Filter(whole, keep) + if keep(x) then [x] else []
  {
    if whole == [] {
      assert whole + [x] == [x] && [x][1..] == [];
    } else {
      assert (whole + [x])[1..] == whole[1..] + [x];
      FilterLast(whole[1..], x, keep);
    }
  }

  /** Filtering twice is filtering by both conditions. */
  lemma {:induction false} FilterTwice<T>(whole: seq<T>, first: T -> bool, second: T -> bool, both: T -> bool)
    requires forall x :: x in whole ==> (both(x) <==> first(x) && second(x))
    ensures Filter(Filter(whole, first), second) == Filter(whole, both)
  {
    if whole != [] {
      assert whole[0] in whole;
      FilterTwice(whole[1..], first, second, both);
      if first(whole[0]) {
        var rest := Filter(whole[1..], first);
        assert ([whole[0]] + rest)[1..] == rest;
      }
    }
  }

  lemma {:induction false} FilterSame<T>(whole: seq<T>, keep: T -> bool, other: T -> bool)
    requires forall x :: x in whole ==> (keep(x) <==> other(x))
    ensures Filter(whole, keep) == Filter(whole, other)
  {
    if whole != [] {
      assert whole[0] in whole;
      FilterSame(whole[1..], keep, other);
    }
  }

  lemma {:induction false} FilterAll<T>(whole: seq<T>, keep: T -> bool)
    requires forall x :: x in whole ==> keep(x)
    ensures Filter(whole, keep) == whole
  {
    if whole != [] {
      assert whole[0] in whole;
      FilterAll(whole[1..], keep);
    }
  }

  /** One occurrence of the element, the first, is gone and everything else is in its place. */
  ghost predicate IsWithoutFirst<T>(whole: seq<T>, x: T, part: seq<T>) {
    exists i: nat :: IsWithoutAt(whole, x, part, i)
  }

  ghost predicate IsWithoutAt<T>(whole: seq<T>, x: T, part: seq<T>, i: nat) {
    i < |whole| && whole[i] == x && x !in whole[..i] && part == whole[..i] + whole[i + 1..]
  }

  lemma WithoutHead<T>(x: T, rest: seq<T>)
    ensures IsWithoutFirst([x] + rest, x, rest)
  {
    var whole := [x] + rest;
    assert whole[..0] + whole[1..] == rest;
    assert IsWithoutAt(whole, x, rest, 0);
  }

  lemma WithoutLater<T>(y: T, rest: seq<T>, x: T, part: seq<T>)
    requires IsWithoutFirst(rest, x, part) && y != x
    ensures IsWithoutFirst([y] + rest, x, [y] + part)
  {
    var i: nat :| IsWithoutAt(rest, x, part, i);
    var whole := [y] + rest;
    assert whole[..i + 1] == [y] + rest[..i] && whole[i + 2..] == rest[i + 1..];
    assert IsWithoutAt(whole, x, [y] + part, i + 1);
  }
}
