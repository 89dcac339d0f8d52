/** Parsing a blob of IEEE 802.11 information elements (section 9.4.2.1 of IEEE Std 802.11-2016). */
module Elements {
  import opened Bytes
  import opened Options

  const HEADER_LENGTH := 2

  datatype InformationElement = InformationElement(id: byte, data: seq<byte>)
  type Element = e: InformationElement | |e.data| < 256 witness InformationElement(0, [])

  ghost function Encode(e: Element): seq<byte> {
    [e.id, |e.data| as byte] + e.data
  }

  ghost function EncodeAll(elements: seq<Element>): seq<byte> {
    if elements == [] then [] else Encode(elements[0]) + EncodeAll(elements[1..])
  }

  /** No complete element starts here. */
  ghost predicate Truncated(rest: seq<byte>) {
    |rest| < HEADER_LENGTH || |rest| < HEADER_LENGTH + rest[1] as int
  }

  /** The elements fill the blob up to a leftover too short to be one more. */
  ghost predicate IsParse(blob: seq<byte>, elements: seq<Element>) {
    EncodeAll(elements) <= blob && Truncated(blob[|EncodeAll(elements)|..])
  }

  lemma {:induction false} EncodeAppend(elements: seq<Element>, e: Element)
    ensures EncodeAll(elements + [e]) == EncodeAll(elements) + Encode(e)
  {
    if elements == [] {
      assert EncodeAll([e]) == Encode(e) + EncodeAll([]);
      assert elements + [e] == [e];
    } else {
      assert (elements + [e])[1..] == elements[1..] + [e];
      EncodeAppend(elements[1..], e);
    }
  }

  method ParseElements(input: Option<seq<byte>>) returns (ok: bool, elements: seq<Element>)
    ensures ok <==> input.Some?
    ensures ok ==> IsParse(input.value, elements)
  {
    elements := [];
    if input.None? {
      return false, [];
    }
    var blob := input.value;
    var next := 0;
    while next + HEADER_LENGTH <= |blob|
      invariant next <= |blob| && blob[..next] == EncodeAll(elements)
    {
      var length := HEADER_LENGTH + blob[next + 1] as int;
      if next + length > |blob| {
        break;
      }
      var e := InformationElement(blob[next], blob[next + HEADER_LENGTH..next + length]);
      assert blob[next..next + length] == Encode(e);
      assert blob[..next + length] == blob[..next] + blob[next..next + length];
      EncodeAppend(elements, e);
      elements := elements + [e];
      next := next + length;
    }
    ok := true;
  }

  lemma EncodeIsPrefixFree(a: Element, b: Element, afterA: seq<byte>, afterB: seq<byte>)
    requires Encode(a) + afterA == Encode(b) + afterB
    ensures a == b && afterA == afterB
  {
    var whole := Encode(a) + afterA;
    assert whole[0] == a.id && whole[0] == b.id;
    assert whole[1] == |a.data| as byte && whole[1] == |b.data| as byte;
    assert whole[2..2 + |a.data|] == a.data && whole[2..2 + |b.data|] == b.data;
    assert whole[2 + |a.data|..] == afterA && whole[2 + |b.data|..] == afterB;
  }

  /** A blob has one parse, whatever follows the last complete element. */
  lemma {:induction false} ParseIsUnique(a: seq<Element>, b: seq<Element>, restA: seq<byte>, restB: seq<byte>)
    requires EncodeAll(a) + restA == EncodeAll(b) + restB && Truncated(restA) && Truncated(restB)
    ensures a == b && restA == restB
  {
    if a == [] && b == [] {
      assert EncodeAll(a) + restA == restA && EncodeAll(b) + restB == restB;
    } else if a == [] {
      assert EncodeAll(a) + restA == restA;
      NotTruncated(b, restB);
    } else if b == [] {
      assert EncodeAll(b) + restB == restB;
      NotTruncated(a, restA);
    } else {
      assert EncodeAll(a) + restA == Encode(a[0]) + (EncodeAll(a[1..]) + restA);
      assert EncodeAll(b) + restB == Encode(b[0]) + (EncodeAll(b[1..]) + restB);
      EncodeIsPrefixFree(a[0], b[0], EncodeAll(a[1..]) + restA, EncodeAll(b[1..]) + restB);
      ParseIsUnique(a[1..], b[1..], restA, restB);
      assert a == [a[0]] + a[1..] && b == [b[0]] + b[1..];
    }
  }

  /** Where an element starts: behind two bytes and the data of each one before it. */
  ghost function Offset(elements: seq<Element>, k: nat): nat
    requires k <= |elements|
  {
    if k == 0 then 0 else Offset(elements, k - 1) + 2 + |elements[k - 1].data|
  }

  lemma {:induction false} OffsetIsLength(elements: seq<Element>, k: nat)
    requires k <= |elements|
    ensures Offset(elements, k) == |EncodeAll(elements[..k])|
  {
    if k > 0 {
      OffsetIsLength(elements, k - 1);
      assert elements[..k] == elements[..k - 1] + [elements[k - 1]];
      EncodeAppend(elements[..k - 1], elements[k - 1]);
    }
  }

  lemma {:induction false} EncodeConcat(a: seq<Element>, b: seq<Element>)
    ensures EncodeAll(a + b) == EncodeAll(a) + EncodeAll(b)
  {
    if a == [] {
      assert a + b == b;
    } else {
      assert (a + b)[1..] == a[1..] + b;
      EncodeConcat(a[1..], b);
    }
  }

  /** Each element of a parse stands at its offset in the blob: the id, the length, then the data. */
  lemma ElementAt(blob: seq<byte>, elements: seq<Element>, k: nat)
    requires IsParse(blob, elements) && k < |elements|
    ensures var at, e := Offset(elements, k), elements[k];
            && at + 2 + |e.data| <= |blob| && blob[at] == e.id && blob[at + 1] as int == |e.data|
            && blob[at + 2..at + 2 + |e.data|] == e.data
  {
    var before, e, after := elements[..k], elements[k], elements[k + 1..];
    OffsetIsLength(elements, k);
    assert elements == before + ([e] + after);
    EncodeConcat(before, [e] + after);
    assert ([e] + after)[1..] == after;
    var all, at := EncodeAll(elements), |EncodeAll(before)|;
    assert all == EncodeAll(before) + (Encode(e) + EncodeAll(after));
    assert all[at..at + 2 + |e.data|] == Encode(e);
    InPrefix(blob, all, at, Encode(e));
    assert Encode(e)[2..] == e.data;
  }

  lemma InPrefix(blob: seq<byte>, all: seq<byte>, at: nat, part: seq<byte>)
    requires all <= blob && at + |part| <= |all| && all[at..at + |part|] == part && |part| >= 2
    ensures at + |part| <= |blob| && blob[at] == part[0] && blob[at + 1] == part[1]
    ensures blob[at + 2..at + |part|] == part[2..]
  {
    assert all == blob[..|all|];
    assert blob[at..at + |part|] == all[at..at + |part|] == part;
    assert blob[at + 2..at + |part|] == blob[at..at + |part|][2..];
  }

  lemma NotTruncated(elements: seq<Element>, rest: seq<byte>)
    requires elements != []
    ensures !Truncated(EncodeAll(elements) + rest)
  {
    var whole := EncodeAll(elements) + rest;
    assert whole[1] == |elements[0].data| as byte;
  }

  /** Parsing what was encoded, with or without a cut-off element behind it, gives it back. */
  lemma ParseOfEncoding(elements: seq<Element>, rest: seq<byte>, parsed: seq<Element>)
    requires Truncated(rest)
    ensures IsParse(EncodeAll(elements) + rest, parsed) <==> parsed == elements
  {
    var blob := EncodeAll(elements) + rest;
    assert blob[|EncodeAll(elements)|..] == rest;
    if IsParse(blob, parsed) {
      ParseIsUnique(elements, parsed, rest, blob[|EncodeAll(parsed)|..]);
    }
  }
}
