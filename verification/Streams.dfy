/** Joining encoded items into one stream of bytes, and reading such a stream item by item. */
module Streams {
  import opened Bytes
  import opened Options

  type Stream = seq<byte>

  function Join<T>(items: seq<T>, encode: T -> Stream): Stream {
    if items == [] then [] else encode(items[0]) + Join(items[1..], encode)
  }

  /** Items of one width, one after the other. */
  function Split<T>(bytes: Stream, width: nat, decode: Stream -> Option<T>): (items: Option<seq<T>>)
    requires width > 0
  {
    if |bytes| < width then Some([])
    else
      var first, rest := decode(bytes[..width]), Split(bytes[width..], width, decode);
      if first.None? || rest.None? then None else Some([first.value] + rest.value)
  }

  /** Items that say themselves where they end, up to one that is the last. */
  function ReadUntil<E>(bytes: Stream, read: Stream -> Option<(E, nat)>, isLast: E -> bool): Option<seq<E>>
    decreases |bytes|
  {
    var first := read(bytes);
    if first.None? || first.value.1 == 0 || first.value.1 > |bytes| then None
    else if isLast(first.value.0) then Some([])
    else
      var rest := ReadUntil(bytes[first.value.1..], read, isLast);
      if rest.None? then None else Some([first.value.0] + rest.value)
  }

  function Map<S, T>(items: seq<S>, f: S -> T): seq<T> {
    if items == [] then [] else [f(items[0])] + Map(items[1..], f)
  }

  lemma Cut<T>(a: seq<T>, b: seq<T>)
    ensures (a + b)[..|a|] == a && (a + b)[|a|..] == b
  {
  }

  lemma {:induction false} JoinConcat<T>(a: seq<T>, b: seq<T>, encode: T -> Stream)
    ensures Join(a + b, encode) == Join(a, encode) + Join(b, encode)
  {
    if a == [] {
      assert a + b == b;
    } else {
      assert (a + b)[1..] == a[1..] + b;
      JoinConcat(a[1..], b, encode);
    }
  }

  lemma {:induction false} JoinWidth<T>(items: seq<T>, encode: T -> Stream, width: nat)
    requires forall i :: 0 <= i < |items| ==> |encode(items[i])| == width
    ensures |Join(items, encode)| == |items| * width
  {
    if items != [] {
      assert forall i :: 0 <= i < |items[1..]| ==> items[1..][i] == items[i + 1];
      JoinWidth(items[1..], encode, width);
    }
  }

  /** Items of one width are found at multiples of it. */
  lemma {:induction false} JoinAt<T>(items: seq<T>, encode: T -> Stream, width: nat, k: nat)
    requires forall i :: 0 <= i < |items| ==> |encode(items[i])| == width
    requires k < |items|
    ensures (k + 1) * width <= |Join(items, encode)|
    ensures Join(items, encode)[k * width..(k + 1) * width] == encode(items[k])
  {
    var head, rest := encode(items[0]), Join(items[1..], encode);
    assert forall i :: 0 <= i < |items[1..]| ==> items[1..][i] == items[i + 1];
    Cut(head, rest);
    if k > 0 {
      JoinAt(items[1..], encode, width, k - 1);
      assert k * width == width + (k - 1) * width && (k + 1) * width == width + k * width;
      assert (head + rest)[k * width..(k + 1) * width] == rest[(k - 1) * width..k * width];
    }
  }

  lemma {:induction false} SplitOfJoin<T>(items: seq<T>, encode: T -> Stream, width: nat, decode: Stream -> Option<T>)
    requires width > 0
    requires forall i :: 0 <= i < |items| ==> |encode(items[i])| == width && decode(encode(items[i])) == Some(items[i])
    ensures Split(Join(items, encode), width, decode) == Some(items)
  {
    if items != [] {
      assert forall i :: 0 <= i < |items[1..]| ==> items[1..][i] == items[i + 1];
      SplitOfJoin(items[1..], encode, width, decode);
      Cut(encode(items[0]), Join(items[1..], encode));
      assert items == [items[0]] + items[1..];
    }
  }

  /** The item is read back from the front of any stream. */
  ghost predicate ReadsBack<E(!new)>(item: Stream, read: Stream -> Option<(E, nat)>, entry: E) {
    item != [] && forall after :: read(item + after) == Some((entry, |item|))
  }

  lemma ReadOne<E(!new)>(item: Stream, after: Stream, read: Stream -> Option<(E, nat)>, isLast: E -> bool, entry: E)
    requires ReadsBack(item, read, entry)
    ensures isLast(entry) ==> ReadUntil(item + after, read, isLast) == Some([])
    ensures !isLast(entry) && ReadUntil(after, read, isLast).Some? ==>
              ReadUntil(item + after, read, isLast) == Some([entry] + ReadUntil(after, read, isLast).value)
  {
    Cut(item, after);
  }

  /** A stream of items that each read back, ended by a last one, reads back as the items. */
  lemma {:induction false} ReadUntilOfJoin<F, E(!new)>(items: seq<F>, encode: F -> Stream, tail: Stream,
                                                       read: Stream -> Option<(E, nat)>,
                                                       isLast: E -> bool, entry: F -> E, last: E)
    requires forall i :: 0 <= i < |items| ==>
              ReadsBack(encode(items[i]), read, entry(items[i])) && !isLast(entry(items[i]))
    requires ReadsBack(tail, read, last) && isLast(last)
    ensures ReadUntil(Join(items, encode) + tail, read, isLast) == Some(Map(items, entry))
  {
    if items == [] {
      ReadOne(tail, [], read, isLast, last);
      assert tail + [] == tail && Join(items, encode) + tail == tail;
    } else {
      assert forall i :: 0 <= i < |items[1..]| ==> items[1..][i] == items[i + 1];
      ReadUntilOfJoin(items[1..], encode, tail, read, isLast, entry, last);
      var rest := Join(items[1..], encode) + tail;
      assert Join(items, encode) + tail == encode(items[0]) + rest;
      ReadOne(encode(items[0]), rest, read, isLast, entry(items[0]));
    }
  }
}
