/** The debug ring buffer: a list of messages trimmed from the front to a byte limit. */
module RingBuffers {
  import opened Bytes

  type Message = seq<byte>

  ghost function Total(messages: seq<Message>): nat {
    if messages == [] then 0 else |messages[0]| + Total(messages[1..])
  }

  /** The messages left when the oldest are dropped until the rest fit. */
  ghost function Fitting(messages: seq<Message>, limit: nat): seq<Message> {
    if Total(messages) <= limit then messages else Fitting(messages[1..], limit)
  }

  ghost predicate IsSuffix(part: seq<Message>, whole: seq<Message>) {
    |part| <= |whole| && part == whole[|whole| - |part|..]
  }

  /** A suffix that fits, and no longer suffix does. */
  ghost predicate IsLongestFit(part: seq<Message>, whole: seq<Message>, limit: nat) {
    && IsSuffix(part, whole) && Total(part) <= limit
    && forall other :: IsSuffix(other, whole) && Total(other) <= limit ==> |other| <= |part|
  }

  lemma {:induction false} TotalConcat(a: seq<Message>, b: seq<Message>)
    ensures Total(a + b) == Total(a) + Total(b)
  {
    if a == [] {
      assert a + b == b;
    } else {
      assert (a + b)[1..] == a[1..] + b;
      TotalConcat(a[1..], b);
    }
  }

  lemma {:induction false} FittingIsSuffix(messages: seq<Message>, limit: nat)
    ensures IsSuffix(Fitting(messages, limit), messages) && Total(Fitting(messages, limit)) <= limit
    decreases |messages|
  {
    if Total(messages) > limit {
      FittingIsSuffix(messages[1..], limit);
    }
  }

  /** Dropping from the front leaves the one suffix that is longest among those that fit. */
  lemma {:induction false} FittingIsLongest(messages: seq<Message>, limit: nat)
    ensures forall part :: IsLongestFit(part, messages, limit) <==> part == Fitting(messages, limit)
    decreases |messages|
  {
    FittingIsSuffix(messages, limit);
    var fit := Fitting(messages, limit);
    if Total(messages) > limit {
      FittingIsLongest(messages[1..], limit);
      forall other | IsSuffix(other, messages) && Total(other) <= limit ensures |other| <= |fit| {
        assert |other| < |messages| && IsSuffix(other, messages[1..]);
        assert IsLongestFit(fit, messages[1..], limit);
      }
    }
    assert IsLongestFit(fit, messages, limit);
  }

  /** Trimming early loses nothing: the messages already dropped would be dropped anyway. */
  lemma {:induction false} FittingAfterTrim(messages: seq<Message>, more: seq<Message>, limit: nat)
    ensures Fitting(Fitting(messages, limit) + more, limit) == Fitting(messages + more, limit)
    decreases |messages|
  {
    if Total(messages) > limit {
      TotalConcat(messages, more);
      assert (messages + more)[1..] == messages[1..] + more;
      FittingAfterTrim(messages[1..], more, limit);
    }
  }

  datatype Op = Append(input: Message) | Clear

  /** What each call leaves in the buffer, going by the contents before it only. */
  ghost function Contents(run: seq<Op>, limit: nat): seq<Message> {
    if run == [] then []
    else
      var before := Contents(run[..|run| - 1], limit);
      match run[|run| - 1]
      case Clear => []
      case Append(m) => if 0 < |m| <= limit then Fitting(before + [m], limit) else before
  }

  ghost function AcceptedIn(run: seq<Op>, limit: nat): seq<Message> {
    if run == [] then []
    else
      var before := AcceptedIn(run[..|run| - 1], limit);
      match run[|run| - 1]
      case Clear => []
      case Append(m) => if 0 < |m| <= limit then before + [m] else before
  }

  /** After any run the buffer holds the longest fitting suffix of what was accepted since the last clear. */
  lemma {:induction false} RunKeepsLongestFit(run: seq<Op>, limit: nat)
    ensures Contents(run, limit) == Fitting(AcceptedIn(run, limit), limit)
    ensures IsLongestFit(Contents(run, limit), AcceptedIn(run, limit), limit)
  {
    if run != [] {
      RunKeepsLongestFit(run[..|run| - 1], limit);
      match run[|run| - 1]
      case Clear =>
      case Append(m) => FittingAfterTrim(AcceptedIn(run[..|run| - 1], limit), [m], limit);
    }
    FittingIsLongest(AcceptedIn(run, limit), limit);
  }

  lemma NewestFits(before: seq<Message>, m: Message, limit: nat)
    requires |m| <= limit
    ensures var after := Fitting(before + [m], limit); after != [] && after[|after| - 1] == m
  {
    var whole, after := before + [m], Fitting(before + [m], limit);
    FittingIsLongest(whole, limit);
    FittingIsSuffix(whole, limit);
    assert whole[|before|..] == [m] && Total([m]) == |m| + Total([]);
    assert IsSuffix([m], whole);
    assert IsLongestFit(after, whole, limit);
  }

  /** A message that is not empty and not over the limit is kept as the newest; any other changes nothing. */
  lemma NewestIsKept(run: seq<Op>, m: Message, limit: nat)
    ensures var before, after := Contents(run, limit), Contents(run + [Append(m)], limit);
            && (m == [] || |m| > limit ==> after == before)
            && (m != [] && |m| <= limit ==>
                  after != [] && after[|after| - 1] == m && IsLongestFit(after, before + [m], limit))
    ensures Contents(run + [Clear], limit) == []
  {
    assert (run + [Append(m)])[..|run|] == run;
    if |m| <= limit {
      NewestFits(Contents(run, limit), m, limit);
      FittingIsLongest(Contents(run, limit) + [m], limit);
    }
  }

  datatype AppendStatus = Success | IpBufferZero | IpBufferExceededMaxSize | RingBufferCorrupted

  class RingBuffer {
    var data: seq<Message>
    var size: nat
    const maxSize: nat
    ghost var accepted: seq<Message>  // since the last clear
    ghost var run: seq<Op>            // the calls made so far

    ghost predicate Valid()
      reads this
    {
      && data == Contents(run, maxSize) && accepted == AcceptedIn(run, maxSize)
      && data == Fitting(accepted, maxSize) && size == Total(data)
      && forall m :: m in accepted ==> 0 < |m| <= maxSize
    }

    constructor (maxSize: nat)
      ensures Valid() && this.maxSize == maxSize && accepted == [] && data == [] && run == []
    {
      this.maxSize := maxSize;
      data, size, accepted, run := [], 0, [], [];
    }

    method Append(input: Message) returns (status: AppendStatus)
      requires Valid()
      modifies this
      ensures Valid() && run == old(run) + [Op.Append(input)]
      ensures status == IpBufferZero <==> input == []
      ensures status == IpBufferExceededMaxSize <==> |input| > maxSize
      ensures status != RingBufferCorrupted
      ensures accepted == if status == Success then old(accepted) + [input] else old(accepted)
      ensures data == if status == Success then Fitting(old(data) + [input], maxSize) else old(data)
      ensures IsLongestFit(data, accepted, maxSize)
      ensures status == Success ==> data != [] && data[|data| - 1] == input
    {
      FittingIsLongest(accepted, maxSize);
      run := run + [Op.Append(input)];
      assert run[..|run| - 1] == old(run);
      if |input| == 0 {
        return IpBufferZero;
      }
      if |input| > maxSize {
        return IpBufferExceededMaxSize;
      }
      FittingIsSuffix(accepted, maxSize);
      FittingAfterTrim(accepted, [input], maxSize);
      TotalConcat(data, [input]);
      accepted := accepted + [input];
      data := data + [input];
      size := size + |input|;
      while size > maxSize
        invariant size == Total(data) && Fitting(data, maxSize) == Fitting(accepted, maxSize)
        invariant forall m :: m in data ==> 0 < |m| <= maxSize
        invariant data != [] && data[|data| - 1] == input
        invariant accepted == old(accepted) + [input] && run == old(run) + [Op.Append(input)]
        decreases |data|
      {
        if |data[0]| <= 0 || |data[0]| > maxSize {
          return RingBufferCorrupted;
        }
        assert |data| > 1;
        size := size - |data[0]|;
        data := data[1..];
      }
      FittingIsLongest(accepted, maxSize);
      status := Success;
    }

    method Clear()
      requires Valid()
      modifies this
      ensures Valid() && accepted == [] && data == [] && size == 0 && run == old(run) + [Op.Clear]
    {
      data, size, accepted, run := [], 0, [], run + [Op.Clear];
      assert run[..|run| - 1] == old(run);
    }
  }
}
