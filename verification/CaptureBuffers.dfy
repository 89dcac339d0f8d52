/** Reference counts of the capture buffers shared by the driver, the worker thread and the client. */
module CaptureBuffers {
  import opened Options

  /** The counts kept for the buffers, the buffers the driver has queued, and those handed to the client. */
  datatype Buffers = Buffers(refcount: seq<nat>, queued: set<nat>, held: set<nat>)

  /** Which consumers the frames are meant for; with neither, a client acquires them itself. */
  datatype Mode = Mode(nativeWindow: bool, callback: bool)

  /** Each buffer is the driver's, with count 0, or the client's, with count 1. */
  ghost predicate IsBalanced(b: Buffers) {
    forall i :: 0 <= i < |b.refcount| ==> IsBalancedAt(b.refcount[i], i in b.queued, i in b.held)
  }

  predicate IsBalancedAt(count: nat, queued: bool, held: bool) {
    if queued then count == 0 && !held else count == 1 && held
  }

  ghost function Counted(b: Buffers, i: nat): Buffers
    requires i < |b.refcount|
  {
    b.(refcount := b.refcount[i := b.refcount[i] + 1])
  }

  /** A buffer leaves the driver; it is counted at once if no consumer is set. */
  ghost function Taken(b: Buffers, i: nat, mode: Mode): Buffers
    requires i < |b.refcount|
  {
    var taken := b.(queued := b.queued - {i});
    if mode.nativeWindow || mode.callback then taken else Counted(taken, i)
  }

  ghost function Handed(b: Buffers, i: nat): Buffers {
    b.(held := b.held + {i})
  }

  /** One count less, and back to the driver with the last one; at zero nothing happens. */
  ghost function Dropped(b: Buffers, i: nat): Buffers
    requires i < |b.refcount|
  {
    if b.refcount[i] == 0 then b
    else b.(refcount := b.refcount[i := b.refcount[i] - 1],
            queued := if b.refcount[i] == 1 then b.queued + {i} else b.queued)
  }

  /** The client gives a buffer back, or one it does not have. */
  ghost function Released(b: Buffers, i: nat): Buffers
    requires i < |b.refcount|
  {
    Dropped(b, i).(held := b.held - {i})
  }

  /** The release hands the driver a buffer it already has. */
  ghost predicate QueuesTwice(b: Buffers, i: nat)
    requires i < |b.refcount|
  {
    b.refcount[i] == 1 && i in b.queued
  }

  /** One round of the worker on a buffer: to the window, if there is one that works, and to the callback. */
  ghost function Worked(b: Buffers, i: nat, mode: Mode, window: bool, delivers: bool): Buffers
    requires i < |b.refcount|
  {
    var taken := Taken(b, i, mode);
    if mode.nativeWindow && !window then Counted(taken, i)
    else
      var shown := if mode.nativeWindow then Dropped(Counted(taken, i), i) else taken;
      if mode.callback && delivers then Handed(Counted(shown, i), i) else shown
  }

  // ----- Exactly when the balance is kept -----

  ghost predicate KeepsOthers(b: Buffers, n: Buffers, i: nat)
    requires i < |b.refcount|
  {
    && |n.refcount| == |b.refcount|
    && forall k :: 0 <= k < |b.refcount| && k != i ==>
                     n.refcount[k] == b.refcount[k] && (k in n.queued <==> k in b.queued)
                       && (k in n.held <==> k in b.held)
  }

  lemma BalanceIsLocal(b: Buffers, n: Buffers, i: nat)
    requires i < |b.refcount| && IsBalanced(b) && KeepsOthers(b, n, i)
    ensures IsBalanced(n) <==> IsBalancedAt(n.refcount[i], i in n.queued, i in n.held)
  {
  }

  lemma AcquireBalancedIff(b: Buffers, i: nat, mode: Mode)
    requires i < |b.refcount| && IsBalanced(b) && i in b.queued
    ensures IsBalanced(Handed(Taken(b, i, mode), i)) <==> !mode.nativeWindow && !mode.callback
  {
    BalanceIsLocal(b, Handed(Taken(b, i, mode), i), i);
  }

  /** Exactly one consumer gets the frame: a window that works, or a callback that is delivered to. */
  predicate ReachesOne(mode: Mode, window: bool, delivers: bool) {
    if mode.nativeWindow then window && !(mode.callback && delivers) else mode.callback && delivers
  }

  /** The worker keeps the balance exactly then: a failing window leaks the buffer, a callback that is
      not delivered to loses it, and two consumers share what the driver has again. */
  lemma WorkBalancedIff(b: Buffers, i: nat, mode: Mode, window: bool, delivers: bool)
    requires i < |b.refcount| && IsBalanced(b) && i in b.queued
    ensures IsBalanced(Worked(b, i, mode, window, delivers)) <==> ReachesOne(mode, window, delivers)
  {
    BalanceIsLocal(b, Worked(b, i, mode, window, delivers), i);
  }

  /** A buffer that is neither the driver's nor the client's. */
  ghost predicate IsLeaked(b: Buffers, i: nat) {
    i < |b.refcount| && i !in b.queued && i !in b.held
  }

  lemma WorkLeaksIff(b: Buffers, i: nat, mode: Mode, window: bool, delivers: bool)
    requires i < |b.refcount| && IsBalanced(b) && i in b.queued && (mode.nativeWindow || mode.callback)
    ensures IsLeaked(Worked(b, i, mode, window, delivers), i) <==> if mode.nativeWindow then !window else !delivers
  {
    assert IsBalancedAt(b.refcount[i], true, i in b.held);
  }

  lemma ReleaseKeepsBalance(b: Buffers, i: nat)
    requires i < |b.refcount| && IsBalanced(b)
    ensures IsBalanced(Released(b, i)) && !QueuesTwice(b, i)
    ensures Released(b, i).refcount[i] == 0 && i in Released(b, i).queued
    ensures Released(Released(b, i), i) == Released(b, i)
  {
    assert IsBalancedAt(b.refcount[i], i in b.queued, i in b.held);
    BalanceIsLocal(b, Released(b, i), i);
    assert Released(b, i).held - {i} == Released(b, i).held;
  }

  /** With both consumers in use, the client's own release queues the buffer a second time. */
  lemma BothConsumersQueueTwice(b: Buffers, i: nat)
    requires i < |b.refcount| && IsBalanced(b) && i in b.queued
    ensures var n := Worked(b, i, Mode(true, true), true, true); i in n.held && QueuesTwice(n, i)
  {
    assert IsBalancedAt(b.refcount[i], true, i in b.held);
  }

  // ----- Runs -----

  datatype Op = Acquire(next: Option<nat>) | Release(index: nat) | Work(next: Option<nat>, window: bool, delivers: bool)

  /** The driver gives out a buffer it has, or none; releases name a buffer; there is a worker only for a consumer. */
  ghost predicate IsPossible(b: Buffers, op: Op, mode: Mode) {
    match op
    case Acquire(next) => next.Some? ==> next.value < |b.refcount| && next.value in b.queued
    case Release(i) => i < |b.refcount|
    case Work(next, _, _) =>
      (mode.nativeWindow || mode.callback) && (next.Some? ==> next.value < |b.refcount| && next.value in b.queued)
  }

  ghost function Do(b: Buffers, op: Op, mode: Mode): Buffers
    requires IsPossible(b, op, mode)
  {
    match op
    case Acquire(next) => if next.None? then b else Handed(Taken(b, next.value, mode), next.value)
    case Release(i) => Released(b, i)
    case Work(next, window, delivers) => if next.None? then b else Worked(b, next.value, mode, window, delivers)
  }

  /** Every frame taken reaches one consumer: the client itself, a window that works, or a callback. */
  ghost predicate HasOneConsumer(op: Op, mode: Mode) {
    match op
    case Acquire(next) => next.Some? ==> !mode.nativeWindow && !mode.callback
    case Release(_) => true
    case Work(next, window, delivers) => next.Some? ==> ReachesOne(mode, window, delivers)
  }

  ghost predicate IsRun(states: seq<Buffers>, ops: seq<Op>, mode: Mode) {
    && |states| == |ops| + 1
    && forall k :: 0 <= k < |ops| ==> Took(states[k], ops[k], states[k + 1], mode)
  }

  ghost predicate Took(b: Buffers, op: Op, n: Buffers, mode: Mode) {
    IsPossible(b, op, mode) && n == Do(b, op, mode)
  }

  /** A step keeps the balance exactly if its frame reaches one consumer. */
  lemma StepBalancedIff(b: Buffers, op: Op, mode: Mode)
    requires IsBalanced(b) && IsPossible(b, op, mode)
    ensures IsBalanced(Do(b, op, mode)) <==> HasOneConsumer(op, mode)
    ensures op.Release? ==> !QueuesTwice(b, op.index)
  {
    match op
    case Acquire(next) => if next.Some? { AcquireBalancedIff(b, next.value, mode); }
    case Release(i) => ReleaseKeepsBalance(b, i);
    case Work(next, window, delivers) => if next.Some? { WorkBalancedIff(b, next.value, mode, window, delivers); }
  }

  /** In every run whose frames reach one consumer each the buffers stay balanced, and no release
      queues a buffer twice. */
  lemma {:induction false} RunStaysBalanced(states: seq<Buffers>, ops: seq<Op>, mode: Mode, k: nat)
    requires IsRun(states, ops, mode) && IsBalanced(states[0]) && k < |states|
    requires forall j :: 0 <= j < |ops| ==> HasOneConsumer(ops[j], mode)
    ensures IsBalanced(states[k])
    ensures k < |ops| && ops[k].Release? ==>
              ops[k].index < |states[k].refcount| && !QueuesTwice(states[k], ops[k].index)
  {
    if k > 0 {
      RunStaysBalanced(states, ops, mode, k - 1);
      assert Took(states[k - 1], ops[k - 1], states[k], mode);
      StepBalancedIff(states[k - 1], ops[k - 1], mode);
    }
    if k < |ops| {
      assert Took(states[k], ops[k], states[k + 1], mode);
      StepBalancedIff(states[k], ops[k], mode);
    }
  }

  /** The client has the buffer, counted once, the driver has it no more, and nothing else changed. */
  ghost predicate IsHandedOver(b: Buffers, n: Buffers, i: nat)
    requires i < |b.refcount|
  {
    n == Buffers(b.refcount[i := 1], b.queued - {i}, b.held + {i})
  }

  /** A buffer that a client acquires, or that a callback delivers, is handed over, and is back as before once
      it is released; one that was shown in a window is back at once. */
  lemma FrameReturns(b: Buffers, i: nat, window: bool, mode: Mode)
    requires i < |b.refcount| && IsBalanced(b) && i in b.queued
    ensures IsHandedOver(b, Do(b, Acquire(Some(i)), Mode(false, false)), i)
    ensures IsHandedOver(b, Do(b, Work(Some(i), window, true), Mode(false, true)), i)
    ensures forall n :: IsHandedOver(b, n, i) ==> Do(n, Release(i), mode) == b
    ensures Do(b, Work(Some(i), true, false), Mode(true, false)) == b
  {
    assert IsBalancedAt(b.refcount[i], true, i in b.held);
    assert b.queued - {i} + {i} == b.queued && b.held + {i} - {i} == b.held;
    assert b.refcount[i := 1][i := 0] == b.refcount;
  }

  /** What the other rounds leave: a window that fails keeps the count it took, a callback that is not
      delivered to leaves none, two consumers leave the buffer with both the driver and the client, and a
      client that acquires beside a consumer gets a buffer that is not counted. */
  lemma FrameIsLost(b: Buffers, i: nat, window: bool, callback: bool, delivers: bool)
    requires i < |b.refcount| && IsBalanced(b) && i in b.queued
    ensures Do(b, Work(Some(i), false, delivers), Mode(true, callback))
         == Buffers(b.refcount[i := 1], b.queued - {i}, b.held)
    ensures Do(b, Work(Some(i), window, false), Mode(false, true)) == b.(queued := b.queued - {i})
    ensures Do(b, Work(Some(i), true, false), Mode(true, true)) == b
    ensures Do(b, Work(Some(i), true, true), Mode(true, true))
         == Buffers(b.refcount[i := 1], b.queued, b.held + {i})
    ensures window || callback ==>
              Do(b, Acquire(Some(i)), Mode(window, callback)) == b.(queued := b.queued - {i}, held := b.held + {i})
  {
    assert IsBalancedAt(b.refcount[i], true, i in b.held);
    assert b.queued - {i} + {i} == b.queued;
    assert b.refcount[i := 1][i := 0] == b.refcount;
  }

  // ----- A window that fails -----

  /** What the worker leaves behind with the first buffers taken for a failing window. */
  ghost predicate LostFirst(b: Buffers, taken: nat) {
    && taken <= |b.refcount| && b.held == {}
    && forall i :: 0 <= i < |b.refcount| ==>
              (i in b.queued <==> i >= taken) && b.refcount[i] == if i < taken then 1 else 0
  }

  lemma FailingWindowTakes(b: Buffers, taken: nat)
    requires LostFirst(b, taken) && taken < |b.refcount|
    ensures LostFirst(Worked(b, taken, Mode(true, false), false, false), taken + 1)
  {
  }

  /** A window that fails every time costs one buffer a round, until the driver has none left and no
      client has any. */
  lemma {:induction false} FailingWindowLeaksAll(start: Buffers, n: nat) returns (states: seq<Buffers>, ops: seq<Op>)
    requires LostFirst(start, 0) && n <= |start.refcount|
    ensures IsRun(states, ops, Mode(true, false)) && states[0] == start && |ops| == n
    ensures |states[n].refcount| == |start.refcount| && LostFirst(states[n], n)
    ensures forall i :: 0 <= i < n ==> IsLeaked(states[n], i)
  {
    states, ops := [start], [];
    if n > 0 {
      states, ops := FailingWindowLeaksAll(start, n - 1);
      var b, op := states[n - 1], Work(Some(n - 1), false, false);
      FailingWindowTakes(b, n - 1);
      ExtendRun(states, ops, Mode(true, false), op);
      states, ops := states + [Do(b, op, Mode(true, false))], ops + [op];
    }
  }

  lemma ExtendRun(states: seq<Buffers>, ops: seq<Op>, mode: Mode, op: Op)
    requires IsRun(states, ops, mode) && IsPossible(states[|ops|], op, mode)
    ensures IsRun(states + [Do(states[|ops|], op, mode)], ops + [op], mode)
  {
    var s, o := states + [Do(states[|ops|], op, mode)], ops + [op];
    forall k | 0 <= k < |o| ensures Took(s[k], o[k], s[k + 1], mode) {
      if k < |ops| {
        assert Took(states[k], ops[k], states[k + 1], mode);
      }
    }
  }

  // ----- The capture source -----

  type Address = int

  class VdinSource {
    const refcount: array<nat>
    const mem: seq<Address>
    const mode: Mode
    var indexOf: map<Address, nat>
    var queued: set<nat>
    ghost var held: set<nat>

    ghost predicate Valid()
      reads this
    {
      && |mem| == refcount.Length
      && (forall i, j :: 0 <= i < j < |mem| ==> mem[i] != mem[j])
      && forall i :: 0 <= i < |mem| ==> mem[i] in indexOf && indexOf[mem[i]] == i
    }

    ghost function View(): Buffers
      reads this, refcount
    {
      Buffers(refcount[..], queued, held)
    }

    /** Maps the buffers, clears their counts and queues them all. */
    constructor Start(mem: seq<Address>, mode: Mode)
      requires forall i, j :: 0 <= i < j < |mem| ==> mem[i] != mem[j]
      ensures Valid() && this.mem == mem && this.mode == mode && fresh(refcount)
      ensures IsBalanced(View()) && LostFirst(View(), 0)
    {
      this.mem, this.mode := mem, mode;
      refcount := new nat[|mem|];
      indexOf, queued, held := map[], {}, {};
      new;
      for i := 0 to |mem|
        invariant queued == {} && held == {}
        invariant forall k :: 0 <= k < i ==> mem[k] in indexOf && indexOf[mem[k]] == k && refcount[k] == 0
      {
        refcount[i] := 0;
        indexOf := indexOf[mem[i] := i];
      }
      for i := 0 to |mem|
        invariant held == {} && forall k :: k in queued <==> 0 <= k < i
        invariant forall k :: 0 <= k < |mem| ==> mem[k] in indexOf && indexOf[mem[k]] == k && refcount[k] == 0
      {
        queued := queued + {i};
      }
    }

    /** Takes a buffer from the driver. */
    method TakeBuffer(next: Option<nat>) returns (buffer: Option<Address>)
      requires Valid() && (next.Some? ==> next.value < |mem| && next.value in queued)
      modifies this`queued, refcount
      ensures Valid() && buffer == if next.Some? then Some(mem[next.value]) else None
      ensures View() == if next.None? then old(View()) else Taken(old(View()), next.value, mode)
    {
      if next.None? {
        return None;
      }
      queued := queued - {next.value};
      if !(mode.nativeWindow || mode.callback) {
        refcount[next.value] := refcount[next.value] + 1;
      }
      buffer := Some(mem[next.value]);
    }

    /** The client takes a buffer. */
    method AcquireBuffer(next: Option<nat>) returns (buffer: Option<Address>)
      requires Valid() && IsPossible(View(), Acquire(next), mode)
      modifies this`queued, this`held, refcount
      ensures Valid() && View() == Do(old(View()), Acquire(next), mode)
      ensures buffer == if next.Some? then Some(mem[next.value]) else None
      ensures old(IsBalanced(View())) ==> (IsBalanced(View()) <==> HasOneConsumer(Acquire(next), mode))
    {
      ghost var before := View();
      buffer := TakeBuffer(next);
      if next.Some? {
        held := held + {next.value};
      }
      if IsBalanced(before) {
        StepBalancedIff(before, Acquire(next), mode);
      }
    }

    /** One count less, and back to the driver with the last one. */
    method DropBuffer(buffer: Address)
      requires Valid() && buffer in mem
      modifies this`queued, refcount
      ensures Valid() && indexOf[buffer] < |mem| && mem[indexOf[buffer]] == buffer
      ensures View() == Dropped(old(View()), indexOf[buffer])
      ensures old(IsBalanced(View())) ==> refcount[indexOf[buffer]] == 0 && indexOf[buffer] in queued
    {
      var index := indexOf[buffer];
      assert IsBalanced(View()) ==> IsBalancedAt(View().refcount[index], index in queued, index in held);
      if refcount[index] > 0 {
        refcount[index] := refcount[index] - 1;
      } else {
        return;
      }
      if refcount[index] == 0 {
        queued := queued + {index};
      }
    }

    /** The client gives a buffer back; giving it back again changes nothing. */
    method ReleaseBuffer(buffer: Address)
      requires Valid() && buffer in mem
      modifies this`queued, this`held, refcount
      ensures Valid() && indexOf[buffer] < |mem| && mem[indexOf[buffer]] == buffer
      ensures View() == Do(old(View()), Release(indexOf[buffer]), mode)
      ensures old(IsBalanced(View())) ==> IsBalanced(View()) && !old(QueuesTwice(View(), indexOf[buffer]))
      ensures old(IsBalanced(View())) ==> Released(View(), indexOf[buffer]) == View()
    {
      ghost var before := View();
      DropBuffer(buffer);
      held := held - {indexOf[buffer]};
      if IsBalanced(before) {
        ReleaseKeepsBalance(before, indexOf[buffer]);
      }
    }

    /** One round of the worker thread while started. */
    method WorkThread(next: Option<nat>, window: bool, delivers: bool)
      requires Valid() && IsPossible(View(), Work(next, window, delivers), mode)
      modifies this`queued, this`held, refcount
      ensures Valid() && View() == Do(old(View()), Work(next, window, delivers), mode)
      ensures old(IsBalanced(View())) ==> (IsBalanced(View()) <==> HasOneConsumer(Work(next, window, delivers), mode))
    {
      ghost var before := View();
      if IsBalanced(before) {
        StepBalancedIff(before, Work(next, window, delivers), mode);
      }
      var buffer := TakeBuffer(next);
      if buffer.None? {
        return;
      }
      var index := indexOf[buffer.value];
      if mode.nativeWindow {
        refcount[index] := refcount[index] + 1;
        if !window {
          return;
        }
        DropBuffer(buffer.value);
      }
      if mode.callback && delivers {
        refcount[index] := refcount[index] + 1;
        held := held + {index};
      }
    }
  }
}
