/** The single-producer single-consumer ring of src/aqueue.c under every interleaving.

    Each call is split where another thread can look in between: the load of len, the copy of each
    element, the move of the private index, and the atomic update of len. An action that is not enabled
    leaves the state as it is, so a list of actions is an arbitrary interleaving. */
module Aqueue {
  import opened Modular

  datatype Producer<T> =
    | PIdle
    | PCopy(src: seq<T>, done: nat, batch: bool)
    | PPublish(vals: seq<T>)

  datatype Consumer<T> =
    | CIdle
    | CCopy(count: nat, dest: seq<T>, some: bool)
    | CRelease(taken: seq<T>)

  /** sent and received record what finished calls enqueued and dequeued. */
  datatype State<T> = State(
    cap: nat, buf: seq<T>, front: nat, back: nat, len: nat,
    prod: Producer<T>, cons: Consumer<T>,
    sent: seq<T>, received: seq<T>)

  datatype Action<T> =
    | Enqueue(x: T)
    | EnqueueSome(xs: seq<T>)
    | WriteElem
    | MoveBack
    | PublishLen
    | Dequeue
    | DequeueSome(atMost: nat)
    | ReadElem
    | MoveFront
    | ReleaseLen

  predicate Init<T(==)>(s: State<T>) {
    && s.cap > 0 && |s.buf| == s.cap
    && s.front == 0 && s.back == 0 && s.len == 0
    && s.prod == PIdle && s.cons == CIdle
    && s.sent == [] && s.received == []
  }

  function StepProducer<T>(s: State<T>, a: Action<T>): (t: State<T>)
    requires s.cap > 0
  {
    match (a, s.prod)
    case (Enqueue(x), PIdle) =>
      if s.len == s.cap then s else s.(prod := PCopy([x], 0, false))
    case (EnqueueSome(xs), PIdle) =>
      if xs == [] || s.cap <= s.len then s
      else s.(prod := PCopy(xs[..Min(s.cap - s.len, |xs|)], 0, true))
    case (WriteElem, PCopy(src, done, batch)) =>
      var slot := CopySlot(s.back % s.cap, s.cap, done);
      if done < |src| && 0 <= slot < |s.buf|
      then s.(buf := s.buf[slot := src[done]], prod := PCopy(src, done + 1, batch))
      else s
    case (MoveBack, PCopy(src, done, batch)) =>
      if done < |src| then s
      else s.(back := if batch then s.back + |src| else (s.back + 1) % s.cap, prod := PPublish(src))
    case (PublishLen, PPublish(vals)) =>
      s.(len := s.len + |vals|, prod := PIdle, sent := s.sent + vals)
    case _ => s
  }

  function StepConsumer<T>(s: State<T>, a: Action<T>): (t: State<T>)
    requires s.cap > 0
  {
    match (a, s.cons)
    case (Dequeue, CIdle) =>
      if s.len == 0 then s else s.(cons := CCopy(1, [], false))
    case (DequeueSome(n), CIdle) =>
      if n == 0 || s.len == 0 then s else s.(cons := CCopy(Min(s.len, n), [], true))
    case (ReadElem, CCopy(count, dest, batch)) =>
      var slot := CopySlot(s.front % s.cap, s.cap, |dest|);
      if |dest| < count && 0 <= slot < |s.buf| then s.(cons := CCopy(count, dest + [s.buf[slot]], batch)) else s
    case (MoveFront, CCopy(count, dest, batch)) =>
      if |dest| < count then s
      else s.(front := if batch then s.front + count else (s.front + 1) % s.cap, cons := CRelease(dest))
    case (ReleaseLen, CRelease(taken)) =>
      if s.len < |taken| then s
      else s.(len := s.len - |taken|, cons := CIdle, received := s.received + taken)
    case _ => s
  }

  function Step<T>(s: State<T>, a: Action<T>): (t: State<T>)
    requires s.cap > 0
    ensures t.cap == s.cap
  {
    if a.Enqueue? || a.EnqueueSome? || a.WriteElem? || a.MoveBack? || a.PublishLen? then StepProducer(s, a)
    else StepConsumer(s, a)
  }

  function Run<T>(s: State<T>, actions: seq<Action<T>>): (t: State<T>)
    requires s.cap > 0
    ensures t.cap == s.cap
    decreases |actions|
  {
    if actions == [] then s else Run(Step(s, actions[0]), actions[1..])
  }

  // ----- the invariant

  /** What the producer has copied but not yet published. */
  function Pending<T>(p: Producer<T>): (vals: seq<T>)
    requires p.PCopy? ==> p.done <= |p.src|
  {
    match p
    case PIdle => []
    case PCopy(src, done, _) => src[..done]
    case PPublish(vals) => vals
  }

  /** How many slots the producer's current call will fill. */
  function Claimed<T>(p: Producer<T>): (n: nat)
  {
    match p
    case PIdle => 0
    case PCopy(src, _, _) => |src|
    case PPublish(vals) => |vals|
  }

  function Copied<T>(c: Consumer<T>): (vals: seq<T>)
  {
    match c
    case CIdle => []
    case CCopy(_, dest, _) => dest
    case CRelease(taken) => taken
  }

  function Wanted<T>(c: Consumer<T>): (n: nat)
  {
    match c
    case CIdle => 0
    case CCopy(count, _, _) => count
    case CRelease(taken) => |taken|
  }

  ghost predicate Shape<T(!new)>(s: State<T>) {
    && s.cap > 0 && |s.buf| == s.cap
    && s.len + |s.received| == |s.sent|
    && s.len + Claimed(s.prod) <= s.cap
    && Wanted(s.cons) <= s.len
    && (s.prod.PCopy? ==> s.prod.done <= |s.prod.src| && (!s.prod.batch ==> |s.prod.src| == 1))
    && (s.cons.CCopy? ==> |s.cons.dest| <= s.cons.count && (!s.cons.some ==> s.cons.count == 1))
    && (!s.cons.CIdle? ==> Wanted(s.cons) > 0)
  }

  /** Every sent but unreceived value, then every pending one, is in its slot. */
  ghost predicate Stored<T(!new)>(s: State<T>)
    requires Shape(s)
  {
    && (forall i :: |s.received| <= i < |s.sent| ==> s.buf[i % s.cap] == s.sent[i])
    && (forall i :: 0 <= i < |Pending(s.prod)| ==> s.buf[(|s.sent| + i) % s.cap] == Pending(s.prod)[i])
  }

  ghost predicate Indices<T(!new)>(s: State<T>)
    requires Shape(s)
  {
    && s.back % s.cap == (|s.sent| + if s.prod.PPublish? then |s.prod.vals| else 0) % s.cap
    && s.front % s.cap == (|s.received| + if s.cons.CRelease? then |s.cons.taken| else 0) % s.cap
  }

  ghost predicate Inv<T(!new)>(s: State<T>) {
    && Shape(s)
    && Stored(s)
    && Indices(s)
    && s.received + Copied(s.cons) <= s.sent
  }

  // ----- preservation

  /** Writing one slot less than a lap ahead of lo disturbs nothing between lo and it. */
  lemma WriteAhead<T(!new)>(buf: seq<T>, cap: nat, lo: nat, at: nat, x: T)
    requires cap > 0 && |buf| == cap && lo <= at < lo + cap
    ensures buf[at % cap := x][at % cap] == x
    ensures forall i :: lo <= i < at ==> buf[at % cap := x][i % cap] == buf[i % cap]
  {
    forall i | lo <= i < at
      ensures i % cap != at % cap
    {
      LapDistinct(i, at, cap);
    }
  }

  lemma WriteStores<T(!new)>(s: State<T>)
    requires Inv(s) && s.prod.PCopy? && s.prod.done < |s.prod.src|
    ensures CopySlot(s.back % s.cap, s.cap, s.prod.done) == (|s.sent| + s.prod.done) % s.cap
    ensures var buf := s.buf[(|s.sent| + s.prod.done) % s.cap := s.prod.src[s.prod.done]];
            && (forall i :: |s.received| <= i < |s.sent| ==> buf[i % s.cap] == s.sent[i])
            && (forall i :: 0 <= i <= s.prod.done ==> buf[(|s.sent| + i) % s.cap] == s.prod.src[i])
  {
    var n, done := |s.sent|, s.prod.done;
    CopySlotIs(s.back, n, s.cap, done);
    WriteAhead(s.buf, s.cap, |s.received|, n + done, s.prod.src[done]);
    forall i | 0 <= i < done
      ensures s.buf[(n + i) % s.cap] == s.prod.src[i]
    {
      assert Pending(s.prod)[i] == s.prod.src[i];
    }
  }

  lemma WriteKeepsInv<T(!new)>(s: State<T>)
    requires Inv(s) && s.prod.PCopy? && s.prod.done < |s.prod.src|
    ensures Inv(StepProducer(s, WriteElem))
  {
    WriteStores(s);
    var t := StepProducer(s, WriteElem);
    assert Pending(t.prod) == s.prod.src[..s.prod.done + 1];
  }

  lemma MoveKeepsInv<T(!new)>(s: State<T>)
    requires Inv(s) && s.prod.PCopy? && s.prod.done == |s.prod.src|
    ensures Inv(StepProducer(s, MoveBack))
  {
    var t := StepProducer(s, MoveBack);
    assert Pending(t.prod) == Pending(s.prod) by { assert s.prod.src[..s.prod.done] == s.prod.src; }
    assert t.back % t.cap == (|t.sent| + |t.prod.vals|) % t.cap by {
      IndexAfter(s.back, |s.sent|, |s.prod.src|, s.cap);
    }
  }

  lemma PublishKeepsStored<T(!new)>(s: State<T>)
    requires Inv(s) && s.prod.PPublish?
    ensures Inv(StepProducer(s, PublishLen))
  {
    var t := StepProducer(s, PublishLen);
    forall i | |t.received| <= i < |t.sent|
      ensures t.buf[i % s.cap] == t.sent[i]
    {
      if i >= |s.sent| {
        assert Pending(s.prod)[i - |s.sent|] == t.sent[i];
      }
    }
  }

  lemma ReadKeepsOrder<T(!new)>(s: State<T>)
    requires Inv(s) && s.cons.CCopy? && |s.cons.dest| < s.cons.count
    ensures Inv(Step(s, ReadElem))
  {
    var r := |s.received| + |s.cons.dest|;
    CopySlotIs(s.front, |s.received|, s.cap, |s.cons.dest|);
    assert s.buf[r % s.cap] == s.sent[r];
  }

  lemma ProducerKeepsInv<T(!new)>(s: State<T>, a: Action<T>)
    requires Inv(s)
    ensures Inv(StepProducer(s, a))
  {
    match (a, s.prod) {
      case (WriteElem, PCopy(src, done, batch)) =>
        if done < |src| { WriteKeepsInv(s); }
      case (MoveBack, PCopy(src, done, batch)) =>
        if done == |src| { MoveKeepsInv(s); }
      case (PublishLen, PPublish(vals)) =>
        PublishKeepsStored(s);
      case _ =>
    }
  }

  lemma FrontKeepsInv<T(!new)>(s: State<T>)
    requires Inv(s) && s.cons.CCopy? && |s.cons.dest| == s.cons.count
    ensures Inv(StepConsumer(s, MoveFront))
  {
    IndexAfter(s.front, |s.received|, s.cons.count, s.cap);
  }

  lemma ReleaseKeepsInv<T(!new)>(s: State<T>)
    requires Inv(s) && s.cons.CRelease?
    ensures Inv(StepConsumer(s, ReleaseLen))
  {
  }

  lemma ConsumerKeepsInv<T(!new)>(s: State<T>, a: Action<T>)
    requires Inv(s)
    ensures Inv(StepConsumer(s, a))
  {
    match (a, s.cons) {
      case (ReadElem, CCopy(count, dest, batch)) =>
        if |dest| < count { ReadKeepsOrder(s); }
      case (MoveFront, CCopy(count, dest, batch)) =>
        if |dest| >= count { FrontKeepsInv(s); }
      case (ReleaseLen, CRelease(_)) => ReleaseKeepsInv(s);
      case _ =>
    }
  }

  // ----- every run

  lemma InitHolds<T(!new)>(s: State<T>)
    requires Init(s)
    ensures Inv(s)
  {
  }

  lemma {:induction false} RunKeepsInv<T(!new)>(s: State<T>, actions: seq<Action<T>>)
    requires Inv(s)
    ensures Inv(Run(s, actions))
    decreases |actions|
  {
    if actions != [] {
      ProducerKeepsInv(s, actions[0]);
      ConsumerKeepsInv(s, actions[0]);
      RunKeepsInv(Step(s, actions[0]), actions[1..]);
    }
  }

  /** First in, first out, for every interleaving of single and batch calls: what has been dequeued is a
      prefix of what has been enqueued, len counts the difference, and it never leaves 0..cap. */
  lemma FifoOnEveryRun<T(!new)>(s: State<T>, actions: seq<Action<T>>)
    requires Init(s)
    ensures var t := Run(s, actions);
            && t.received <= t.sent
            && t.len == |t.sent| - |t.received|
            && t.len <= t.cap
  {
    InitHolds(s);
    RunKeepsInv(s, actions);
  }

  /** The queue as its users see it. */
  function Queued<T>(s: State<T>): (q: seq<T>)
    requires |s.received| <= |s.sent|
  {
    s.sent[|s.received|..]
  }

  /** Every call takes effect in one step, the last: an enqueue appends what it has copied, a dequeue removes what it
      returns, and all other steps leave the queue as it is. The length that a call reads is the queue's. */
  lemma CallsAreAtomic<T(!new)>(s: State<T>, a: Action<T>)
    requires Inv(s)
    ensures |s.received| <= |s.sent| && |Queued(s)| == s.len <= s.cap
    ensures var t := Step(s, a);
            && |t.received| <= |t.sent|
            && (if a.PublishLen? && s.prod.PPublish? then Queued(t) == Queued(s) + s.prod.vals
                else if a.ReleaseLen? && s.cons.CRelease? then Queued(s) == s.cons.taken + Queued(t)
                else Queued(t) == Queued(s))
  {
    if a.ReleaseLen? && s.cons.CRelease? {
      TakenFirst(s.sent, s.received, s.cons.taken);
    }
  }

  lemma TakenFirst<T>(sent: seq<T>, received: seq<T>, taken: seq<T>)
    requires received + taken <= sent
    ensures sent[|received|..] == taken + sent[|received| + |taken|..]
  {
    assert sent[|received|..|received| + |taken|] == taken;
  }

  /** The slots a consumer may read now. */
  ghost predicate Readable<T(!new)>(s: State<T>, slot: int)
    requires s.cap > 0
  {
    exists i :: |s.received| <= i < |s.received| + s.len && i % s.cap == slot
  }

  /** Whenever the producer is about to write an element, on any run, the slot is inside the buffer and
      not one the consumer may read; and what the consumer is about to read is readable. */
  lemma NoSlotWrittenWhileReadable<T(!new)>(s: State<T>, actions: seq<Action<T>>)
    requires Init(s)
    ensures var t := Run(s, actions);
            && (t.prod.PCopy? && t.prod.done < |t.prod.src| ==>
                  var w := CopySlot(t.back % t.cap, t.cap, t.prod.done);
                  0 <= w < |t.buf| && !Readable(t, w))
            && (t.cons.CCopy? && |t.cons.dest| < t.cons.count ==>
                  var r := CopySlot(t.front % t.cap, t.cap, |t.cons.dest|);
                  0 <= r < |t.buf| && Readable(t, r))
  {
    InitHolds(s);
    RunKeepsInv(s, actions);
    var t := Run(s, actions);
    if t.prod.PCopy? && t.prod.done < |t.prod.src| {
      CopySlotIs(t.back, |t.sent|, t.cap, t.prod.done);
      forall i | |t.received| <= i < |t.received| + t.len
        ensures i % t.cap != (|t.sent| + t.prod.done) % t.cap
      {
        LapDistinct(i, |t.sent| + t.prod.done, t.cap);
      }
    }
    if t.cons.CCopy? && |t.cons.dest| < t.cons.count {
      CopySlotIs(t.front, |t.received|, t.cap, |t.cons.dest|);
    }
  }

  // ----- a call that nobody interrupts

  lemma {:induction false} RunAppend<T(!new)>(s: State<T>, xs: seq<Action<T>>, ys: seq<Action<T>>)
    requires s.cap > 0
    ensures Run(s, xs + ys) == Run(Run(s, xs), ys)
    decreases |xs|
  {
    if xs == [] {
      assert xs + ys == ys;
    } else {
      assert (xs + ys)[1..] == xs[1..] + ys;
      RunAppend(Step(s, xs[0]), xs[1..], ys);
    }
  }

  lemma RunOne<T(!new)>(s: State<T>, a: Action<T>)
    requires s.cap > 0
    ensures Run(s, [a]) == Step(s, a)
  {
    assert [a][1..] == [];
    assert Run(Step(s, a), []) == Step(s, a);
  }

  /** A whole call: its first step, its copying, and its two last steps. */
  lemma RunCall<T(!new)>(s: State<T>, call: Action<T>, copies: seq<Action<T>>, move: Action<T>, update: Action<T>)
    requires s.cap > 0
    ensures Run(s, [call] + copies + [move] + [update]) == Step(Step(Run(Step(s, call), copies), move), update)
  {
    RunAppend(s, [call] + copies + [move], [update]);
    RunAppend(s, [call] + copies, [move]);
    RunAppend(s, [call], copies);
    RunOne(s, call);
    var t := Run(Step(s, call), copies);
    RunOne(t, move);
    RunOne(Step(t, move), update);
  }

  function Times<T>(n: nat, a: Action<T>): (r: seq<Action<T>>)
    ensures |r| == n
  {
    seq(n, _ => a)
  }

  lemma {:induction false} WriteAll<T(!new)>(s: State<T>, n: nat)
    requires Inv(s) && s.prod.PCopy? && s.prod.done + n == |s.prod.src|
    ensures var t := Run(s, Times(n, WriteElem));
            && Inv(t) && t.prod == s.prod.(done := |s.prod.src|)
            && t.sent == s.sent && t.len == s.len && t.received == s.received && t.cons == s.cons
    decreases n
  {
    if n > 0 {
      WriteStores(s);
      WriteKeepsInv(s);
      assert Times<T>(n, WriteElem)[1..] == Times(n - 1, WriteElem);
      WriteAll(Step(s, WriteElem), n - 1);
    }
  }

  /** An undisturbed aqueue_enqueue_some takes as many values as there is room for, in order;
      an aqueue_enqueue (batch == false) takes its one value unless the queue is full. */
  lemma EnqueueDelivers<T(!new)>(s: State<T>, xs: seq<T>, batch: bool)
    requires Inv(s) && s.prod == PIdle && xs != [] && (!batch ==> |xs| == 1)
    ensures var n := Min(s.cap - s.len, |xs|);
            var call := if batch then EnqueueSome(xs) else Enqueue(xs[0]);
            var t := Run(s, [call] + Times(n, WriteElem) + [MoveBack] + [PublishLen]);
            && t.sent == s.sent + xs[..n] && t.len == s.len + n && t.prod == PIdle
            && t.received == s.received && t.cons == s.cons
  {
    var n := Min(s.cap - s.len, |xs|);
    var call := if batch then EnqueueSome(xs) else Enqueue(xs[0]);
    ProducerKeepsInv(s, call);
    RunCall(s, call, Times(n, WriteElem), MoveBack, PublishLen);
    EnqueueStarts(s, xs, batch);
    if n == 0 {
      assert xs[..0] == [];
    } else {
      WriteAll(Step(s, call), n);
    }
  }

  lemma EnqueueStarts<T(!new)>(s: State<T>, xs: seq<T>, batch: bool)
    requires Inv(s) && s.prod == PIdle && xs != [] && (!batch ==> |xs| == 1)
    ensures var n := Min(s.cap - s.len, |xs|);
            Step(s, if batch then EnqueueSome(xs) else Enqueue(xs[0]))
            == if n == 0 then s else s.(prod := PCopy(xs[..n], 0, batch))
  {
    if !batch {
      assert xs[..1] == [xs[0]];
    }
  }

  lemma {:induction false} ReadAll<T(!new)>(s: State<T>, n: nat)
    requires Inv(s) && s.cons.CCopy? && |s.cons.dest| + n == s.cons.count
    ensures var t := Run(s, Times(n, ReadElem));
            && Inv(t) && t.cons.CCopy? && |t.cons.dest| == t.cons.count == s.cons.count && t.cons.some == s.cons.some
            && t.sent == s.sent && t.len == s.len && t.received == s.received && t.prod == s.prod
    decreases n
  {
    if n > 0 {
      CopySlotIs(s.front, |s.received|, s.cap, |s.cons.dest|);
      ReadKeepsOrder(s);
      assert Times<T>(n, ReadElem)[1..] == Times(n - 1, ReadElem);
      ReadAll(Step(s, ReadElem), n - 1);
    }
  }

  /** An undisturbed dequeue hands over the oldest values that have not been handed over, as many as asked
      for and available. */
  lemma DequeueDelivers<T(!new)>(s: State<T>, atMost: nat, batch: bool)
    requires Inv(s) && s.cons == CIdle && atMost > 0 && (!batch ==> atMost == 1)
    ensures var n := Min(s.len, atMost);
            var call := if batch then DequeueSome(atMost) else Dequeue;
            var t := Run(s, [call] + Times(n, ReadElem) + [MoveFront] + [ReleaseLen]);
            && t.received == s.sent[..|s.received| + n] && t.len == s.len - n && t.cons == CIdle
            && t.sent == s.sent && t.prod == s.prod
  {
    var n := Min(s.len, atMost);
    var call := if batch then DequeueSome(atMost) else Dequeue;
    ConsumerKeepsInv(s, call);
    RunCall(s, call, Times(n, ReadElem), MoveFront, ReleaseLen);
    DequeueStarts(s, atMost, batch);
    if n > 0 {
      ReadAll(Step(s, call), n);
      ReadEnds(Run(Step(s, call), Times(n, ReadElem)));
    }
  }

  lemma DequeueStarts<T(!new)>(s: State<T>, atMost: nat, batch: bool)
    requires Inv(s) && s.cons == CIdle && atMost > 0 && (!batch ==> atMost == 1)
    ensures var n := Min(s.len, atMost);
            Step(s, if batch then DequeueSome(atMost) else Dequeue)
            == if n == 0 then s else s.(cons := CCopy(n, [], batch))
    ensures s.received <= s.sent
  {
  }

  lemma ReadEnds<T(!new)>(s: State<T>)
    requires Inv(s) && s.cons.CCopy? && |s.cons.dest| == s.cons.count
    ensures var t := Step(Step(s, MoveFront), ReleaseLen);
            && |s.received| + s.cons.count <= |s.sent|
            && t.received == s.sent[..|s.received| + s.cons.count] && t.len == s.len - s.cons.count && t.cons == CIdle
            && t.sent == s.sent && t.prod == s.prod
  {
    assert s.received + s.cons.dest <= s.sent;
  }
}
