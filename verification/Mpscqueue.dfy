/** The multi-producer queue of src/mpscqueue.c: the ring of Aqueue behind a mutex that each producer
    takes for the length of one enqueue. The element type carries its producer, so that each
    producer's own order can be followed. */
module Mpscqueue {
  import Aqueue
  import opened Modular

  datatype Item<V> = Item(producer: nat, val: V)

  datatype Owner = Nobody | Producer(id: nat)

  /** Where a producer is inside mpscqueue_enqueue. */
  datatype Call<V> =
    | Outside
    | Waiting(v: V)
    | Holding(v: V)
    | Filling(v: V)
    | Unlocking(v: V)

  /** returned[p] lists the values of p's calls that have returned 0, in order; leaked says that some
      call has returned because the queue was full, which it does without unlocking. */
  datatype State<V> = State(
    ring: Aqueue.State<Item<V>>, owner: Owner, calls: seq<Call<V>>,
    returned: seq<seq<V>>, leaked: bool)

  datatype Action<V> =
    | Invoke(p: nat, v: V)
    | Lock(p: nat)
    | CheckFull(p: nat)
    | Ring(p: nat, a: Aqueue.Action<Item<V>>)
    | Unlock(p: nat)
    | Consume(a: Aqueue.Action<Item<V>>)

  predicate Init<V(==)>(s: State<V>) {
    && Aqueue.Init(s.ring)
    && s.owner == Nobody && !s.leaked
    && |s.calls| == |s.returned|
    && (forall p :: 0 <= p < |s.calls| ==> s.calls[p] == Outside && s.returned[p] == [])
  }

  predicate IsProducerStep<T>(a: Aqueue.Action<T>) {
    a.WriteElem? || a.MoveBack? || a.PublishLen?
  }

  predicate IsConsumerStep<T>(a: Aqueue.Action<T>) {
    a.Dequeue? || a.ReadElem? || a.MoveFront? || a.ReleaseLen?
  }

  function Step<V>(s: State<V>, act: Action<V>): (t: State<V>)
    requires s.ring.cap > 0
    ensures t.ring.cap == s.ring.cap
  {
    match act
    case Invoke(p, v) =>
      if p < |s.calls| && s.calls[p].Outside? then s.(calls := s.calls[p := Waiting(v)]) else s
    case Lock(p) =>
      if p < |s.calls| && s.calls[p].Waiting? && s.owner.Nobody?
      then s.(owner := Producer(p), calls := s.calls[p := Holding(s.calls[p].v)]) else s
    case CheckFull(p) =>
      if p < |s.calls| && s.calls[p].Holding? then
        if s.ring.len == s.ring.cap
        then s.(calls := s.calls[p := Outside], leaked := true)
        else s.(ring := Aqueue.Step(s.ring, Aqueue.Enqueue(Item(p, s.calls[p].v))),
                calls := s.calls[p := Filling(s.calls[p].v)])
      else s
    case Ring(p, a) =>
      if p < |s.calls| && s.calls[p].Filling? && IsProducerStep(a) then
        var ring := Aqueue.Step(s.ring, a);
        s.(ring := ring,
           calls := if ring.prod.PIdle? then s.calls[p := Unlocking(s.calls[p].v)] else s.calls)
      else s
    case Unlock(p) =>
      if p < |s.calls| && p < |s.returned| && s.calls[p].Unlocking?
      then s.(owner := Nobody, calls := s.calls[p := Outside],
              returned := s.returned[p := s.returned[p] + [s.calls[p].v]])
      else s
    case Consume(a) =>
      if IsConsumerStep(a) then s.(ring := Aqueue.Step(s.ring, a)) else s
  }

  function Run<V>(s: State<V>, actions: seq<Action<V>>): (t: State<V>)
    requires s.ring.cap > 0
    ensures t.ring.cap == s.ring.cap
    decreases |actions|
  {
    if actions == [] then s else Run(Step(s, actions[0]), actions[1..])
  }

  // ----- the invariant

  /** The values of one producer among the items, in order. */
  function Of<V>(items: seq<Item<V>>, p: nat): (vals: seq<V>)
  {
    if items == [] then [] else
    var last := items[|items| - 1];
    Of(items[..|items| - 1], p) + if last.producer == p then [last.val] else []
  }

  predicate Inside<V>(c: Call<V>) {
    c.Holding? || c.Filling? || c.Unlocking?
  }

  /** What p's current call has already put into the queue. */
  function InFlight<V>(c: Call<V>): (vals: seq<V>)
  {
    if c.Unlocking? then [c.v] else []
  }

  /** The mutex does its work: a producer inside the critical section is the owner, and the ring's
      producer side is busy only on the owner's behalf. */
  ghost predicate Exclusive<V(!new)>(s: State<V>) {
    && |s.calls| == |s.returned|
    && (s.owner.Producer? ==> s.owner.id < |s.calls| && (Inside(s.calls[s.owner.id]) <==> !s.leaked))
    && (s.leaked ==> s.owner.Producer?)
    && (forall p :: 0 <= p < |s.calls| && Inside(s.calls[p]) ==> s.owner == Producer(p))
    && (s.ring.prod.PIdle? <==> !(s.owner.Producer? && s.calls[s.owner.id].Filling?))
    && (s.ring.prod.PCopy? ==>
          s.ring.prod.src == [Item(s.owner.id, s.calls[s.owner.id].v)] && !s.ring.prod.batch)
    && (s.ring.prod.PPublish? ==> s.ring.prod.vals == [Item(s.owner.id, s.calls[s.owner.id].v)])
  }

  ghost predicate Inv<V(!new)>(s: State<V>) {
    && Aqueue.Inv(s.ring)
    && Exclusive(s)
    && (forall p :: 0 <= p < |s.calls| ==> Of(s.ring.sent, p) == s.returned[p] + InFlight(s.calls[p]))
  }

  lemma OfAppend<V(!new)>(items: seq<Item<V>>, last: Item<V>, p: nat)
    ensures Of(items + [last], p) == Of(items, p) + if last.producer == p then [last.val] else []
  {
    assert (items + [last])[..|items|] == items;
  }

  lemma RingKeepsInv<V(!new)>(s: State<V>, p: nat, a: Aqueue.Action<Item<V>>)
    requires Inv(s) && p < |s.calls| && s.calls[p].Filling? && IsProducerStep(a)
    ensures Inv(Step(s, Ring(p, a)))
  {
    Aqueue.ProducerKeepsInv(s.ring, a);
    var t := Step(s, Ring(p, a));
    if a.PublishLen? && s.ring.prod.PPublish? {
      forall q | 0 <= q < |t.calls|
        ensures Of(t.ring.sent, q) == t.returned[q] + InFlight(t.calls[q])
      {
        OfAppend(s.ring.sent, Item(p, s.calls[p].v), q);
      }
    }
  }

  lemma CheckKeepsInv<V(!new)>(s: State<V>, p: nat)
    requires Inv(s)
    ensures Inv(Step(s, CheckFull(p)))
  {
    if p < |s.calls| && s.calls[p].Holding? {
      Aqueue.ProducerKeepsInv(s.ring, Aqueue.Enqueue(Item(p, s.calls[p].v)));
    }
  }

  lemma LockingKeepsInv<V(!new)>(s: State<V>, act: Action<V>)
    requires Inv(s) && (act.Invoke? || act.Lock? || act.Unlock?)
    ensures Inv(Step(s, act))
  {
    var t := Step(s, act);
    assert Exclusive(t);
  }

  lemma StepKeepsInv<V(!new)>(s: State<V>, act: Action<V>)
    requires Inv(s)
    ensures Inv(Step(s, act))
  {
    match act {
      case Ring(p, a) =>
        if p < |s.calls| && s.calls[p].Filling? && IsProducerStep(a) { RingKeepsInv(s, p, a); }
      case CheckFull(p) =>
        CheckKeepsInv(s, p);
      case Consume(a) =>
        ConsumeKeepsInv(s, a);
      case _ =>
        LockingKeepsInv(s, act);
    }
  }

  lemma ConsumeKeepsInv<V(!new)>(s: State<V>, a: Aqueue.Action<Item<V>>)
    requires Inv(s)
    ensures Inv(Step(s, Consume(a)))
  {
    Aqueue.ConsumerKeepsInv(s.ring, a);
  }

  lemma {:induction false} RunKeepsInv<V(!new)>(s: State<V>, actions: seq<Action<V>>)
    requires Inv(s)
    ensures Inv(Run(s, actions))
    decreases |actions|
  {
    if actions != [] {
      StepKeepsInv(s, actions[0]);
      RunKeepsInv(Step(s, actions[0]), actions[1..]);
    }
  }

  lemma InitHolds<V(!new)>(s: State<V>)
    requires Init(s)
    ensures Inv(s)
  {
  }

  // ----- every run

  lemma {:induction false} OfPrefix<V(!new)>(xs: seq<Item<V>>, ys: seq<Item<V>>, p: nat)
    requires xs <= ys
    ensures Of(xs, p) <= Of(ys, p)
    decreases |ys|
  {
    if |xs| < |ys| {
      var rest := ys[..|ys| - 1];
      OfPrefix(xs, rest, p);
      assert ys == rest + [ys[|ys| - 1]];
    } else {
      assert xs == ys;
    }
  }

  /** There is one order in which items are committed; the consumer receives a prefix of it, and for each
      producer a prefix of that producer's own enqueues in program order. This needs no assumption
      about calls that found the queue full. */
  lemma CommitOrderOnEveryRun<V(!new)>(s: State<V>, actions: seq<Action<V>>, p: nat)
    requires Init(s) && p < |s.calls|
    ensures var t := Run(s, actions);
            && p < |t.calls| == |t.returned|
            && t.ring.received <= t.ring.sent && t.ring.len <= t.ring.cap
            && t.ring.len == |t.ring.sent| - |t.ring.received|
            && Of(t.ring.sent, p) == t.returned[p] + InFlight(t.calls[p])
            && Of(t.ring.received, p) <= t.returned[p] + InFlight(t.calls[p])
  {
    InitHolds(s);
    RunKeepsInv(s, actions);
    RunKeepsCalls(s, actions);
    var t := Run(s, actions);
    OfPrefix(t.ring.received, t.ring.sent, p);
  }

  lemma {:induction false} RunKeepsCalls<V(!new)>(s: State<V>, actions: seq<Action<V>>)
    requires s.ring.cap > 0
    ensures |Run(s, actions).calls| == |s.calls|
    decreases |actions|
  {
    if actions != [] {
      RunKeepsCalls(Step(s, actions[0]), actions[1..]);
    }
  }

  // ----- returning from a full queue without unlocking

  lemma LeakStep<V(!new)>(s: State<V>, act: Action<V>)
    requires Exclusive(s) && s.leaked && s.ring.cap > 0
    ensures var t := Step(s, act); Exclusive(t) && t.ring.sent == s.ring.sent && t.owner == s.owner && t.leaked
  {
  }

  /** After a call has returned because the queue was full, no enqueue ever commits again. */
  lemma {:induction false} LeakIsForever<V(!new)>(s: State<V>, actions: seq<Action<V>>)
    requires Exclusive(s) && s.leaked && s.ring.cap > 0
    ensures Run(s, actions).ring.sent == s.ring.sent && Run(s, actions).owner == s.owner
    ensures Run(s, actions).leaked
    decreases |actions|
  {
    if actions != [] {
      LeakStep(s, actions[0]);
      LeakIsForever(Step(s, actions[0]), actions[1..]);
    }
  }

  lemma {:induction false} RunAppend<V(!new)>(s: State<V>, xs: seq<Action<V>>, ys: seq<Action<V>>)
    requires s.ring.cap > 0
    ensures Run(s, xs + ys) == Run(Run(s, xs), ys)
    decreases |xs|
  {
    if xs == [] {
      assert xs + ys == ys;
    } else {
      assert (xs + ys)[1..] == xs[1..] + ys;
      RunAppend(Step(s, xs[0]), xs[1..], ys);
    }
  }

  lemma RunThen<V(!new)>(s: State<V>, a: Action<V>, rest: seq<Action<V>>)
    requires s.ring.cap > 0
    ensures Run(s, [a] + rest) == Run(Step(s, a), rest)
  {
    assert ([a] + rest)[1..] == rest;
  }

  lemma RunOne<V(!new)>(s: State<V>, a: Action<V>)
    requires s.ring.cap > 0
    ensures Run(s, [a]) == Step(s, a)
  {
    assert [a][1..] == [];
    assert Run(s, [a]) == Run(Step(s, a), []);
  }

  /** Ranks the steps a producer inside the critical section has left. */
  function StepsLeft<V>(s: State<V>, p: nat): (n: nat)
    requires p < |s.calls|
  {
    match s.calls[p]
    case Holding(_) => 5
    case Filling(_) => (match s.ring.prod case PCopy(src, done, _) => if done < |src| then 4 else 3 case _ => 2)
    case Unlocking(_) => 1
    case _ => 0
  }

  /** The next step of a producer inside the critical section. */
  function NextWrite<V>(s: State<V>, p: nat): (a: Action<V>)
    requires p < |s.calls|
  {
    match s.calls[p]
    case Holding(_) => CheckFull(p)
    case Filling(_) =>
      (match s.ring.prod
       case PCopy(src, done, _) => Ring(p, if done < |src| then Aqueue.WriteElem else Aqueue.MoveBack)
       case _ => Ring(p, Aqueue.PublishLen))
    case _ => Unlock(p)
  }

  lemma OwnerStep<V(!new)>(s: State<V>, p: nat)
    requires Inv(s) && p < |s.calls| && Inside(s.calls[p]) && !s.calls[p].Unlocking?
    requires s.calls[p].Holding? ==> s.ring.len < s.ring.cap
    ensures var t := Step(s, NextWrite(s, p));
            && |t.calls| == |s.calls| && Inside(t.calls[p]) && !t.calls[p].Holding?
            && StepsLeft(t, p) < StepsLeft(s, p)
            && |t.ring.sent| == |s.ring.sent| + (if t.calls[p].Unlocking? then 1 else 0)
            && t.ring.received == s.ring.received
  {
    if s.ring.prod.PCopy? && s.ring.prod.done < |s.ring.prod.src| {
      Aqueue.WriteStores(s.ring);
    }
  }

  lemma UnlockStep<V(!new)>(s: State<V>, p: nat)
    requires Exclusive(s) && p < |s.calls| && s.calls[p].Unlocking? && s.ring.cap > 0
    ensures var t := Step(s, Unlock(p));
            && t.owner == Nobody && !t.leaked && |t.calls| == |s.calls| && t.calls[p] == Outside
            && t.ring == s.ring
  {
  }

  /** A producer that is inside and does not meet a full queue gets through and releases the mutex. */
  lemma {:induction false} OwnerFinishes<V(!new)>(s: State<V>, p: nat) returns (actions: seq<Action<V>>)
    requires Inv(s) && p < |s.calls| && Inside(s.calls[p])
    requires s.calls[p].Holding? ==> s.ring.len < s.ring.cap
    ensures var t := Run(s, actions);
            && Inv(t) && t.owner == Nobody && !t.leaked && |t.calls| == |s.calls| && t.calls[p] == Outside
            && |t.ring.sent| == |s.ring.sent| + (if s.calls[p].Unlocking? then 0 else 1)
            && t.ring.received == s.ring.received
    decreases StepsLeft(s, p)
  {
    var a := NextWrite(s, p);
    StepKeepsInv(s, a);
    var rest := [];
    if s.calls[p].Unlocking? {
      UnlockStep(s, p);
    } else {
      OwnerStep(s, p);
      rest := OwnerFinishes(Step(s, a), p);
    }
    actions := [a] + rest;
    RunThen(s, a, rest);
  }

  function ReadsLeft<T>(c: Aqueue.Consumer<T>): (n: int)
  {
    match c
    case CIdle => 4
    case CCopy(count, dest, _) => count - |dest| + 2
    case CRelease(_) => 1
  }

  /** The next step of a consumer that is not waiting for anything. */
  function NextRead<T>(c: Aqueue.Consumer<T>): (a: Aqueue.Action<T>)
  {
    match c
    case CIdle => Aqueue.Dequeue
    case CCopy(count, dest, _) => if |dest| < count then Aqueue.ReadElem else Aqueue.MoveFront
    case CRelease(_) => Aqueue.ReleaseLen
  }

  lemma ReadProgress<T(!new)>(s: Aqueue.State<T>)
    requires Aqueue.Inv(s) && s.len == s.cap
    ensures var t := Aqueue.Step(s, NextRead(s.cons));
            && Aqueue.Inv(t) && t.sent == s.sent && IsConsumerStep(NextRead(s.cons))
            && (t.len < t.cap || (t.len == t.cap && 0 <= ReadsLeft(t.cons) < ReadsLeft(s.cons)))
  {
    Aqueue.ConsumerKeepsInv(s, NextRead(s.cons));
    if s.cons.CCopy? && |s.cons.dest| < s.cons.count {
      CopySlotIs(s.front, |s.received|, s.cap, |s.cons.dest|);
    }
  }

  /** The consumer alone can always bring the queue below its capacity. */
  lemma {:induction false} MakeRoom<V(!new)>(s: State<V>) returns (actions: seq<Action<V>>)
    requires Inv(s)
    ensures var t := Run(s, actions);
            && Inv(t) && t.ring.len < t.ring.cap
            && t.ring.sent == s.ring.sent && t.calls == s.calls && t.owner == s.owner && t.leaked == s.leaked
    decreases if s.ring.len == s.ring.cap then ReadsLeft(s.ring.cons) else 0
  {
    if s.ring.len < s.ring.cap {
      actions := [];
    } else {
      var a := Consume(NextRead(s.ring.cons));
      ReadProgress(s.ring);
      StepKeepsInv(s, a);
      var rest := MakeRoom(Step(s, a));
      actions := [a] + rest;
      RunThen(s, a, rest);
    }
  }

  /** From any reachable state without a leak the mutex can come free and an enqueue by producer 0 commit. */
  lemma EnqueueStillPossible<V(!new)>(s: State<V>, v: V) returns (actions: seq<Action<V>>)
    requires Inv(s) && !s.leaked && |s.calls| > 0
    ensures |Run(s, actions).ring.sent| > |s.ring.sent|
  {
    var room := MakeRoom(s);
    var t := Run(s, room);
    if t.owner.Producer? {
      var finish := OwnerFinishes(t, t.owner.id);
      RunAppend(s, room, finish);
      RunKeepsInv(t, finish);
      var next := EnqueueFromFree(Run(t, finish), v);
      RunAppend(s, room + finish, next);
      actions := room + finish + next;
    } else {
      var next := EnqueueFromFree(t, v);
      RunAppend(s, room, next);
      actions := room + next;
    }
  }

  lemma TakeLock<V(!new)>(s: State<V>, v: V)
    requires Inv(s) && s.owner == Nobody && |s.calls| > 0
    ensures var t := Run(s, [Invoke(0, v)] + [Lock(0)]);
            Inv(t) && |t.calls| == |s.calls| && t.calls[0].Holding? && t.ring == s.ring && !t.leaked
  {
    LockingKeepsInv(s, Invoke(0, v));
    LockingKeepsInv(Step(s, Invoke(0, v)), Lock(0));
    RunThen(s, Invoke(0, v), [Lock(0)]);
    RunOne(Step(s, Invoke(0, v)), Lock(0));
  }

  lemma EnqueueFromFree<V(!new)>(s: State<V>, v: V) returns (actions: seq<Action<V>>)
    requires Inv(s) && s.owner == Nobody && |s.calls| > 0
    ensures |Run(s, actions).ring.sent| == |s.ring.sent| + 1
  {
    var room := MakeRoom(s);
    var t := Run(s, room);
    TakeLock(t, v);
    var lock := [Invoke(0, v)] + [Lock(0)];
    var finish := OwnerFinishes(Run(t, lock), 0);
    RunAppend(t, lock, finish);
    actions := room + (lock + finish);
    RunAppend(s, room, lock + finish);
  }

  /** Enqueues can still commit in the future if and only if no call has yet met a full queue. */
  lemma EnqueuePossibleIffNoLeak<V(!new)>(s: State<V>, v: V)
    requires Inv(s) && |s.calls| > 0
    ensures (exists actions :: |Run(s, actions).ring.sent| > |s.ring.sent|) <==> !s.leaked
  {
    if s.leaked {
      forall actions
        ensures Run(s, actions).ring.sent == s.ring.sent
      {
        LeakIsForever(s, actions);
      }
    } else {
      var actions := EnqueueStillPossible(s, v);
    }
  }

  /** The leak itself: the first call that looks at a full queue causes it, and nothing else does. */
  lemma LeakExactlyAtFull<V(!new)>(s: State<V>, act: Action<V>)
    requires Inv(s) && !s.leaked
    ensures Step(s, act).leaked
            <==> act.CheckFull? && act.p < |s.calls| && s.calls[act.p].Holding? && s.ring.len == s.ring.cap
  {
  }

  /** Producer 0 alone can fill the queue. */
  lemma {:induction false} FillUp<V(!new)>(s: State<V>, v: V) returns (actions: seq<Action<V>>)
    requires Inv(s) && s.owner == Nobody && |s.calls| > 0
    ensures var t := Run(s, actions);
            Inv(t) && t.owner == Nobody && |t.calls| == |s.calls| && t.ring.len == t.ring.cap
    decreases s.ring.cap - s.ring.len
  {
    if s.ring.len == s.ring.cap {
      actions := [];
    } else {
      TakeLock(s, v);
      var lock := [Invoke(0, v)] + [Lock(0)];
      var finish := OwnerFinishes(Run(s, lock), 0);
      RunAppend(s, lock, finish);
      var t := Run(s, lock + finish);
      var rest := FillUp(t, v);
      actions := (lock + finish) + rest;
      RunAppend(s, lock + finish, rest);
    }
  }

  /** From the start, whatever the capacity, one producer that makes one call more than there is room for brings
      about the leak. */
  lemma LeakIsReachable<V(!new)>(s: State<V>, v: V) returns (actions: seq<Action<V>>)
    requires Init(s) && |s.calls| > 0
    ensures Run(s, actions).leaked
  {
    InitHolds(s);
    var fill := FillUp(s, v);
    var t := Run(s, fill);
    TakeLock(t, v);
    var lock := [Invoke(0, v)] + [Lock(0)];
    var u := Run(t, lock);
    RunOne(u, CheckFull(0));
    RunAppend(t, lock, [CheckFull(0)]);
    actions := fill + (lock + [CheckFull(0)]);
    RunAppend(s, fill, lock + [CheckFull(0)]);
  }
}
