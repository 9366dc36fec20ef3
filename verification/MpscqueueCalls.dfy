/** What each call on the queue of src/mpscqueue.c does from its first step to its return. */
module MpscqueueCalls {
  import Aqueue
  import opened Modular
  import opened Mpscqueue

  // ----- an enqueue that nobody interrupts

  lemma Overwritten<T>(s: seq<T>, i: nat, x: T, y: T)
    requires i < |s|
    ensures s[i := x][i := y] == s[i := y]
    ensures s[i] == y ==> s[i := y] == s
  {
  }

  /** The producer inside, with its value. */
  function Within<V>(s: State<V>, p: nat, c: Call<V>): (t: State<V>)
    requires p < |s.calls|
  {
    s.(owner := Producer(p), calls := s.calls[p := c])
  }

  predicate Ready<V(==)>(s: State<V>, p: nat) {
    s.owner == Nobody && p < |s.calls| && s.calls[p] == Outside
  }

  lemma Enters<V(!new)>(s: State<V>, p: nat, v: V)
    requires Inv(s) && Ready(s, p)
    ensures Run(s, [Invoke(p, v)] + [Lock(p)]) == Within(s, p, Holding(v))
  {
    RunThen(s, Invoke(p, v), [Lock(p)]);
    RunOne(Step(s, Invoke(p, v)), Lock(p));
    Overwritten(s.calls, p, Waiting(v), Holding(v));
  }

  /** The call has begun to fill its slot, and nothing that others see has changed. */
  ghost predicate Begun<V(!new)>(s: State<V>, t: State<V>, p: nat, v: V)
    requires p < |s.calls|
  {
    && t == s.(ring := t.ring, calls := s.calls[p := Filling(v)])
    && t.ring.sent == s.ring.sent && t.ring.len == s.ring.len
    && t.ring.received == s.ring.received && t.ring.cons == s.ring.cons
  }

  lemma FillsSlot<V(!new)>(s: State<V>, p: nat, v: V)
    requires Inv(s) && p < |s.calls| && s.calls[p] == Holding(v) && s.ring.len < s.ring.cap
    ensures var t := Step(Step(s, CheckFull(p)), Ring(p, Aqueue.WriteElem));
            Begun(s, t, p, v) && t.ring.prod == Aqueue.PCopy([Item(p, v)], 1, false)
  {
    var a := Step(s, CheckFull(p));
    CheckKeepsInv(s, p);
    assert Begun(s, a, p, v) && a.ring.prod == Aqueue.PCopy([Item(p, v)], 0, false);
    Aqueue.WriteStores(a.ring);
  }

  lemma Publishes<V(!new)>(s: State<V>, b: State<V>, p: nat, v: V)
    requires p < |s.calls| && s.ring.cap > 0 && b.ring.cap > 0
    requires Begun(s, b, p, v) && b.ring.prod == Aqueue.PCopy([Item(p, v)], 1, false)
    ensures var t := Step(Step(b, Ring(p, Aqueue.MoveBack)), Ring(p, Aqueue.PublishLen));
            && t.ring.sent == s.ring.sent + [Item(p, v)] && t.ring.len == s.ring.len + 1
            && t.ring.received == s.ring.received && t.ring.cons == s.ring.cons && t.ring.prod == Aqueue.PIdle
            && t == s.(ring := t.ring, calls := s.calls[p := Unlocking(v)])
  {
    var c := Step(b, Ring(p, Aqueue.MoveBack));
    assert Begun(s, c, p, v) && c.ring.prod == Aqueue.PPublish([Item(p, v)]);
    Overwritten(s.calls, p, Filling(v), Unlocking(v));
  }

  lemma Fills<V(!new)>(s: State<V>, p: nat, v: V)
    requires Inv(s) && p < |s.calls| && s.calls[p] == Holding(v) && s.ring.len < s.ring.cap
    ensures var t := Step(Step(Step(Step(s, CheckFull(p)), Ring(p, Aqueue.WriteElem)), Ring(p, Aqueue.MoveBack)),
                          Ring(p, Aqueue.PublishLen));
            && t.ring.sent == s.ring.sent + [Item(p, v)] && t.ring.len == s.ring.len + 1
            && t.ring.received == s.ring.received && t.ring.cons == s.ring.cons && t.ring.prod == Aqueue.PIdle
            && t == s.(ring := t.ring, calls := s.calls[p := Unlocking(v)])
  {
    FillsSlot(s, p, v);
    Publishes(s, Step(Step(s, CheckFull(p)), Ring(p, Aqueue.WriteElem)), p, v);
  }

  /** The steps of an enqueue that finds room. */
  function Enqueues<V>(p: nat, v: V): (actions: seq<Action<V>>) {
    ([Invoke(p, v)] + [Lock(p)]) + Inner(p)
  }

  /** Those of them behind the lock. */
  function Inner<V>(p: nat): (actions: seq<Action<V>>) {
    [CheckFull(p)] + ([Ring(p, Aqueue.WriteElem)] + ([Ring(p, Aqueue.MoveBack)] + ([Ring(p, Aqueue.PublishLen)]
      + [Unlock(p)])))
  }

  /** An undisturbed enqueue below the capacity appends the value it was called with, in the name of the producer that
      called, returns 0 for it, and lets go of the mutex; the consumer notices nothing but the length. */
  lemma EnqueueDelivers<V(!new)>(s: State<V>, p: nat, v: V)
    requires Inv(s) && Ready(s, p) && s.ring.len < s.ring.cap
    ensures var t := Run(s, Enqueues(p, v));
            && t.ring.sent == s.ring.sent + [Item(p, v)] && t.ring.len == s.ring.len + 1
            && t.ring.received == s.ring.received && t.ring.cons == s.ring.cons
            && t.returned == s.returned[p := s.returned[p] + [v]]
            && t.calls == s.calls && t.owner == Nobody && !t.leaked
  {
    Enters(s, p, v);
    RunKeepsInv(s, [Invoke(p, v)] + [Lock(p)]);
    RunAppend(s, [Invoke(p, v)] + [Lock(p)], Inner(p));
    InnerDelivers(Within(s, p, Holding(v)), p, v);
    Overwritten(s.calls, p, Holding(v), Outside);
  }

  lemma InnerDelivers<V(!new)>(s: State<V>, p: nat, v: V)
    requires Inv(s) && p < |s.calls| && s.calls[p] == Holding(v) && s.ring.len < s.ring.cap
    ensures var t := Run(s, Inner(p));
            && t.ring.sent == s.ring.sent + [Item(p, v)] && t.ring.len == s.ring.len + 1
            && t.ring.received == s.ring.received && t.ring.cons == s.ring.cons
            && p < |s.returned| && t.returned == s.returned[p := s.returned[p] + [v]]
            && t.calls == s.calls[p := Outside] && t.owner == Nobody && t.leaked == s.leaked
  {
    RunFive(s, CheckFull(p), Ring(p, Aqueue.WriteElem), Ring(p, Aqueue.MoveBack), Ring(p, Aqueue.PublishLen),
            Unlock(p));
    Fills(s, p, v);
    var t := Step(Step(Step(Step(s, CheckFull(p)), Ring(p, Aqueue.WriteElem)), Ring(p, Aqueue.MoveBack)),
                  Ring(p, Aqueue.PublishLen));
    Returns(s, t, p, v);
  }

  lemma Returns<V(!new)>(s: State<V>, t: State<V>, p: nat, v: V)
    requires p < |s.calls| && p < |s.returned| && t.ring.cap > 0
    requires t == s.(ring := t.ring, calls := s.calls[p := Unlocking(v)])
    ensures Step(t, Unlock(p))
         == s.(ring := t.ring, owner := Nobody, calls := s.calls[p := Outside],
               returned := s.returned[p := s.returned[p] + [v]])
  {
    Overwritten(s.calls, p, Unlocking(v), Outside);
  }

  lemma RunFive<V(!new)>(s: State<V>, a: Action<V>, b: Action<V>, c: Action<V>, d: Action<V>, e: Action<V>)
    requires s.ring.cap > 0
    ensures Run(s, [a] + ([b] + ([c] + ([d] + [e])))) == Step(Step(Step(Step(Step(s, a), b), c), d), e)
  {
    RunThen(s, a, [b] + ([c] + ([d] + [e])));
    var t := Step(s, a);
    RunThen(t, b, [c] + ([d] + [e]));
    RunThen(Step(t, b), c, [d] + [e]);
    RunThen(Step(Step(t, b), c), d, [e]);
    RunOne(Step(Step(Step(t, b), c), d), e);
  }

  /** An undisturbed enqueue at the capacity changes nothing in the queue and returns with the mutex taken. */
  lemma EnqueueLeaks<V(!new)>(s: State<V>, p: nat, v: V)
    requires Inv(s) && Ready(s, p) && s.ring.len == s.ring.cap
    ensures Run(s, [Invoke(p, v)] + [Lock(p)] + [CheckFull(p)]) == s.(owner := Producer(p), leaked := true)
  {
    Enters(s, p, v);
    RunAppend(s, [Invoke(p, v)] + [Lock(p)], [CheckFull(p)]);
    RunOne(Within(s, p, Holding(v)), CheckFull(p));
    Overwritten(s.calls, p, Holding(v), Outside);
  }

  // ----- a dequeue among whatever the producers do

  /** The consumer's steps among the actions, in order. */
  function ConsumerPart<V>(actions: seq<Action<V>>): (part: seq<Aqueue.Action<Item<V>>>) {
    if actions == [] then []
    else (if actions[0].Consume? && IsConsumerStep(actions[0].a) then [actions[0].a] else [])
         + ConsumerPart(actions[1..])
  }

  /** What is left of a dequeue for a consumer in the midst of it. */
  function RestOfDequeue<T>(c: Aqueue.Consumer<T>): (part: seq<Aqueue.Action<T>>) {
    match c
    case CIdle => [Aqueue.Dequeue, Aqueue.ReadElem, Aqueue.MoveFront, Aqueue.ReleaseLen]
    case CCopy(count, dest, _) =>
      if |dest| < count then [Aqueue.ReadElem, Aqueue.MoveFront, Aqueue.ReleaseLen]
      else [Aqueue.MoveFront, Aqueue.ReleaseLen]
    case CRelease(_) => [Aqueue.ReleaseLen]
  }

  /** The consumer is about to take, or in the midst of taking, one element that is there. */
  predicate TakesOne<T>(s: Aqueue.State<T>) {
    match s.cons
    case CIdle => s.len > 0
    case CCopy(count, dest, some) => count == 1 && !some
    case CRelease(taken) => |taken| == 1
  }

  lemma OthersStep<V(!new)>(s: State<V>, act: Action<V>)
    requires Inv(s) && !(act.Consume? && IsConsumerStep(act.a))
    ensures var t := Step(s, act);
            && t.ring.cons == s.ring.cons && t.ring.received == s.ring.received && s.ring.sent <= t.ring.sent
            && (TakesOne(s.ring) ==> TakesOne(t.ring))
  {
  }

  lemma TakingStep<V(!new)>(s: State<V>, a: Aqueue.Action<Item<V>>)
    requires Inv(s) && TakesOne(s.ring) && a == RestOfDequeue(s.ring.cons)[0]
    ensures IsConsumerStep(a)
    ensures var t := Step(s, Consume(a));
            && t.ring.sent == s.ring.sent
            && (if a.ReleaseLen? then t.ring.cons.CIdle? && |t.ring.received| == |s.ring.received| + 1
                else TakesOne(t.ring) && RestOfDequeue(t.ring.cons) == RestOfDequeue(s.ring.cons)[1..]
                     && t.ring.received == s.ring.received)
  {
    if s.ring.cons.CCopy? && |s.ring.cons.dest| < s.ring.cons.count {
      CopySlotIs(s.ring.front, |s.ring.received|, s.ring.cap, |s.ring.cons.dest|);
    }
  }

  lemma {:induction false} NothingTaken<V(!new)>(s: State<V>, actions: seq<Action<V>>)
    requires Inv(s) && ConsumerPart(actions) == []
    ensures var t := Run(s, actions);
            t.ring.cons == s.ring.cons && t.ring.received == s.ring.received && s.ring.sent <= t.ring.sent
    decreases |actions|
  {
    if actions != [] {
      OthersStep(s, actions[0]);
      StepKeepsInv(s, actions[0]);
      NothingTaken(Step(s, actions[0]), actions[1..]);
    }
  }

  lemma {:induction false} DequeueGoesOn<V(!new)>(s: State<V>, actions: seq<Action<V>>)
    requires Inv(s) && TakesOne(s.ring) && ConsumerPart(actions) == RestOfDequeue(s.ring.cons)
    ensures var t := Run(s, actions);
            t.ring.cons.CIdle? && |t.ring.received| == |s.ring.received| + 1 && s.ring.sent <= t.ring.sent
    decreases |actions|
  {
    var act := actions[0];
    var t := Step(s, act);
    StepKeepsInv(s, act);
    if act.Consume? && IsConsumerStep(act.a) {
      assert ConsumerPart(actions) == [act.a] + ConsumerPart(actions[1..]);
      TakingStep(s, act.a);
      assert ConsumerPart(actions[1..]) == RestOfDequeue(s.ring.cons)[1..];
      if act.a.ReleaseLen? {
        NothingTaken(t, actions[1..]);
      } else {
        DequeueGoesOn(t, actions[1..]);
      }
    } else {
      OthersStep(s, act);
      assert ConsumerPart(actions) == ConsumerPart(actions[1..]);
      DequeueGoesOn(t, actions[1..]);
    }
  }

  /** A dequeue from a queue that is not empty hands over the oldest item that has not been handed over, whatever the
      producers do or hold meanwhile, a leaked mutex included. */
  lemma DequeueDelivers<V(!new)>(s: State<V>, actions: seq<Action<V>>)
    requires Inv(s) && s.ring.cons.CIdle? && s.ring.len > 0
    requires ConsumerPart(actions) == [Aqueue.Dequeue, Aqueue.ReadElem, Aqueue.MoveFront, Aqueue.ReleaseLen]
    ensures |s.ring.received| < |s.ring.sent|
    ensures var t := Run(s, actions);
            t.ring.received == s.ring.sent[..|s.ring.received| + 1] && t.ring.cons.CIdle?
  {
    DequeueGoesOn(s, actions);
    RunKeepsInv(s, actions);
    var t := Run(s, actions);
    assert t.ring.received <= t.ring.sent;
  }

  lemma ConsumerCons<V>(a: Action<V>, rest: seq<Action<V>>)
    requires a.Consume? && IsConsumerStep(a.a)
    ensures ConsumerPart([a] + rest) == [a.a] + ConsumerPart(rest)
  {
    assert ([a] + rest)[1..] == rest;
  }

  /** The steps of a dequeue. */
  function Dequeues<V>(): (actions: seq<Action<V>>) {
    [Consume(Aqueue.Dequeue)] + ([Consume(Aqueue.ReadElem)] + ([Consume(Aqueue.MoveFront)]
      + ([Consume(Aqueue.ReleaseLen)] + [])))
  }

  lemma DequeuesPart<V>()
    ensures ConsumerPart(Dequeues<V>()) == [Aqueue.Dequeue, Aqueue.ReadElem, Aqueue.MoveFront, Aqueue.ReleaseLen]
  {
    var none: seq<Action<V>> := [];
    var d := [Consume(Aqueue.ReleaseLen)] + none;
    var c := [Consume(Aqueue.MoveFront)] + d;
    ConsumerCons(Consume(Aqueue.ReleaseLen), none);
    ConsumerCons(Consume(Aqueue.MoveFront), d);
    ConsumerCons(Consume(Aqueue.ReadElem), c);
    ConsumerCons(Consume(Aqueue.Dequeue), [Consume(Aqueue.ReadElem)] + c);
  }

  /** The run consists of steps of the consumer. */
  predicate ConsumersOnly<V>(actions: seq<Action<V>>) {
    forall i :: 0 <= i < |actions| ==> actions[i].Consume?
  }

  lemma ConsumerKeeps<V(!new)>(s: State<V>, a: Aqueue.Action<Item<V>>)
    requires s.ring.cap > 0
    ensures var t := Step(s, Consume(a)); t == s.(ring := t.ring) && t.ring.sent == s.ring.sent
  {
  }

  lemma {:induction false} ConsumersKeep<V(!new)>(s: State<V>, actions: seq<Action<V>>)
    requires s.ring.cap > 0 && ConsumersOnly(actions)
    ensures var t := Run(s, actions); t == s.(ring := t.ring) && t.ring.sent == s.ring.sent
    decreases |actions|
  {
    if actions != [] {
      ConsumerKeeps(s, actions[0].a);
      ConsumersKeep(Step(s, actions[0]), actions[1..]);
    }
  }

  /** When nothing else happens, only the length changes with it. */
  lemma DequeueAlone<V(!new)>(s: State<V>)
    requires Inv(s) && s.ring.cons.CIdle? && s.ring.len > 0
    ensures var t := Run(s, Dequeues());
            && |s.ring.received| < |s.ring.sent| && t.ring.received == s.ring.sent[..|s.ring.received| + 1]
            && t.ring.len == s.ring.len - 1 && t.ring.sent == s.ring.sent && t.ring.cons.CIdle?
            && t == s.(ring := t.ring)
  {
    DequeuesPart<V>();
    DequeueDelivers(s, Dequeues());
    RunKeepsInv(s, Dequeues());
    ConsumersKeep(s, Dequeues());
  }

  /** A dequeue from an empty queue changes nothing. */
  lemma DequeueFindsNothing<V(!new)>(s: State<V>)
    requires Inv(s) && s.ring.cons.CIdle? && s.ring.len == 0
    ensures Step(s, Consume(Aqueue.Dequeue)) == s
  {
  }
}
