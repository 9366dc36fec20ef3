/** The semaphore of src/fsemaphore.c as steps of any number of threads over a correct mutex and the
    futex system call. An action that is not enabled leaves the state as it is.

    The futex word is the low 32 bits of the 64-bit counter, and the count given to FUTEX_WAKE is a
    signed 32-bit number of which anything below 1 wakes one thread: both truncations are written out. */
module Fsemaphore {
  import opened FiniteSets
  import opened Modular

  const WORD: nat := 0x1_0000_0000

  // a signed 32-bit number is negative from here on
  const HALF: nat := 0x8000_0000

  datatype Op = Wait | Post | Reset | Exhaust

  /** Where a thread is. Locking and Critical are before and after taking the mutex; Unlocking(again)
      is about to release it, to leave (false) or to go to the futex (true). */
  datatype Thread =
    | Idle
    | Locking(op: Op)
    | Critical(op: Op)
    | Unlocking(again: bool)
    | AtFutex
    | Sleeping
    | Waking(count: nat)

  datatype Owner = Nobody | Thread(id: nat)

  /** supplied counts units put in less units thrown away by exhaust; taken counts successful waits. */
  datatype State = State(
    counter: nat, max: nat, owner: Owner, threads: seq<Thread>, supplied: int, taken: nat)

  datatype Action =
    | Invoke(i: nat, op: Op)
    | Lock(i: nat)
    | Work(i: nat)
    | FutexWake(i: nat, chosen: set<nat>)
    | Unlock(i: nat)
    | FutexWait(i: nat)
    | SpuriousWake(i: nat)
    | Interrupt(i: nat)

  predicate Init(s: State) {
    && 0 < s.max && s.counter <= s.max
    && s.owner == Nobody
    && (forall i :: 0 <= i < |s.threads| ==> s.threads[i] == Idle)
    && s.supplied == s.counter && s.taken == 0
  }

  ghost function Sleepers(s: State): (r: set<nat>)
  {
    set i: nat | i < |s.threads| && s.threads[i].Sleeping?
  }

  /** Threads inside fsemaphore_wait that are neither asleep nor already holding their unit. */
  predicate IsAwake(t: Thread) {
    t == Locking(Wait) || t == Critical(Wait) || t == Unlocking(true) || t.AtFutex?
  }

  ghost function Awake(s: State): (r: set<nat>)
  {
    set i: nat | i < |s.threads| && IsAwake(s.threads[i])
  }

  /** How many threads a FUTEX_WAKE wakes at most when it is given n. */
  function WakeCount(n: nat): (count: nat)
    ensures 1 <= count < HALF
  {
    if 1 <= n % WORD < HALF then n % WORD else 1
  }

  /** What a thread does while it holds the mutex. */
  function InLock(s: State, i: nat): (t: State)
    requires i < |s.threads| && s.threads[i].Critical?
  {
    match s.threads[i].op
    case Wait =>
      if s.counter > 0
      then s.(counter := s.counter - 1, taken := s.taken + 1, threads := s.threads[i := Unlocking(false)])
      else s.(threads := s.threads[i := Unlocking(true)])
    case Post =>
      if s.counter == s.max then s.(threads := s.threads[i := Unlocking(false)])
      else s.(counter := s.counter + 1, supplied := s.supplied + 1, threads := s.threads[i := Waking(1)])
    case Reset =>
      s.(counter := s.max, supplied := s.supplied + s.max - s.counter,
         threads := s.threads[i := Waking(WakeCount(s.max))])
    case Exhaust =>
      s.(counter := 0, supplied := s.supplied - s.counter, threads := s.threads[i := Unlocking(false)])
  }

  ghost function Woken(threads: seq<Thread>, chosen: set<nat>): (r: seq<Thread>)
    ensures |r| == |threads|
    ensures forall i :: 0 <= i < |r| ==> r[i] == if i in chosen then Locking(Wait) else threads[i]
  {
    seq(|threads|, i requires 0 <= i < |threads| => if i in chosen then Locking(Wait) else threads[i])
  }

  ghost function Step(s: State, a: Action): (t: State)
  {
    if a.i >= |s.threads| then s else
    match (a, s.threads[a.i])
    case (Invoke(i, op), Idle) => s.(threads := s.threads[i := Locking(op)])
    case (Lock(i), Locking(op)) =>
      if s.owner.Nobody? then s.(owner := Thread(i), threads := s.threads[i := Critical(op)]) else s
    case (Work(i), Critical(op)) => InLock(s, i)
    case (FutexWake(i, chosen), Waking(n)) =>
      if chosen <= Sleepers(s) && |chosen| == Min(n, |Sleepers(s)|)
      then s.(threads := Woken(s.threads, chosen)[i := Unlocking(false)]) else s
    case (Unlock(i), Unlocking(again)) =>
      s.(owner := Nobody, threads := s.threads[i := if again then AtFutex else Idle])
    case (FutexWait(i), AtFutex) =>
      s.(threads := s.threads[i := if s.counter % WORD == 0 then Sleeping else Locking(Wait)])
    case (SpuriousWake(i), Sleeping) => s.(threads := s.threads[i := Locking(Wait)])
    case (Interrupt(i), Sleeping) => s.(threads := s.threads[i := Idle])
    case _ => s
  }

  ghost function Run(s: State, actions: seq<Action>): (t: State)
    decreases |actions|
  {
    if actions == [] then s else Run(Step(s, actions[0]), actions[1..])
  }

  // ----- what must not happen

  /** Wakes that the holder of the mutex is about to issue. */
  function Pending(s: State): (n: nat)
  {
    if s.owner.Thread? && s.owner.id < |s.threads| && s.threads[s.owner.id].Waking?
    then s.threads[s.owner.id].count else 0
  }

  /** Some thread sleeps on the futex and more units are available than wakes on their way and awake
      waiters together will use up. */
  ghost predicate Behind(s: State) {
    Sleepers(s) != {} && s.counter > Pending(s) + |Awake(s)|
  }

  ghost predicate BehindAfter(s: State, actions: seq<Action>) {
    Behind(Run(s, actions))
  }

  /** Besides, some sleeper is one that no wake on its way will reach. */
  ghost predicate Stranded(s: State) {
    Behind(s) && Pending(s) < |Sleepers(s)|
  }

  ghost predicate StrandedAfter(s: State, actions: seq<Action>) {
    Stranded(Run(s, actions))
  }

  predicate HoldsMutex(t: Thread) {
    t.Critical? || t.Unlocking? || t.Waking?
  }

  ghost predicate Safe(s: State) {
    && s.counter <= s.max
    && s.taken + s.counter == s.supplied
    && (forall i :: 0 <= i < |s.threads| && HoldsMutex(s.threads[i]) ==> s.owner == Thread(i))
    && (s.owner.Thread? ==> s.owner.id < |s.threads| && HoldsMutex(s.threads[s.owner.id]))
  }

  /** For maxima below 2^31. */
  ghost predicate Inv(s: State) {
    && Safe(s) && 0 < s.max < HALF
    && (forall i :: 0 <= i < |s.threads| && s.threads[i].Waking? ==>
          s.threads[i].count == 1 || s.threads[i].count == s.max)
    && !Behind(s)
  }

  /** For two threads and maxima below 2^32. */
  ghost predicate PairInv(s: State) {
    && Safe(s) && |s.threads| == 2 && s.max < WORD
    && (forall i :: 0 <= i < |s.threads| && s.threads[i].Waking? ==> s.threads[i].count >= 1)
    && (Sleepers(s) == {} || Pending(s) > 0 || s.counter <= |Awake(s)|)
  }

  // ----- counting sets of threads

  lemma WithAndWithout(rest: set<nat>, i: nat, all: set<nat>, there: bool)
    requires i !in rest && all == if there then rest + {i} else rest
    ensures |all| == |rest| + if there then 1 else 0
  {
  }

  lemma AwakeBut(s: State, i: nat) returns (rest: set<nat>)
    requires i < |s.threads|
    ensures rest == set j: nat | j < |s.threads| && j != i && IsAwake(s.threads[j])
    ensures |Awake(s)| == |rest| + if IsAwake(s.threads[i]) then 1 else 0
  {
    rest := set j: nat | j < |s.threads| && j != i && IsAwake(s.threads[j]);
    assert Awake(s) == if IsAwake(s.threads[i]) then rest + {i} else rest;
    WithAndWithout(rest, i, Awake(s), IsAwake(s.threads[i]));
  }

  lemma AwakeAfter(s: State, t: State, i: nat)
    requires i < |s.threads| == |t.threads| && t.threads == s.threads[i := t.threads[i]]
    ensures |Awake(t)| == |Awake(s)| - (if IsAwake(s.threads[i]) then 1 else 0)
                                     + (if IsAwake(t.threads[i]) then 1 else 0)
    ensures Sleepers(t) == if t.threads[i].Sleeping? then Sleepers(s) + {i} else Sleepers(s) - {i}
  {
    var a := AwakeBut(s, i);
    var b := AwakeBut(t, i);
    assert a == b;
  }

  lemma AwakeAfterWake(s: State, chosen: set<nat>, i: nat)
    requires i < |s.threads| && s.threads[i].Waking? && chosen <= Sleepers(s)
    ensures var t := s.(threads := Woken(s.threads, chosen)[i := Unlocking(false)]);
            Awake(t) == Awake(s) + chosen && Awake(s) !! chosen && Sleepers(t) == Sleepers(s) - chosen
  {
  }

  // ----- every run

  lemma SafeStep(s: State, a: Action)
    requires Safe(s)
    ensures Safe(Step(s, a)) && Step(s, a).max == s.max && |Step(s, a).threads| == |s.threads|
  {
  }

  lemma WakeStep(s: State, i: nat, chosen: set<nat>)
    requires Inv(s) && i < |s.threads|
    ensures !Behind(Step(s, FutexWake(i, chosen)))
  {
    if s.threads[i].Waking? && chosen <= Sleepers(s) && |chosen| == Min(s.threads[i].count, |Sleepers(s)|) {
      var t := s.(threads := Woken(s.threads, chosen)[i := Unlocking(false)]);
      assert |Awake(t)| == |Awake(s)| + |chosen| && Sleepers(t) == Sleepers(s) - chosen by {
        AwakeAfterWake(s, chosen, i);
      }
      if |chosen| == |Sleepers(s)| {
        SubsetSameSize(chosen, Sleepers(s));
      }
    }
  }

  lemma WorkStep(s: State, i: nat)
    requires Inv(s) && i < |s.threads|
    ensures !Behind(Step(s, Work(i)))
  {
    AwakeAfter(s, Step(s, Work(i)), i);
    SafeStep(s, Work(i));
  }

  lemma OtherStep(s: State, a: Action)
    requires Inv(s) && !a.FutexWake? && a.i < |s.threads|
    ensures !Behind(Step(s, a))
  {
    if a.Work? {
      WorkStep(s, a.i);
    } else {
      AwakeAfter(s, Step(s, a), a.i);
      SafeStep(s, a);
    }
  }

  lemma StepKeepsInv(s: State, a: Action)
    requires Inv(s)
    ensures Inv(Step(s, a))
  {
    SafeStep(s, a);
    if a.i < |s.threads| {
      if a.FutexWake? { WakeStep(s, a.i, a.chosen); } else { OtherStep(s, a); }
    }
  }

  /** With a maximum below 2^31: whenever a thread sleeps, wakes on their way and awake waiters together are at
      least the counter. */
  lemma {:induction false} RunKeepsInv(s: State, actions: seq<Action>)
    requires Inv(s)
    ensures Inv(Run(s, actions)) && Run(s, actions).max == s.max
    decreases |actions|
  {
    if actions != [] {
      SafeStep(s, actions[0]);
      StepKeepsInv(s, actions[0]);
      RunKeepsInv(Step(s, actions[0]), actions[1..]);
    }
  }

  lemma OneOther(s: State, i: nat)
    requires |s.threads| == 2 && i < 2 && !s.threads[i].Sleeping?
    ensures |Sleepers(s)| <= 1
  {
    SubsetSize(Sleepers(s), {1 - i});
  }

  /** Between two threads nobody is left behind while a wake is on its way. */
  lemma PairNotStranded(s: State)
    requires PairInv(s)
    ensures !Stranded(s)
  {
    if s.owner.Thread? && s.threads[s.owner.id].Waking? {
      OneOther(s, s.owner.id);
    }
  }

  lemma PairWakeStep(s: State, i: nat, chosen: set<nat>)
    requires PairInv(s) && i < |s.threads|
    ensures PairInv(Step(s, FutexWake(i, chosen)))
  {
    SafeStep(s, FutexWake(i, chosen));
    if s.threads[i].Waking? && chosen <= Sleepers(s) && |chosen| == Min(s.threads[i].count, |Sleepers(s)|) {
      OneOther(s, i);
      SubsetSameSize(chosen, Sleepers(s));
      AwakeAfterWake(s, chosen, i);
    }
  }

  lemma PairOtherStep(s: State, a: Action)
    requires PairInv(s) && !a.FutexWake? && a.i < |s.threads|
    ensures PairInv(Step(s, a))
  {
    var t := Step(s, a);
    AwakeAfter(s, t, a.i);
    SafeStep(s, a);
  }

  lemma {:induction false} RunKeepsPairInv(s: State, actions: seq<Action>)
    requires PairInv(s)
    ensures PairInv(Run(s, actions))
    decreases |actions|
  {
    if actions != [] {
      var a := actions[0];
      if a.i < |s.threads| {
        if a.FutexWake? { PairWakeStep(s, a.i, a.chosen); } else { PairOtherStep(s, a); }
      }
      RunKeepsPairInv(Step(s, a), actions[1..]);
    }
  }

  lemma {:induction false} RunKeepsSafe(s: State, actions: seq<Action>)
    requires Safe(s)
    ensures Safe(Run(s, actions)) && Run(s, actions).max == s.max
    decreases |actions|
  {
    if actions != [] {
      SafeStep(s, actions[0]);
      RunKeepsSafe(Step(s, actions[0]), actions[1..]);
    }
  }

  /** On every run, whatever max is: no two threads hold the mutex at a time, 0 <= counter <= max, and every
      successful wait has used up one supplied unit. */
  lemma CounterOnEveryRun(s: State, actions: seq<Action>)
    requires Init(s)
    ensures var t := Run(s, actions);
            && t.max == s.max && t.counter <= t.max && t.taken + t.counter == t.supplied
            && (forall i, j :: 0 <= i < j < |t.threads| ==> !HoldsMutex(t.threads[i]) || !HoldsMutex(t.threads[j]))
  {
    RunKeepsSafe(s, actions);
  }
}
