/** What each call of the semaphore of src/fsemaphore.c does when nobody interrupts it, and that a wait can always come
    to its return while units are available. */
module FsemaphoreCalls {
  import opened FiniteSets
  import opened Fsemaphore
  import opened Modular

  lemma RunThen(s: State, a: Action, rest: seq<Action>)
    ensures Run(s, [a] + rest) == Run(Step(s, a), rest)
  {
    assert ([a] + rest)[1..] == rest;
  }

  lemma {:induction false} RunAppend(s: State, xs: seq<Action>, ys: seq<Action>)
    ensures Run(s, xs + ys) == Run(Run(s, xs), ys)
    decreases |xs|
  {
    if xs == [] {
      assert xs + ys == ys;
    } else {
      assert (xs + ys)[1..] == xs[1..] + ys;
      RunAppend(Step(s, xs[0]), xs[1..], ys);
    }
  }

  lemma Overwritten<T>(s: seq<T>, i: nat, x: T, y: T)
    requires i < |s|
    ensures s[i := x][i := y] == s[i := y]
    ensures s[i] == y ==> s[i := y] == s
  {
  }

  function Only(s: State, i: nat, t: Thread, owner: Owner): (r: State)
    requires i < |s.threads|
  {
    s.(owner := owner, threads := s.threads[i := t])
  }

  // ----- undisturbed calls

  predicate Free(s: State, i: nat) {
    s.owner == Nobody && i < |s.threads| && s.threads[i] == Idle
  }

  lemma Enters(s: State, i: nat, op: Op)
    requires Free(s, i)
    ensures Step(Step(s, Invoke(i, op)), Lock(i)) == Only(s, i, Critical(op), Thread(i))
  {
    Overwritten(s.threads, i, Locking(op), Critical(op));
  }

  lemma Leaves(s: State, i: nat, u: State)
    requires Free(s, i) && i < |u.threads| && u == Only(u, i, Unlocking(false), Thread(i))
    requires u.threads == s.threads[i := Unlocking(false)]
    ensures Step(u, Unlock(i)) == u.(owner := Nobody, threads := s.threads)
  {
    Overwritten(s.threads, i, Unlocking(false), Idle);
  }

  /** The steps of a call that wakes nobody. */
  function Quietly(i: nat, op: Op): (actions: seq<Action>) {
    [Invoke(i, op)] + ([Lock(i)] + ([Work(i)] + ([Unlock(i)] + [])))
  }

  lemma RunQuietly(s: State, i: nat, op: Op)
    ensures Run(s, Quietly(i, op)) == Step(Step(Step(Step(s, Invoke(i, op)), Lock(i)), Work(i)), Unlock(i))
  {
    var s1 := Step(s, Invoke(i, op));
    var s2 := Step(s1, Lock(i));
    var s3 := Step(s2, Work(i));
    RunThen(s, Invoke(i, op), [Lock(i)] + ([Work(i)] + ([Unlock(i)] + [])));
    RunThen(s1, Lock(i), [Work(i)] + ([Unlock(i)] + []));
    RunThen(s2, Work(i), [Unlock(i)] + []);
    RunThen(s3, Unlock(i), []);
  }

  /** A wait that finds a unit takes exactly one and returns. */
  lemma WaitTakesUnit(s: State, i: nat)
    requires Free(s, i) && s.counter > 0
    ensures Run(s, Quietly(i, Wait)) == s.(counter := s.counter - 1, taken := s.taken + 1)
  {
    RunQuietly(s, i, Wait);
    Enters(s, i, Wait);
    var u := Step(Only(s, i, Critical(Wait), Thread(i)), Work(i));
    Overwritten(s.threads, i, Critical(Wait), Unlocking(false));
    Leaves(s, i, u);
  }

  /** A wait that finds none lets go of the mutex and goes to sleep. */
  lemma WaitSleeps(s: State, i: nat)
    requires Free(s, i) && s.counter == 0
    ensures Run(s, Quietly(i, Wait) + [FutexWait(i)]) == s.(threads := s.threads[i := Sleeping])
  {
    RunAppend(s, Quietly(i, Wait), [FutexWait(i)]);
    RunQuietly(s, i, Wait);
    Enters(s, i, Wait);
    Overwritten(s.threads, i, Critical(Wait), Unlocking(true));
    Overwritten(s.threads, i, Unlocking(true), AtFutex);
    Overwritten(s.threads, i, AtFutex, Sleeping);
    var t := s.(threads := s.threads[i := AtFutex]);
    assert Run(s, Quietly(i, Wait)) == t;
    RunThen(t, FutexWait(i), []);
    assert [FutexWait(i)] + [] == [FutexWait(i)];
  }

  /** A wait that a signal interrupts in its sleep returns without a unit, and nothing else changes. */
  lemma InterruptedWaitReturns(s: State, i: nat)
    requires Free(s, i) && s.counter == 0
    ensures Run(s, Quietly(i, Wait) + [FutexWait(i)] + [Interrupt(i)]) == s
  {
    var t := s.(threads := s.threads[i := Sleeping]);
    RunAppend(s, Quietly(i, Wait) + [FutexWait(i)], [Interrupt(i)]);
    WaitSleeps(s, i);
    RunThen(t, Interrupt(i), []);
    assert [Interrupt(i)] + [] == [Interrupt(i)];
    Overwritten(s.threads, i, Sleeping, Idle);
  }

  /** A post at the maximum changes nothing. */
  lemma PostAtMax(s: State, i: nat)
    requires Free(s, i) && s.counter == s.max
    ensures Run(s, Quietly(i, Post)) == s
  {
    RunQuietly(s, i, Post);
    Enters(s, i, Post);
    var u := Step(Only(s, i, Critical(Post), Thread(i)), Work(i));
    Overwritten(s.threads, i, Critical(Post), Unlocking(false));
    Leaves(s, i, u);
  }

  /** An exhaust throws all available units away. */
  lemma ExhaustEmpties(s: State, i: nat)
    requires Free(s, i)
    ensures Run(s, Quietly(i, Exhaust)) == s.(counter := 0, supplied := s.supplied - s.counter)
  {
    RunQuietly(s, i, Exhaust);
    Enters(s, i, Exhaust);
    var u := Step(Only(s, i, Critical(Exhaust), Thread(i)), Work(i));
    Overwritten(s.threads, i, Critical(Exhaust), Unlocking(false));
    Leaves(s, i, u);
  }

  /** The steps of a call that wakes the sleepers in chosen. */
  function Waking(i: nat, op: Op, chosen: set<nat>): (actions: seq<Action>) {
    [Invoke(i, op)] + ([Lock(i)] + ([Work(i)] + ([FutexWake(i, chosen)] + ([Unlock(i)] + []))))
  }

  lemma RunWaking(s: State, i: nat, op: Op, chosen: set<nat>)
    ensures Run(s, Waking(i, op, chosen))
         == Step(Step(Step(Step(Step(s, Invoke(i, op)), Lock(i)), Work(i)), FutexWake(i, chosen)), Unlock(i))
  {
    var s1 := Step(s, Invoke(i, op));
    var s2 := Step(s1, Lock(i));
    var s3 := Step(s2, Work(i));
    var s4 := Step(s3, FutexWake(i, chosen));
    RunThen(s, Invoke(i, op), [Lock(i)] + ([Work(i)] + ([FutexWake(i, chosen)] + ([Unlock(i)] + []))));
    RunThen(s1, Lock(i), [Work(i)] + ([FutexWake(i, chosen)] + ([Unlock(i)] + [])));
    RunThen(s2, Work(i), [FutexWake(i, chosen)] + ([Unlock(i)] + []));
    RunThen(s3, FutexWake(i, chosen), [Unlock(i)] + []);
    RunThen(s4, Unlock(i), []);
  }

  /** The wake and the unlock of thread i, when count threads are to be woken. */
  lemma WakesAndLeaves(s: State, i: nat, u: State, count: nat, chosen: set<nat>)
    requires Free(s, i) && u.owner == Thread(i) && u.threads == s.threads[i := Thread.Waking(count)]
    requires chosen <= Sleepers(s) && |chosen| == Min(count, |Sleepers(s)|)
    ensures Step(Step(u, FutexWake(i, chosen)), Unlock(i)) == u.(owner := Nobody, threads := Woken(s.threads, chosen))
  {
    assert Sleepers(u) == Sleepers(s);
    var v := Step(u, FutexWake(i, chosen));
    assert v.threads == Woken(s.threads, chosen)[i := Unlocking(false)];
    Overwritten(Woken(s.threads, chosen), i, Unlocking(false), Idle);
  }

  /** A post below the maximum adds one unit and wakes one sleeper, if there is any. */
  lemma PostAddsUnit(s: State, i: nat, chosen: set<nat>)
    requires Free(s, i) && s.counter != s.max
    requires chosen <= Sleepers(s) && |chosen| == Min(1, |Sleepers(s)|)
    ensures Run(s, Waking(i, Post, chosen))
         == s.(counter := s.counter + 1, supplied := s.supplied + 1, threads := Woken(s.threads, chosen))
  {
    RunWaking(s, i, Post, chosen);
    Enters(s, i, Post);
    Overwritten(s.threads, i, Critical(Post), Thread.Waking(1));
    WakesAndLeaves(s, i, Step(Only(s, i, Critical(Post), Thread(i)), Work(i)), 1, chosen);
  }

  /** A reset makes all units available and wakes, for maxima that fit, as many sleepers as there are units. */
  lemma ResetFills(s: State, i: nat, chosen: set<nat>)
    requires Free(s, i) && 0 < s.max < HALF
    requires chosen <= Sleepers(s) && |chosen| == Min(s.max, |Sleepers(s)|)
    ensures Run(s, Waking(i, Reset, chosen))
         == s.(counter := s.max, supplied := s.supplied + s.max - s.counter, threads := Woken(s.threads, chosen))
  {
    RunWaking(s, i, Reset, chosen);
    Enters(s, i, Reset);
    ResetWork(s, i);
    WakesAndLeaves(s, i, Step(Only(s, i, Critical(Reset), Thread(i)), Work(i)), s.max, chosen);
  }

  lemma ResetWork(s: State, i: nat)
    requires Free(s, i) && 0 < s.max < HALF
    ensures Step(Only(s, i, Critical(Reset), Thread(i)), Work(i))
         == Only(s, i, Thread.Waking(s.max), Thread(i)).(
              counter := s.max, supplied := s.supplied + s.max - s.counter)
  {
    assert WakeCount(s.max) == s.max;
    Overwritten(s.threads, i, Critical(Reset), Thread.Waking(s.max));
  }

  // ----- a wait comes to its return

  /** Inside fsemaphore_wait, and not yet in possession of a unit. */
  predicate InWait(t: Thread) {
    IsAwake(t) || t.Sleeping?
  }

  /** The run up to the step in which thread i takes its unit, and the two steps after which it has returned. */
  ghost predicate Obtains(s: State, i: nat, before: seq<Action>)
    requires i < |s.threads|
  {
    var t := Run(s, before);
    && |t.threads| == |s.threads| && t.threads[i] == Critical(Wait) && t.counter > 0
    && var u, v := Run(s, before + [Work(i)]), Run(s, before + [Work(i)] + [Unlock(i)]);
    && u.taken == t.taken + 1 && u.counter == t.counter - 1
    && |v.threads| == |s.threads| && v.threads[i] == Idle
  }

  lemma ObtainsNow(s: State, i: nat)
    requires Safe(s) && i < |s.threads| && s.threads[i] == Critical(Wait) && s.counter > 0
    ensures Obtains(s, i, [])
  {
    RunThen(s, Work(i), []);
    RunThen(Step(s, Work(i)), Unlock(i), []);
    RunAppend(s, [Work(i)], [Unlock(i)]);
    assert [Work(i)] + [] == [Work(i)] == [] + [Work(i)];
    assert [Unlock(i)] + [] == [Unlock(i)];
  }

  lemma ObtainsLater(s: State, i: nat, a: Action, rest: seq<Action>)
    requires i < |s.threads| == |Step(s, a).threads| && Obtains(Step(s, a), i, rest)
    ensures Obtains(s, i, [a] + rest)
  {
    RunThen(s, a, rest);
    RunThen(s, a, rest + [Work(i)]);
    RunThen(s, a, rest + [Work(i)] + [Unlock(i)]);
    assert [a] + rest + [Work(i)] == [a] + (rest + [Work(i)]);
    assert [a] + rest + [Work(i)] + [Unlock(i)] == [a] + (rest + [Work(i)] + [Unlock(i)]);
  }

  /** How far thread i is from looking at the counter, when it has the mutex or can get it. */
  function ToLook(t: Thread): (n: nat) {
    match t
    case Critical(_) => 0
    case Locking(_) => 1
    case Sleeping => 2
    case AtFutex => 3
    case _ => 4
  }

  function NextLook(i: nat, t: Thread): (a: Action) {
    match t
    case Locking(_) => Lock(i)
    case Sleeping => SpuriousWake(i)
    case AtFutex => FutexWait(i)
    case _ => Unlock(i)
  }

  /** With the mutex free or its own, and a unit there. */
  lemma {:induction false} LooksAndTakes(s: State, i: nat) returns (before: seq<Action>)
    requires Safe(s) && i < |s.threads| && InWait(s.threads[i]) && s.counter > 0
    requires s.owner == Nobody || s.owner == Thread(i)
    ensures Obtains(s, i, before)
    decreases ToLook(s.threads[i])
  {
    if s.threads[i] == Critical(Wait) {
      ObtainsNow(s, i);
      before := [];
    } else {
      var a := NextLook(i, s.threads[i]);
      SafeStep(s, a);
      var rest := LooksAndTakes(Step(s, a), i);
      ObtainsLater(s, i, a, rest);
      before := [a] + rest;
    }
  }

  /** How far the holder k of the mutex is from releasing it. */
  function ToRelease(t: Thread): (n: nat) {
    match t
    case Critical(_) => 3
    case Waking(_) => 2
    case _ => 1
  }

  lemma {:induction false} SomeOf(all: set<nat>, n: nat) returns (chosen: set<nat>)
    requires n <= |all|
    ensures chosen <= all && |chosen| == n
    decreases n
  {
    if n == 0 {
      chosen := {};
    } else {
      var rest := SomeOf(all, n - 1);
      if all <= rest { SubsetSize(all, rest); }
      var x :| x in all && x !in rest;
      chosen := rest + {x};
    }
  }

  /** What the holder of the mutex does next. */
  lemma HolderStep(s: State, k: nat) returns (a: Action)
    requires Safe(s) && s.owner == Thread(k)
    ensures k < |s.threads| == |Step(s, a).threads| && Safe(Step(s, a)) && Step(s, a).max == s.max
    ensures var t := Step(s, a);
            && (t.owner == Nobody || (t.owner == s.owner && ToRelease(t.threads[k]) < ToRelease(s.threads[k])))
            && (forall j :: 0 <= j < |s.threads| && j != k && InWait(s.threads[j]) ==> InWait(t.threads[j]))
            && (t.owner == Nobody ==>
                  t.counter == s.counter && (t.threads[k] == Idle || s.threads[k] == Unlocking(true)))
            && (t.owner != Nobody && t.counter == 0 && s.counter > 0 ==> t.threads[k] == Unlocking(false))
  {
    match s.threads[k] {
      case Critical(_) => a := Work(k);
      case Waking(n) =>
        var chosen := SomeOf(Sleepers(s), Min(n, |Sleepers(s)|));
        a := FutexWake(k, chosen);
      case _ => a := Unlock(k);
    }
    SafeStep(s, a);
  }

  /** Whoever holds the mutex, and whatever it takes or throws away before it lets go: from every safe state in which
      units are available, a thread inside a wait can be brought to the return of that wait with a unit. */
  lemma {:induction false} WaitCanReturn(s: State, i: nat) returns (before: seq<Action>)
    requires Safe(s) && i < |s.threads| && InWait(s.threads[i]) && s.counter > 0
    ensures Obtains(s, i, before)
  {
    if s.owner.Thread? && s.owner.id != i {
      before := AfterHolder(s, i, s.owner.id);
    } else {
      before := LooksAndTakes(s, i);
    }
  }

  lemma {:induction false} AfterHolder(s: State, i: nat, k: nat) returns (before: seq<Action>)
    requires Safe(s) && 0 < s.max && i < |s.threads| && i != k && InWait(s.threads[i]) && s.owner == Thread(k)
    requires s.counter == 0 ==> s.threads[k] == Unlocking(false)
    ensures Obtains(s, i, before)
    decreases ToRelease(s.threads[k])
  {
    var a := HolderStep(s, k);
    var t := Step(s, a);
    var rest;
    if t.owner.Thread? {
      rest := AfterHolder(t, i, k);
    } else if t.counter > 0 {
      rest := LooksAndTakes(t, i);
    } else {
      rest := PostFirst(t, i, k);
    }
    ObtainsLater(s, i, a, rest);
    before := [a] + rest;
  }

  /** When the last unit has gone, the thread that has just become idle can supply another. */
  lemma PostFirst(s: State, i: nat, k: nat) returns (before: seq<Action>)
    requires Safe(s) && 0 < s.max && i < |s.threads| && i != k && InWait(s.threads[i])
    requires Free(s, k) && s.counter == 0
    ensures Obtains(s, i, before)
  {
    var chosen := SomeOf(Sleepers(s), Min(1, |Sleepers(s)|));
    var post := Waking(k, Post, chosen);
    PostAddsUnit(s, k, chosen);
    RunKeepsSafe(s, post);
    var rest := LooksAndTakes(Run(s, post), i);
    before := post + rest;
    RunAppend(s, post, rest);
    RunAppend(s, post, rest + [Work(i)]);
    RunAppend(s, post, rest + [Work(i)] + [Unlock(i)]);
    assert post + rest + [Work(i)] == post + (rest + [Work(i)]);
    assert post + rest + [Work(i)] + [Unlock(i)] == post + (rest + [Work(i)] + [Unlock(i)]);
  }
}
