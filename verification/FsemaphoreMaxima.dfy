/** For which maxima the semaphore of src/fsemaphore.c leaves no unit behind a sleeping waiter: runs that do, for the
    maxima that are too large, and the two exact conditions. */
module FsemaphoreMaxima {
  import opened Fsemaphore

  // ----- maxima that do not fit the futex word

  lemma RunThen(s: State, a: Action, rest: seq<Action>)
    ensures Run(s, [a] + rest) == Run(Step(s, a), rest)
  {
    assert ([a] + rest)[1..] == rest;
  }

  lemma RunOne(s: State, a: Action)
    ensures Run(s, [a]) == Step(s, a)
  {
    assert [a][1..] == [];
    assert Run(s, [a]) == Run(Step(s, a), []);
  }

  lemma {:induction false} RunAppend(s: State, xs: seq<Action>, ys: seq<Action>)
    ensures Run(s, xs + ys) == Run(Run(s, xs), ys)
    decreases |xs|
  {
    if xs == [] {
      assert xs + ys == ys;
    } else {
      assert (xs + ys)[1..] == xs[1..] + ys;
      RunAppend(Step(s, xs[0]), xs[1..], ys);
    }
  }

  /** Thread 0 has seen an empty semaphore and is about to enter the futex call; c units are there. */
  function BeforeFutex(s: State, c: nat): (t: State)
    requires |s.threads| >= 2
  {
    s.(counter := c, supplied := s.supplied - s.counter + c, threads := s.threads[0 := AtFutex])
  }

  /** One undisturbed call of a thread, up to the release of the mutex. */
  function Call(i: nat, op: Op): (r: seq<Action>) {
    [Invoke(i, op)] + ([Lock(i)] + ([Work(i)] + [Unlock(i)]))
  }

  lemma RunCall(s: State, i: nat, op: Op)
    requires i < |s.threads| && s.threads[i] == Idle && s.owner == Nobody
    ensures Run(s, Call(i, op)) == Step(Step(Step(Step(s, Invoke(i, op)), Lock(i)), Work(i)), Unlock(i))
  {
    var s1 := Step(s, Invoke(i, op));
    var s2 := Step(s1, Lock(i));
    var s3 := Step(s2, Work(i));
    RunThen(s, Invoke(i, op), [Lock(i)] + ([Work(i)] + [Unlock(i)]));
    RunThen(s1, Lock(i), [Work(i)] + [Unlock(i)]);
    RunThen(s2, Work(i), [Unlock(i)]);
    RunOne(s3, Unlock(i));
  }

  lemma ReachBeforeFutex(s: State) returns (actions: seq<Action>)
    requires Init(s) && |s.threads| >= 2
    ensures Run(s, actions) == BeforeFutex(s, 0)
  {
    actions := Call(1, Exhaust) + Call(0, Wait);
    RunCall(s, 1, Exhaust);
    var t := Run(s, Call(1, Exhaust));
    assert t == s.(counter := 0, supplied := s.supplied - s.counter) by {
      assert t.threads == s.threads;
    }
    RunCall(t, 0, Wait);
    RunAppend(s, Call(1, Exhaust), Call(0, Wait));
    assert Run(t, Call(0, Wait)).threads == s.threads[0 := AtFutex];
  }

  lemma OnePost(s: State, c: nat)
    requires Init(s) && |s.threads| >= 2 && c < s.max
    ensures Run(BeforeFutex(s, c), [Invoke(1, Post)] + ([Lock(1)] + ([Work(1)] + ([FutexWake(1, {})] + [Unlock(1)]))))
         == BeforeFutex(s, c + 1)
  {
    var s0 := BeforeFutex(s, c);
    var s1 := Step(s0, Invoke(1, Post));
    var s2 := Step(s1, Lock(1));
    var s3 := Step(s2, Work(1));
    assert Sleepers(s3) == {};
    var s4 := Step(s3, FutexWake(1, {}));
    var s5 := Step(s4, Unlock(1));
    assert s5.threads == s0.threads;
    RunThen(s0, Invoke(1, Post), [Lock(1)] + ([Work(1)] + ([FutexWake(1, {})] + [Unlock(1)])));
    RunThen(s1, Lock(1), [Work(1)] + ([FutexWake(1, {})] + [Unlock(1)]));
    RunThen(s2, Work(1), [FutexWake(1, {})] + [Unlock(1)]);
    RunThen(s3, FutexWake(1, {}), [Unlock(1)]);
    RunOne(s4, Unlock(1));
  }

  lemma {:induction false} ManyPosts(s: State, n: nat) returns (actions: seq<Action>)
    requires Init(s) && |s.threads| >= 2 && n <= s.max
    ensures Run(BeforeFutex(s, 0), actions) == BeforeFutex(s, n)
    decreases n
  {
    if n == 0 {
      actions := [];
    } else {
      var before := ManyPosts(s, n - 1);
      var post := [Invoke(1, Post)] + ([Lock(1)] + ([Work(1)] + ([FutexWake(1, {})] + [Unlock(1)])));
      OnePost(s, n - 1);
      RunAppend(BeforeFutex(s, 0), before, post);
      actions := before + post;
    }
  }

  /** With max >= 2^32 a waiter can go to sleep over 2^32 available units, because the futex compares
      only the low half of the counter. */
  lemma LargeMaxStrands(s: State) returns (actions: seq<Action>)
    requires Init(s) && |s.threads| >= 2 && s.max >= WORD
    ensures StrandedAfter(s, actions)
  {
    var first := ReachBeforeFutex(s);
    var posts := ManyPosts(s, WORD);
    RunAppend(s, first, posts);
    var t := BeforeFutex(s, WORD);
    RunOne(t, FutexWait(0));
    RunAppend(s, first + posts, [FutexWait(0)]);
    actions := first + posts + [FutexWait(0)];
    var u := Step(t, FutexWait(0));
    assert u.threads[0].Sleeping?;
    assert 0 in Sleepers(u);
    assert Awake(u) == {};
  }

  // ----- maxima that are negative as a count of wakes

  /** Thread 0 sleeps on an empty semaphore. */
  lemma ReachSleep(s: State) returns (actions: seq<Action>)
    requires Init(s) && |s.threads| >= 2
    ensures Run(s, actions) == BeforeFutex(s, 0).(threads := s.threads[0 := Sleeping])
  {
    var first := ReachBeforeFutex(s);
    RunOne(BeforeFutex(s, 0), FutexWait(0));
    RunAppend(s, first, [FutexWait(0)]);
    actions := first + [FutexWait(0)];
  }

  /** Thread 1 has stored max and is about to wake sleepers. */
  lemma ResetToWake(s: State)
    requires |s.threads| >= 2 && s.threads[1] == Idle && s.owner == Nobody
    ensures var t := Run(s, [Invoke(1, Reset)] + ([Lock(1)] + [Work(1)]));
            && t.counter == t.max == s.max && t.owner == Thread(1)
            && t.threads == s.threads[1 := Waking(WakeCount(s.max))]
  {
    var s1 := Step(s, Invoke(1, Reset));
    var s2 := Step(s1, Lock(1));
    RunThen(s, Invoke(1, Reset), [Lock(1)] + [Work(1)]);
    RunThen(s1, Lock(1), [Work(1)]);
    RunOne(s2, Work(1));
    assert Step(s2, Work(1)).threads == s.threads[1 := Waking(WakeCount(s.max))];
  }

  /** A reset then wakes one thread, however many units it provides. */
  lemma MiddleMaxFallsBehind(s: State) returns (actions: seq<Action>)
    requires Init(s) && |s.threads| >= 2 && HALF <= s.max < WORD
    ensures BehindAfter(s, actions)
  {
    var first := ReachSleep(s);
    var t := Run(s, first);
    var reset := [Invoke(1, Reset)] + ([Lock(1)] + [Work(1)]);
    ResetToWake(t);
    RunAppend(s, first, reset);
    actions := first + reset;
    var u := Run(t, reset);
    assert 0 in Sleepers(u);
    assert Awake(u) == {};
  }

  /** With three threads two can be asleep, and the second is left behind. */
  lemma MiddleMaxStrands(s: State) returns (actions: seq<Action>)
    requires Init(s) && |s.threads| >= 3 && HALF <= s.max < WORD
    ensures StrandedAfter(s, actions)
  {
    var first := ReachSleep(s);
    var t := Run(s, first);
    RunCall(t, 2, Wait);
    var t' := Run(t, Call(2, Wait));
    assert t' == t.(threads := t.threads[2 := AtFutex]);
    RunOne(t', FutexWait(2));
    var v := Step(t', FutexWait(2));
    RunAppend(s, first, Call(2, Wait));
    RunAppend(s, first + Call(2, Wait), [FutexWait(2)]);
    var reset := [Invoke(1, Reset)] + ([Lock(1)] + [Work(1)]);
    ResetToWake(v);
    RunAppend(s, first + Call(2, Wait) + [FutexWait(2)], reset);
    actions := first + Call(2, Wait) + [FutexWait(2)] + reset;
    var u := Run(v, reset);
    assert Sleepers(u) == {0, 2};
    assert Awake(u) == {};
  }

  lemma StrandedIsBehind(s: State, actions: seq<Action>)
    requires StrandedAfter(s, actions)
    ensures BehindAfter(s, actions)
  {
  }

  /** On every run of at least two threads wakes on their way and awake waiters suffice for the counter whenever a
      thread sleeps, if and only if the maximum is a positive signed 32-bit number. */
  lemma NeverBehindIff(s: State)
    requires Init(s) && |s.threads| >= 2
    ensures (forall actions :: !BehindAfter(s, actions)) <==> s.max < HALF
  {
    if s.max < HALF {
      assert Sleepers(s) == {};
      forall actions
        ensures !BehindAfter(s, actions)
      {
        RunKeepsInv(s, actions);
      }
    } else if s.max < WORD {
      var actions := MiddleMaxFallsBehind(s);
    } else {
      var actions := LargeMaxStrands(s);
      StrandedIsBehind(s, actions);
    }
  }

  /** No posted unit is ever left behind a sleeper that nobody is about to wake, on any run of at least two threads,
      if and only if the maximum is below 2^31, or below 2^32 when there are just two threads. */
  lemma NeverStrandedIff(s: State)
    requires Init(s) && |s.threads| >= 2
    ensures (forall actions :: !StrandedAfter(s, actions))
            <==> s.max < HALF || (|s.threads| == 2 && s.max < WORD)
  {
    assert Sleepers(s) == {};
    if s.max < HALF {
      forall actions
        ensures !StrandedAfter(s, actions)
      {
        RunKeepsInv(s, actions);
      }
    } else if s.max >= WORD {
      var actions := LargeMaxStrands(s);
    } else if |s.threads| == 2 {
      forall actions
        ensures !StrandedAfter(s, actions)
      {
        RunKeepsPairInv(s, actions);
        PairNotStranded(Run(s, actions));
      }
    } else {
      var actions := MiddleMaxStrands(s);
    }
  }
}
