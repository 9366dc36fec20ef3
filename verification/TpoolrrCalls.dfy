/** What the calls of the thread pool bring about by the time they return, and what the workers then do or leave. */
module TpoolrrCalls {
  import opened Tpoolrr
  import opened TpoolrrProofs

  /** The actions, of whatever threads, from inside a call to the moment it returns. */
  ghost predicate Span(s: Pool, actions: seq<Action>)
    requires |s.workers| > 0
    decreases |actions|
  {
    !s.ctl.CIdle? && actions != [] &&
    var t := Step(s, actions[0]);
    if |actions| == 1 then t.ctl.CIdle? else Span(t, actions[1..])
  }

  lemma {:induction false} SpanEnds(s: Pool, actions: seq<Action>)
    requires |s.workers| > 0 && Span(s, actions)
    ensures Run(s, actions).ctl.CIdle?
    decreases |actions|
  {
    if |actions| == 1 {
      assert Run(s, actions) == Run(Step(s, actions[0]), []);
    } else {
      SpanEnds(Step(s, actions[0]), actions[1..]);
    }
  }

  // ----- pause, resume, stop and join reach every worker

  predicate SetsState(c: Ctl, mode: Mode) {
    (c.CStateLock? || c.CStateSet? || c.CStateSignal? || c.CStateUnlock? || Ending(c)) && c.mode == mode
  }

  /** How many workers, from the first on, the call has told its mode. */
  function Told(c: Ctl): (n: nat)
    requires Addresses(c)
  {
    if c.CStateLock? || c.CStateSet? || c.CEndLock? || c.CEndSet? then c.at else c.at + 1
  }

  ghost predicate TellsAll(s: Pool, mode: Mode) {
    && SetsState(s.ctl, mode) && s.ctl.at < |s.workers|
    && forall j :: 0 <= j < Told(s.ctl) ==> s.workers[j].desired == mode
  }

  ghost predicate AllDesire(s: Pool, mode: Mode) {
    forall j :: 0 <= j < |s.workers| ==> s.workers[j].desired == mode
  }

  lemma TellsOnward(c: Ctl, w: Worker, n: nat, mode: Mode)
    requires SetsState(c, mode) && c.at < n && (Told(c) > c.at ==> w.desired == mode)
    ensures var next := Onward(c, w, n);
            && (next.CIdle? || (SetsState(next, mode) && next.at < n))
            && (Told(c) > c.at || Told(if next.CIdle? then c else next) > c.at ==> Touched(c, w).desired == mode)
            && (if next.CIdle? then c.at + 1 == n && Told(c) == n else Told(c) <= Told(next) <= c.at + 1)
  {
  }

  lemma TellsAdvance(s: Pool, mode: Mode)
    requires TellsAll(s, mode)
    ensures var t := AdvanceStep(s); TellsAll(t, mode) || (t.ctl.CIdle? && AllDesire(t, mode))
  {
    TellsOnward(s.ctl, s.workers[s.ctl.at], |s.workers|, mode);
    var t := AdvanceStep(s);
    forall j | 0 <= j < |t.workers| && j != s.ctl.at
      ensures t.workers[j] == s.workers[j]
    {
    }
    if t.ctl.CIdle? {
      assert AllDesire(t, mode);
    }
  }

  lemma TellsStep(s: Pool, a: Action, mode: Mode)
    requires TellsAll(s, mode)
    ensures var t := Step(s, a); TellsAll(t, mode) || (t.ctl.CIdle? && AllDesire(t, mode))
  {
    if a.Advance? {
      TellsAdvance(s, mode);
    } else if a.Work? && a.i < |s.workers| {
      assert WorkerStep(s.workers[a.i], s.cap, a.what).desired == s.workers[a.i].desired;
    }
  }

  lemma {:induction false} TellsToTheEnd(s: Pool, actions: seq<Action>, mode: Mode)
    requires TellsAll(s, mode) && Span(s, actions)
    ensures AllDesire(Run(s, actions), mode)
    decreases |actions|
  {
    TellsStep(s, actions[0], mode);
    if |actions| == 1 {
      assert Run(s, actions) == Run(Step(s, actions[0]), []);
    } else {
      TellsToTheEnd(Step(s, actions[0]), actions[1..], mode);
    }
  }

  /** When a pause returns every worker is to pause, after a resume to be active, after a stop to stop and after a join
      to join, whatever the workers did in between. */
  lemma ModeCallsReachAll(s: Pool, a: Action, during: seq<Action>)
    requires |s.workers| > 0 && s.ctl.CIdle? && Span(Step(s, a), during)
    ensures var t := Run(Step(s, a), during);
            && (a.Pause? ==> AllDesire(t, Paused)) && (a.Resume? ==> AllDesire(t, Active))
            && (a.StopSafe? ==> AllDesire(t, Stopped)) && (a.Join? ==> AllDesire(t, Joined))
  {
    if a.Pause? {
      TellsToTheEnd(Step(s, a), during, Paused);
    } else if a.Resume? {
      TellsToTheEnd(Step(s, a), during, Active);
    } else if a.StopSafe? {
      TellsToTheEnd(Step(s, a), during, Stopped);
    } else if a.Join? {
      TellsToTheEnd(Step(s, a), during, Joined);
    }
  }

  lemma EndsStep(s: Pool, a: Action)
    requires Inv(s) && Ending(s.ctl)
    ensures var t := Step(s, a);
            Ending(t.ctl) || (t.ctl.CIdle? && forall j :: 0 <= j < |t.workers| ==> Leaves(t.workers[j].pc))
  {
    if a.Advance? {
      var t := AddressStep(s);
      if t.ctl.CIdle? {
        forall j | 0 <= j < |t.workers|
          ensures Leaves(t.workers[j].pc)
        {
          assert Control(s.workers[j], s.cap, s.ctl, j);
        }
      }
    }
  }

  /** A stop or join returns only when every worker has left its loop. */
  lemma {:induction false} EndCallsEndAll(s: Pool, actions: seq<Action>)
    requires Inv(s) && Ending(s.ctl) && Span(s, actions)
    ensures forall j :: 0 <= j < |s.workers| ==> Leaves(Run(s, actions).workers[j].pc)
    decreases |actions|
  {
    EndsStep(s, actions[0]);
    StepKeepsInv(s, actions[0]);
    if |actions| == 1 {
      assert Run(s, actions) == Run(Step(s, actions[0]), []);
    } else {
      EndCallsEndAll(Step(s, actions[0]), actions[1..]);
    }
  }

  // ----- a paused or stopped worker starts nothing

  /** A job that the worker has or is bound to take, and will run whatever it is told. */
  function Due(pc: Pc): (n: nat) {
    if pc == Leaving(Fetch) || pc.Fetching? || pc.Running? then 1 else 0
  }

  predicate Rests(m: Mode) {
    m == Paused || m == Stopped
  }

  predicate SetsToWork(c: Ctl) {
    SetsState(c, Active) || SetsState(c, Joined)
  }

  /** The worker has run nothing but a job that was due, and if none was, has taken nothing from its queue. */
  predicate KeptQuiet(w: Worker, v: Worker) {
    && w.executed <= v.executed && |v.executed| + Due(v.pc) <= |w.executed| + Due(w.pc)
    && (Due(w.pc) == 0 ==> v.executed == w.executed && w.sub <= v.sub)
  }

  lemma QuietOwnStep(w: Worker, cap: nat, what: WorkerAction)
    requires Rests(w.desired)
    ensures var v := WorkerStep(w, cap, what); v.desired == w.desired && KeptQuiet(w, v)
  {
  }

  lemma QuietTouched(c: Ctl, w: Worker)
    requires Addresses(c) && Rests(w.desired) && !SetsToWork(c) && (Ending(c) ==> c.mode == Stopped)
    requires c.CStateSet? ==> c.mode == Paused
    ensures Rests(Touched(c, w).desired) && KeptQuiet(w, Touched(c, w))
  {
  }

  lemma QuietOnward(c: Ctl, w: Worker, n: nat)
    requires Addresses(c) && !SetsToWork(c)
    ensures !SetsToWork(Onward(c, w, n))
  {
  }

  lemma QuietAdvance(s: Pool, j: nat)
    requires Inv(s) && j < |s.workers| && Rests(s.workers[j].desired) && !SetsToWork(s.ctl)
    ensures var t := AdvanceStep(s);
            && Rests(t.workers[j].desired) && !SetsToWork(t.ctl) && KeptQuiet(s.workers[j], t.workers[j])
  {
    if Addresses(s.ctl) {
      QuietOnward(s.ctl, s.workers[s.ctl.at], |s.workers|);
      if s.ctl.at == j { QuietTouched(s.ctl, s.workers[j]); }
    }
  }

  lemma QuietStep(s: Pool, a: Action, j: nat)
    requires Inv(s) && j < |s.workers| && Rests(s.workers[j].desired) && !SetsToWork(s.ctl)
    requires !a.Resume? && !a.Join?
    ensures var t := Step(s, a);
            && Rests(t.workers[j].desired) && !SetsToWork(t.ctl) && KeptQuiet(s.workers[j], t.workers[j])
  {
    if a.Advance? {
      QuietAdvance(s, j);
    } else if a.Work? && a.i == j {
      QuietOwnStep(s.workers[j], s.cap, a.what);
    }
  }

  /** On every run without a resume or a join, a worker told to pause or to stop starts no job: it finishes at most the
      one that it was already bound to run, and leaves its queue as it is, but for jobs that are added. */
  lemma {:induction false} RestingWorkerStartsNothing(s: Pool, actions: seq<Action>, j: nat)
    requires Inv(s) && j < |s.workers| && Rests(s.workers[j].desired) && !SetsToWork(s.ctl)
    requires forall i :: 0 <= i < |actions| ==> !actions[i].Resume? && !actions[i].Join?
    ensures Rests(Run(s, actions).workers[j].desired) && KeptQuiet(s.workers[j], Run(s, actions).workers[j])
    decreases |actions|
  {
    if actions != [] {
      QuietStep(s, actions[0], j);
      StepKeepsInv(s, actions[0]);
      RestingWorkerStartsNothing(Step(s, actions[0]), actions[1..], j);
    }
  }

  /** From the return of a pause on, until a resume or a join, each worker finishes at most the job it has in hand. */
  lemma PauseHolds(s: Pool, during: seq<Action>, later: seq<Action>, j: nat)
    requires Inv(s) && s.ctl.CIdle? && j < |s.workers| && Span(Step(s, Pause), during)
    requires forall i :: 0 <= i < |later| ==> !later[i].Resume? && !later[i].Join?
    ensures var t := Run(Step(s, Pause), during);
            t.workers[j].desired == Paused && KeptQuiet(t.workers[j], Run(t, later).workers[j])
  {
    ModeCallsReachAll(s, Pause, during);
    StepKeepsInv(s, Pause);
    RunKeepsInv(Step(s, Pause), during);
    SpanEnds(Step(s, Pause), during);
    RestingWorkerStartsNothing(Run(Step(s, Pause), during), later, j);
  }

  lemma {:induction false} SpanHasNoCalls(s: Pool, actions: seq<Action>, j: nat)
    requires Inv(s) && j < |s.workers| && SetsState(s.ctl, Stopped) && Rests(s.workers[j].desired) && Span(s, actions)
    ensures KeptQuiet(s.workers[j], Run(s, actions).workers[j])
    decreases |actions|
  {
    var a := actions[0];
    var t := Step(s, a);
    // no other call is enabled before this one returns
    QuietStep(s, if a.Resume? || a.Join? then Pause else a, j);
    StepKeepsInv(s, a);
    if |actions| == 1 {
      assert Run(s, actions) == Run(t, []);
    } else {
      SpanHasNoCalls(t, actions[1..], j);
    }
  }

  /** A stop leaves queued jobs unstarted: a worker that was paused and had no job in hand has ended when the stop
      returns, has run nothing more, and its queue is still there. A join would have drained it. */
  lemma StopLeavesQueue(s: Pool, during: seq<Action>, j: nat)
    requires Inv(s) && s.ctl.CIdle? && j < |s.workers| && Span(Step(s, StopSafe), during)
    requires s.workers[j].desired == Paused && Due(s.workers[j].pc) == 0
    ensures var w := Run(Step(s, StopSafe), during).workers[j];
            && w.desired == Stopped && Leaves(w.pc)
            && w.executed == s.workers[j].executed && s.workers[j].sub <= w.sub
  {
    ModeCallsReachAll(s, StopSafe, during);
    StepKeepsInv(s, StopSafe);
    EndCallsEndAll(Step(s, StopSafe), during);
    SpanHasNoCalls(Step(s, StopSafe), during, j);
  }

  /** How many steps of its own a worker told to stop has left at most, whatever is queued. */
  function StopsIn(pc: Pc): (n: nat)
    ensures n <= 13
  {
    match pc
    case Leaving(to) => if to.Fetch? then 13 else if to.Loop? then 8 else 1
    case Fetching => 12
    case Running(_) => 11
    case Finished(_) => 10
    case Woken => 9
    case AtLock => 7
    case Locked => 6
    case _ => 0
  }

  lemma StopProgress(s: Pool, a: Action)
    requires Inv(s) && s.ctl.CEndJoin? && s.ctl.mode == Stopped && !s.workers[s.ctl.at].pc.Exited?
    ensures var at := s.ctl.at;
            var t := Step(s, a);
            && t.ctl == s.ctl && StopsIn(s.workers[at].pc) > 0
            && (if a.Work? && a.i == at && !a.what.Spurious? then StopsIn(t.workers[at].pc) < StopsIn(s.workers[at].pc)
                else t.workers[at] == s.workers[at])
  {
    assert Control(s.workers[s.ctl.at], s.cap, s.ctl, s.ctl.at);
  }

  /** A stop waits for each worker for at most 13 of that worker's own steps, however many jobs are queued. */
  lemma {:induction false} StoppedWorkerExits(s: Pool, actions: seq<Action>)
    requires Inv(s) && s.ctl.CEndJoin? && s.ctl.mode == Stopped && OwnSteps(actions, s.ctl.at) >= 13
    ensures Run(s, actions).workers[s.ctl.at].pc.Exited?
  {
    ExitsIn(s, actions);
  }

  lemma {:induction false} ExitsIn(s: Pool, actions: seq<Action>)
    requires Inv(s) && s.ctl.CEndJoin? && s.ctl.mode == Stopped
    requires OwnSteps(actions, s.ctl.at) >= StopsIn(s.workers[s.ctl.at].pc)
    ensures Run(s, actions).workers[s.ctl.at].pc.Exited?
    decreases |actions|
  {
    if s.workers[s.ctl.at].pc.Exited? {
      ExitedStays(s, actions, s.ctl.at);
    } else {
      StopProgress(s, if actions == [] then Advance else actions[0]);
      if actions != [] {
        StepKeepsInv(s, actions[0]);
        ExitsIn(Step(s, actions[0]), actions[1..]);
      }
    }
  }

  // ----- an active worker runs, an idle one sleeps

  function Works(j: nat, n: nat): (r: seq<Action>)
    ensures |r| == n
  {
    seq(n, _ => Work(j, Next))
  }

  lemma WorksSplit(s: Pool, j: nat, n: nat)
    requires |s.workers| > 0
    ensures Run(s, Works(j, n + 1)) == Run(Step(s, Work(j, Next)), Works(j, n))
  {
    assert Works(j, n + 1)[1..] == Works(j, n);
  }

  /** How many steps of its own a worker is from running a job. */
  function ToRunning(pc: Pc): (n: nat) {
    match pc
    case Running(_) => 0
    case Fetching => 1
    case Leaving(to) => if to.Fetch? then 2 else 5
    case Locked => 3
    case AtLock => 4
    case Finished(_) => 5
    case Woken => 6
    case _ => 7
  }

  ghost predicate ReadyToRun(s: Pool, j: nat) {
    && Inv(s) && s.ctl.CIdle? && j < |s.workers|
    && s.workers[j].desired.Active? && s.workers[j].sub != [] && !Leaves(s.workers[j].pc)
  }

  lemma RunningStep(s: Pool, j: nat)
    requires ReadyToRun(s, j) && !s.workers[j].pc.Running?
    ensures var w, t := s.workers[j], Step(s, Work(j, Next));
            var v := t.workers[j];
            && t == s.(workers := s.workers[j := v])
            && if v.pc.Running? then v.pc.job == w.sub[0] && v.sub == w.sub[1..]
               else ReadyToRun(t, j) && v.sub == w.sub && ToRunning(v.pc) < ToRunning(w.pc)
  {
    StepKeepsInv(s, Work(j, Next));
    assert Control(s.workers[j], s.cap, s.ctl, j);
  }

  /** With no call in progress an active worker that has jobs queued and has not ended comes to run the first of them by
      its own steps alone; no other worker has to move. */
  lemma {:induction false} ActiveWorkerRuns(s: Pool, j: nat) returns (n: nat)
    requires ReadyToRun(s, j)
    ensures n <= 7
    ensures var w, t := s.workers[j], Run(s, Works(j, n));
            && t == s.(workers := s.workers[j := t.workers[j]])
            && t.workers[j].pc == Running(if w.pc.Running? then w.pc.job else w.sub[0])
  {
    n := RunsIn(s, j);
  }

  lemma {:induction false} RunsIn(s: Pool, j: nat) returns (n: nat)
    requires ReadyToRun(s, j)
    ensures n <= ToRunning(s.workers[j].pc)
    ensures var w, t := s.workers[j], Run(s, Works(j, n));
            && t == s.(workers := s.workers[j := t.workers[j]])
            && t.workers[j].pc == Running(if w.pc.Running? then w.pc.job else w.sub[0])
    decreases ToRunning(s.workers[j].pc)
  {
    if s.workers[j].pc.Running? {
      n := 0;
    } else {
      var t := Step(s, Work(j, Next));
      RunningStep(s, j);
      var m := 0;
      if !t.workers[j].pc.Running? {
        m := RunsIn(t, j);
      }
      n := m + 1;
      WorksSplit(s, j, m);
    }
  }

  /** After a resume has returned, every worker that has jobs queued and has not ended can go on to run them. */
  lemma ResumeRestarts(s: Pool, during: seq<Action>, j: nat) returns (n: nat)
    requires Inv(s) && s.ctl.CIdle? && j < |s.workers| && Span(Step(s, Resume), during)
    requires var w := Run(Step(s, Resume), during).workers[j]; w.sub != [] && !Leaves(w.pc)
    ensures Run(Run(Step(s, Resume), during), Works(j, n)).workers[j].pc.Running?
  {
    ModeCallsReachAll(s, Resume, during);
    StepKeepsInv(s, Resume);
    RunKeepsInv(Step(s, Resume), during);
    SpanEnds(Step(s, Resume), during);
    n := ActiveWorkerRuns(Run(Step(s, Resume), during), j);
  }

  /** How many steps of its own a worker with nothing to do is from sleeping. */
  function ToSleeping(pc: Pc): (n: nat) {
    match pc
    case Sleeping => 0
    case AboutToWait => 1
    case Locked => 2
    case AtLock => 3
    case Leaving(_) => 4
    case Finished(_) => 4
    case _ => 5
  }

  ghost predicate NothingToDo(s: Pool, j: nat) {
    && Inv(s) && s.ctl.CIdle? && j < |s.workers|
    && !HasWork(s.workers[j]) && !Leaves(s.workers[j].pc) && Due(s.workers[j].pc) == 0
  }

  lemma SleepingStep(s: Pool, j: nat)
    requires NothingToDo(s, j) && !s.workers[j].pc.Sleeping?
    ensures var w, t := s.workers[j], Step(s, Work(j, Next));
            NothingToDo(t, j) && ToSleeping(t.workers[j].pc) < ToSleeping(w.pc)
  {
    StepKeepsInv(s, Work(j, Next));
    assert Control(s.workers[j], s.cap, s.ctl, j);
  }

  /** With no call in progress a worker that is paused, or active without a job, goes to sleep by its own steps: it does
      not spin. */
  lemma {:induction false} IdleWorkerSleeps(s: Pool, j: nat) returns (n: nat)
    requires NothingToDo(s, j)
    ensures n <= 5 && Run(s, Works(j, n)).workers[j].pc.Sleeping?
  {
    n := SleepsIn(s, j);
  }

  lemma {:induction false} SleepsIn(s: Pool, j: nat) returns (n: nat)
    requires NothingToDo(s, j)
    ensures n <= ToSleeping(s.workers[j].pc) && Run(s, Works(j, n)).workers[j].pc.Sleeping?
    decreases ToSleeping(s.workers[j].pc)
  {
    if s.workers[j].pc.Sleeping? {
      n := 0;
    } else {
      SleepingStep(s, j);
      var m := SleepsIn(Step(s, Work(j, Next)), j);
      n := m + 1;
      WorksSplit(s, j, m);
    }
  }

  /** A sleeper may wake for no reason; with nothing to do it goes back to sleep. */
  lemma SpuriousWakeSleepsAgain(s: Pool, j: nat) returns (n: nat)
    requires NothingToDo(s, j) && s.workers[j].pc.Sleeping?
    ensures var t := Step(s, Work(j, Spurious));
            t.workers[j].pc == Woken && Run(t, Works(j, n)).workers[j].pc.Sleeping?
  {
    StepKeepsInv(s, Work(j, Spurious));
    n := IdleWorkerSleeps(Step(s, Work(j, Spurious)), j);
  }

  // ----- jobs that expire

  predicate FlaggedRightly(ds: seq<Done>) {
    forall i :: 0 <= i < |ds| ==> ds[i].expired ==> ds[i].job.expires
  }

  ghost predicate Flags(w: Worker) {
    && FlaggedRightly(w.executed) && FlaggedRightly(w.popped) && FlaggedRightly(w.comp)
    && (w.pc.Finished? ==> FlaggedRightly([w.pc.done]))
  }

  lemma FlagsStep(s: Pool, a: Action, j: nat)
    requires |s.workers| > 0 && j < |s.workers| && Flags(s.workers[j])
    ensures Flags(Step(s, a).workers[j])
  {
  }

  /** A job without an expiration time never comes back flagged as expired. */
  lemma {:induction false} OnlyExpiringJobsExpire(s: Pool, actions: seq<Action>, j: nat)
    requires |s.workers| > 0 && j < |s.workers| && Flags(s.workers[j])
    ensures Flags(Run(s, actions).workers[j])
    decreases |actions|
  {
    if actions != [] {
      FlagsStep(s, actions[0], j);
      OnlyExpiringJobsExpire(Step(s, actions[0]), actions[1..], j);
    }
  }

  /** A job with an expiration time is flagged if and only if that time is over when the worker comes to it, and it is
      that job and its flag that go into the completion queue. */
  lemma JobOutcome(w: Worker, cap: nat, late: bool)
    requires w.pc.Running? && |w.comp| < cap
    ensures var v := WorkerStep(WorkerStep(w, cap, if late then Expire else Next), cap, Next);
            && v.comp == w.comp + [Done(w.pc.job, late && w.pc.job.expires)]
            && v.executed == w.executed + [Done(w.pc.job, late && w.pc.job.expires)]
  {
  }

  // ----- adding and popping, from the call to its return

  lemma CallThen(s: Pool, a: Action, rest: seq<Action>)
    requires |s.workers| > 0
    ensures Run(s, [a] + rest) == Run(Step(s, a), rest)
  {
    assert ([a] + rest)[1..] == rest;
  }

  lemma AdvancesJoin(s: Pool, m: nat, n: nat)
    requires |s.workers| > 0
    ensures Run(s, Advances(m + n)) == Run(Run(s, Advances(m)), Advances(n))
  {
    assert Advances(m + n) == Advances(m) + Advances(n);
    RunAppend(s, Advances(m), Advances(n));
  }

  /** One step of a call that addresses worker at and ends nothing. */
  lemma AddressedStep(s: Pool, at: nat)
    requires at < |s.workers| && Addresses(s.ctl) && s.ctl.at == at && !Ending(s.ctl)
    ensures AdvanceStep(s)
         == s.(workers := s.workers[at := Touched(s.ctl, s.workers[at])],
               ctl := Onward(s.ctl, s.workers[at], |s.workers|), rr := s.rr + if s.ctl.CSigUnlock? then 1 else 0)
  {
  }

  lemma Overwritten<T>(s: seq<T>, i: nat, x: T, y: T)
    requires i < |s|
    ensures s[i := x][i := y] == s[i := y]
  {
  }

  function WithWorker(s: Pool, at: nat, w: Worker, c: Ctl): (t: Pool)
    requires at < |s.workers|
  {
    s.(workers := s.workers[at := w], ctl := c)
  }

  lemma SignalSteps(s: Pool, at: nat)
    requires at < |s.workers| && s.ctl == CSigLock(at) && s.workers[at].mutex.Free?
    ensures var w := s.workers[at];
            AdvanceStep(AdvanceStep(s)) == WithWorker(s, at, Signalled(w.(mutex := ByController)), CSigUnlock(at))
  {
    var w := s.workers[at].(mutex := ByController);
    AddressedStep(s, at);
    var t := WithWorker(s, at, w, CSignal(at));
    assert AdvanceStep(s) == t;
    AddressedStep(t, at);
    Overwritten(s.workers, at, w, Signalled(w));
  }

  /** The end of an add: the worker is woken if it sleeps, and the round-robin index moves on. */
  lemma SignalAfterAdd(s: Pool, at: nat)
    requires at < |s.workers| && s.ctl == CSigLock(at) && s.workers[at].mutex.Free?
    ensures var w := s.workers[at];
            Run(s, Advances(3))
            == WithWorker(s, at, w.(pc := if w.pc.Sleeping? then Woken else w.pc), CIdle).(rr := s.rr + 1)
  {
    var w, t := s.workers[at], AdvanceStep(AdvanceStep(s));
    SignalSteps(s, at);
    AddressedStep(t, at);
    var v := Signalled(w.(mutex := ByController));
    Overwritten(s.workers, at, v, v.(mutex := Free));
    AdvancesSplit(s, 2);
    TwoAdvances(AdvanceStep(s));
    AdvancesJoin(s, 2, 1);
    TwoAdvances(s);
    OneMore(t);
  }

  lemma OneMore(s: Pool)
    requires |s.workers| > 0
    ensures Run(s, Advances(1)) == AdvanceStep(s)
  {
    AdvancesSplit(s, 0);
    assert Advances(0) == [];
  }

  /** The pool with the job at the end of one queue, its worker awake, and the round-robin index one further. */
  function AfterAdd(s: Pool, job: Job, at: nat): (t: Pool)
    requires at < |s.workers|
  {
    var w := s.workers[at];
    s.(rr := s.rr + 1,
       workers := s.workers[at := w.(sub := w.sub + [job], accepted := w.accepted + [job],
                                     pc := if w.pc.Sleeping? then Woken else w.pc)])
  }

  /** An undisturbed add, from an idle pool, puts the job at the end of the first queue with room, counted from the
      round-robin index, wakes that worker if it sleeps, moves the index on by one, and changes nothing else. */
  lemma AddDelivers(s: Pool, job: Job, m: nat)
    requires s.ctl.CIdle? && m < |s.workers|
    requires (forall i :: 0 <= i < m ==> Full(s, i)) && !Full(s, m)
    requires s.workers[(m + s.rr) % |s.workers|].mutex.Free?
    ensures Run(s, [Add(job)] + Advances(m + 5)) == AfterAdd(s, job, (m + s.rr) % |s.workers|)
  {
    AddReachesQueue(s, job, m);
    AddComesBack(s, job, m + 2, (m + s.rr) % |s.workers|);
  }

  lemma AddComesBack(s: Pool, job: Job, n: nat, at: nat)
    requires s.ctl.CIdle? && at < |s.workers| && s.workers[at].mutex.Free?
    requires Run(s.(ctl := CTry(job, 0)), Advances(n)) == AddedTo(s, job, at)
    ensures Run(s, [Add(job)] + Advances(n + 3)) == AfterAdd(s, job, at)
  {
    CallThen(s, Add(job), Advances(n + 3));
    AdvancesJoin(s.(ctl := CTry(job, 0)), n, 3);
    SignalAdded(s, job, at);
  }

  lemma AddReachesQueue(s: Pool, job: Job, m: nat)
    requires s.ctl.CIdle? && m < |s.workers|
    requires (forall i :: 0 <= i < m ==> Full(s, i)) && !Full(s, m)
    ensures Run(s.(ctl := CTry(job, 0)), Advances(m + 2)) == AddedTo(s, job, (m + s.rr) % |s.workers|)
  {
    var t := s.(ctl := CTry(job, 0));
    SameQueues(s, t);
    AddFindsFirstRoom(t, m);
    assert m - t.ctl.k + 2 == m + 2;
  }

  lemma SignalAdded(s: Pool, job: Job, at: nat)
    requires s.ctl.CIdle? && at < |s.workers| && s.workers[at].mutex.Free?
    ensures Run(AddedTo(s, job, at), Advances(3)) == AfterAdd(s, job, at)
  {
    var w := s.workers[at];
    var v := w.(sub := w.sub + [job], accepted := w.accepted + [job]);
    SignalAfterAdd(AddedTo(s, job, at), at);
    Overwritten(s.workers, at, v, v.(pc := if w.pc.Sleeping? then Woken else w.pc));
  }

  /** Which queues are full or drained does not depend on the controller. */
  lemma SameQueues(s: Pool, t: Pool)
    requires |s.workers| > 0 && t == s.(ctl := t.ctl)
    ensures forall i: nat :: Full(t, i) == Full(s, i)
    ensures forall i: nat :: Drained(t, i) == Drained(s, i)
  {
  }

  /** With every queue full it changes nothing. */
  lemma AddRefused(s: Pool, job: Job)
    requires s.ctl.CIdle? && |s.workers| > 0 && forall i :: 0 <= i <= |s.workers| ==> Full(s, i)
    ensures Run(s, [Add(job)] + Advances(|s.workers| + 2)) == s
  {
    var t := s.(ctl := CTry(job, 0));
    CallThen(s, Add(job), Advances(|s.workers| + 2));
    SameQueues(s, t);
    AddGivesUpWhenAllFull(t);
  }

  /** An undisturbed pop, from an idle pool, takes the oldest completion of the first non-empty queue, counted from the
      round-robin index, moves the index there, and changes nothing else. */
  lemma PopDelivers(s: Pool, m: nat)
    requires s.ctl.CIdle? && m < |s.workers|
    requires (forall i :: 0 <= i < m ==> Drained(s, i)) && !Drained(s, m)
    ensures var at := (m + s.rr) % |s.workers|;
            var w := s.workers[at];
            && w.comp != []
            && Run(s, [PopOne] + Advances(m + 1))
               == s.(rr := at,
                     workers := s.workers[at := w.(comp := w.comp[1..], popped := w.popped + [w.comp[0]])])
  {
    CallThen(s, PopOne, Advances(m + 1));
    PopReachesQueue(s, m);
    PoppedIs(s, m);
  }

  lemma PoppedIs(s: Pool, m: nat)
    requires s.ctl.CIdle? && m < |s.workers| && !Drained(s, m)
    ensures var at := (m + s.rr) % |s.workers|;
            var w := s.workers[at];
            && w.comp != []
            && PoppedAt(s, m)
               == s.(rr := at,
                     workers := s.workers[at := w.(comp := w.comp[1..], popped := w.popped + [w.comp[0]])])
  {
  }

  lemma PopReachesQueue(s: Pool, m: nat)
    requires s.ctl.CIdle? && m < |s.workers|
    requires (forall i :: 0 <= i < m ==> Drained(s, i)) && !Drained(s, m)
    ensures Run(s.(ctl := CPop(0)), Advances(m + 1)) == PoppedAt(s, m)
  {
    var t := s.(ctl := CPop(0));
    SameQueues(s, t);
    PopTakesFirst(t, m);
    assert m - t.ctl.k + 1 == m + 1;
    assert PoppedAt(t, m) == PoppedAt(s, m);
  }

  /** With every completion queue empty it changes nothing. */
  lemma PopFindsNothing(s: Pool)
    requires s.ctl.CIdle? && |s.workers| > 0 && forall i :: 0 <= i < |s.workers| ==> Drained(s, i)
    ensures Run(s, [PopOne] + Advances(|s.workers| + 1)) == s
  {
    var t := s.(ctl := CPop(0));
    CallThen(s, PopOne, Advances(|s.workers| + 1));
    SameQueues(s, t);
    PassesDrained(t);
  }

  lemma {:induction false} PassesDrained(s: Pool)
    requires |s.workers| > 0 && s.ctl.CPop? && s.ctl.k <= |s.workers|
    requires forall i :: s.ctl.k <= i < |s.workers| ==> Drained(s, i)
    ensures Run(s, Advances(|s.workers| + 1 - s.ctl.k)) == s.(ctl := CIdle)
    decreases |s.workers| - s.ctl.k
  {
    AdvancesSplit(s, |s.workers| - s.ctl.k);
    if s.ctl.k < |s.workers| {
      assert Drained(s, s.ctl.k);
      var t := s.(ctl := CPop(s.ctl.k + 1));
      assert AdvanceStep(s) == t;
      assert forall i :: s.ctl.k < i < |s.workers| ==> Drained(t, i) == Drained(s, i);
      PassesDrained(t);
    } else {
      assert AdvanceStep(s) == s.(ctl := CIdle);
      assert Advances(0) == [];
    }
  }
}
