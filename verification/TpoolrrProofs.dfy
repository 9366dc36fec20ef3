/** Safety and progress of the thread pool over every run. */
module TpoolrrProofs {
  import opened Tpoolrr

  // ----- what the controller is doing to worker j

  predicate HoldsMutex(c: Ctl, j: nat) {
    (c.CSignal? || c.CSigUnlock? || c.CStateSet? || c.CStateSignal? || c.CStateUnlock? || c.CEndSet? || c.CEndUnlock?)
    && c.at == j
  }

  /** The controller still has to signal worker j's condition variable. */
  predicate OwesSignal(c: Ctl, j: nat) {
    ((c.CSigLock? || c.CSignal? || c.CStateSignal? || c.CEndSignal?) && c.at == j)
    || (c.CEndUnlock? && c.need && c.at == j)
  }

  /** The controller has set worker j's final mode and is bound to wait for its thread. */
  predicate WillJoin(c: Ctl, j: nat) {
    ((c.CEndSignal? || c.CEndJoin?) && c.at == j) || (c.CEndUnlock? && c.need && c.at == j)
  }

  /** Worker j is done with: the stop or join in progress has passed it. */
  predicate Passed(c: Ctl, j: nat) {
    Ending(c) && j < c.at
  }

  // ----- the invariant

  function Jobs(ds: seq<Done>): (js: seq<Job>)
    ensures |js| == |ds|
  {
    seq(|ds|, i requires 0 <= i < |ds| => ds[i].job)
  }

  function InHand(pc: Pc): (js: seq<Job>) {
    if pc.Running? then [pc.job] else []
  }

  function Unposted(pc: Pc): (n: nat) {
    if pc.Finished? then 1 else 0
  }

  predicate WorkerHolds(pc: Pc) {
    pc.Locked? || pc.AboutToWait? || pc.Leaving?
  }

  predicate Leaves(pc: Pc) {
    pc.Exited? || pc == Leaving(Exit)
  }

  predicate Waits(pc: Pc) {
    pc.AboutToWait? || pc.Sleeping? || pc.Woken? || pc == Leaving(Loop)
  }

  /** A reason not to sleep. */
  predicate HasWork(w: Worker) {
    (w.desired.Active? && w.sub != []) || Terminal(w.desired)
  }

  /** Every job accepted by the worker is accounted for, in order and once. */
  ghost predicate Conserved(w: Worker) {
    && w.accepted == Jobs(w.executed) + InHand(w.pc) + w.sub
    && |w.executed| == |w.popped| + |w.comp| + |w.dropped| + Unposted(w.pc)
    && (w.dropped == [] && !w.pc.Finished? ==> w.executed == w.popped + w.comp)
    && (w.dropped == [] && w.pc.Finished? ==> w.executed == w.popped + w.comp + [w.pc.done])
  }

  ghost predicate Control(w: Worker, cap: nat, c: Ctl, j: nat) {
    && (w.mutex.ByWorker? <==> WorkerHolds(w.pc))
    && (w.mutex.ByController? <==> HoldsMutex(c, j))
    && (w.pc == Leaving(Fetch) || w.pc.Fetching? ==> w.sub != [])
    && (Terminal(w.current) <==> Leaves(w.pc))
    && (Waits(w.pc) ==> w.current == Paused)
    && (w.pc.AboutToWait? && HasWork(w) ==> c == CSigLock(j))
    && (w.pc.Sleeping? && HasWork(w) ==> OwesSignal(c, j))
    && |w.sub| <= cap && |w.comp| <= cap
    && (c.CEnqueue? && c.at == j ==> |w.sub| < cap)
    && (Terminal(w.desired) && !Leaves(w.pc) ==> WillJoin(c, j))
    && (WillJoin(c, j) ==> w.desired == c.mode)
    && (c.CEndUnlock? && c.at == j && !c.need ==> Leaves(w.pc))
    && (Passed(c, j) ==> Leaves(w.pc))
  }

  predicate WellAimed(c: Ctl, n: nat) {
    && (Addresses(c) ==> c.at < n)
    && (Ending(c) ==> c.mode == Stopped || c.mode == Joined)
    && (c.CStateLock? || c.CStateSet? || c.CStateSignal? || c.CStateUnlock? ==> c.mode == Active || c.mode == Paused)
  }

  ghost predicate Inv(s: Pool) {
    && s.cap > 0 && |s.workers| > 0
    && WellAimed(s.ctl, |s.workers|)
    && (forall j :: 0 <= j < |s.workers| ==> Control(s.workers[j], s.cap, s.ctl, j))
    && (forall j :: 0 <= j < |s.workers| ==> Conserved(s.workers[j]))
  }

  // ----- worker steps

  lemma DecideKeepsControl(w: Worker, cap: nat, c: Ctl, j: nat)
    requires Control(w, cap, c, j) && w.pc.Locked?
    ensures Control(Decide(w), cap, c, j)
  {
  }

  lemma JobKeepsControl(w: Worker, cap: nat, c: Ctl, j: nat, what: WorkerAction)
    requires Control(w, cap, c, j) && (w.pc.Fetching? || w.pc.Running? || w.pc.Finished?)
    ensures Control(WorkerStep(w, cap, what), cap, c, j)
  {
  }

  lemma MutexKeepsControl(w: Worker, cap: nat, c: Ctl, j: nat)
    requires Control(w, cap, c, j) && (w.pc.AtLock? || w.pc.Woken? || w.pc.AboutToWait? || w.pc.Leaving?)
    ensures Control(WorkerStep(w, cap, Next), cap, c, j)
  {
  }

  lemma WorkerKeepsControl(w: Worker, cap: nat, c: Ctl, j: nat, what: WorkerAction)
    requires Control(w, cap, c, j)
    ensures Control(WorkerStep(w, cap, what), cap, c, j)
  {
    if !what.Spurious? {
      if w.pc.Locked? {
        DecideKeepsControl(w, cap, c, j);
      } else if w.pc.Fetching? || w.pc.Running? || w.pc.Finished? {
        JobKeepsControl(w, cap, c, j, what);
      } else if !w.pc.Sleeping? && !w.pc.Exited? {
        MutexKeepsControl(w, cap, c, j);
      }
    }
  }

  lemma JobsAppend(ds: seq<Done>, d: Done)
    ensures Jobs(ds + [d]) == Jobs(ds) + [d.job]
  {
  }

  lemma RunningKeepsConserved(w: Worker, cap: nat, what: WorkerAction)
    requires Conserved(w) && w.pc.Running? && !what.Spurious?
    ensures Conserved(WorkerStep(w, cap, what))
  {
    var r := WorkerStep(w, cap, what);
    JobsAppend(w.executed, r.pc.done);
    assert r.accepted == Jobs(r.executed) + InHand(r.pc) + r.sub;
  }

  lemma FetchingKeepsConserved(w: Worker, cap: nat, what: WorkerAction)
    requires Conserved(w) && w.pc.Fetching? && w.sub != [] && !what.Spurious?
    ensures Conserved(WorkerStep(w, cap, what))
  {
    var r := WorkerStep(w, cap, what);
    assert w.sub == [w.sub[0]] + r.sub;
    assert r.accepted == Jobs(r.executed) + InHand(r.pc) + r.sub;
  }

  lemma FinishedKeepsConserved(w: Worker, cap: nat, what: WorkerAction)
    requires Conserved(w) && w.pc.Finished? && !what.Spurious?
    ensures Conserved(WorkerStep(w, cap, what))
  {
    assert w.popped + w.comp + [w.pc.done] == w.popped + (w.comp + [w.pc.done]);
  }

  lemma WorkerKeepsConserved(w: Worker, cap: nat, what: WorkerAction)
    requires Conserved(w)
    ensures Conserved(WorkerStep(w, cap, what))
  {
    if what.Spurious? {
    } else if w.pc.Running? {
      RunningKeepsConserved(w, cap, what);
    } else if w.pc.Fetching? && w.sub != [] {
      FetchingKeepsConserved(w, cap, what);
    } else if w.pc.Finished? {
      FinishedKeepsConserved(w, cap, what);
    }
  }

  // ----- controller steps

  lemma TouchedKeepsConserved(c: Ctl, w: Worker)
    requires Addresses(c) && Conserved(w)
    ensures Conserved(Touched(c, w))
  {
  }

  lemma TouchedKeepsControl(c: Ctl, w: Worker, cap: nat, n: nat)
    requires Addresses(c) && WellAimed(c, n) && Control(w, cap, c, c.at)
    ensures Control(Touched(c, w), cap, Onward(c, w, n), c.at)
  {
  }

  lemma OthersKeepControl(c: Ctl, at: Worker, w: Worker, cap: nat, n: nat, j: nat)
    requires Addresses(c) && WellAimed(c, n) && j != c.at && j < n
    requires Control(w, cap, c, j) && Control(at, cap, c, c.at)
    ensures Control(w, cap, Onward(c, at, n), j)
  {
  }

  lemma AddressKeepsInv(s: Pool)
    requires Inv(s) && Addresses(s.ctl)
    ensures Inv(AddressStep(s))
  {
    var n, c := |s.workers|, s.ctl;
    var t := AddressStep(s);
    forall j | 0 <= j < n
      ensures Control(t.workers[j], t.cap, t.ctl, j)
    {
      if j == c.at {
        TouchedKeepsControl(c, s.workers[j], s.cap, n);
      } else {
        OthersKeepControl(c, s.workers[c.at], s.workers[j], s.cap, n, j);
      }
    }
    TouchedKeepsConserved(c, s.workers[c.at]);
  }

  lemma TryKeepsInv(s: Pool)
    requires Inv(s) && s.ctl.CTry?
    ensures Inv(TryStep(s))
  {
  }

  lemma PopKeepsConserved(w: Worker)
    requires Conserved(w) && w.comp != []
    ensures Conserved(w.(comp := w.comp[1..], popped := w.popped + [w.comp[0]]))
  {
    assert w.popped + w.comp == w.popped + [w.comp[0]] + w.comp[1..];
  }

  lemma PopKeepsControl(w: Worker, cap: nat, c: Ctl, next: Ctl, j: nat)
    requires Control(w, cap, c, j) && !Addresses(c) && !Addresses(next)
    ensures Control(w, cap, next, j)
    ensures w.comp != [] ==> Control(w.(comp := w.comp[1..], popped := w.popped + [w.comp[0]]), cap, next, j)
  {
  }

  lemma PopKeepsInv(s: Pool)
    requires Inv(s) && s.ctl.CPop?
    ensures Inv(PopStep(s))
  {
    var at := (s.ctl.k + s.rr) % |s.workers|;
    var t := PopStep(s);
    assert !Addresses(t.ctl);
    forall j | 0 <= j < |s.workers|
      ensures Control(t.workers[j], t.cap, t.ctl, j) && Conserved(t.workers[j])
    {
      PopKeepsControl(s.workers[j], s.cap, s.ctl, t.ctl, j);
      if s.workers[j].comp != [] { PopKeepsConserved(s.workers[j]); }
    }
  }

  lemma WorkKeepsInv(s: Pool, i: nat, what: WorkerAction)
    requires Inv(s) && i < |s.workers|
    ensures Inv(Step(s, Work(i, what)))
  {
    WorkerKeepsControl(s.workers[i], s.cap, s.ctl, i, what);
    WorkerKeepsConserved(s.workers[i], s.cap, what);
  }

  lemma CallKeepsInv(s: Pool, a: Action)
    requires Inv(s) && s.ctl.CIdle? && !a.Work?
    ensures Inv(s.(ctl := Called(a)))
  {
  }

  lemma StepKeepsInv(s: Pool, a: Action)
    requires Inv(s)
    ensures Inv(Step(s, a))
  {
    if a.Work? {
      if a.i < |s.workers| { WorkKeepsInv(s, a.i, a.what); }
    } else if !a.Advance? {
      if s.ctl.CIdle? { CallKeepsInv(s, a); }
    } else if s.ctl.CTry? {
      TryKeepsInv(s);
    } else if s.ctl.CPop? {
      PopKeepsInv(s);
    } else if Addresses(s.ctl) {
      AddressKeepsInv(s);
    }
  }

  lemma {:induction false} RunKeepsInv(s: Pool, actions: seq<Action>)
    requires Inv(s)
    ensures Inv(Run(s, actions))
    decreases |actions|
  {
    if actions != [] {
      StepKeepsInv(s, actions[0]);
      RunKeepsInv(Step(s, actions[0]), actions[1..]);
    }
  }

  lemma InitHolds(s: Pool)
    requires Init(s)
    ensures Inv(s)
  {
  }

  // ----- no lost wakeup

  /** On every run, spurious wakeups included: a worker that sleeps although it is to run queued jobs, or
      to finish, is one the controller is on its way to signal. */
  lemma NoLostWakeup(s: Pool, actions: seq<Action>, j: nat)
    requires Init(s) && j < |s.workers|
    ensures var t := Run(s, actions);
            t.workers[j].pc.Sleeping? && HasWork(t.workers[j]) ==> OwesSignal(t.ctl, j)
  {
    InitHolds(s);
    RunKeepsInv(s, actions);
  }

  /** In particular, whenever no call is in progress every sleeper has nothing to do. */
  lemma IdlePoolSleepsOnlyWithoutWork(s: Pool, actions: seq<Action>, j: nat)
    requires Init(s) && j < |s.workers| && Run(s, actions).ctl == CIdle
    ensures Run(s, actions).workers[j].pc.Sleeping? ==> !HasWork(Run(s, actions).workers[j])
  {
    NoLostWakeup(s, actions, j);
  }

  // ----- conservation of jobs

  /** The error branches are dead on every run: a worker never dequeues from an empty queue and
      _tpoolrr_jobs_add never enqueues into a full one. */
  lemma QueueErrorsNeverHappen(s: Pool, actions: seq<Action>, j: nat)
    requires Init(s) && j < |s.workers|
    ensures var t := Run(s, actions);
            && (t.workers[j].pc.Fetching? ==> t.workers[j].sub != [])
            && (t.ctl.CEnqueue? ==> t.ctl.at < |t.workers| && |t.workers[t.ctl.at].sub| < t.cap)
  {
    InitHolds(s);
    RunKeepsInv(s, actions);
    var t := Run(s, actions);
    assert t.ctl.CEnqueue? ==> Control(t.workers[t.ctl.at], t.cap, t.ctl, t.ctl.at);
  }

  /** On every run the jobs accepted for a worker are exactly those it has executed, in the same order and
      once each, then the one it is running, then those still queued; and every executed job is a
      completion that was popped, is queued, is about to be queued, or was dropped. */
  lemma JobsConserved(s: Pool, actions: seq<Action>, j: nat)
    requires Init(s) && j < |s.workers|
    ensures var w := Run(s, actions).workers[j];
            && w.accepted == Jobs(w.executed) + InHand(w.pc) + w.sub
            && |w.accepted| == |w.popped| + |w.comp| + |w.dropped| + Unposted(w.pc) + |InHand(w.pc)| + |w.sub|
  {
    InitHolds(s);
    RunKeepsInv(s, actions);
  }

  /** Outstanding work of a worker: accepted and not yet popped. */
  predicate Modest(s: Pool) {
    forall j :: 0 <= j < |s.workers| ==> |s.workers[j].accepted| - |s.workers[j].popped| <= s.cap
  }

  ghost predicate NothingDropped(s: Pool) {
    forall j :: 0 <= j < |s.workers| ==> s.workers[j].dropped == []
  }

  /** Each worker's completions are popped and queued in the order in which it executed its jobs, which is that in
      which they were accepted. */
  ghost predicate CompletionsInOrder(s: Pool) {
    forall j :: 0 <= j < |s.workers| ==>
      var w := s.workers[j];
      && w.executed == w.popped + w.comp + (if w.pc.Finished? then [w.pc.done] else [])
      && w.accepted == Jobs(w.executed) + InHand(w.pc) + w.sub
  }

  lemma NothingDroppedInOrder(s: Pool)
    requires Inv(s) && NothingDropped(s)
    ensures CompletionsInOrder(s)
  {
    forall j | 0 <= j < |s.workers|
      ensures var w := s.workers[j];
              && w.executed == w.popped + w.comp + (if w.pc.Finished? then [w.pc.done] else [])
              && w.accepted == Jobs(w.executed) + InHand(w.pc) + w.sub
    {
      assert Conserved(s.workers[j]) && s.workers[j].dropped == [];
    }
  }

  /** A completion is lost only by a worker with more than jobs_per_thread jobs outstanding. */
  lemma DropNeedsOverload(w: Worker, cap: nat, what: WorkerAction)
    requires Conserved(w) && w.dropped == [] && |w.accepted| - |w.popped| <= cap
    ensures WorkerStep(w, cap, what).dropped == []
  {
  }

  lemma StepKeepsCompletions(s: Pool, a: Action)
    requires Inv(s) && NothingDropped(s) && Modest(s)
    ensures NothingDropped(Step(s, a))
  {
    if a.Work? && a.i < |s.workers| {
      DropNeedsOverload(s.workers[a.i], s.cap, a.what);
    }
  }

  /** If no worker ever has more than jobs_per_thread jobs accepted but not popped, no completion is ever
      dropped, and each worker's completions come back in the order its jobs were accepted. */
  lemma {:induction false} ModestRunDropsNothing(s: Pool, actions: seq<Action>)
    requires Inv(s) && NothingDropped(s)
    requires forall i :: 0 <= i < |actions| ==> Modest(Run(s, actions[..i]))
    ensures NothingDropped(Run(s, actions)) && Inv(Run(s, actions)) && CompletionsInOrder(Run(s, actions))
    decreases |actions|
  {
    if actions == [] {
      NothingDroppedInOrder(s);
    } else {
      assert actions[..0] == [];
      assert Modest(Run(s, actions[..0]));
      StepKeepsCompletions(s, actions[0]);
      StepKeepsInv(s, actions[0]);
      forall i | 0 <= i < |actions| - 1
        ensures Modest(Run(Step(s, actions[0]), actions[1..][..i]))
      {
        assert actions[..i + 1][1..] == actions[1..][..i];
        assert Modest(Run(s, actions[..i + 1]));
      }
      ModestRunDropsNothing(Step(s, actions[0]), actions[1..]);
    }
  }

  /** Once a worker has caught up, it has lost completions if and only if more are missing than its
      completion queue holds. */
  lemma CaughtUpDropsIff(s: Pool, actions: seq<Action>, j: nat)
    requires Init(s) && j < |s.workers|
    ensures var w := Run(s, actions).workers[j];
            w.sub == [] && !w.pc.Running? && !w.pc.Finished? ==>
              (w.dropped != [] <==> |w.accepted| - |w.popped| > |w.comp|)
              && (|w.accepted| - |w.popped| > s.cap ==> w.dropped != [])
  {
    InitHolds(s);
    RunKeepsInv(s, actions);
  }

  // ----- round robin

  function Advances(n: nat): (r: seq<Action>)
    ensures |r| == n
  {
    seq(n, _ => Advance)
  }

  lemma AdvancesSplit(s: Pool, n: nat)
    requires |s.workers| > 0
    ensures Run(s, Advances(n + 1)) == Run(AdvanceStep(s), Advances(n))
  {
    assert Advances(n + 1)[1..] == Advances(n);
  }

  predicate Full(s: Pool, k: nat)
    requires |s.workers| > 0
  {
    |s.workers[(k + s.rr) % |s.workers|].sub| == s.cap
  }

  /** The pool after the job of the add in progress has gone to its k-th queue in round-robin order. */
  function AddedAt(s: Pool, k: nat): (t: Pool)
    requires |s.workers| > 0 && s.ctl.CTry?
  {
    AddedTo(s, s.ctl.job, (k + s.rr) % |s.workers|)
  }

  function AddedTo(s: Pool, job: Job, at: nat): (t: Pool)
    requires at < |s.workers|
  {
    var w := s.workers[at];
    s.(ctl := CSigLock(at), workers := s.workers[at := w.(sub := w.sub + [job], accepted := w.accepted + [job])])
  }

  lemma EnqueueHere(s: Pool, job: Job, at: nat)
    requires at < |s.workers| && s.ctl == CEnqueue(job, at)
    ensures AdvanceStep(s) == AddedTo(s, job, at)
  {
  }

  lemma LookHere(s: Pool)
    requires |s.workers| > 0 && s.ctl.CTry? && s.ctl.k <= |s.workers|
    ensures AdvanceStep(s) == s.(ctl :=
              if Full(s, s.ctl.k) then CTry(s.ctl.job, s.ctl.k + 1)
              else CEnqueue(s.ctl.job, (s.ctl.k + s.rr) % |s.workers|))
  {
  }

  lemma TwoAdvances(s: Pool)
    requires |s.workers| > 0
    ensures Run(s, Advances(2)) == AdvanceStep(AdvanceStep(s))
  {
    AdvancesSplit(s, 1);
    AdvancesSplit(AdvanceStep(s), 0);
    assert Advances(0) == [];
  }

  lemma AddHere(s: Pool)
    requires |s.workers| > 0 && s.ctl.CTry? && s.ctl.k <= |s.workers| && !Full(s, s.ctl.k)
    ensures Run(s, Advances(2)) == AddedAt(s, s.ctl.k)
  {
    var at := (s.ctl.k + s.rr) % |s.workers|;
    var t := s.(ctl := CEnqueue(s.ctl.job, at));
    assert AdvanceStep(s) == t by { LookHere(s); }
    EnqueueHere(t, s.ctl.job, at);
    AddedToSame(s, t.ctl, s.ctl.job, at);
    TwoAdvances(s);
  }

  lemma AddedToSame(s: Pool, c: Ctl, job: Job, at: nat)
    requires at < |s.workers|
    ensures AddedTo(s.(ctl := c), job, at) == AddedTo(s, job, at)
  {
  }

  /** An undisturbed add passes over the full queues in round-robin order and appends the job to the first
      queue with room. */
  lemma {:induction false} AddFindsFirstRoom(s: Pool, m: nat)
    requires |s.workers| > 0 && s.ctl.CTry? && s.ctl.k <= m <= |s.workers|
    requires (forall i :: s.ctl.k <= i < m ==> Full(s, i)) && !Full(s, m)
    ensures Run(s, Advances(m - s.ctl.k + 2)) == AddedAt(s, m)
    decreases m - s.ctl.k
  {
    if s.ctl.k < m {
      assert Full(s, s.ctl.k);
      LookHere(s);
      var t := s.(ctl := CTry(s.ctl.job, s.ctl.k + 1));
      AdvancesSplit(s, m - s.ctl.k + 1);
      assert forall i :: s.ctl.k <= i <= m ==> Full(t, i) == Full(s, i);
      AddFindsFirstRoom(t, m);
    } else {
      AddHere(s);
    }
  }

  /** With every queue full it gives up and changes nothing. */
  lemma {:induction false} AddGivesUpWhenAllFull(s: Pool)
    requires |s.workers| > 0 && s.ctl.CTry? && s.ctl.k <= |s.workers| + 1
    requires forall i :: s.ctl.k <= i <= |s.workers| ==> Full(s, i)
    ensures Run(s, Advances(|s.workers| + 2 - s.ctl.k)) == s.(ctl := CIdle)
    decreases |s.workers| + 1 - s.ctl.k
  {
    AdvancesSplit(s, |s.workers| + 1 - s.ctl.k);
    if s.ctl.k <= |s.workers| {
      assert Full(s, s.ctl.k);
      LookHere(s);
      var t := s.(ctl := CTry(s.ctl.job, s.ctl.k + 1));
      assert forall i :: s.ctl.k < i <= |s.workers| ==> Full(t, i) == Full(s, i);
      AddGivesUpWhenAllFull(t);
    }
  }

  predicate Drained(s: Pool, k: nat)
    requires |s.workers| > 0
  {
    s.workers[(k + s.rr) % |s.workers|].comp == []
  }

  /** The pool after its k-th completion queue in round-robin order has given up its oldest completion. */
  function PoppedAt(s: Pool, k: nat): (t: Pool)
    requires |s.workers| > 0 && !Drained(s, k)
  {
    var at := (k + s.rr) % |s.workers|;
    var w := s.workers[at];
    Pool(s.cap, s.workers[at := w.(comp := w.comp[1..], popped := w.popped + [w.comp[0]])], CIdle, at, s.stopped)
  }

  /** An undisturbed pop takes the oldest completion of the first non-empty queue in round-robin order and
      moves the round-robin index there. */
  lemma {:induction false} PopTakesFirst(s: Pool, m: nat)
    requires |s.workers| > 0 && s.ctl.CPop? && s.ctl.k <= m < |s.workers|
    requires (forall i :: s.ctl.k <= i < m ==> Drained(s, i)) && !Drained(s, m)
    ensures Run(s, Advances(m - s.ctl.k + 1)) == PoppedAt(s, m)
    decreases m - s.ctl.k
  {
    AdvancesSplit(s, m - s.ctl.k);
    if s.ctl.k < m {
      assert Drained(s, s.ctl.k);
      var t := s.(ctl := CPop(s.ctl.k + 1));
      assert AdvanceStep(s) == t;
      assert forall i :: s.ctl.k < i <= m ==> Drained(t, i) == Drained(s, i);
      PopTakesFirst(t, m);
    } else {
      PopHere(s);
    }
  }

  lemma PopHere(s: Pool)
    requires |s.workers| > 0 && s.ctl.CPop? && s.ctl.k < |s.workers| && !Drained(s, s.ctl.k)
    ensures Run(AdvanceStep(s), Advances(0)) == PoppedAt(s, s.ctl.k)
  {
  }

  // ----- tpoolrr_join

  /** A worker that has ended with jobs still queued: nobody will run them. */
  predicate Stuck(w: Worker) {
    Leaves(w.pc) && w.sub != []
  }

  predicate InJoin(s: Pool) {
    Ending(s.ctl) && s.ctl.mode == Joined
  }

  lemma JoinKeepsStuck(s: Pool, a: Action, j: nat)
    requires Inv(s) && InJoin(s) && j < |s.workers|
    ensures Stuck(Step(s, a).workers[j]) == Stuck(s.workers[j])
  {
    assert Control(s.workers[j], s.cap, s.ctl, j);
  }

  /** A join returns only when every worker has left its loop. */
  lemma JoinReturnsAfterAll(s: Pool, a: Action)
    requires Inv(s) && InJoin(s)
    ensures var t := Step(s, a);
            InJoin(t) || (t.ctl.CIdle? && t.stopped && forall j :: 0 <= j < |t.workers| ==> Leaves(t.workers[j].pc))
  {
    if a.Advance? {
      var t := AddressStep(s);
      if t.ctl.CIdle? {
        forall j | 0 <= j < |t.workers|
          ensures Leaves(t.workers[j].pc)
        {
          assert Control(s.workers[j], s.cap, s.ctl, j);
        }
      }
    }
  }

  /** The actions that lead from inside a join to the moment it returns. */
  ghost predicate JoinSpan(s: Pool, actions: seq<Action>)
    requires |s.workers| > 0
    decreases |actions|
  {
    InJoin(s) && actions != [] &&
    var t := Step(s, actions[0]);
    if |actions| == 1 then t.ctl.CIdle? else JoinSpan(t, actions[1..])
  }

  ghost predicate AllDone(s: Pool) {
    forall j :: 0 <= j < |s.workers| ==>
      s.workers[j].sub == [] && s.workers[j].accepted == Jobs(s.workers[j].executed)
  }

  lemma {:induction false} JoinSpanEnds(s: Pool, actions: seq<Action>)
    requires Inv(s) && JoinSpan(s, actions)
    ensures var t := Run(s, actions);
            && Inv(t) && t.stopped
            && (forall j :: 0 <= j < |t.workers| ==> Leaves(t.workers[j].pc))
            && (forall j :: 0 <= j < |t.workers| ==> Stuck(t.workers[j]) == Stuck(s.workers[j]))
    decreases |actions|
  {
    var t := Step(s, actions[0]);
    StepKeepsInv(s, actions[0]);
    JoinReturnsAfterAll(s, actions[0]);
    forall j | 0 <= j < |s.workers|
      ensures Stuck(t.workers[j]) == Stuck(s.workers[j])
    {
      JoinKeepsStuck(s, actions[0], j);
    }
    if |actions| == 1 {
      assert Run(s, actions) == Run(t, []) == t;
    } else {
      JoinSpanEnds(t, actions[1..]);
    }
  }

  /** When a join returns, every accepted job of every worker has been executed, if and only if no worker
      that had already ended when the join was called still had jobs queued. */
  lemma JoinDrainsIff(s: Pool, actions: seq<Action>)
    requires Inv(s) && JoinSpan(s, actions)
    ensures AllDone(Run(s, actions)) <==> forall j :: 0 <= j < |s.workers| ==> !Stuck(s.workers[j])
  {
    JoinSpanEnds(s, actions);
    var t := Run(s, actions);
    forall j | 0 <= j < |t.workers|
      ensures t.workers[j].sub == [] && t.workers[j].accepted == Jobs(t.workers[j].executed) <==> !Stuck(s.workers[j])
    {
      assert Conserved(t.workers[j]) && Leaves(t.workers[j].pc);
      assert Stuck(t.workers[j]) == Stuck(s.workers[j]);
      assert Jobs(t.workers[j].executed) + [] == Jobs(t.workers[j].executed);
    }
  }

  /** No stop or join has been called. */
  ghost predicate NeverEnded(s: Pool) {
    !Ending(s.ctl)
    && forall j :: 0 <= j < |s.workers| ==> !Terminal(s.workers[j].desired) && !Leaves(s.workers[j].pc)
  }

  lemma {:induction false} NeverEndedRun(s: Pool, actions: seq<Action>)
    requires Inv(s) && NeverEnded(s)
    requires forall i :: 0 <= i < |actions| ==> !actions[i].StopSafe? && !actions[i].Join?
    ensures NeverEnded(Run(s, actions))
    decreases |actions|
  {
    if actions != [] {
      StepKeepsInv(s, actions[0]);
      NeverEndedStep(s, actions[0]);
      NeverEndedRun(Step(s, actions[0]), actions[1..]);
    }
  }

  lemma NeverEndedAdvance(s: Pool)
    requires Inv(s) && NeverEnded(s)
    ensures NeverEnded(AdvanceStep(s))
  {
    if Addresses(s.ctl) {
      assert !Terminal(Touched(s.ctl, s.workers[s.ctl.at]).desired);
      assert !Leaves(Touched(s.ctl, s.workers[s.ctl.at]).pc);
      assert NeverEnded(AddressStep(s));
    } else if s.ctl.CPop? {
      assert NeverEnded(PopStep(s));
    }
  }

  lemma NeverEndedStep(s: Pool, a: Action)
    requires Inv(s) && NeverEnded(s) && !a.StopSafe? && !a.Join?
    ensures NeverEnded(Step(s, a))
  {
    if a.Advance? {
      NeverEndedAdvance(s);
    } else if a.Work? && a.i < |s.workers| {
      assert !Leaves(WorkerStep(s.workers[a.i], s.cap, a.what).pc);
    }
  }

  /** The first join of a pool that was never stopped drains it: when it returns, every job ever accepted
      has been executed, whatever was paused or queued when it was called. */
  lemma FirstJoinDrains(s: Pool, before: seq<Action>, during: seq<Action>)
    requires Init(s)
    requires forall i :: 0 <= i < |before| ==> !before[i].StopSafe? && !before[i].Join?
    requires Run(s, before).ctl == CIdle
    requires JoinSpan(Step(Run(s, before), Join), during)
    ensures AllDone(Run(Step(Run(s, before), Join), during))
  {
    InitHolds(s);
    RunKeepsInv(s, before);
    NeverEndedRun(s, before);
    StepKeepsInv(Run(s, before), Join);
    JoinDrainsIff(Step(Run(s, before), Join), during);
  }

  // ----- join terminates

  /** How many steps a worker that is not to sleep any more has left at most. */
  function StepsLeft(w: Worker): (n: nat) {
    20 * |w.sub| +
    match w.pc
    case Running(_) => 11
    case Finished(_) => 10
    case Woken => 9
    case Leaving(Loop) => 8
    case AtLock => 7
    case Locked => 6
    case Leaving(Fetch) => 5
    case Fetching => 4
    case Leaving(Exit) => 1
    case _ => 0
  }

  /** While the controller waits in pthread_join, the worker's own next step is always enabled and brings
      its end closer, and nobody else's step sets it back. */
  lemma EndJoinProgress(s: Pool, a: Action)
    requires Inv(s) && s.ctl.CEndJoin? && !s.workers[s.ctl.at].pc.Exited?
    ensures var at := s.ctl.at;
            var t := Step(s, a);
            && t.ctl == s.ctl
            && (if a.Work? && a.i == at && !a.what.Spurious? then StepsLeft(t.workers[at]) < StepsLeft(s.workers[at])
                else t.workers[at] == s.workers[at])
  {
    var w := s.workers[s.ctl.at];
    assert Control(w, s.cap, s.ctl, s.ctl.at);
  }

  function OwnSteps(actions: seq<Action>, at: nat): (n: nat) {
    if actions == [] then 0
    else OwnSteps(actions[1..], at)
         + if actions[0].Work? && actions[0].i == at && !actions[0].what.Spurious? then 1 else 0
  }

  lemma {:induction false} ExitedStays(s: Pool, actions: seq<Action>, at: nat)
    requires |s.workers| > 0 && at < |s.workers| && s.workers[at].pc.Exited?
    ensures Run(s, actions).workers[at].pc.Exited?
    decreases |actions|
  {
    if actions != [] {
      ExitedStays(Step(s, actions[0]), actions[1..], at);
    }
  }

  /** A join or stop never waits forever: whatever else happens in between, a bounded number of steps of the
      awaited worker ends its thread. */
  lemma {:induction false} AwaitedWorkerExits(s: Pool, actions: seq<Action>)
    requires Inv(s) && s.ctl.CEndJoin? && OwnSteps(actions, s.ctl.at) >= StepsLeft(s.workers[s.ctl.at])
    ensures Run(s, actions).workers[s.ctl.at].pc.Exited?
    decreases |actions|
  {
    var at := s.ctl.at;
    if s.workers[at].pc.Exited? {
      ExitedStays(s, actions, at);
    } else {
      StepsLeftPositive(s);
      EndJoinProgress(s, actions[0]);
      StepKeepsInv(s, actions[0]);
      AwaitedWorkerExits(Step(s, actions[0]), actions[1..]);
    }
  }

  lemma StepsLeftPositive(s: Pool)
    requires Inv(s) && s.ctl.CEndJoin? && !s.workers[s.ctl.at].pc.Exited?
    ensures StepsLeft(s.workers[s.ctl.at]) > 0
  {
    assert Control(s.workers[s.ctl.at], s.cap, s.ctl, s.ctl.at);
  }

  // ----- every call can come to its return

  /** How far the controller is from the end of its call, not counting waits. */
  function Distance(c: Ctl, n: nat): (d: int) {
    match c
    case CIdle => 0
    case CTry(_, k) => 5 + if k <= n then n + 1 - k else 0
    case CEnqueue(_, _) => 4
    case CSigLock(_) => 3
    case CSignal(_) => 2
    case CSigUnlock(_) => 1
    case CStateLock(at, _) => 4 * (n - at)
    case CStateSet(at, _) => 4 * (n - at) - 1
    case CStateSignal(at, _) => 4 * (n - at) - 2
    case CStateUnlock(at, _) => 4 * (n - at) - 3
    case CEndLock(at, _) => 5 * (n - at)
    case CEndSet(at, _) => 5 * (n - at) - 1
    case CEndUnlock(at, _, _) => 5 * (n - at) - 2
    case CEndSignal(at, _) => 5 * (n - at) - 3
    case CEndJoin(at, _) => 5 * (n - at) - 4
    case CPop(k) => 1 + if k <= n then n - k else 0
  }

  predicate AtMutex(c: Ctl) {
    c.CSigLock? || c.CStateLock? || c.CEndLock?
  }

  /** Steps a worker takes at most before it lets go of its mutex. */
  function HoldsFor(pc: Pc): (n: nat) {
    if pc.Locked? then 2 else if pc.AboutToWait? || pc.Leaving? then 1 else 0
  }

  /** The controller waits for the worker it addresses: for its mutex, or for its end. */
  predicate Blocked(s: Pool)
    requires Addresses(s.ctl) ==> s.ctl.at < |s.workers|
  {
    && Addresses(s.ctl)
    && ((AtMutex(s.ctl) && !s.workers[s.ctl.at].mutex.Free?) || (s.ctl.CEndJoin? && !s.workers[s.ctl.at].pc.Exited?))
  }

  function Wait(s: Pool): (n: nat)
    requires Addresses(s.ctl) ==> s.ctl.at < |s.workers|
  {
    if !Blocked(s) then 0
    else if s.ctl.CEndJoin? then StepsLeft(s.workers[s.ctl.at]) else HoldsFor(s.workers[s.ctl.at].pc)
  }

  /** The step that brings the call forward: the controller's, or that of the worker it waits for. */
  function Drive(s: Pool): (a: Action)
    requires Addresses(s.ctl) ==> s.ctl.at < |s.workers|
  {
    if Blocked(s) then Work(s.ctl.at, Next) else Advance
  }

  lemma BlockedStep(s: Pool)
    requires Inv(s) && Blocked(s)
    ensures var t := Step(s, Drive(s)); Inv(t) && t.ctl == s.ctl && Wait(t) < Wait(s)
  {
    StepKeepsInv(s, Drive(s));
    assert Control(s.workers[s.ctl.at], s.cap, s.ctl, s.ctl.at);
    if s.ctl.CEndJoin? {
      StepsLeftPositive(s);
      EndJoinProgress(s, Drive(s));
    }
  }

  lemma OnwardIsNearer(c: Ctl, w: Worker, n: nat)
    requires Addresses(c) && c.at < n
    requires (AtMutex(c) ==> w.mutex.Free?) && (c.CEndJoin? ==> w.pc.Exited?)
    ensures 0 <= Distance(Onward(c, w, n), n) < Distance(c, n)
  {
  }

  lemma FreeStep(s: Pool)
    requires Inv(s) && !Blocked(s) && !s.ctl.CIdle?
    ensures var t := Step(s, Advance);
            Inv(t) && |t.workers| == |s.workers| && 0 <= Distance(t.ctl, |s.workers|) < Distance(s.ctl, |s.workers|)
  {
    StepKeepsInv(s, Advance);
    if Addresses(s.ctl) {
      OnwardIsNearer(s.ctl, s.workers[s.ctl.at], |s.workers|);
      assert AdvanceStep(s).ctl == Onward(s.ctl, s.workers[s.ctl.at], |s.workers|);
    }
  }

  lemma DistanceIsNat(s: Pool)
    requires Inv(s)
    ensures Distance(s.ctl, |s.workers|) >= 0
  {
  }

  /** No deadlock: from any reachable state the call in progress can be driven to its return, whatever mutexes the
      workers hold and wherever they are. */
  lemma {:induction false} CallCanReturn(s: Pool) returns (actions: seq<Action>)
    requires Inv(s)
    ensures Run(s, actions).ctl == CIdle && Inv(Run(s, actions))
    decreases Distance(s.ctl, |s.workers|), Wait(s)
  {
    if s.ctl.CIdle? {
      actions := [];
    } else {
      DistanceIsNat(s);
      var a := Drive(s);
      if Blocked(s) { BlockedStep(s); } else { FreeStep(s); }
      var rest := CallCanReturn(Step(s, a));
      actions := [a] + rest;
      assert actions[1..] == rest;
    }
  }

  lemma {:induction false} RunAppend(s: Pool, xs: seq<Action>, ys: seq<Action>)
    requires |s.workers| > 0
    ensures Run(s, xs + ys) == Run(Run(s, xs), ys)
    decreases |xs|
  {
    if xs == [] {
      assert xs + ys == ys;
    } else {
      assert (xs + ys)[1..] == xs[1..] + ys;
      RunAppend(Step(s, xs[0]), xs[1..], ys);
    }
  }

  lemma RunThree(s: Pool, a: Action, b: Action, c: Action)
    requires |s.workers| > 0
    ensures Run(s, [a, b, c]) == Step(Step(Step(s, a), b), c)
  {
    assert [a, b, c][1..] == [b, c] && [b, c][1..] == [c] && [c][1..] == [];
    var s1 := Step(s, a);
    var s2 := Step(s1, b);
    assert Run(s, [a, b, c]) == Run(s1, [b, c]) == Run(s2, [c]) == Run(Step(s2, c), []);
  }

  const WITNESS_JOB := Job(7, false)

  function OneWorker(w: Worker, ctl: Ctl, rr: nat, stopped: bool): (s: Pool) {
    Pool(1, [w], ctl, rr, stopped)
  }

  lemma OneWorkerAdvance(w: Worker, c: Ctl, rr: nat, stopped: bool)
    requires Addresses(c) && c.at == 0
    ensures Step(OneWorker(w, c, rr, stopped), Advance)
         == OneWorker(Touched(c, w), Onward(c, w, 1), rr + if c.CSigUnlock? then 1 else 0,
                      stopped || (Ending(c) && Onward(c, w, 1).CIdle?))
  {
    assert [w][0 := Touched(c, w)] == [Touched(c, w)];
  }

  lemma OneWorkerWork(w: Worker, c: Ctl, rr: nat, stopped: bool)
    ensures Step(OneWorker(w, c, rr, stopped), Work(0, Next)) == OneWorker(WorkerStep(w, 1, Next), c, rr, stopped)
  {
    assert [w][0 := WorkerStep(w, 1, Next)] == [WorkerStep(w, 1, Next)];
  }

  lemma JoinOfIdlePool()
    ensures Run(OneWorker(NEW_WORKER, CIdle, 0, false),
                [Join, Advance, Advance] + [Advance, Advance, Work(0, Next)] + [Work(0, Next), Work(0, Next), Advance])
         == OneWorker(NEW_WORKER.(pc := Exited, desired := Joined, current := Joined), CIdle, 0, true)
  {
    var s0 := OneWorker(NEW_WORKER, CIdle, 0, false);
    JoinSetsMode(s0);
    JoinStartsWaiting(NEW_WORKER.(desired := Joined));
    JoinOfLockedWorker();
    RunAppend(s0, [Join, Advance, Advance], [Advance, Advance, Work(0, Next)]);
    RunAppend(s0, [Join, Advance, Advance] + [Advance, Advance, Work(0, Next)],
              [Work(0, Next), Work(0, Next), Advance]);
  }

  lemma JoinSetsMode(s0: Pool)
    requires s0 == OneWorker(NEW_WORKER, CIdle, 0, false)
    ensures Run(s0, [Join, Advance, Advance])
         == OneWorker(NEW_WORKER.(desired := Joined, mutex := ByController), CEndUnlock(0, Joined, true), 0, false)
  {
    RunThree(s0, Join, Advance, Advance);
    OneWorkerAdvance(NEW_WORKER, CEndLock(0, Joined), 0, false);
    OneWorkerAdvance(NEW_WORKER.(mutex := ByController), CEndSet(0, Joined), 0, false);
  }

  lemma JoinStartsWaiting(w: Worker)
    requires w == NEW_WORKER.(desired := Joined)
    ensures Run(OneWorker(w.(mutex := ByController), CEndUnlock(0, Joined, true), 0, false),
                [Advance, Advance, Work(0, Next)])
         == OneWorker(w.(mutex := ByWorker, pc := Locked), CEndJoin(0, Joined), 0, false)
  {
    RunThree(OneWorker(w.(mutex := ByController), CEndUnlock(0, Joined, true), 0, false),
             Advance, Advance, Work(0, Next));
    OneWorkerAdvance(w.(mutex := ByController), CEndUnlock(0, Joined, true), 0, false);
    OneWorkerAdvance(w, CEndSignal(0, Joined), 0, false);
    OneWorkerWork(w, CEndJoin(0, Joined), 0, false);
  }

  lemma JoinOfLockedWorker()
    ensures Run(OneWorker(NEW_WORKER.(desired := Joined, mutex := ByWorker, pc := Locked),
                          CEndJoin(0, Joined), 0, false),
                [Work(0, Next), Work(0, Next), Advance])
         == OneWorker(NEW_WORKER.(pc := Exited, desired := Joined, current := Joined), CIdle, 0, true)
  {
    var w := NEW_WORKER.(desired := Joined, mutex := ByWorker, pc := Locked);
    var c := CEndJoin(0, Joined);
    RunThree(OneWorker(w, c, 0, false), Work(0, Next), Work(0, Next), Advance);
    OneWorkerWork(w, c, 0, false);
    OneWorkerWork(w.(current := Joined, pc := Leaving(Exit)), c, 0, false);
    OneWorkerAdvance(NEW_WORKER.(pc := Exited, desired := Joined, current := Joined), c, 0, false);
  }

  lemma AddToEnded(w: Worker)
    requires w == NEW_WORKER.(pc := Exited, desired := Joined, current := Joined)
    ensures Run(OneWorker(w, CIdle, 0, true), [Add(WITNESS_JOB), Advance, Advance])
         == OneWorker(w.(sub := [WITNESS_JOB], accepted := [WITNESS_JOB]), CSigLock(0), 0, true)
  {
    var s0 := OneWorker(w, CIdle, 0, true);
    RunThree(s0, Add(WITNESS_JOB), Advance, Advance);
    assert Step(Step(s0, Add(WITNESS_JOB)), Advance) == OneWorker(w, CEnqueue(WITNESS_JOB, 0), 0, true);
    OneWorkerAdvance(w, CEnqueue(WITNESS_JOB, 0), 0, true);
    assert [] + [WITNESS_JOB] == [WITNESS_JOB];
  }

  lemma SignalEnded(w: Worker)
    requires w.mutex == Free && !w.pc.Sleeping?
    ensures Run(OneWorker(w, CSigLock(0), 0, true), [Advance, Advance, Advance]) == OneWorker(w, CIdle, 1, true)
  {
    RunThree(OneWorker(w, CSigLock(0), 0, true), Advance, Advance, Advance);
    OneWorkerAdvance(w, CSigLock(0), 0, true);
    OneWorkerAdvance(w.(mutex := ByController), CSignal(0), 0, true);
    OneWorkerAdvance(w.(mutex := ByController), CSigUnlock(0), 0, true);
  }

  lemma JoinEnded(w: Worker)
    requires w.mutex == Free && w.desired == Joined && w.current == Joined
    ensures Run(OneWorker(w, CIdle, 1, true), [Join, Advance, Advance])
         == OneWorker(w.(mutex := ByController), CEndUnlock(0, Joined, false), 1, true)
  {
    RunThree(OneWorker(w, CIdle, 1, true), Join, Advance, Advance);
    OneWorkerAdvance(w, CEndLock(0, Joined), 1, true);
    OneWorkerAdvance(w.(mutex := ByController), CEndSet(0, Joined), 1, true);
  }

  lemma AddAndJoinAgain(w: Worker)
    requires w == NEW_WORKER.(pc := Exited, desired := Joined, current := Joined)
    ensures Run(OneWorker(w, CIdle, 0, true),
                [Add(WITNESS_JOB), Advance, Advance] + [Advance, Advance, Advance] + [Join, Advance, Advance])
         == OneWorker(w.(sub := [WITNESS_JOB], accepted := [WITNESS_JOB], mutex := ByController),
                      CEndUnlock(0, Joined, false), 1, true)
  {
    var w' := w.(sub := [WITNESS_JOB], accepted := [WITNESS_JOB]);
    var s0 := OneWorker(w, CIdle, 0, true);
    AddToEnded(w);
    SignalEnded(w');
    JoinEnded(w');
    RunAppend(s0, [Add(WITNESS_JOB), Advance, Advance], [Advance, Advance, Advance]);
    RunAppend(s0, [Add(WITNESS_JOB), Advance, Advance] + [Advance, Advance, Advance], [Join, Advance, Advance]);
  }

  lemma OneAdvance(s: Pool)
    requires |s.workers| > 0
    ensures Run(s, [Advance]) == AdvanceStep(s)
  {
    assert [Advance][1..] == [];
    assert Run(s, [Advance]) == Run(Step(s, Advance), []);
  }

  /** A pool of one worker: a join, then a job that is accepted, then a second join that returns with the
      job still queued and no thread left to run it. */
  lemma SecondJoinCanLeaveAJob() returns (actions: seq<Action>)
    ensures var s := OneWorker(NEW_WORKER, CIdle, 0, false);
            var t := Run(s, actions);
            Init(s) && t.ctl == CIdle && t.stopped && t.workers[0].sub == [WITNESS_JOB]
            && t.workers[0].pc.Exited? && !AllDone(t)
  {
    var first := [Join, Advance, Advance] + [Advance, Advance, Work(0, Next)] + [Work(0, Next), Work(0, Next), Advance];
    var second := [Add(WITNESS_JOB), Advance, Advance] + [Advance, Advance, Advance] + [Join, Advance, Advance];
    var s, w := OneWorker(NEW_WORKER, CIdle, 0, false), NEW_WORKER.(pc := Exited, desired := Joined, current := Joined);
    JoinOfIdlePool();
    AddAndJoinAgain(w);
    var w' := w.(sub := [WITNESS_JOB], accepted := [WITNESS_JOB], mutex := ByController);
    RunAppend(s, first, second);
    RunAppend(s, first + second, [Advance]);
    actions := first + second + [Advance];
    LastStep(w');
  }

  /** The second join lets go of the mutex and returns. */
  lemma LastStep(w: Worker)
    requires w.accepted == w.sub == [WITNESS_JOB] && w.executed == []
    ensures var t := Run(OneWorker(w, CEndUnlock(0, Joined, false), 1, true), [Advance]);
            t == OneWorker(w.(mutex := Free), CIdle, 1, true) && !AllDone(t)
  {
    OneAdvance(OneWorker(w, CEndUnlock(0, Joined, false), 1, true));
    OneWorkerAdvance(w, CEndUnlock(0, Joined, false), 1, true);
    assert OneWorker(w.(mutex := Free), CIdle, 1, true).workers[0].sub == [WITNESS_JOB];
  }
}
