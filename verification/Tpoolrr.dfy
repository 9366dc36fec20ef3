/** The round-robin thread pool of src/tpoolrr.c: one controller and any number of workers, each worker
    with its own mutex, condition variable, submission queue and completion queue.

    Steps are cut where threads can interleave. pthread_cond_wait releases the mutex and sleeps in one
    step, may wake spuriously, and takes the mutex again before it returns. The queues are the
    first-in first-out queues that Aqueue shows src/aqueue.c to be. An action that is not enabled
    leaves the state as it is, so a list of actions is an arbitrary interleaving. */
module Tpoolrr {

  datatype Job = Job(tag: nat, expires: bool)

  datatype Done = Done(job: Job, expired: bool)

  datatype Mode = Active | Paused | Joined | Stopped | Cancelled

  datatype Holder = Free | ByWorker | ByController

  datatype After = Loop | Fetch | Exit

  /** Where tpoolrr_worker is. The mutex is held in Locked, AboutToWait and Leaving. */
  datatype Pc =
    | AtLock
    | Locked
    | AboutToWait
    | Leaving(to: After)
    | Sleeping
    | Woken
    | Fetching
    | Running(job: Job)
    | Finished(done: Done)
    | Exited

  /** accepted, executed, popped and dropped are histories: jobs put into the submission queue, jobs run
      or flagged expired, completions popped by the controller, completions lost to a full queue. */
  datatype Worker = Worker(
    pc: Pc, desired: Mode, current: Mode, mutex: Holder,
    sub: seq<Job>, comp: seq<Done>,
    accepted: seq<Job>, executed: seq<Done>, popped: seq<Done>, dropped: seq<Done>)

  /** Where the controller is. CTry and CEnqueue up to CSigUnlock are _tpoolrr_jobs_add; CState* are
      tpoolrr_pause and tpoolrr_resume; CEnd* are tpoolrr_stop_safe and tpoolrr_join. */
  datatype Ctl =
    | CIdle
    | CTry(job: Job, k: nat)
    | CEnqueue(job: Job, at: nat)
    | CSigLock(at: nat)
    | CSignal(at: nat)
    | CSigUnlock(at: nat)
    | CStateLock(at: nat, mode: Mode)
    | CStateSet(at: nat, mode: Mode)
    | CStateSignal(at: nat, mode: Mode)
    | CStateUnlock(at: nat, mode: Mode)
    | CEndLock(at: nat, mode: Mode)
    | CEndSet(at: nat, mode: Mode)
    | CEndUnlock(at: nat, mode: Mode, need: bool)
    | CEndSignal(at: nat, mode: Mode)
    | CEndJoin(at: nat, mode: Mode)
    | CPop(k: nat)

  datatype Pool = Pool(cap: nat, workers: seq<Worker>, ctl: Ctl, rr: nat, stopped: bool)

  datatype WorkerAction = Next | Spurious | Expire

  datatype Action =
    | Work(i: nat, what: WorkerAction)
    | Add(job: Job)
    | Pause
    | Resume
    | StopSafe
    | Join
    | PopOne
    | Advance

  predicate Terminal(m: Mode) {
    m == Joined || m == Stopped || m == Cancelled
  }

  const NEW_WORKER := Worker(AtLock, Active, Active, Free, [], [], [], [], [], [])

  predicate Init(s: Pool) {
    && s.cap > 0 && |s.workers| > 0 && s.ctl == CIdle && !s.stopped
    && (forall i :: 0 <= i < |s.workers| ==> s.workers[i] == NEW_WORKER)
  }

  // ----- tpoolrr_worker

  /** The tests a worker makes under its mutex. */
  function Decide(w: Worker): (r: Worker) {
    match w.desired
    case Active =>
      if w.sub != [] then w.(current := Active, pc := Leaving(Fetch))
      else w.(current := Paused, pc := AboutToWait)
    case Paused => w.(current := Paused, pc := AboutToWait)
    case Joined =>
      if w.sub == [] then w.(current := Joined, pc := Leaving(Exit))
      else w.(current := Active, pc := Leaving(Fetch))
    case Stopped => w.(current := Stopped, pc := Leaving(Exit))
    case Cancelled => w.(current := Cancelled, pc := Leaving(Exit))
  }

  /** Next is the worker's own next step; Expire is that step for a running job whose time is over;
      Spurious wakes a sleeper for no reason. */
  function WorkerStep(w: Worker, cap: nat, what: WorkerAction): (r: Worker) {
    if what.Spurious? then
      if w.pc.Sleeping? then w.(pc := Woken) else w
    else
    match w.pc
    case AtLock => if w.mutex.Free? then w.(mutex := ByWorker, pc := Locked) else w
    case Locked => Decide(w)
    case AboutToWait => w.(mutex := Free, pc := Sleeping)
    case Leaving(to) =>
      w.(mutex := Free, pc := match to case Loop => AtLock case Fetch => Fetching case Exit => Exited)
    case Woken => if w.mutex.Free? then w.(mutex := ByWorker, pc := Leaving(Loop)) else w
    case Fetching => if w.sub == [] then w else w.(sub := w.sub[1..], pc := Running(w.sub[0]))
    case Running(job) =>
      var done := Done(job, job.expires && what.Expire?);
      w.(executed := w.executed + [done], pc := Finished(done))
    case Finished(done) =>
      if |w.comp| < cap then w.(comp := w.comp + [done], pc := AtLock)
      else w.(dropped := w.dropped + [done], pc := AtLock)
    case _ => w
  }

  // ----- the controller

  function Signalled(w: Worker): (r: Worker) {
    if w.pc.Sleeping? then w.(pc := Woken) else w
  }

  predicate Addresses(c: Ctl) {
    !c.CIdle? && !c.CTry? && !c.CPop?
  }

  /** What a controller step does to the worker it addresses. */
  function Touched(c: Ctl, w: Worker): (r: Worker)
    requires Addresses(c)
  {
    match c
    case CEnqueue(job, _) => w.(sub := w.sub + [job], accepted := w.accepted + [job])
    case CSigLock(_) => if w.mutex.Free? then w.(mutex := ByController) else w
    case CSignal(_) => Signalled(w)
    case CSigUnlock(_) => w.(mutex := Free)
    case CStateLock(_, _) => if w.mutex.Free? then w.(mutex := ByController) else w
    case CStateSet(_, mode) => w.(desired := mode)
    case CStateSignal(_, _) => Signalled(w)
    case CStateUnlock(_, _) => w.(mutex := Free)
    case CEndLock(_, _) => if w.mutex.Free? then w.(mutex := ByController) else w
    case CEndSet(_, mode) => w.(desired := mode)
    case CEndUnlock(_, _, _) => w.(mutex := Free)
    case CEndSignal(_, _) => Signalled(w)
    case _ => w
  }

  /** Where the controller goes next, given the worker it addresses and the number of workers. */
  function Onward(c: Ctl, w: Worker, n: nat): (r: Ctl)
    requires Addresses(c)
  {
    match c
    case CEnqueue(_, at) => CSigLock(at)
    case CSigLock(at) => if w.mutex.Free? then CSignal(at) else c
    case CSignal(at) => CSigUnlock(at)
    case CSigUnlock(_) => CIdle
    case CStateLock(at, mode) => if w.mutex.Free? then CStateSet(at, mode) else c
    case CStateSet(at, mode) => CStateSignal(at, mode)
    case CStateSignal(at, mode) => CStateUnlock(at, mode)
    case CStateUnlock(at, mode) => if at + 1 < n then CStateLock(at + 1, mode) else CIdle
    case CEndLock(at, mode) => if w.mutex.Free? then CEndSet(at, mode) else c
    case CEndSet(at, mode) => CEndUnlock(at, mode, !Terminal(w.current))
    case CEndUnlock(at, mode, need) => if need then CEndSignal(at, mode) else NextEnd(at, mode, n)
    case CEndSignal(at, mode) => CEndJoin(at, mode)
    case CEndJoin(at, mode) => if w.pc.Exited? then NextEnd(at, mode, n) else c
    case _ => c
  }

  function NextEnd(at: nat, mode: Mode, n: nat): (r: Ctl) {
    if at + 1 < n then CEndLock(at + 1, mode) else CIdle
  }

  predicate Ending(c: Ctl) {
    c.CEndLock? || c.CEndSet? || c.CEndUnlock? || c.CEndSignal? || c.CEndJoin?
  }

  /** One look of _tpoolrr_jobs_add at a submission queue; it gives up after threads_total + 1 looks. */
  function TryStep(s: Pool): (t: Pool)
    requires |s.workers| > 0 && s.ctl.CTry?
  {
    var at := (s.ctl.k + s.rr) % |s.workers|;
    s.(ctl :=
      if s.ctl.k > |s.workers| then CIdle
      else if |s.workers[at].sub| == s.cap then CTry(s.ctl.job, s.ctl.k + 1)
      else CEnqueue(s.ctl.job, at))
  }

  /** One look of tpoolrr_completions_pop at a completion queue. */
  function PopStep(s: Pool): (t: Pool)
    requires |s.workers| > 0 && s.ctl.CPop?
  {
    var at := (s.ctl.k + s.rr) % |s.workers|;
    var w := s.workers[at];
    if s.ctl.k >= |s.workers| then s.(ctl := CIdle)
    else if w.comp == [] then s.(ctl := CPop(s.ctl.k + 1))
    else s.(ctl := CIdle, rr := (s.rr + s.ctl.k) % |s.workers|,
            workers := s.workers[at := w.(comp := w.comp[1..], popped := w.popped + [w.comp[0]])])
  }

  function AddressStep(s: Pool): (t: Pool)
    requires Addresses(s.ctl) && s.ctl.at < |s.workers|
  {
    var w := s.workers[s.ctl.at];
    var next := Onward(s.ctl, w, |s.workers|);
    s.(workers := s.workers[s.ctl.at := Touched(s.ctl, w)],
       ctl := next,
       rr := s.rr + if s.ctl.CSigUnlock? then 1 else 0,
       stopped := s.stopped || (Ending(s.ctl) && next.CIdle?))
  }

  function AdvanceStep(s: Pool): (t: Pool)
    requires |s.workers| > 0
    ensures |t.workers| == |s.workers| && t.cap == s.cap
  {
    if s.ctl.CTry? then TryStep(s)
    else if s.ctl.CPop? then PopStep(s)
    else if Addresses(s.ctl) && s.ctl.at < |s.workers| then AddressStep(s)
    else s
  }

  function Step(s: Pool, a: Action): (t: Pool)
    requires |s.workers| > 0
    ensures |t.workers| == |s.workers| && t.cap == s.cap
  {
    match a
    case Work(i, what) =>
      if i < |s.workers| then s.(workers := s.workers[i := WorkerStep(s.workers[i], s.cap, what)]) else s
    case Advance => AdvanceStep(s)
    case _ => if s.ctl.CIdle? then s.(ctl := Called(a)) else s
  }

  /** The first thing a call does. */
  function Called(a: Action): (c: Ctl)
  {
    match a
    case Add(job) => CTry(job, 0)
    case Pause => CStateLock(0, Paused)
    case Resume => CStateLock(0, Active)
    case StopSafe => CEndLock(0, Stopped)
    case Join => CEndLock(0, Joined)
    case PopOne => CPop(0)
    case _ => CIdle
  }

  function Run(s: Pool, actions: seq<Action>): (t: Pool)
    requires |s.workers| > 0
    ensures |t.workers| == |s.workers| && t.cap == s.cap
    decreases |actions|
  {
    if actions == [] then s else Run(Step(s, actions[0]), actions[1..])
  }
}
