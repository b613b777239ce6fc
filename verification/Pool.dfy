/** The rasteriser's worker pool: one caller, N workers, one mutex, two condition variables.

    Every thread is a program counter. A step is one lock acquisition, one whole critical section
    (it ends by releasing the lock or by waiting, which releases it), or one memory operation of a
    stripe's job done outside the lock. The scheduler is arbitrary and waits may wake spuriously. */
module Pool {
  import opened Optional

  const STRIPES: nat := 24

  // ---------- jobs ----------

  /** One update of one memory cell. */
  datatype Op<!A(==), !C> = Op(at: A, step: C -> C)

  /** The operations of each stripe in program order, and which stripe a cell belongs to. */
  datatype Job<!A(==), !C> = Job(ops: seq<seq<Op<A, C>>>, owner: A -> nat)

  /** Stripes update only their own cells. */
  ghost predicate WellFormed<A(!new), C(!new)>(job: Job<A, C>, mem: map<A, C>) {
    && |job.ops| == STRIPES
    && forall s, i | 0 <= s < STRIPES && 0 <= i < |job.ops[s]| ::
         job.ops[s][i].at in mem && job.owner(job.ops[s][i].at) == s
  }

  /** The value a cell gets from a sequence of operations run in order. */
  function Run<A(==), C>(ops: seq<Op<A, C>>, c: A, v: C): C {
    if ops == [] then v else
      var before, last := Run(ops[..|ops| - 1], c, v), ops[|ops| - 1];
      if last.at == c then last.step(before) else before
  }

  function Concat<T>(parts: seq<seq<T>>): seq<T> {
    if parts == [] then [] else Concat(parts[..|parts| - 1]) + parts[|parts| - 1]
  }

  /** The job as one thread runs it: the stripes one after the other. */
  function Serial<A, C>(job: Job<A, C>): seq<Op<A, C>> { Concat(job.ops) }

  // ---------- threads ----------

  datatype WorkerPc =
    | WLock | WTest | WAsleep | WWoken            // the wait loop for a new generation
    | WClaimLock | WClaim | WExec(stripe: nat, k: nat)
    | WDoneLock | WDone                           // the decrement of pending
    | WReturned

  datatype Worker = Worker(pc: WorkerPc, seen: nat)

  datatype MainPc =
    | Idle                                        // outside the pool: owns the job fields and the memory
    | RunLock | Publish | ClaimLock | Claim | Exec(stripe: nat, k: nat)
    | WaitLock | WaitTest | Asleep | Woken
    | Returned                                    // ggfe_pool_run has just returned
    | StopLock | Stop | Join(i: nat) | Stopped

  /** Thread 0 is the caller, thread i + 1 is worker i. */
  datatype Control = Control(lock: Option<nat>, generation: nat, pending: int, next: nat, shutdown: bool,
                             main: MainPc, workers: seq<Worker>)

  /** The shared fields. `mem0`, `progress` and `starts` only record the current run: the memory when it
      was published, how many operations of each stripe are done, how often each stripe was begun. */
  datatype State<!A(==), !C> = State(ctl: Control, job: Job<A, C>, mem: map<A, C>,
                                     mem0: map<A, C>, progress: seq<nat>, starts: seq<nat>)

  function Wake(w: Worker): Worker { if w.pc.WAsleep? then w.(pc := WWoken) else w }

  /** pthread_cond_broadcast on work_ready. */
  function WakeAll(ws: seq<Worker>): (r: seq<Worker>)
    ensures |r| == |ws| && forall i | 0 <= i < |ws| :: r[i] == Wake(ws[i])
  {
    if ws == [] then [] else WakeAll(ws[..|ws| - 1]) + [Wake(ws[|ws| - 1])]
  }

  // ---------- control steps ----------

  predicate MainCanStep(c: Control) {
    match c.main
    case RunLock | ClaimLock | WaitLock | Woken | StopLock => c.lock == None
    case Publish | Claim | Exec(_, _) | WaitTest | Stop => true
    case Join(i) => i < |c.workers| ==> c.workers[i].pc.WReturned?
    case Idle | Returned | Asleep | Stopped => false
  }

  /** The caller's next step; `more` says whether its current stripe has operations left. */
  function MainControl(c: Control, more: bool): Control {
    match c.main
    case RunLock => c.(lock := Some(0), main := Publish)
    case Publish => c.(pending := |c.workers|, next := 0, generation := c.generation + 1,
                       workers := WakeAll(c.workers), lock := None, main := ClaimLock)
    case ClaimLock => c.(lock := Some(0), main := Claim)
    case Claim => c.(next := c.next + 1, lock := None,
                     main := if c.next >= STRIPES then WaitLock else Exec(c.next, 0))
    case Exec(stripe, k) => c.(main := if more then Exec(stripe, k + 1) else ClaimLock)
    case WaitLock | Woken => c.(lock := Some(0), main := WaitTest)
    case WaitTest => c.(lock := None, main := if c.pending > 0 then Asleep else Returned)
    case StopLock => c.(lock := Some(0), main := Stop)
    case Stop => c.(shutdown := true, workers := WakeAll(c.workers), lock := None, main := Join(0))
    case Join(i) => c.(main := if i < |c.workers| then Join(i + 1) else Stopped)
    case _ => c
  }

  predicate WorkerCanStep(c: Control, i: nat)
    requires i < |c.workers|
  {
    match c.workers[i].pc
    case WLock | WWoken | WClaimLock | WDoneLock => c.lock == None
    case WTest | WClaim | WExec(_, _) | WDone => true
    case WAsleep | WReturned => false
  }

  /** Worker i's next program counter and `seen`. */
  function WorkerNext(c: Control, i: nat, more: bool): Worker
    requires i < |c.workers|
  {
    var w := c.workers[i];
    match w.pc
    case WLock | WWoken => w.(pc := WTest)
    case WTest =>
      if c.shutdown then w.(pc := WReturned)
      else if c.generation == w.seen then w.(pc := WAsleep)
      else Worker(WClaimLock, c.generation)
    case WClaimLock => w.(pc := WClaim)
    case WClaim => w.(pc := if c.next >= STRIPES then WDoneLock else WExec(c.next, 0))
    case WExec(stripe, k) => w.(pc := if more then WExec(stripe, k + 1) else WClaimLock)
    case WDoneLock => w.(pc := WDone)
    case WDone => w.(pc := WLock)
    case _ => w
  }

  function WorkerControl(c: Control, i: nat, more: bool): Control
    requires i < |c.workers|
  {
    var d := c.(workers := c.workers[i := WorkerNext(c, i, more)]);
    match c.workers[i].pc
    case WLock | WWoken | WClaimLock | WDoneLock => d.(lock := Some(i + 1))
    case WTest => d.(lock := None)
    case WClaim => d.(lock := None, next := c.next + 1)
    case WDone => d.(lock := None, pending := c.pending - 1,
                     main := if c.pending - 1 == 0 && c.main.Asleep? then Woken else c.main)
    case _ => d
  }

  // ---------- steps ----------

  function Executing(c: Control, t: nat): Option<(nat, nat)>
    requires t <= |c.workers|
  {
    if t == 0 then (if c.main.Exec? then Some((c.main.stripe, c.main.k)) else None)
    else var pc := c.workers[t - 1].pc; if pc.WExec? then Some((pc.stripe, pc.k)) else None
  }

  /** Thread t is about to take a stripe number. */
  predicate Claiming(c: Control, t: nat)
    requires t <= |c.workers|
  {
    if t == 0 then c.main.Claim? else c.workers[t - 1].pc.WClaim?
  }

  /** Thread t is inside a stripe that has operations left. */
  predicate More<A, C>(s: State<A, C>, t: nat)
    requires t <= |s.ctl.workers| && |s.job.ops| == STRIPES
  {
    match Executing(s.ctl, t)
    case Some((stripe, k)) => stripe < STRIPES && k < |s.job.ops[stripe]|
    case None => false
  }

  /** What thread t's step does besides control: run one operation, or begin a stripe. */
  function DataStep<A(!new), C(!new)>(s: State<A, C>, t: nat): State<A, C>
    requires WellFormed(s.job, s.mem) && |s.progress| == |s.starts| == STRIPES && t <= |s.ctl.workers|
  {
    if More(s, t) then
      var (stripe, k) := Executing(s.ctl, t).value;
      var op := s.job.ops[stripe][k];
      s.(mem := s.mem[op.at := op.step(s.mem[op.at])], progress := s.progress[stripe := k + 1])
    else if Claiming(s.ctl, t) && s.ctl.next < STRIPES then
      s.(starts := s.starts[s.ctl.next := s.starts[s.ctl.next] + 1])
    else if t == 0 && s.ctl.main.Publish? then
      s.(mem0 := s.mem, progress := seq(STRIPES, _ => 0), starts := seq(STRIPES, _ => 0))
    else s
  }

  function MainStep<A(!new), C(!new)>(s: State<A, C>): State<A, C>
    requires WellFormed(s.job, s.mem) && |s.progress| == |s.starts| == STRIPES
  {
    DataStep(s, 0).(ctl := MainControl(s.ctl, More(s, 0)))
  }

  function WorkerStep<A(!new), C(!new)>(s: State<A, C>, i: nat): State<A, C>
    requires WellFormed(s.job, s.mem) && |s.progress| == |s.starts| == STRIPES && i < |s.ctl.workers|
  {
    DataStep(s, i + 1).(ctl := WorkerControl(s.ctl, i, More(s, i + 1)))
  }

  // ---------- the invariant ----------

  /** The thread is inside a critical section. */
  predicate Holds(c: Control, t: nat)
    requires t <= |c.workers|
  {
    if t == 0 then c.main.Publish? || c.main.Claim? || c.main.WaitTest? || c.main.Stop?
    else var pc := c.workers[t - 1].pc; pc.WTest? || pc.WClaim? || pc.WDone?
  }

  ghost predicate LockInv(c: Control) {
    && (c.lock.Some? ==> c.lock.value <= |c.workers|)
    && forall t: nat | t <= |c.workers| :: Holds(c, t) <==> c.lock == Some(t)
  }

  /** Between the publication of a generation and the return of the call. */
  predicate Running(c: Control) {
    match c.main
    case ClaimLock | Claim | Exec(_, _) | WaitLock | WaitTest | Asleep | Woken => true
    case _ => false
  }

  /** The worker reads the job fields, or may before it next takes the lock. */
  predicate InJob(w: Worker) { w.pc.WClaimLock? || w.pc.WClaim? || w.pc.WExec? || w.pc.WDoneLock? || w.pc.WDone? }

  predicate InWaitLoop(w: Worker) { w.pc.WLock? || w.pc.WTest? || w.pc.WAsleep? || w.pc.WWoken? }

  /** The worker has not yet decremented `pending` for this generation. */
  predicate Owes(w: Worker, generation: nat) { w.seen != generation || InJob(w) }

  function Owing(ws: seq<Worker>, generation: nat): nat {
    if ws == [] then 0
    else Owing(ws[..|ws| - 1], generation) + (if Owes(ws[|ws| - 1], generation) then 1 else 0)
  }

  /** A worker outside a run has settled every generation. */
  predicate QuietWorker(c: Control, w: Worker) {
    && w.seen == c.generation
    && (InWaitLoop(w) || (c.shutdown && w.pc.WReturned?))
    && (c.shutdown ==> !w.pc.WAsleep?)
  }

  predicate RunningWorker(c: Control, w: Worker) {
    || (InWaitLoop(w) && !w.pc.WAsleep? && w.seen + 1 == c.generation)
    || (InJob(w) && w.seen == c.generation && (w.pc.WDoneLock? || w.pc.WDone? ==> c.next >= STRIPES))
    || (InWaitLoop(w) && w.seen == c.generation && c.next >= STRIPES)
  }

  predicate WorkerInv(c: Control, w: Worker) {
    if Running(c) then !c.shutdown && RunningWorker(c, w) else QuietWorker(c, w)
  }

  ghost predicate MainInv(c: Control) {
    && (c.shutdown <==> c.main.Join? || c.main.Stopped?)
    && (c.main.Join? ==> c.main.i <= |c.workers| && forall j | 0 <= j < c.main.i :: c.workers[j].pc.WReturned?)
    && (c.main.Stopped? ==> forall j | 0 <= j < |c.workers| :: c.workers[j].pc.WReturned?)
    && (c.main.WaitLock? || c.main.WaitTest? || c.main.Asleep? || c.main.Woken? || c.main.Returned? ==> c.next >= STRIPES)
    && (c.main.Asleep? ==> c.pending > 0)
  }

  ghost predicate PhaseInv(c: Control) {
    && c.pending == Owing(c.workers, c.generation)
    && MainInv(c)
    && forall i | 0 <= i < |c.workers| :: WorkerInv(c, c.workers[i])
  }

  /** Stripe b is finished, or some thread is in the middle of it. */
  ghost predicate Covered<A, C>(s: State<A, C>, b: nat)
    requires b < |s.progress| == |s.job.ops|
  {
    || s.progress[b] == |s.job.ops[b]|
    || exists t: nat | t <= |s.ctl.workers| :: Executing(s.ctl, t).Some? && Executing(s.ctl, t).value.0 == b
  }

  ghost predicate StripeInv<A, C>(s: State<A, C>)
    requires |s.job.ops| == |s.progress| == |s.starts| == STRIPES
  {
    && (forall b: nat | b < STRIPES :: s.starts[b] == if b < s.ctl.next then 1 else 0)
    && (forall b: nat | s.ctl.next <= b < STRIPES :: s.progress[b] == 0)
    && (forall b: nat | b < STRIPES && b < s.ctl.next :: Covered(s, b))
    && (forall t: nat | t <= |s.ctl.workers| && Executing(s.ctl, t).Some? ::
          var (b, k) := Executing(s.ctl, t).value; b < s.ctl.next && b < STRIPES && k == s.progress[b] <= |s.job.ops[b]|)
    && (forall t: nat, u: nat | t < u <= |s.ctl.workers| && Executing(s.ctl, t).Some? && Executing(s.ctl, u).Some? ::
          Executing(s.ctl, t).value.0 != Executing(s.ctl, u).value.0)
  }

  /** The cell as its own stripe's operations so far have left it. */
  function CellSoFar<A(==), C>(job: Job<A, C>, progress: seq<nat>, c: A, v: C): C
    requires |job.ops| == |progress| == STRIPES
    requires forall b | 0 <= b < STRIPES :: progress[b] <= |job.ops[b]|
  {
    var b := job.owner(c);
    if b < STRIPES then Run(job.ops[b][..progress[b]], c, v) else v
  }

  ghost predicate MemInv<A(!new), C(!new)>(s: State<A, C>)
    requires |s.job.ops| == |s.progress| == STRIPES
  {
    && s.mem.Keys == s.mem0.Keys
    && (forall b | 0 <= b < STRIPES :: s.progress[b] <= |s.job.ops[b]|)
    && forall c | c in s.mem :: s.mem[c] == CellSoFar(s.job, s.progress, c, s.mem0[c])
  }

  ghost predicate Sized<A(!new), C(!new)>(s: State<A, C>) {
    WellFormed(s.job, s.mem) && |s.progress| == |s.starts| == STRIPES
  }

  ghost predicate Inv<A(!new), C(!new)>(s: State<A, C>) {
    && Sized(s) && LockInv(s.ctl) && PhaseInv(s.ctl)
    && (Running(s.ctl) || s.ctl.main.Returned? ==> StripeInv(s) && MemInv(s))
  }
}
