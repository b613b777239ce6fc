/** Every step of the pool, under any schedule, keeps the invariant. */
module PoolSafety {
  import opened Optional
  import opened Pool

  /** What can happen next: a thread moves, a wait wakes spuriously, or the idle caller acts. */
  datatype Event<!A(==), !C> =
    | MainMoves
    | WorkerMoves(i: nat)
    | MainWakes
    | WorkerWakes(i: nat)
    | Writes(job: Job<A, C>, mem: map<A, C>)      // new job fields and new buffer contents
    | CallsRun
    | Continues                                   // takes the return of the call
    | CallsStop

  ghost predicate Allowed<A(!new), C(!new)>(s: State<A, C>, e: Event<A, C>) {
    match e
    case MainMoves => MainCanStep(s.ctl)
    case WorkerMoves(i) => i < |s.ctl.workers| && WorkerCanStep(s.ctl, i)
    case MainWakes => s.ctl.main.Asleep?
    case WorkerWakes(i) => i < |s.ctl.workers| && s.ctl.workers[i].pc.WAsleep?
    case Writes(job, mem) => s.ctl.main.Idle? && WellFormed(job, mem)
    case CallsRun => s.ctl.main.Idle?
    case Continues => s.ctl.main.Returned?
    case CallsStop => s.ctl.main.Idle?
  }

  function SetMain(c: Control, pc: MainPc): Control { c.(main := pc) }

  function WakeOne(c: Control, i: nat): Control
    requires i < |c.workers|
  {
    c.(workers := c.workers[i := Wake(c.workers[i])])
  }

  ghost function After<A(!new), C(!new)>(s: State<A, C>, e: Event<A, C>): State<A, C>
    requires Sized(s) && Allowed(s, e)
  {
    match e
    case MainMoves => MainStep(s)
    case WorkerMoves(i) => WorkerStep(s, i)
    case MainWakes => s.(ctl := SetMain(s.ctl, Woken))
    case WorkerWakes(i) => s.(ctl := WakeOne(s.ctl, i))
    case Writes(job, mem) => s.(job := job, mem := mem)
    case CallsRun => s.(ctl := SetMain(s.ctl, RunLock))
    case Continues => s.(ctl := SetMain(s.ctl, Idle))
    case CallsStop => s.(ctl := SetMain(s.ctl, StopLock))
  }

  /** The pool just created: no generation yet, every worker about to take the lock. */
  ghost function Initial<A(!new), C(!new)>(n: nat, job: Job<A, C>, mem: map<A, C>): State<A, C> {
    State(Control(None, 0, 0, 0, false, Idle, seq(n, _ => Worker(WLock, 0))),
          job, mem, mem, seq(STRIPES, _ => 0), seq(STRIPES, _ => 0))
  }

  // ---------- counting the workers that owe a decrement ----------

  lemma {:induction false} OwingUpdate(ws: seq<Worker>, g: nat, i: nat, w: Worker)
    requires i < |ws|
    ensures Owing(ws[i := w], g) + (if Owes(ws[i], g) then 1 else 0)
         == Owing(ws, g) + (if Owes(w, g) then 1 else 0)
  {
    var n := |ws| - 1;
    if i == n {
      assert ws[i := w][..n] == ws[..n];
    } else {
      OwingUpdate(ws[..n], g, i, w);
      assert ws[i := w][..n] == ws[..n][i := w];
    }
  }

  lemma {:induction false} OwingAll(ws: seq<Worker>, g: nat)
    requires forall i | 0 <= i < |ws| :: Owes(ws[i], g)
    ensures Owing(ws, g) == |ws|
  {
    if ws != [] {
      OwingAll(ws[..|ws| - 1], g);
    }
  }

  lemma {:induction false} OwingNone(ws: seq<Worker>, g: nat)
    ensures Owing(ws, g) == 0 <==> forall i | 0 <= i < |ws| :: !Owes(ws[i], g)
  {
    if ws != [] {
      OwingNone(ws[..|ws| - 1], g);
      assert forall i | 0 <= i < |ws| - 1 :: ws[i] == ws[..|ws| - 1][i];
    }
  }

  // ---------- the lock ----------

  lemma LockKeptMain(c: Control, more: bool)
    requires LockInv(c) && MainCanStep(c)
    ensures LockInv(MainControl(c, more))
  {
    var d := MainControl(c, more);
    assert Holds(c, 0) <==> c.lock == Some(0);
    forall t: nat | t <= |d.workers| ensures Holds(d, t) <==> d.lock == Some(t) {
      assert Holds(c, t) <==> c.lock == Some(t);
    }
  }

  lemma LockKeptWorker(c: Control, i: nat, more: bool)
    requires LockInv(c) && i < |c.workers| && WorkerCanStep(c, i)
    ensures LockInv(WorkerControl(c, i, more))
  {
    var d := WorkerControl(c, i, more);
    assert Holds(c, i + 1) <==> c.lock == Some(i + 1);
    forall t: nat | t <= |d.workers| ensures Holds(d, t) <==> d.lock == Some(t) {
      assert Holds(c, t) <==> c.lock == Some(t);
    }
  }

  // ---------- the phases ----------

  lemma MainWorkerKept(c: Control, more: bool, i: nat)
    requires PhaseInv(c) && MainCanStep(c) && i < |c.workers|
    ensures WorkerInv(MainControl(c, more), MainControl(c, more).workers[i])
  {
    assert WorkerInv(c, c.workers[i]);
    if c.main.WaitTest? {
      OwingNone(c.workers, c.generation);
    }
  }

  lemma MainPendingKept(c: Control, more: bool)
    requires PhaseInv(c) && MainCanStep(c)
    ensures var d := MainControl(c, more); d.pending == Owing(d.workers, d.generation)
  {
    var d := MainControl(c, more);
    forall i | 0 <= i < |c.workers| ensures WorkerInv(c, c.workers[i]) {}
    if c.main.Publish? {
      OwingAll(d.workers, d.generation);
    } else if c.main.Stop? {
      OwingNone(c.workers, c.generation);
      OwingNone(d.workers, d.generation);
    }
  }

  lemma PhaseKeptMain(c: Control, more: bool)
    requires PhaseInv(c) && MainCanStep(c)
    ensures PhaseInv(MainControl(c, more))
  {
    MainPendingKept(c, more);
    var d := MainControl(c, more);
    forall i | 0 <= i < |d.workers| ensures WorkerInv(d, d.workers[i]) {
      MainWorkerKept(c, more, i);
    }
  }

  lemma WorkerOthersKept(c: Control, i: nat, more: bool, j: nat)
    requires PhaseInv(c) && i < |c.workers| && j < |c.workers| && WorkerCanStep(c, i)
    ensures var d := WorkerControl(c, i, more); WorkerInv(d, d.workers[j])
  {
    assert WorkerInv(c, c.workers[i]) && WorkerInv(c, c.workers[j]);
  }

  lemma WorkerPendingKept(c: Control, i: nat, more: bool)
    requires PhaseInv(c) && i < |c.workers| && WorkerCanStep(c, i)
    ensures var d := WorkerControl(c, i, more); d.pending == Owing(d.workers, d.generation)
  {
    assert WorkerInv(c, c.workers[i]);
    OwingUpdate(c.workers, c.generation, i, WorkerNext(c, i, more));
  }

  lemma PhaseKeptWorker(c: Control, i: nat, more: bool)
    requires PhaseInv(c) && i < |c.workers| && WorkerCanStep(c, i)
    ensures PhaseInv(WorkerControl(c, i, more))
  {
    var d := WorkerControl(c, i, more);
    WorkerPendingKept(c, i, more);
    OwingNone(d.workers, d.generation);
    forall j | 0 <= j < |d.workers| ensures WorkerInv(d, d.workers[j]) {
      WorkerOthersKept(c, i, more, j);
    }
    assert MainInv(d) by {
      assert WorkerInv(c, c.workers[i]);
    }
  }

  lemma ControlKeptWake(c: Control, i: nat)
    requires LockInv(c) && PhaseInv(c) && i < |c.workers|
    ensures LockInv(WakeOne(c, i)) && PhaseInv(WakeOne(c, i))
  {
    var d := WakeOne(c, i);
    assert WorkerInv(c, c.workers[i]);
    OwingUpdate(c.workers, c.generation, i, d.workers[i]);
    forall j | 0 <= j < |d.workers| ensures WorkerInv(d, d.workers[j]) {
      assert WorkerInv(c, c.workers[j]);
    }
    forall t: nat | t <= |d.workers| ensures Holds(d, t) <==> d.lock == Some(t) {
      assert Holds(c, t) <==> c.lock == Some(t);
    }
  }

  /** The caller's moves that touch nothing but its own program counter. */
  predicate Relabels(from: MainPc, to: MainPc) {
    || (from.Asleep? && to.Woken?)
    || (from.Idle? && (to.RunLock? || to.StopLock?))
    || (from.Returned? && to.Idle?)
  }

  lemma ControlKeptSetMain(c: Control, pc: MainPc)
    requires LockInv(c) && PhaseInv(c) && Relabels(c.main, pc)
    ensures LockInv(SetMain(c, pc)) && PhaseInv(SetMain(c, pc))
  {
    var d := SetMain(c, pc);
    forall j | 0 <= j < |d.workers| ensures WorkerInv(d, d.workers[j]) {
      assert WorkerInv(c, c.workers[j]);
    }
    forall t: nat | t <= |d.workers| ensures Holds(d, t) <==> d.lock == Some(t) {
      assert Holds(c, t) <==> c.lock == Some(t);
    }
  }

  // ---------- stripes and memory ----------

  /** Where thread t's step leaves its cursor. */
  function NextCursor(c: Control, t: nat, more: bool): Option<(nat, nat)>
    requires t <= |c.workers|
  {
    match Executing(c, t)
    case Some((b, k)) => if more then Some((b, k + 1)) else None
    case None => if Claiming(c, t) && c.next < STRIPES then Some((c.next, 0)) else None
  }

  /** A step of thread t moves only its own cursor, and only a claim moves `next`. */
  ghost predicate MovesCursor(c: Control, d: Control, t: nat, more: bool)
    requires t <= |c.workers|
  {
    && |d.workers| == |c.workers|
    && d.next == (if Claiming(c, t) then c.next + 1 else c.next)
    && forall u: nat | u <= |c.workers| ::
         Executing(d, u) == if u == t then NextCursor(c, t, more) else Executing(c, u)
  }

  lemma MainMovesCursor(c: Control, more: bool)
    requires !c.main.Publish?
    ensures MovesCursor(c, MainControl(c, more), 0, more)
  {}

  lemma WorkerMovesCursor(c: Control, i: nat, more: bool)
    requires i < |c.workers|
    ensures MovesCursor(c, WorkerControl(c, i, more), i + 1, more)
  {}

  lemma StripeKept<A(!new), C(!new)>(s: State<A, C>, t: nat, d: Control)
    requires Sized(s) && StripeInv(s) && t <= |s.ctl.workers|
    requires !(t == 0 && s.ctl.main.Publish?)
    requires MovesCursor(s.ctl, d, t, More(s, t))
    ensures StripeInv(DataStep(s, t).(ctl := d))
  {
    hide Covered;
    StripesCovered(s, t, d);
    CursorsKept(s, t, d);
  }

  lemma StripesCovered<A(!new), C(!new)>(s: State<A, C>, t: nat, d: Control)
    requires Sized(s) && StripeInv(s) && t <= |s.ctl.workers|
    requires !(t == 0 && s.ctl.main.Publish?)
    requires MovesCursor(s.ctl, d, t, More(s, t))
    ensures var r := DataStep(s, t).(ctl := d); forall b: nat | b < STRIPES && b < d.next :: Covered(r, b)
  {
    var r, c := DataStep(s, t).(ctl := d), s.ctl;
    forall b: nat | b < STRIPES && b < d.next ensures Covered(r, b) {
      if b == c.next {
        assert Executing(d, t).Some? && Executing(d, t).value.0 == b;
      } else if s.progress[b] != |s.job.ops[b]| {
        assert Covered(s, b);
        var u: nat :| u <= |c.workers| && Executing(c, u).Some? && Executing(c, u).value.0 == b;
        assert u != t || More(s, t);
        assert Executing(d, u).Some? && Executing(d, u).value.0 == b;
      }
    }
  }

  lemma CursorsKept<A(!new), C(!new)>(s: State<A, C>, t: nat, d: Control)
    requires Sized(s) && StripeInv(s) && t <= |s.ctl.workers|
    requires !(t == 0 && s.ctl.main.Publish?)
    requires MovesCursor(s.ctl, d, t, More(s, t))
    ensures var r := DataStep(s, t).(ctl := d);
            forall u: nat | u <= |d.workers| && Executing(d, u).Some? ::
              var (b, k) := Executing(d, u).value; b < d.next && b < STRIPES && k == r.progress[b] <= |r.job.ops[b]|
  {
    hide Covered;
    var r, c := DataStep(s, t).(ctl := d), s.ctl;
    forall u: nat | u <= |d.workers| && Executing(d, u).Some?
      ensures var (b, k) := Executing(d, u).value; b < d.next && b < STRIPES && k == r.progress[b] <= |r.job.ops[b]|
    {
      if u != t && More(s, t) {
        assert Executing(c, u).value.0 != Executing(c, t).value.0;
      }
    }
  }

  /** One more operation of stripe b on one cell. */
  lemma CellStep<A(!new), C(!new)>(job: Job<A, C>, mem: map<A, C>, progress: seq<nat>, b: nat, c: A, v: C)
    requires WellFormed(job, mem) && |progress| == STRIPES && b < STRIPES && progress[b] < |job.ops[b]|
    requires forall s | 0 <= s < STRIPES :: progress[s] <= |job.ops[s]|
    ensures var op := job.ops[b][progress[b]];
            CellSoFar(job, progress[b := progress[b] + 1], c, v)
            == if op.at == c then op.step(CellSoFar(job, progress, c, v)) else CellSoFar(job, progress, c, v)
  {
    var k := progress[b];
    assert job.ops[b][..k + 1][..k] == job.ops[b][..k];
  }

  /** The cursor of the stripe a thread is in. */
  lemma CursorIsProgress<A(!new), C(!new)>(s: State<A, C>, t: nat)
    requires Sized(s) && StripeInv(s) && t <= |s.ctl.workers| && More(s, t)
    ensures var (b, k) := Executing(s.ctl, t).value; s.progress[b] == k
  {}

  lemma MemKept<A(!new), C(!new)>(s: State<A, C>, t: nat)
    requires Sized(s) && StripeInv(s) && MemInv(s) && t <= |s.ctl.workers|
    requires !(t == 0 && s.ctl.main.Publish?)
    ensures MemInv(DataStep(s, t))
  {
    hide StripeInv, CellSoFar, Executing;
    if More(s, t) {
      CursorIsProgress(s, t);
      var (b, k) := Executing(s.ctl, t).value;
      var r := DataStep(s, t);
      forall c | c in r.mem ensures r.mem[c] == CellSoFar(r.job, r.progress, c, r.mem0[c]) {
        CellStep(s.job, s.mem, s.progress, b, c, s.mem0[c]);
      }
    }
  }

  lemma PublishKept<A(!new), C(!new)>(s: State<A, C>, more: bool)
    requires Sized(s) && PhaseInv(s.ctl) && s.ctl.main.Publish?
    ensures var r := DataStep(s, 0).(ctl := MainControl(s.ctl, more)); StripeInv(r) && MemInv(r)
  {
    var d := MainControl(s.ctl, more);
    forall u: nat | u <= |d.workers| ensures Executing(d, u).None? {
      if u > 0 {
        assert WorkerInv(s.ctl, s.ctl.workers[u - 1]);
      }
    }
  }

  /** Stripes and memory see a control state only through the cursors and `next`. */
  lemma DataKeptSameCursors<A(!new), C(!new)>(s: State<A, C>, d: Control)
    requires Sized(s) && StripeInv(s) && MemInv(s)
    requires |d.workers| == |s.ctl.workers| && d.next == s.ctl.next
    requires forall u: nat | u <= |d.workers| :: Executing(d, u) == Executing(s.ctl, u)
    ensures StripeInv(s.(ctl := d)) && MemInv(s.(ctl := d))
  {
    forall b: nat | b < STRIPES && b < d.next ensures Covered(s.(ctl := d), b) {
      assert Covered(s, b);
      if s.progress[b] != |s.job.ops[b]| {
        var u: nat :| u <= |s.ctl.workers| && Executing(s.ctl, u).Some? && Executing(s.ctl, u).value.0 == b;
        assert Executing(d, u).Some? && Executing(d, u).value.0 == b;
      }
    }
  }

  // ---------- the invariant is kept ----------

  lemma ThreadKeepsData<A(!new), C(!new)>(s: State<A, C>, t: nat, d: Control)
    requires Sized(s) && StripeInv(s) && MemInv(s) && t <= |s.ctl.workers|
    requires !(t == 0 && s.ctl.main.Publish?)
    requires MovesCursor(s.ctl, d, t, More(s, t))
    ensures var r := DataStep(s, t).(ctl := d); Sized(r) && StripeInv(r) && MemInv(r)
  {
    StripeKept(s, t, d);
    MemKept(s, t);
  }

  lemma MainKeeps<A(!new), C(!new)>(s: State<A, C>)
    requires Inv(s) && MainCanStep(s.ctl)
    ensures Inv(MainStep(s))
  {
    var c, more := s.ctl, More(s, 0);
    LockKeptMain(c, more);
    PhaseKeptMain(c, more);
    if c.main.Publish? {
      PublishKept(s, more);
    } else if Running(c) {
      MainMovesCursor(c, more);
      ThreadKeepsData(s, 0, MainControl(c, more));
    }
  }

  lemma WorkerKeeps<A(!new), C(!new)>(s: State<A, C>, i: nat)
    requires Inv(s) && i < |s.ctl.workers| && WorkerCanStep(s.ctl, i)
    ensures Inv(WorkerStep(s, i))
  {
    var c, more := s.ctl, More(s, i + 1);
    LockKeptWorker(c, i, more);
    PhaseKeptWorker(c, i, more);
    WorkerMovesCursor(c, i, more);
    if Running(c) || c.main.Returned? {
      ThreadKeepsData(s, i + 1, WorkerControl(c, i, more));
    } else {
      assert WorkerInv(c, c.workers[i]);
    }
  }

  /** Whatever happens next, the invariant holds again. */
  lemma StepKeepsInv<A(!new), C(!new)>(s: State<A, C>, e: Event<A, C>)
    requires Inv(s) && Allowed(s, e)
    ensures Inv(After(s, e))
  {
    match e
    case MainMoves => MainKeeps(s);
    case WorkerMoves(i) => WorkerKeeps(s, i);
    case WorkerWakes(i) =>
      ControlKeptWake(s.ctl, i);
      if Running(s.ctl) || s.ctl.main.Returned? {
        DataKeptSameCursors(s, WakeOne(s.ctl, i));
      }
    case MainWakes =>
      ControlKeptSetMain(s.ctl, Woken);
      DataKeptSameCursors(s, SetMain(s.ctl, Woken));
    case CallsRun => ControlKeptSetMain(s.ctl, RunLock);
    case CallsStop => ControlKeptSetMain(s.ctl, StopLock);
    case Continues => ControlKeptSetMain(s.ctl, Idle);
    case Writes(_, _) =>
  }

  lemma InitialInv<A(!new), C(!new)>(n: nat, job: Job<A, C>, mem: map<A, C>)
    requires WellFormed(job, mem)
    ensures Inv(Initial(n, job, mem))
  {
    var c := Initial(n, job, mem).ctl;
    OwingNone(c.workers, 0);
    assert forall i | 0 <= i < |c.workers| :: WorkerInv(c, c.workers[i]);
  }

  // ---------- runs ----------

  ghost predicate StepAt<A(!new), C(!new)>(states: seq<State<A, C>>, events: seq<Event<A, C>>, k: nat)
    requires |states| == |events| + 1 && k < |events|
  {
    Sized(states[k]) && Allowed(states[k], events[k]) && states[k + 1] == After(states[k], events[k])
  }

  ghost predicate IsInitial<A(!new), C(!new)>(s: State<A, C>) {
    exists n, job, mem :: WellFormed(job, mem) && s == Initial(n, job, mem)
  }

  /** The states of a run of the program under some schedule. */
  ghost predicate IsRun<A(!new), C(!new)>(states: seq<State<A, C>>, events: seq<Event<A, C>>) {
    && |states| == |events| + 1
    && IsInitial(states[0])
    && forall k: nat | k < |events| :: StepAt(states, events, k)
  }

  lemma {:induction false} RunInv<A(!new), C(!new)>(states: seq<State<A, C>>, events: seq<Event<A, C>>, k: nat)
    requires IsRun(states, events) && k < |states|
    ensures Inv(states[k])
  {
    if k == 0 {
      var n, job, mem :| WellFormed(job, mem) && states[0] == Initial(n, job, mem);
      InitialInv(n, job, mem);
    } else {
      RunInv(states, events, k - 1);
      assert StepAt(states, events, k - 1);
      StepKeepsInv(states[k - 1], events[k - 1]);
    }
  }
}
