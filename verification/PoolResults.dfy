/** What a call of the pool achieves, and that every call and the shutdown come to an end. */
module PoolResults {
  import opened Optional
  import opened Pool
  import opened PoolSafety

  // ---------- exclusion ----------

  /** Two threads are never inside critical sections at the same time. */
  lemma MutualExclusion<A(!new), C(!new)>(s: State<A, C>, t: nat, u: nat)
    requires Inv(s) && t <= |s.ctl.workers| && u <= |s.ctl.workers|
    requires Holds(s.ctl, t) && Holds(s.ctl, u)
    ensures t == u
  {
    assert s.ctl.lock == Some(t) && s.ctl.lock == Some(u);
  }

  /** Whenever the caller may write the job fields, no worker is inside a job. */
  lemma JobFieldsAreExclusive<A(!new), C(!new)>(s: State<A, C>, i: nat)
    requires Inv(s) && i < |s.ctl.workers| && !Running(s.ctl)
    ensures !InJob(s.ctl.workers[i])
  {
    assert WorkerInv(s.ctl, s.ctl.workers[i]);
  }

  // ---------- the result of a run ----------

  lemma {:induction false} RunConcat<A, C>(xs: seq<Op<A, C>>, ys: seq<Op<A, C>>, c: A, v: C)
    ensures Run(xs + ys, c, v) == Run(ys, c, Run(xs, c, v))
  {
    if ys == [] {
      assert xs + ys == xs;
    } else {
      var n := |ys| - 1;
      RunConcat(xs, ys[..n], c, v);
      assert (xs + ys)[..|xs + ys| - 1] == xs + ys[..n];
    }
  }

  lemma {:induction false} RunUntouched<A, C>(ops: seq<Op<A, C>>, c: A, v: C)
    requires forall op | op in ops :: op.at != c
    ensures Run(ops, c, v) == v
  {
    if ops != [] {
      RunUntouched(ops[..|ops| - 1], c, v);
    }
  }

  lemma {:induction false} RunOwnStripe<A, C>(parts: seq<seq<Op<A, C>>>, b: nat, c: A, v: C)
    requires forall s, i | 0 <= s < |parts| && s != b && 0 <= i < |parts[s]| :: parts[s][i].at != c
    ensures Run(Concat(parts), c, v) == if b < |parts| then Run(parts[b], c, v) else v
  {
    if parts != [] {
      var n := |parts| - 1;
      RunOwnStripe(parts[..n], b, c, v);
      RunConcat(Concat(parts[..n]), parts[n], c, v);
      if b != n {
        RunUntouched(parts[n], c, Run(Concat(parts[..n]), c, v));
      }
    }
  }

  /** Running the stripes one after the other gives a cell what its own stripe gives it. */
  lemma SerialIsOwnStripe<A(!new), C(!new)>(job: Job<A, C>, mem: map<A, C>, c: A, v: C)
    requires WellFormed(job, mem)
    ensures Run(Serial(job), c, v)
         == if job.owner(c) < STRIPES then Run(job.ops[job.owner(c)], c, v) else v
  {
    RunOwnStripe(job.ops, job.owner(c), c, v);
  }

  /** When the call returns every stripe was begun exactly once, all its operations are done, and
      the memory is what one thread running the stripes in order would have left. */
  lemma ReturnedMemory<A(!new), C(!new)>(s: State<A, C>)
    requires Inv(s) && s.ctl.main.Returned?
    ensures forall b: nat | b < STRIPES :: s.starts[b] == 1 && s.progress[b] == |s.job.ops[b]|
    ensures s.mem.Keys == s.mem0.Keys
    ensures forall c | c in s.mem :: s.mem[c] == Run(Serial(s.job), c, s.mem0[c])
  {
    forall b: nat | b < STRIPES ensures s.progress[b] == |s.job.ops[b]| {
      assert Covered(s, b);
      forall t: nat | t <= |s.ctl.workers| ensures Executing(s.ctl, t).None? {
        if t > 0 {
          assert WorkerInv(s.ctl, s.ctl.workers[t - 1]);
        }
      }
    }
    forall c | c in s.mem ensures s.mem[c] == Run(Serial(s.job), c, s.mem0[c]) {
      SerialIsOwnStripe(s.job, s.mem, c, s.mem0[c]);
      var b := s.job.owner(c);
      if b < STRIPES {
        assert s.job.ops[b][..|s.job.ops[b]|] == s.job.ops[b];
      }
    }
  }

  // ---------- from call to return ----------

  predicate ByCaller<A, C>(e: Event<A, C>) { e.Writes? || e.CallsRun? || e.Continues? || e.CallsStop? }

  /** The memory the current call started from. */
  function Before<A, C>(s: State<A, C>): map<A, C> {
    if s.ctl.main.RunLock? || s.ctl.main.Publish? then s.mem else s.mem0
  }

  predicate InCall(c: Control) { c.main.RunLock? || c.main.Publish? || Running(c) || c.main.Returned? }

  lemma MainKeepsStart<A(!new), C(!new)>(s: State<A, C>)
    requires Sized(s) && MainCanStep(s.ctl) && InCall(MainStep(s).ctl)
    ensures InCall(s.ctl) && MainStep(s).job == s.job && Before(MainStep(s)) == Before(s)
  {}

  lemma WorkerKeepsStart<A(!new), C(!new)>(s: State<A, C>, i: nat)
    requires Sized(s) && i < |s.ctl.workers| && WorkerInv(s.ctl, s.ctl.workers[i]) && InCall(WorkerStep(s, i).ctl)
    ensures InCall(s.ctl) && WorkerStep(s, i).job == s.job && Before(WorkerStep(s, i)) == Before(s)
  {}

  lemma CallKeepsStart<A(!new), C(!new)>(s: State<A, C>, e: Event<A, C>)
    requires Inv(s) && Allowed(s, e) && !ByCaller(e) && InCall(After(s, e).ctl)
    ensures InCall(s.ctl) && After(s, e).job == s.job && Before(After(s, e)) == Before(s)
  {
    match e
    case MainMoves => MainKeepsStart(s);
    case WorkerMoves(i) => WorkerKeepsStart(s, i);
    case _ =>
  }

  /** Event i called the run that state k is in. */
  ghost predicate CalledAt<A(!new), C(!new)>(states: seq<State<A, C>>, events: seq<Event<A, C>>, i: nat, k: nat)
    requires |states| == |events| + 1
  {
    && i < k < |states| && events[i].CallsRun?
    && (forall j | i < j < k :: !ByCaller(events[j]))
    && states[k].job == states[i].job && Before(states[k]) == states[i].mem
  }

  lemma InitialNotInCall<A(!new), C(!new)>(s: State<A, C>)
    requires IsInitial(s)
    ensures !InCall(s.ctl)
  {}

  /** Before its last event the run was in the same call, or that event was the call. */
  ghost predicate SameCall<A(!new), C(!new)>(s: State<A, C>, e: Event<A, C>, r: State<A, C>) {
    && r.job == s.job
    && if e.CallsRun? then Before(r) == s.mem else !ByCaller(e) && InCall(s.ctl) && Before(r) == Before(s)
  }

  lemma CallBack<A(!new), C(!new)>(s: State<A, C>, e: Event<A, C>)
    requires Inv(s) && Allowed(s, e) && InCall(After(s, e).ctl)
    ensures SameCall(s, e, After(s, e))
  {
    if !ByCaller(e) {
      CallKeepsStart(s, e);
    }
  }

  lemma {:induction false} CallExists<A(!new), C(!new)>(states: seq<State<A, C>>, events: seq<Event<A, C>>, k: nat)
    requires IsRun(states, events) && k < |states| && InCall(states[k].ctl)
    ensures exists i: nat :: CalledAt(states, events, i, k)
  {
    if k == 0 {
      InitialNotInCall(states[0]);
    } else {
      RunInv(states, events, k - 1);
      assert StepAt(states, events, k - 1);
      CallBack(states[k - 1], events[k - 1]);
      if events[k - 1].CallsRun? {
        assert CalledAt(states, events, k - 1, k);
      } else {
        CallExists(states, events, k - 1);
        var i: nat :| CalledAt(states, events, i, k - 1);
        assert CalledAt(states, events, i, k);
      }
    }
  }

  /** In every run of the program, under every schedule and with any spurious wake-ups: when
      ggfe_pool_run returns, the memory equals the memory at its call after the whole job done serially. */
  lemma ParallelEqualsSerial<A(!new), C(!new)>(states: seq<State<A, C>>, events: seq<Event<A, C>>, k: nat)
    requires IsRun(states, events) && k < |states| && states[k].ctl.main.Returned?
    ensures exists i: nat :: CalledAt(states, events, i, k)
              && states[k].mem.Keys == states[i].mem.Keys
              && forall c | c in states[k].mem ::
                   states[k].mem[c] == Run(Serial(states[i].job), c, states[i].mem[c])
  {
    RunInv(states, events, k);
    CallExists(states, events, k);
    ReturnedMemory(states[k]);
  }

  // ---------- progress ----------

  /** Main or a worker can take a step that is not a spurious wake-up. */
  ghost predicate SomeoneCanStep(c: Control) {
    MainCanStep(c) || exists i: nat | i < |c.workers| :: WorkerCanStep(c, i)
  }

  /** No deadlock and no lost wake-up: until the caller is back outside the pool, someone can step. */
  lemma NeverStuck<A(!new), C(!new)>(s: State<A, C>)
    requires Inv(s)
    requires !(s.ctl.main.Idle? || s.ctl.main.Returned? || s.ctl.main.Stopped?)
    ensures SomeoneCanStep(s.ctl)
  {
    var c := s.ctl;
    if c.lock.Some? {
      var t := c.lock.value;
      assert Holds(c, t);
      assert t == 0 || WorkerCanStep(c, t - 1);
    } else if c.main.Asleep? {
      OwingNone(c.workers, c.generation);
      var i :| 0 <= i < |c.workers| && Owes(c.workers[i], c.generation);
      assert WorkerInv(c, c.workers[i]);
      assert WorkerCanStep(c, i);
    } else if c.main.Join? && c.main.i < |c.workers| {
      var i := c.main.i;
      assert WorkerInv(c, c.workers[i]);
      assert MainCanStep(c) || WorkerCanStep(c, i);
    }
  }

  // ---------- every call ends ----------

  /** Steps a worker still has before it waits for the next generation, not counting new stripes. */
  function WorkerRank(w: Worker, generation: nat, lens: seq<nat>): nat {
    match w.pc
    case WAsleep | WReturned => 0
    case WTest => if w.seen == generation then 1 else 9
    case WLock | WWoken => if w.seen == generation then 2 else 10
    case WDone => 5
    case WDoneLock => 6
    case WClaim => 7
    case WClaimLock => 8
    case WExec(b, k) => if b < |lens| && k <= lens[b] then 9 + (lens[b] - k) else 9
  }

  function WorkersRank(ws: seq<Worker>, generation: nat, lens: seq<nat>): nat {
    if ws == [] then 0
    else WorkersRank(ws[..|ws| - 1], generation, lens) + WorkerRank(ws[|ws| - 1], generation, lens)
  }

  /** The stripes not yet claimed, each with its operations and its claim. */
  function Unclaimed(lens: seq<nat>, next: nat): nat
    decreases |lens| - next
  {
    if next >= |lens| then 0 else lens[next] + 3 + Unclaimed(lens, next + 1)
  }

  function MainRank(c: Control, lens: seq<nat>): nat {
    match c.main
    case Idle | Returned | Stopped | Asleep => 0
    case WaitTest => 1
    case WaitLock | Woken => 2
    case Claim => 3
    case ClaimLock => 4
    case Exec(b, k) => if b < |lens| && k <= lens[b] then 5 + (lens[b] - k) else 5
    case Publish => 5 + 10 * |c.workers| + Unclaimed(lens, 0)
    case RunLock => 6 + 10 * |c.workers| + Unclaimed(lens, 0)
    case Join(i) => if i <= |c.workers| then |c.workers| + 1 - i else 0
    case Stop => 3 * |c.workers| + 2
    case StopLock => 3 * |c.workers| + 3
  }

  /** A bound on the steps left in the current call (or shutdown) if no wait wakes spuriously. */
  function Measure(c: Control, lens: seq<nat>): nat {
    MainRank(c, lens) + WorkersRank(c.workers, c.generation, lens) + StripesLeft(c, lens)
  }

  lemma {:induction false} RankUpdate(ws: seq<Worker>, g: nat, lens: seq<nat>, i: nat, w: Worker)
    requires i < |ws|
    ensures WorkersRank(ws[i := w], g, lens) + WorkerRank(ws[i], g, lens)
         == WorkersRank(ws, g, lens) + WorkerRank(w, g, lens)
  {
    var n := |ws| - 1;
    if i == n {
      assert ws[i := w][..n] == ws[..n];
    } else {
      RankUpdate(ws[..n], g, lens, i, w);
      assert ws[i := w][..n] == ws[..n][i := w];
    }
  }

  /** Changing every worker raises the total by at most `most` each. */
  lemma {:induction false} RankRaise(ws: seq<Worker>, vs: seq<Worker>, g: nat, h: nat, lens: seq<nat>, most: nat)
    requires |ws| == |vs|
    requires forall i | 0 <= i < |ws| :: WorkerRank(vs[i], h, lens) <= WorkerRank(ws[i], g, lens) + most
    ensures WorkersRank(vs, h, lens) <= WorkersRank(ws, g, lens) + most * |ws|
  {
    if ws != [] {
      RankRaise(ws[..|ws| - 1], vs[..|ws| - 1], g, h, lens, most);
      assert most * |ws| == most * (|ws| - 1) + most;
    }
  }

  /** The cursor of every thread is inside its stripe. */
  ghost predicate CursorsFit(c: Control, lens: seq<nat>) {
    && |lens| == STRIPES
    && forall t: nat | t <= |c.workers| && Executing(c, t).Some? ::
         Executing(c, t).value.0 < STRIPES && Executing(c, t).value.1 <= lens[Executing(c, t).value.0]
  }

  predicate MoreBy(c: Control, lens: seq<nat>, t: nat)
    requires t <= |c.workers| && |lens| == STRIPES
  {
    match Executing(c, t)
    case Some((b, k)) => b < STRIPES && k < lens[b]
    case None => false
  }

  function StripesLeft(c: Control, lens: seq<nat>): nat { if Running(c) then Unclaimed(lens, c.next) else 0 }

  lemma PublishDescends(c: Control, lens: seq<nat>)
    requires PhaseInv(c) && |lens| == STRIPES && c.main.Publish?
    ensures Measure(MainControl(c, false), lens) < Measure(c, lens)
  {
    var d := MainControl(c, false);
    forall i | 0 <= i < |c.workers|
      ensures WorkerRank(d.workers[i], d.generation, lens) <= WorkerRank(c.workers[i], c.generation, lens) + 10
    {
      assert WorkerInv(c, c.workers[i]);
    }
    RankRaise(c.workers, d.workers, c.generation, d.generation, lens, 10);
    assert StripesLeft(d, lens) == Unclaimed(lens, 0);
  }

  lemma StopDescends(c: Control, lens: seq<nat>)
    requires PhaseInv(c) && c.main.Stop?
    ensures Measure(MainControl(c, false), lens) < Measure(c, lens)
  {
    var d := MainControl(c, false);
    forall i | 0 <= i < |c.workers|
      ensures WorkerRank(d.workers[i], d.generation, lens) <= WorkerRank(c.workers[i], c.generation, lens) + 2
    {
      assert WorkerInv(c, c.workers[i]);
    }
    RankRaise(c.workers, d.workers, c.generation, d.generation, lens, 2);
  }

  /** Every other step of the caller leaves the workers alone. */
  lemma MainPays(c: Control, lens: seq<nat>)
    requires MainInv(c) && CursorsFit(c, lens) && MainCanStep(c) && !c.main.Publish? && !c.main.Stop?
    ensures var d := MainControl(c, MoreBy(c, lens, 0));
            && d.workers == c.workers && d.generation == c.generation
            && MainRank(d, lens) + StripesLeft(d, lens) < MainRank(c, lens) + StripesLeft(c, lens)
  {
    match c.main
    case Exec(b, k) => assert Executing(c, 0) == Some((b, k));
    case Claim => assert Unclaimed(lens, c.next) == if c.next >= STRIPES then 0 else lens[c.next] + 3 + Unclaimed(lens, c.next + 1);
    case WaitTest => assert Unclaimed(lens, c.next) == 0;
    case _ =>
  }

  lemma MainDescends(c: Control, lens: seq<nat>)
    requires PhaseInv(c) && CursorsFit(c, lens) && MainCanStep(c)
    ensures Measure(MainControl(c, MoreBy(c, lens, 0)), lens) < Measure(c, lens)
  {
    if c.main.Publish? {
      PublishDescends(c, lens);
    } else if c.main.Stop? {
      StopDescends(c, lens);
    } else {
      MainPays(c, lens);
    }
  }

  /** The stepping worker pays for the stripe it claims and for the caller it wakes. */
  lemma WorkerPays(c: Control, lens: seq<nat>, i: nat)
    requires CursorsFit(c, lens) && i < |c.workers| && WorkerInv(c, c.workers[i]) && WorkerCanStep(c, i)
    ensures var d := WorkerControl(c, i, MoreBy(c, lens, i + 1));
            WorkerRank(d.workers[i], c.generation, lens) + MainRank(d, lens) + StripesLeft(d, lens)
              < WorkerRank(c.workers[i], c.generation, lens) + MainRank(c, lens) + StripesLeft(c, lens)
  {
    var d := WorkerControl(c, i, MoreBy(c, lens, i + 1));
    assert Running(d) == Running(c);
    match c.workers[i].pc
    case WExec(b, k) => assert Executing(c, i + 1) == Some((b, k));
    case WClaim => assert Running(c);
    case _ =>
  }

  lemma WorkerDescends(c: Control, lens: seq<nat>, i: nat)
    requires PhaseInv(c) && CursorsFit(c, lens) && i < |c.workers| && WorkerCanStep(c, i)
    ensures Measure(WorkerControl(c, i, MoreBy(c, lens, i + 1)), lens) < Measure(c, lens)
  {
    assert WorkerInv(c, c.workers[i]);
    WorkerPays(c, lens, i);
    RankUpdate(c.workers, c.generation, lens, i, WorkerNext(c, i, MoreBy(c, lens, i + 1)));
  }

  function Lengths<A, C>(job: Job<A, C>): (r: seq<nat>)
    ensures |r| == |job.ops| && forall b | 0 <= b < |r| :: r[b] == |job.ops[b]|
  {
    seq(|job.ops|, b requires 0 <= b < |job.ops| => |job.ops[b]|)
  }

  ghost function Left<A, C>(s: State<A, C>): nat { Measure(s.ctl, Lengths(s.job)) }

  lemma CursorsFitNow<A(!new), C(!new)>(s: State<A, C>)
    requires Inv(s)
    ensures CursorsFit(s.ctl, Lengths(s.job))
  {
    var c := s.ctl;
    forall t: nat | t <= |c.workers| && Executing(c, t).Some?
      ensures Executing(c, t).value.0 < STRIPES
           && Executing(c, t).value.1 <= Lengths(s.job)[Executing(c, t).value.0]
    {
      if t > 0 {
        assert WorkerInv(c, c.workers[t - 1]);
      }
    }
  }

  lemma MoveDescends<A(!new), C(!new)>(s: State<A, C>, e: Event<A, C>)
    requires Inv(s) && Allowed(s, e) && (e.MainMoves? || e.WorkerMoves?)
    ensures Left(After(s, e)) < Left(s)
  {
    CursorsFitNow(s);
    var c, lens := s.ctl, Lengths(s.job);
    assert After(s, e).job == s.job;
    match e
    case MainMoves =>
      assert More(s, 0) == MoreBy(c, lens, 0);
      MainDescends(c, lens);
    case WorkerMoves(i) =>
      assert More(s, i + 1) == MoreBy(c, lens, i + 1);
      WorkerDescends(c, lens, i);
  }

  lemma WorkerWakeRaises(c: Control, lens: seq<nat>, i: nat)
    requires i < |c.workers| && WorkerInv(c, c.workers[i]) && c.workers[i].pc.WAsleep?
    ensures Measure(WakeOne(c, i), lens) == Measure(c, lens) + 2
  {
    RankUpdate(c.workers, c.generation, lens, i, Wake(c.workers[i]));
  }

  lemma WakeRaises<A(!new), C(!new)>(s: State<A, C>, e: Event<A, C>)
    requires Inv(s) && Allowed(s, e) && (e.MainWakes? || e.WorkerWakes?)
    ensures Left(After(s, e)) == Left(s) + 2
  {
    match e
    case WorkerWakes(i) => WorkerWakeRaises(s.ctl, Lengths(s.job), i);
    case MainWakes =>
  }

  function Moves<A, C>(events: seq<Event<A, C>>): nat {
    if events == [] then 0
    else Moves(events[..|events| - 1]) + (if events[|events| - 1].MainMoves? || events[|events| - 1].WorkerMoves? then 1 else 0)
  }

  function Wakes<A, C>(events: seq<Event<A, C>>): nat {
    if events == [] then 0
    else Wakes(events[..|events| - 1]) + (if events[|events| - 1].MainWakes? || events[|events| - 1].WorkerWakes? then 1 else 0)
  }

  /** The states that follow `s` while the caller stays inside the pool. */
  ghost predicate Follows<A(!new), C(!new)>(s: State<A, C>, events: seq<Event<A, C>>, last: State<A, C>)
    decreases |events|
  {
    if events == [] then last == s
    else exists before ::
      && Follows(s, events[..|events| - 1], before)
      && Sized(before) && Allowed(before, events[|events| - 1]) && !ByCaller(events[|events| - 1])
      && last == After(before, events[|events| - 1])
  }

  /** However the threads are scheduled, a call or a shutdown takes at most as many steps as the bound
      at its start, plus two for every spurious wake-up. */
  lemma {:induction false} CallsEnd<A(!new), C(!new)>(s: State<A, C>, events: seq<Event<A, C>>, last: State<A, C>)
    requires Inv(s) && Follows(s, events, last)
    ensures Inv(last)
    ensures Moves(events) + Left(last) <= Left(s) + 2 * Wakes(events)
    decreases |events|
  {
    if events != [] {
      var e := events[|events| - 1];
      var before :| Follows(s, events[..|events| - 1], before)
        && Sized(before) && Allowed(before, e) && !ByCaller(e) && last == After(before, e);
      CallsEnd(s, events[..|events| - 1], before);
      StepKeepsInv(before, e);
      if e.MainMoves? || e.WorkerMoves? {
        MoveDescends(before, e);
      } else {
        WakeRaises(before, e);
      }
    }
  }

  lemma HolderExists(c: Control)
    requires LockInv(c)
    ensures c.lock.None? || exists t: nat :: t <= |c.workers| && Holds(c, t)
  {
    if c.lock.Some? {
      assert Holds(c, c.lock.value);
    }
  }

  /** After ggfe_pool_stop every worker has returned and nobody is left holding the lock. */
  lemma StopJoinsAll<A(!new), C(!new)>(s: State<A, C>)
    requires Inv(s) && s.ctl.main.Stopped?
    ensures forall i | 0 <= i < |s.ctl.workers| :: s.ctl.workers[i].pc.WReturned?
    ensures s.ctl.lock.None?
  {
    HolderExists(s.ctl);
  }
}
