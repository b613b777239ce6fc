/** The three per-stripe jobs of a frame, and why splitting the frame into stripes changes nothing. */
module StripeJobs {
  import opened Raster
  import opened RasterBand
  import opened Pool
  import opened PoolSafety
  import PoolResults

  // ---------- the stripes tile the frame ----------

  /** First row of a stripe. */
  function StripeTop(height: nat, stripe: nat): nat { height * stripe / STRIPES }

  predicate InStripe(height: nat, stripe: nat, y: int) {
    StripeTop(height, stripe) <= y < StripeTop(height, stripe + 1)
  }

  /** The stripe a row belongs to; rows outside the frame belong to none. */
  function StripeOf(height: nat, y: int): nat {
    if 0 <= y < height then (STRIPES * y + STRIPES - 1) / height else STRIPES
  }

  /** For every height each row of the frame lies in exactly one stripe, and no other row in any. */
  lemma StripesTile(height: nat, stripe: nat, y: int)
    requires stripe < STRIPES
    ensures InStripe(height, stripe, y) <==> StripeOf(height, y) == stripe
    ensures InStripe(height, stripe, y) <==> height * stripe / 24 <= y < height * (stripe + 1) / 24
    ensures 0 <= y < height ==> StripeOf(height, y) < STRIPES
  {
    StripeRows(height, stripe, y);
    StripeEnds(height, stripe, y);
    hide InStripe;
  }

  lemma StripeRows(height: nat, stripe: nat, y: int)
    ensures InStripe(height, stripe, y) <==> height * stripe / 24 <= y < height * (stripe + 1) / 24
  {}

  lemma StripeEnds(height: nat, stripe: nat, y: int)
    requires stripe < STRIPES
    ensures InStripe(height, stripe, y) <==> StripeOf(height, y) == stripe
    ensures 0 <= y < height ==> StripeOf(height, y) < STRIPES
  {
    hide StripeTop;
    TopIs(height, stripe);
    var q := stripe * height;
    RowBounds(q, height, y);
    if 0 <= y < height {
      FindStripe(height, stripe, STRIPES * y + STRIPES - 1);
    } else if y >= height {
      Scale(stripe + 1, STRIPES, height);
      assert (stripe + 1) * height == q + height;
    }
  }

  lemma TopIs(height: nat, stripe: nat)
    ensures StripeTop(height, stripe) == stripe * height / STRIPES
    ensures StripeTop(height, stripe + 1) == (stripe * height + height) / STRIPES
  {
    assert height * stripe == stripe * height;
    assert height * (stripe + 1) == stripe * height + height;
  }

  lemma FindStripe(height: nat, stripe: nat, n: nat)
    requires n < STRIPES * height
    ensures stripe * height <= n < stripe * height + height <==> n / height == stripe
    ensures n / height < STRIPES
  {
    Quotient(n, height, stripe);
    Quotient(n, height, n / height);
    if n / height >= STRIPES {
      Scale(STRIPES, n / height, height);
    }
  }

  /** The stripe starting at q/24 ends at (q + h)/24. */
  lemma RowBounds(q: nat, h: nat, y: int)
    ensures q / STRIPES <= y < (q + h) / STRIPES <==> q <= STRIPES * y + STRIPES - 1 < q + h
  {}

  lemma Quotient(n: nat, h: nat, q: nat)
    requires h > 0
    ensures q * h <= n < q * h + h <==> n / h == q
  {
    var s := n / h;
    assert n == s * h + n % h;
    if s < q {
      Scale(s + 1, q, h);
      assert (s + 1) * h == s * h + h;
    } else if q < s {
      Scale(q + 1, s, h);
      assert (q + 1) * h == q * h + h;
    }
  }

  lemma Scale(a: nat, b: nat, h: nat)
    requires a <= b
    ensures a * h <= b * h
  {}

  lemma TopBound(height: nat, stripe: nat)
    requires stripe < STRIPES
    ensures 0 <= StripeTop(height, stripe) <= StripeTop(height, stripe + 1) <= height
  {
    Scale(stripe, stripe + 1, height);
    Scale(stripe + 1, STRIPES, height);
    assert height * stripe == stripe * height && height * (stripe + 1) == (stripe + 1) * height;
  }

  // ---------- jobs as operations on cells ----------

  /** A frame pixel with the panel word it is finally converted to. */
  datatype Cell = Cell(px: Pixel, panel: int)
  type At = (int, int)
  const BLANK := Cell(Pixel(Rgb(0, 0, 0), 0.0), 0)

  /** One sweep of a job over the frame: what it does to the cell of row y, column x. */
  type Pass = (int, int, Cell) -> Cell

  function RowOps(p: Pass, y: int, x: nat, width: nat): seq<Op<At, Cell>>
    decreases width - x
  {
    if x >= width then []
    else [Op((y, x), (c: Cell) => p(y, x, c))] + RowOps(p, y, x + 1, width)
  }

  function BandOps(p: Pass, y0: int, y1: int, width: nat): seq<Op<At, Cell>>
    decreases y1 - y0
  {
    if y0 >= y1 then [] else RowOps(p, y0, 0, width) + BandOps(p, y0 + 1, y1, width)
  }

  /** The sweeps in order over one band of rows. */
  function SweepOps(ps: seq<Pass>, y0: int, y1: int, width: nat): seq<Op<At, Cell>> {
    if ps == [] then [] else BandOps(ps[0], y0, y1, width) + SweepOps(ps[1..], y0, y1, width)
  }

  /** The job every thread runs, clipped to the stripe it has claimed. */
  function FrameJob(ps: seq<Pass>, width: nat, height: nat): (job: Job<At, Cell>) {
    Job(seq(STRIPES, b requires 0 <= b < STRIPES =>
              SweepOps(ps, StripeTop(height, b), StripeTop(height, b + 1), width)),
        (at: At) => StripeOf(height, at.0))
  }

  /** All sweeps on one cell. */
  function Swept(ps: seq<Pass>, y: int, x: int, c: Cell): Cell {
    if ps == [] then c else Swept(ps[1..], y, x, ps[0](y, x, c))
  }

  ghost predicate InRows(ops: seq<Op<At, Cell>>, y0: int, y1: int, width: nat) {
    forall op | op in ops :: y0 <= op.at.0 < y1 && 0 <= op.at.1 < width
  }

  lemma RunNone(at: At, c: Cell)
    ensures Run<At, Cell>([], at, c) == c
  {}

  lemma RunOne(op: Op<At, Cell>, at: At, c: Cell)
    ensures Run([op], at, c) == if op.at == at then op.step(c) else c
  {
    assert [op][..0] == [];
  }

  lemma {:induction false} RowOpsInRow(p: Pass, y: int, x: nat, width: nat)
    ensures InRows(RowOps(p, y, x, width), y, y + 1, width)
    decreases width - x
  {
    if x < width {
      RowOpsInRow(p, y, x + 1, width);
    }
  }

  lemma {:induction false} RowOpsRun(p: Pass, y: int, x: nat, width: nat, i: int, j: int, c: Cell)
    ensures InRows(RowOps(p, y, x, width), y, y + 1, width)
    ensures Run(RowOps(p, y, x, width), (i, j), c) == if i == y && x <= j < width then p(i, j, c) else c
    decreases width - x
  {
    hide Run, InRows;
    RowOpsInRow(p, y, x, width);
    if x >= width {
      RunNone((i, j), c);
    } else {
      var first := [Op((y, x), (c: Cell) => p(y, x, c))];
      var c1 := if i == y && j == x then p(i, j, c) else c;
      RunOne(first[0], (i, j), c);
      RowOpsRun(p, y, x + 1, width, i, j, c1);
      PoolResults.RunConcat(first, RowOps(p, y, x + 1, width), (i, j), c);
    }
  }

  lemma {:induction false} BandOpsRun(p: Pass, y0: int, y1: int, width: nat, i: int, j: int, c: Cell)
    ensures InRows(BandOps(p, y0, y1, width), y0, y1, width)
    ensures Run(BandOps(p, y0, y1, width), (i, j), c)
         == if y0 <= i < y1 && 0 <= j < width then p(i, j, c) else c
    decreases y1 - y0
  {
    if y0 < y1 {
      RowOpsRun(p, y0, 0, width, i, j, c);
      var c1 := Run(RowOps(p, y0, 0, width), (i, j), c);
      BandOpsRun(p, y0 + 1, y1, width, i, j, c1);
      PoolResults.RunConcat(RowOps(p, y0, 0, width), BandOps(p, y0 + 1, y1, width), (i, j), c);
    }
  }

  lemma {:induction false} SweepOpsRun(ps: seq<Pass>, y0: int, y1: int, width: nat, i: int, j: int, c: Cell)
    ensures InRows(SweepOps(ps, y0, y1, width), y0, y1, width)
    ensures Run(SweepOps(ps, y0, y1, width), (i, j), c)
         == if y0 <= i < y1 && 0 <= j < width then Swept(ps, i, j, c) else c
  {
    if ps != [] {
      BandOpsRun(ps[0], y0, y1, width, i, j, c);
      var c1 := Run(BandOps(ps[0], y0, y1, width), (i, j), c);
      SweepOpsRun(ps[1..], y0, y1, width, i, j, c1);
      PoolResults.RunConcat(BandOps(ps[0], y0, y1, width), SweepOps(ps[1..], y0, y1, width), (i, j), c);
    }
  }

  /** The memory is the whole frame. */
  ghost predicate IsFrame(mem: map<At, Cell>, width: nat, height: nat) {
    forall y, x :: (y, x) in mem <==> 0 <= y < height && 0 <= x < width
  }

  /** No two stripes of a job touch the same cell, whatever the height. */
  lemma FrameJobWellFormed(ps: seq<Pass>, width: nat, height: nat, mem: map<At, Cell>)
    requires IsFrame(mem, width, height)
    ensures WellFormed(FrameJob(ps, width, height), mem)
  {
    var job := FrameJob(ps, width, height);
    forall b, i | 0 <= b < STRIPES && 0 <= i < |job.ops[b]|
      ensures job.ops[b][i].at in mem && job.owner(job.ops[b][i].at) == b
    {
      OwnCells(ps, width, height, b, job.ops[b][i]);
      var at := job.ops[b][i].at;
      assert at == (at.0, at.1);
    }
  }

  lemma OwnCells(ps: seq<Pass>, width: nat, height: nat, b: nat, op: Op<At, Cell>)
    requires b < STRIPES && op in SweepOps(ps, StripeTop(height, b), StripeTop(height, b + 1), width)
    ensures StripeOf(height, op.at.0) == b && 0 <= op.at.0 < height && 0 <= op.at.1 < width
  {
    SweepOpsRun(ps, StripeTop(height, b), StripeTop(height, b + 1), width, 0, 0, BLANK);
    TopBound(height, b);
    StripesTile(height, b, op.at.0);
  }

  /** Done serially, stripe after stripe, a job is its sweeps on every cell of the frame. */
  lemma SerialJob(ps: seq<Pass>, width: nat, height: nat, mem: map<At, Cell>, y: int, x: int, c: Cell)
    requires IsFrame(mem, width, height) && (y, x) in mem
    ensures Run(Serial(FrameJob(ps, width, height)), (y, x), c) == Swept(ps, y, x, c)
  {
    var job, b := FrameJob(ps, width, height), StripeOf(height, y);
    FrameJobWellFormed(ps, width, height, mem);
    PoolResults.SerialIsOwnStripe(job, mem, (y, x), c);
    StripesTile(height, 0, y);
    assert job.owner((y, x)) == b < STRIPES;
    StripeOpsRun(ps, width, height, b, y, x, c);
  }

  /** What one stripe's operations do to a cell of its own. */
  lemma StripeOpsRun(ps: seq<Pass>, width: nat, height: nat, b: nat, y: int, x: int, c: Cell)
    requires b < STRIPES && StripeOf(height, y) == b && 0 <= x < width
    ensures Run(FrameJob(ps, width, height).ops[b], (y, x), c) == Swept(ps, y, x, c)
  {
    StripesTile(height, b, y);
    SweepOpsRun(ps, StripeTop(height, b), StripeTop(height, b + 1), width, y, x, c);
  }

  // ---------- the three jobs ----------

  function DrawPass(d: Draw, zwrite: bool): Pass {
    (y: int, x: int, c: Cell) => c.(px := Plot(d, zwrite, x, y, c.px))
  }

  function DrawPasses(ds: seq<Draw>, zwrite: bool): seq<Pass> {
    if ds == [] then [] else [DrawPass(ds[0], zwrite)] + DrawPasses(ds[1..], zwrite)
  }

  /** GGFE_JOB_RASTER: one sweep per draw. */
  function RasterJob(ds: seq<Draw>, zwrite: bool, width: nat, height: nat): Job<At, Cell> {
    FrameJob(DrawPasses(ds, zwrite), width, height)
  }

  /** GGFE_JOB_PREPARE: copy the background, clear the depth. */
  function PrepareJob(background: (int, int) -> Rgb, width: nat, height: nat): Job<At, Cell> {
    FrameJob([(y: int, x: int, c: Cell) => c.(px := Pixel(background(y, x), 0.0))], width, height)
  }

  /** GGFE_JOB_BLIT: convert to the panel's own pixel format. */
  function BlitJob(pack: Rgb -> int, bpp: nat, width: nat, height: nat): Job<At, Cell> {
    FrameJob([(y: int, x: int, c: Cell) => if bpp == 4 then c.(panel := pack(c.px.rgb)) else c], width, height)
  }

  lemma {:induction false} SweptDraws(ds: seq<Draw>, zwrite: bool, y: int, x: int, c: Cell)
    ensures Swept(DrawPasses(ds, zwrite), y, x, c) == c.(px := PlotAll(ds, zwrite, x, y, c.px))
  {
    if ds != [] {
      var ps := DrawPasses(ds, zwrite);
      assert ps[1..] == DrawPasses(ds[1..], zwrite);
      SweptDraws(ds[1..], zwrite, y, x, c.(px := Plot(ds[0], zwrite, x, y, c.px)));
    }
  }

  /** The memory of state i after the sweeps of a job, cell by cell. */
  ghost predicate SweptFrom(s: State<At, Cell>, was: State<At, Cell>, ps: seq<Pass>) {
    && was.mem.Keys == s.mem.Keys
    && forall y, x | (y, x) in s.mem :: s.mem[(y, x)] == Swept(ps, y, x, was.mem[(y, x)])
  }

  /** Whatever the schedule, when a call returns every cell is what the sweeps of its job make of it, once. */
  lemma ParallelSweeps(states: seq<State<At, Cell>>, events: seq<Event<At, Cell>>, k: nat, ps: seq<Pass>, width: nat, height: nat)
    returns (i: nat)
    requires IsRun(states, events) && k < |states| && states[k].ctl.main.Returned?
    requires states[k].job == FrameJob(ps, width, height) && IsFrame(states[k].mem, width, height)
    ensures PoolResults.CalledAt(states, events, i, k) && SweptFrom(states[k], states[i], ps)
  {
    PoolResults.ParallelEqualsSerial(states, events, k);
    i :| PoolResults.CalledAt(states, events, i, k)
              && states[k].mem.Keys == states[i].mem.Keys
              && forall c | c in states[k].mem ::
                   states[k].mem[c] == Run(Serial(states[i].job), c, states[i].mem[c]);
    forall y, x | (y, x) in states[k].mem
      ensures states[k].mem[(y, x)] == Swept(ps, y, x, states[i].mem[(y, x)])
    {
      SerialJob(ps, width, height, states[k].mem, y, x, states[i].mem[(y, x)]);
    }
  }

  /** When the call that rasterises a draw list returns, every pixel is what one thread plotting the whole
      list over the full height would have made it. */
  lemma ParallelRaster(states: seq<State<At, Cell>>, events: seq<Event<At, Cell>>, k: nat,
                       ds: seq<Draw>, zwrite: bool, width: nat, height: nat)
    requires IsRun(states, events) && k < |states| && states[k].ctl.main.Returned?
    requires states[k].job == RasterJob(ds, zwrite, width, height)
    requires IsFrame(states[k].mem, width, height)
    ensures exists i: nat :: PoolResults.CalledAt(states, events, i, k)
              && states[i].mem.Keys == states[k].mem.Keys
              && forall y, x | (y, x) in states[k].mem ::
                   states[k].mem[(y, x)] == states[i].mem[(y, x)].(px := PlotAll(ds, zwrite, x, y, states[i].mem[(y, x)].px))
  {
    var i := ParallelSweeps(states, events, k, DrawPasses(ds, zwrite), width, height);
    forall y, x | (y, x) in states[k].mem
      ensures states[k].mem[(y, x)] == states[i].mem[(y, x)].(px := PlotAll(ds, zwrite, x, y, states[i].mem[(y, x)].px))
    {
      SweptDraws(ds, zwrite, y, x, states[i].mem[(y, x)]);
    }
  }

  lemma SweptOnce(p: Pass, y: int, x: int, c: Cell)
    ensures Swept([p], y, x, c) == p(y, x, c)
  {
    assert [p][1..] == [];
  }

  /** When the call that prepares a frame returns, every pixel is background with its depth cleared. */
  lemma ParallelPrepare(states: seq<State<At, Cell>>, events: seq<Event<At, Cell>>, k: nat,
                        background: (int, int) -> Rgb, width: nat, height: nat)
    requires IsRun(states, events) && k < |states| && states[k].ctl.main.Returned?
    requires states[k].job == PrepareJob(background, width, height) && IsFrame(states[k].mem, width, height)
    ensures forall y, x | 0 <= y < height && 0 <= x < width :: states[k].mem[(y, x)].px == Pixel(background(y, x), 0.0)
  {
    var p: Pass := (y: int, x: int, c: Cell) => c.(px := Pixel(background(y, x), 0.0));
    var i := ParallelSweeps(states, events, k, [p], width, height);
    forall y, x | 0 <= y < height && 0 <= x < width ensures states[k].mem[(y, x)].px == Pixel(background(y, x), 0.0) {
      SweptOnce(p, y, x, states[i].mem[(y, x)]);
    }
  }

  /** When the call that converts a frame for a panel of four bytes a pixel returns, every panel word is the packed
      pixel of the frame as it was called; for other panels it changes nothing. */
  lemma ParallelBlit(states: seq<State<At, Cell>>, events: seq<Event<At, Cell>>, k: nat,
                     pack: Rgb -> int, bpp: nat, width: nat, height: nat)
    requires IsRun(states, events) && k < |states| && states[k].ctl.main.Returned?
    requires states[k].job == BlitJob(pack, bpp, width, height) && IsFrame(states[k].mem, width, height)
    ensures exists i: nat :: PoolResults.CalledAt(states, events, i, k) && states[i].mem.Keys == states[k].mem.Keys
              && forall y, x | (y, x) in states[k].mem ::
                   states[k].mem[(y, x)] == if bpp == 4 then states[i].mem[(y, x)].(panel := pack(states[i].mem[(y, x)].px.rgb))
                                            else states[i].mem[(y, x)]
  {
    var p: Pass := (y: int, x: int, c: Cell) => if bpp == 4 then c.(panel := pack(c.px.rgb)) else c;
    var i := ParallelSweeps(states, events, k, [p], width, height);
    forall y, x | (y, x) in states[k].mem
      ensures states[k].mem[(y, x)] == if bpp == 4 then states[i].mem[(y, x)].(panel := pack(states[i].mem[(y, x)].px.rgb))
                                       else states[i].mem[(y, x)]
    {
      SweptOnce(p, y, x, states[i].mem[(y, x)]);
    }
  }

  // ---------- no workers ----------

  /** ggfe_run_stripes on the calling thread alone, over the buffers in place. */
  method RunStripesAlone(t: Target, draws: seq<Draw>, zwrite: bool)
    requires t.Valid()
    requires forall d | d in draws :: Emitted(d)
    modifies t.rgb, t.depth
    ensures forall y, x | t.InFrame(y, x) :: t.At(y, x) == PlotAll(draws, zwrite, x, y, old(t.At(y, x)))
  {
    var next := 0;
    while true
      invariant 0 <= next <= STRIPES
      invariant forall y, x | t.InFrame(y, x) ::
                  t.At(y, x) == if StripeOf(t.height, y) < next then PlotAll(draws, zwrite, x, y, old(t.At(y, x)))
                                else old(t.At(y, x))
      decreases STRIPES - next
    {
      var stripe := next;
      next := next + 1;
      if stripe >= STRIPES {
        forall y | 0 <= y < t.height ensures StripeOf(t.height, y) < STRIPES {
          StripesTile(t.height, 0, y);
        }
        return;
      }
      forall y ensures InStripe(t.height, stripe, y) <==> StripeOf(t.height, y) == stripe {
        StripesTile(t.height, stripe, y);
      }
      TopBound(t.height, stripe);
      DrawListBand(t, draws, zwrite, StripeTop(t.height, stripe), StripeTop(t.height, stripe + 1));
    }
  }
}
