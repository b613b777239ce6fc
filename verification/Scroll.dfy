/** The carousel's motion: two models, one queued press, logical positions over a cyclic library. */
module Scroll {
  import opened Arithmetic
  import opened Carousel
  import opened LabelCache

  datatype Model = Snap | Gallery

  /** The fields of ggfe_scroll_state. */
  datatype View = View(model: Model, duration: int, target: int, from: real, to: int, active: bool,
                       pendingTarget: int, pendingTo: int, pendingActive: bool, start: int)

  // ---------- easing ----------

  function Lerp(a: real, b: real, k: real): real { a + (b - a) * k }

  function EaseInOut(k: real): real { 3.0 * k * k - 2.0 * k * k * k }

  function EaseBack(k: real): real {
    var d := k - 1.0;
    1.0 + 1.9 * d * d * d + 0.9 * d * d
  }

  function Ease(m: Model, k: real): real { if m.Snap? then EaseBack(k) else EaseInOut(k) }

  lemma SmoothstepInUnit(k: real)
    requires 0.0 <= k <= 1.0
    ensures 0.0 <= EaseInOut(k) <= 1.0
  {
    var j := 1.0 - k;
    assert EaseInOut(k) == k * k * (1.0 + 2.0 * j);
    assert 1.0 - EaseInOut(k) == j * j * (1.0 + 2.0 * k);
    Product(k * k, 1.0 + 2.0 * j);
    Product(j * j, 1.0 + 2.0 * k);
  }

  lemma Product(a: real, b: real)
    requires a >= 0.0 && b >= 0.0
    ensures a * b >= 0.0
  {}

  /** The settle overshoot is at most three hundredths of the way. */
  lemma OvershootBound(k: real)
    requires 0.0 <= k <= 1.0
    ensures 0.0 <= EaseBack(k) <= 1.03
  {
    var e := 1.0 - k;
    Cubic(e);
    var d := k - 1.0;
    assert 1.9 * d * d * d == -(1.9 * e * e * e) && 0.9 * d * d == 0.9 * e * e;
  }

  lemma Cubic(e: real)
    requires 0.0 <= e <= 1.0
    ensures 0.0 <= 1.0 - 1.9 * e * e * e + 0.9 * e * e <= 1.03
  {
    // the lower bound: the value factors as (1 - e)(1.9 e^2 + e + 1)
    Product(1.0 - e, 1.9 * e * e + e + 1.0);
    assert (1.0 - e) * (1.9 * e * e + e + 1.0) == 1.0 - 1.9 * e * e * e + 0.9 * e * e;
    // the upper bound: what is left is (19 e - 6)^2 (19 e + 3) / 3610 and a positive rest
    var q := 19.0 * e - 6.0;
    Product(q * q, 19.0 * e + 3.0);
    assert q * q * (19.0 * e + 3.0) == 6859.0 * e * e * e - 3249.0 * e * e + 108.0;
  }

  lemma EaseBounds(m: Model, k: real)
    requires 0.0 <= k <= 1.0
    ensures 0.0 <= Ease(m, k) <= 1.03
    ensures m.Gallery? ==> Ease(m, k) <= 1.0
  {
    if m.Snap? {
      OvershootBound(k);
    } else {
      SmoothstepInUnit(k);
    }
  }

  // ---------- the two operations, as functions of the fields ----------

  /** The state after the position is asked for at `now`, and the position. */
  function Positioned(v: View, now: int): (View, real) {
    if !v.active then (v, v.target as real)
    else if now - v.start >= v.duration then
      if v.model.Gallery? && v.pendingActive then
        (v.(pendingActive := false, from := v.to as real, target := v.pendingTarget, to := v.pendingTo, start := now),
         v.to as real)
      else (v.(active := false, from := v.target as real, to := v.target), v.target as real)
    else if now - v.start <= 0 then (v, v.from)
    else
      (v, Lerp(v.from, v.to as real, Ease(v.model, (now - v.start) as real / v.duration as real)))
  }

  /** The request changes nothing. */
  predicate Ignored(delta: int, count: int) { delta == 0 || count <= 1 || Rem(delta, count) == 0 }

  function Requested(v: View, delta: int, now: int, count: int): View {
    if Ignored(delta, count) then v else
      var d := Rem(delta, count);
      if v.model.Snap? then
        var (w, p) := Positioned(v, now);
        w.(from := p, target := WrapIndex(w.target + d, count), to := w.to + d, start := now, active := true)
      else if v.active then
        v.(pendingTarget := WrapIndex(v.target + d, count), pendingTo := v.to + d, pendingActive := true)
      else
        v.(from := v.to as real, target := WrapIndex(v.target + d, count), to := v.to + d, start := now, active := true)
  }

  /** The motion row of the menu. */
  function Toggled(v: View): View {
    if v.model.Snap? then v.(model := Gallery, duration := 360) else v.(model := Snap, duration := 240)
  }

  /** The state in place. */
  class ScrollState {
    var model: Model
    var duration: int
    var target: int
    var from: real
    var to: int
    var active: bool
    var pendingTarget: int
    var pendingTo: int
    var pendingActive: bool
    var start: int

    constructor (model: Model, duration: int)
      ensures Fields() == View(model, duration, 0, 0.0, 0, false, 0, 0, false, 0)
    {
      this.model, this.duration := model, duration;
      target, from, to, active := 0, 0.0, 0, false;
      pendingTarget, pendingTo, pendingActive, start := 0, 0, false, 0;
    }

    ghost function Fields(): View
      reads this
    {
      View(model, duration, target, from, to, active, pendingTarget, pendingTo, pendingActive, start)
    }

    method Position(now: int) returns (pos: real)
      modifies this
      ensures (Fields(), pos) == Positioned(old(Fields()), now)
    {
      if !active {
        return target as real;
      }
      var elapsed := now - start;
      if elapsed >= duration {
        active := false;
        if model.Gallery? && pendingActive {
          var next := pendingTarget;
          pendingActive := false;
          from := to as real;
          target := next;
          to := pendingTo;
          start := now;
          active := true;
          return from;
        }
        from := target as real;
        to := target;
        return target as real;
      }
      if elapsed <= 0 {
        return from;
      }
      var progress := elapsed as real / duration as real;
      return Lerp(from, to as real, if model.Snap? then EaseBack(progress) else EaseInOut(progress));
    }

    /** A press: warm the labels around the new target, then start, re-aim or queue the move. */
    method RequestAt<T(0)>(labels: Labels<T>, delta: int, now: int, count: int)
      requires labels.Valid()
      modifies this, labels, labels.slots
      ensures labels.Valid()
      ensures Fields() == Requested(old(Fields()), delta, now, count)
      ensures !Ignored(delta, count) ==>
                labels.Warm(if model.Gallery? && old(active) then pendingTarget else target, count)
      ensures old(labels.loads) <= labels.loads <= old(labels.loads) + 9
    {
      hide Sound, Holds, Window;
      if delta == 0 || count <= 1 {
        return;
      }
      var d := Rem(delta, count);
      if d == 0 {
        return;
      }
      if model.Snap? {
        from := Position(now);
        target, to, start, active := WrapIndex(target + d, count), to + d, now, true;
        labels.WarmLabels(target, count);
        return;
      }
      var next := WrapIndex(target + d, count);
      var nextTo := to + d;
      labels.WarmLabels(next, count);
      if active {
        pendingTarget, pendingTo, pendingActive := next, nextTo, true;
        return;
      }
      from := to as real;
      target, to, start, active := next, nextTo, now, true;
    }
  }

  // ---------- what every run keeps ----------

  datatype Event = Request(delta: int, now: int) | Tick(now: int) | Toggle

  function Next(v: View, e: Event, count: int): View {
    match e
    case Request(delta, now) => Requested(v, delta, now, count)
    case Tick(now) => Positioned(v, now).0
    case Toggle => Toggled(v)
  }

  function Run(v: View, es: seq<Event>, count: int): View {
    if es == [] then v else Next(Run(v, es[..|es| - 1], count), es[|es| - 1], count)
  }

  predicate Start(v: View) { !v.active && !v.pendingActive && v.target == 0 && v.from == 0.0 && v.to == 0 }

  /** Valid target; `to` and a queued `to` on a turn of their targets; at rest all three agree. */
  predicate Consistent(v: View, count: int)
    requires count > 0
  {
    && 0 <= v.target < count && Congruent(v.to, v.target, count)
    && (v.pendingActive ==> 0 <= v.pendingTarget < count && Congruent(v.pendingTo, v.pendingTarget, count))
    && (!v.active ==> v.from == v.target as real && v.to == v.target)
  }

  lemma AimKeeps(to: int, target: int, d: int, count: int)
    requires count > 0 && Congruent(to, target, count)
    ensures 0 <= WrapIndex(target + d, count) < count
    ensures Congruent(to + d, WrapIndex(target + d, count), count)
  {
    CongruentShift(to, target, d, count);
    WrapCongruent(target + d, count);
  }

  lemma NextKeeps(v: View, e: Event, count: int)
    requires count > 0 && Consistent(v, count)
    ensures Consistent(Next(v, e, count), count)
  {
    match e
    case Request(delta, now) =>
      if !Ignored(delta, count) {
        var d := Rem(delta, count);
        var w := if v.model.Snap? then Positioned(v, now).0 else v;
        AimKeeps(w.to, w.target, d, count);
      }
    case _ =>
  }

  lemma {:induction false} RunKeeps(v: View, es: seq<Event>, count: int)
    requires count > 0 && Start(v)
    ensures Consistent(Run(v, es, count), count)
  {
    if es != [] {
      RunKeeps(v, es[..|es| - 1], count);
      NextKeeps(Run(v, es[..|es| - 1], count), es[|es| - 1], count);
    }
  }

  // ---------- snap ----------

  /** A press never makes the carousel jump, if and only if the move takes any time at all. */
  lemma SnapNeverJumps(v: View, delta: int, now: int, count: int)
    requires v.model.Snap? && count > 0 && Consistent(v, count) && !Ignored(delta, count)
    requires v.active ==> now >= v.start
    ensures Positioned(Requested(v, delta, now, count), now).1 == Positioned(v, now).1 <==> v.duration > 0
  {
    if v.duration <= 0 {
      var w, d := Positioned(v, now).0, Rem(delta, count);
      assert w.target == v.target && Positioned(v, now).1 == v.target as real;
      WrapIsMod(v.target + d, count);
      if WrapIndex(v.target + d, count) == v.target {
        ModDifference(v.target, d, count);
      }
    }
  }

  lemma ModDifference(a: int, d: int, n: int)
    requires 0 <= a < n && (a + d) % n == a && -n < d < n
    ensures d == 0
  {
    var q := (a + d) / n;
    assert a + d == n * q + a;
    SmallMultiple(n, q);
  }

  function SumOfDeltas(es: seq<Event>, count: int): int {
    if es == [] then 0
    else SumOfDeltas(es[..|es| - 1], count) + (if es[|es| - 1].Request? then es[|es| - 1].delta else 0)
  }

  lemma RemCongruent(a: int, n: int)
    requires n > 0
    ensures Congruent(Rem(a, n), a, n)
  {
    if a >= 0 {
      ModUnique(a % n, n, 0, a % n);
    } else {
      var q, r := (-a) / n, (-a) % n;
      assert a == n * -q - r;
      if r == 0 {
        ModUnique(a, n, -q, 0);
      } else {
        assert n * (-q - 1) == n * -q - n;
        ModUnique(a, n, -q - 1, n - r);
        ModUnique(-r, n, -1, n - r);
      }
    }
  }

  lemma CongruentSum(a: int, b: int, c: int, d: int, n: int)
    requires n > 0 && Congruent(a, b, n) && Congruent(c, d, n)
    ensures Congruent(a + c, b + d, n)
  {
    CongruentShift(a, b, c, n);
    CongruentShift(c, d, b, n);
  }

  /** In the snap model the target is where it was plus every press, however the presses overlap, from any state. */
  lemma {:induction false} SnapSumsPresses(v: View, es: seq<Event>, count: int)
    requires count > 1 && v.model.Snap?
    requires forall e | e in es :: !e.Toggle?
    ensures Run(v, es, count).model.Snap?
    ensures Congruent(Run(v, es, count).target, v.target + SumOfDeltas(es, count), count)
  {
    if es != [] {
      var before, e := es[..|es| - 1], es[|es| - 1];
      SnapSumsPresses(v, before, count);
      var w := Run(v, before, count);
      match e
      case Request(delta, now) =>
        RemCongruent(delta, count);
        CongruentSum(w.target, v.target + SumOfDeltas(before, count), Rem(delta, count), delta, count);
        WrapCongruent(w.target + Rem(delta, count), count);
      case Tick(_) =>
    }
  }

  // ---------- gallery ----------

  /** While a gallery move runs, the last press alone is queued, and it starts when the move ends. */
  lemma GalleryQueuesOne(v: View, delta: int, delta': int, now: int, now': int, end: int, count: int)
    requires v.model.Gallery? && v.active && count > 1 && !Ignored(delta, count) && !Ignored(delta', count)
    requires end - v.start >= v.duration
    ensures var q := Requested(Requested(v, delta, now, count), delta', now', count);
            && q == Requested(v, delta', now', count)
            && Positioned(q, end).0.target == WrapIndex(v.target + Rem(delta', count), count)
            && Positioned(q, end).1 == v.to as real && Positioned(q, end).0.active
  {}

  /** Nothing is queued unless a gallery move is running to consume it. */
  predicate QueueIsLive(v: View) { v.pendingActive ==> v.active && v.model.Gallery? }

  /** Presses and frames keep it; a switch of the model keeps it exactly when nothing is queued, so a
      press queued before a switch can fire after an unrelated later move. */
  lemma QueueStaysLive(v: View, e: Event, count: int)
    requires QueueIsLive(v)
    ensures QueueIsLive(Next(v, e, count)) <==> !(e.Toggle? && v.pendingActive)
  {}

  /** Such a run: entry 1 is reached with a press of five still queued, the model is switched and switched
      back, and one more press goes to entry 2 and then on to the stale entry 6. */
  lemma StaleQueueFires(v: View)
    requires Start(v) && v.model.Gallery? && v.duration == 360
    ensures var es := [Request(1, 0), Request(5, 10), Toggle, Tick(1000), Toggle, Request(1, 2000), Tick(3000), Tick(4000)];
            Run(v, es, 10).target == 6 && !Run(v, es, 10).active
  {
    var v1 := v.(from := 0.0, target := 1, to := 1, start := 0, active := true);
    var v2 := v1.(pendingTarget := 6, pendingTo := 6, pendingActive := true);
    var v4 := v2.(model := Snap, duration := 240, active := false, from := 1.0, to := 1);
    var v5 := v4.(model := Gallery, duration := 360);
    var v6 := v5.(from := 1.0, target := 2, to := 2, start := 2000, active := true);
    var v7 := v6.(pendingActive := false, from := 2.0, target := 6, to := 6, start := 3000);
    var v8 := v7.(active := false, from := 6.0);
    var e1 := [Request(1, 0)];
    var e2, e3, e4 := e1 + [Request(5, 10)], e1 + [Request(5, 10)] + [Toggle], e1 + [Request(5, 10)] + [Toggle] + [Tick(1000)];
    var e5 := e4 + [Toggle];
    var e6 := e5 + [Request(1, 2000)];
    var e7 := e6 + [Tick(3000)];
    RunSnoc(v, [], Request(1, 0), v, v1, 10);
    RunSnoc(v, e1, Request(5, 10), v1, v2, 10);
    RunSnoc(v, e2, Toggle, v2, Toggled(v2), 10);
    RunSnoc(v, e3, Tick(1000), Toggled(v2), v4, 10);
    RunSnoc(v, e4, Toggle, v4, v5, 10);
    RunSnoc(v, e5, Request(1, 2000), v5, v6, 10);
    RunSnoc(v, e6, Tick(3000), v6, v7, 10);
    RunSnoc(v, e7, Tick(4000), v7, v8, 10);
    assert e7 + [Tick(4000)]
        == [Request(1, 0), Request(5, 10), Toggle, Tick(1000), Toggle, Request(1, 2000), Tick(3000), Tick(4000)];
  }

  lemma RunSnoc(v: View, es: seq<Event>, e: Event, w: View, r: View, count: int)
    requires Run(v, es, count) == w && Next(w, e, count) == r
    ensures Run(v, es + [e], count) == r
  {
    assert (es + [e])[..|es|] == es;
  }

  // ---------- one slot from rest ----------

  /** At most a slot short of `to` on one side, and at most 0.03 past it. */
  predicate Near(pos: real, to: int) {
    to as real - 1.0 <= pos <= to as real + 0.03 || to as real - 0.03 <= pos <= to as real + 1.0
  }

  lemma FractionBounds(a: int, b: int)
    requires 0 < a < b
    ensures 0.0 <= a as real / b as real <= 1.0
  {}

  lemma LerpOneSlot(a: real, to: int, k: real, m: Model)
    requires a == to as real + 1.0 || a == to as real - 1.0
    requires 0.0 <= k <= 1.0
    ensures Near(Lerp(a, to as real, Ease(m, k)), to)
  {
    EaseBounds(m, k);
    var b, e := to as real, Ease(m, k);
    assert (b - a) * e == e || (b - a) * e == -e;
  }

  /** The move a press of one slot starts: from rest at a neighbour of `to`, towards it. */
  predicate OneSlot(r: View, count: int)
    requires count > 0
  {
    && Congruent(r.to, r.target, count) && !r.pendingActive
    && if r.active then r.from == r.to as real + 1.0 || r.from == r.to as real - 1.0
       else r.to == r.target && r.from == r.target as real
  }

  lemma RemOne(delta: int, count: int)
    requires count > 1 && (delta == 1 || delta == -1)
    ensures Rem(delta, count) == delta
  {
    ModUnique(1, count, 0, 1);
  }

  lemma PressStartsOneSlot(v: View, delta: int, now: int, count: int)
    requires count > 1 && Consistent(v, count) && QueueIsLive(v) && !v.active && (delta == 1 || delta == -1)
    ensures var r := Requested(v, delta, now, count);
            OneSlot(r, count) && r.active && r.start == now && r.target == WrapIndex(v.target + delta, count)
  {
    RemOne(delta, count);
    hide Rem, WrapIndex;
    AimKeeps(v.to, v.target, delta, count);
  }

  /** Every later frame of the move is near its end, and stays in the same move. */
  lemma OneSlotFrame(r: View, now: int, count: int)
    requires count > 0 && OneSlot(r, count)
    ensures var (w, pos) := Positioned(r, now);
            && OneSlot(w, count) && w.target == r.target && (Near(pos, r.to) || Near(pos, r.target))
  {
    if r.active && 0 < now - r.start < r.duration {
      FractionBounds(now - r.start, r.duration);
      LerpOneSlot(r.from, r.to, (now - r.start) as real / r.duration as real, r.model);
    }
  }

  /** So in either model everything in view is among the nine entries warmed at the press. */
  lemma OneSlotStaysWarm(r: View, now: int, count: int, i: int)
    requires count > 0 && OneSlot(r, count) && InView(i, Positioned(r, now).1, count)
    ensures i in Window(r.target - 4, 9, count)
  {
    OneSlotFrame(r, now, count);
    var pos := Positioned(r, now).1;
    if Near(pos, r.to) {
      WarmCoversMove(r.target, r.to, pos, count, i);
    } else {
      WarmCoversMove(r.target, r.target, pos, count, i);
    }
  }

  /** A frame after such a press, which has warmed the labels, builds none. */
  method MoveFrame<T(0)>(s: ScrollState, labels: Labels<T>, now: int, count: int, shown: int -> bool)
    requires labels.Valid() && count > 0 && OneSlot(s.Fields(), count) && labels.Warm(s.target, count)
    modifies s, labels, labels.slots
    ensures labels.Valid() && labels.loads == old(labels.loads)
    ensures OneSlot(s.Fields(), count) && s.target == old(s.target) && labels.Warm(s.target, count)
  {
    hide Positioned, OneSlot, InView, Window, Sound, Holds;
    OneSlotFrame(s.Fields(), now, count);
    forall e | InView(e, Positioned(s.Fields(), now).1, count) ensures e in Window(s.target - 4, 9, count) {
      OneSlotStaysWarm(s.Fields(), now, count, e);
    }
    var pos := s.Position(now);
    var _ := labels.Compose(pos, count, shown);
  }

  /** Nor do all of them together, whatever the frame times and whichever entries are transparent. */
  method MoveFrames<T(0)>(s: ScrollState, labels: Labels<T>, times: seq<int>, count: int, shown: int -> bool)
    requires labels.Valid() && count > 0 && OneSlot(s.Fields(), count) && labels.Warm(s.target, count)
    modifies s, labels, labels.slots
    ensures labels.Valid() && labels.loads == old(labels.loads) && s.target == old(s.target) && labels.Warm(s.target, count)
  {
    for i := 0 to |times|
      invariant OneSlot(s.Fields(), count) && s.target == old(s.target)
      invariant labels.Valid() && labels.Warm(s.target, count) && labels.loads == old(labels.loads)
    {
      MoveFrame(s, labels, times[i], count, shown);
    }
  }

  /** A press of one from rest and all the frames of its move: the press loads at most the nine labels around its target,
      the frames load none. */
  method PressAndMove<T(0)>(s: ScrollState, labels: Labels<T>, delta: int, now: int, times: seq<int>, count: int, shown: int -> bool)
    returns (pressed: nat)
    requires labels.Valid() && count > 1 && Consistent(s.Fields(), count) && QueueIsLive(s.Fields()) && !s.active
    requires delta == 1 || delta == -1
    modifies s, labels, labels.slots
    ensures labels.Valid() && s.target == WrapIndex(old(s.target) + delta, count) && labels.Warm(s.target, count)
    ensures old(labels.loads) <= pressed <= old(labels.loads) + 9 && labels.loads == pressed
  {
    hide Requested, OneSlot, Consistent, QueueIsLive, Sound, Window, WrapIndex, Ignored;
    PressStartsOneSlot(s.Fields(), delta, now, count);
    NotIgnored(delta, count);
    s.RequestAt(labels, delta, now, count);
    pressed := labels.loads;
    MoveFrames(s, labels, times, count, shown);
  }

  lemma NotIgnored(delta: int, count: int)
    requires count > 1 && (delta == 1 || delta == -1)
    ensures !Ignored(delta, count)
  {
    RemOne(delta, count);
  }
}
