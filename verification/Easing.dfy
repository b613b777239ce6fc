/** The two curves of the carousel's motion, and what a move looks like from its first frame to its last. */
module Easing {
  import opened Arithmetic
  import opened Carousel
  import opened Scroll

  // ---------- the curves ----------

  /** How fast a curve can rise or fall: this many ways in one duration. */
  function Steepest(m: Model): real { if m.Snap? then 3.9 else 1.5 }

  /** Where the settling curve is highest, in part of the duration, and how high. */
  const PEAK_TIME := 13.0 / 19.0
  const PEAK := 1.0 + 54.0 / 1805.0

  lemma Ends(m: Model)
    ensures Ease(m, 0.0) == 0.0 && Ease(m, 1.0) == 1.0
  {}

  /** The gallery's curve looks the same from either end and is at rest at both. */
  lemma GalleryShape(k: real)
    requires 0.0 <= k <= 1.0
    ensures Ease(Gallery, k) + Ease(Gallery, 1.0 - k) == 1.0
    ensures 0.0 <= Ease(Gallery, k) <= 3.0 * k * k && 0.0 <= 1.0 - Ease(Gallery, k) <= 3.0 * (1.0 - k) * (1.0 - k)
  {
    var j := 1.0 - k;
    SmoothstepInUnit(k);
    assert EaseInOut(j) == 1.0 - EaseInOut(k);
    Product(k * k, k);
    Product(j * j, j);
    assert 3.0 * k * k - EaseInOut(k) == 2.0 * (k * k * k);
    assert 3.0 * j * j - EaseInOut(j) == 2.0 * (j * j * j);
  }

  /** The smoothstep's mean slope between two times. */
  function GalleryMean(j: real, k: real): real { 3.0 * (j + k) - 2.0 * (j * j + j * k + k * k) }

  /** The change between two times: the time times the mean slope. */
  lemma GallerySlope(j: real, k: real)
    ensures EaseInOut(k) - EaseInOut(j) == (k - j) * GalleryMean(j, k)
  {}

  lemma GalleryMeans(j: real, k: real)
    requires 0.0 <= j <= k <= 1.0
    ensures 0.0 <= GalleryMean(j, k) <= 1.5
  {
    // with a = j + k: 3a - 2a^2 + 2jk
    Product(j, k);
    Product(1.0 - j, 1.0 - k);
    var a := j + k;
    var m := 3.0 * (j + k) - 2.0 * (j * j + j * k + k * k);
    assert m == 3.0 * a - 2.0 * a * a + 2.0 * j * k;
    assert 4.0 * j * k == a * a - (k - j) * (k - j);
    Square(a - 1.0);
    Square(k - j);
    Lower(j, k);
  }

  lemma Lower(j: real, k: real)
    requires 0.0 <= j <= k <= 1.0
    ensures 0.0 <= 3.0 * (j + k) - 2.0 * (j * j + j * k + k * k)
  {
    Product(j, 1.0 - j);
    Product(k, 1.0 - k);
    Product(j, 1.0 - k);
    Product(k, 1.0 - j);
    assert 3.0 * (j + k) - 2.0 * (j * j + j * k + k * k)
        == 2.0 * (j * (1.0 - j)) + 2.0 * (k * (1.0 - k)) + j * (1.0 - k) + k * (1.0 - j);
  }

  lemma Square(a: real)
    ensures a * a >= 0.0
  {}

  lemma SnapSlope(j: real, k: real)
    ensures EaseBack(k) - EaseBack(j) == (k - j) * SnapMean(j, k)
  {}

  /** The settling curve's mean slope between two times. */
  function SnapMean(j: real, k: real): real {
    1.9 * ((j - 1.0) * (j - 1.0) + (j - 1.0) * (k - 1.0) + (k - 1.0) * (k - 1.0)) + 0.9 * (j - 1.0 + k - 1.0)
  }

  /** Up to its peak the settling curve rises, after it falls. */
  lemma SnapMeans(j: real, k: real)
    requires 0.0 <= j <= k <= 1.0
    ensures -3.9 <= SnapMean(j, k) <= 3.9
    ensures k <= PEAK_TIME ==> SnapMean(j, k) >= 0.0
    ensures j >= PEAK_TIME ==> SnapMean(j, k) <= 0.0
  {
    hide SnapMean, EndMean, BackMean;
    SnapBounds(1.0 - j, 1.0 - k);
    MeanFromEnd(1.0 - j, 1.0 - k);
    MeanFromPeak(j - PEAK_TIME, k - PEAK_TIME);
    if k <= PEAK_TIME { BeforePeak(PEAK_TIME - j, PEAK_TIME - k); }
    if j >= PEAK_TIME { AfterPeak(j - PEAK_TIME, k - PEAK_TIME); }
  }

  /** The same slope from distances to the end or past the peak, and from distances before the peak. */
  function EndMean(a: real, b: real): real { 1.9 * (a * a + a * b + b * b) - 0.9 * (a + b) }
  function BackMean(a: real, b: real): real { 1.9 * (a * a + a * b + b * b) + 0.9 * (a + b) }

  lemma MeanFromEnd(a: real, b: real)
    ensures SnapMean(1.0 - a, 1.0 - b) == EndMean(a, b)
  {}

  lemma MeanFromPeak(p: real, q: real)
    ensures SnapMean(PEAK_TIME + p, PEAK_TIME + q) == EndMean(p, q)
    ensures SnapMean(PEAK_TIME + p, PEAK_TIME + q) == BackMean(-p, -q)
  {}

  lemma BeforePeak(p: real, q: real)
    requires 0.0 <= q && 0.0 <= p
    ensures BackMean(p, q) >= 0.0
  {
    Product(p, q);
    Product(p, p);
    Product(q, q);
  }

  lemma AfterPeak(p: real, q: real)
    requires 0.0 <= p <= q <= 6.0 / 19.0
    ensures EndMean(p, q) <= 0.0
  {
    hide EndMean;
    EndMeanIs(p, q);
    Product(p, 6.0 / 19.0 - p);
    Product(q, 6.0 / 19.0 - q);
    Product(p, 6.0 / 19.0 - q);
    Product(q, 6.0 / 19.0 - p);
  }

  lemma EndMeanIs(p: real, q: real)
    ensures EndMean(p, q) == -1.9 * (p * (6.0 / 19.0 - p) + q * (6.0 / 19.0 - q)) - 0.95 * (p * (6.0 / 19.0 - q) + q * (6.0 / 19.0 - p))
  {}

  lemma Within(a: real, b: real, most: real)
    requires 0.0 <= a && 0.0 <= b <= most
    ensures 0.0 <= a * b <= a * most && b * a == a * b
  {
    Product(a, b);
    Product(a, most - b);
    assert a * (most - b) == a * most - a * b;
  }

  lemma SnapBounds(a: real, b: real)
    requires 0.0 <= a <= 1.0 && 0.0 <= b <= 1.0
    ensures -3.9 <= EndMean(a, b) <= 3.9
  {
    assert 0.0 <= a * a <= a by { Within(a, a, 1.0); }
    assert 0.0 <= b * b <= b by { Within(b, b, 1.0); }
    assert 0.0 <= a * b <= a by { Within(a, b, 1.0); }
    assert a * b <= b by { Within(b, a, 1.0); }
    BoundSums(a * a, a * b, b * b, a, b);
  }

  lemma BoundSums(aa: real, ab: real, bb: real, a: real, b: real)
    requires 0.0 <= aa <= a <= 1.0 && 0.0 <= bb <= b <= 1.0 && 0.0 <= ab <= a && ab <= b
    ensures -3.9 <= 1.9 * (aa + ab + bb) - 0.9 * (a + b) <= 3.9
  {}

  // ---------- what one move looks like ----------

  /** A frame of the running move, its first included. */
  predicate During(v: View, now: int) { v.active && v.start <= now < v.start + v.duration }

  function Shown(v: View, now: int): real { Positioned(v, now).1 }

  /** The part of the duration that has passed. */
  function Part(v: View, now: int): real
    requires During(v, now)
  {
    (now - v.start) as real / v.duration as real
  }

  lemma PartIsTime(v: View, t: int, u: int)
    requires During(v, t) && During(v, u) && t <= u
    ensures 0.0 <= Part(v, t) <= Part(v, u) <= 1.0
    ensures 19 * (u - v.start) <= 13 * v.duration ==> Part(v, u) <= PEAK_TIME
    ensures 19 * (t - v.start) >= 13 * v.duration ==> Part(v, t) >= PEAK_TIME
    ensures Part(v, u) - Part(v, t) == (u - t) as real / v.duration as real
  {
    Fractions(0, t - v.start, v.duration);
    Fractions(t - v.start, u - v.start, v.duration);
    Fractions(u - v.start, v.duration, v.duration);
    PeakIsTime(u - v.start, v.duration);
    PeakIsTime(t - v.start, v.duration);
  }

  lemma Fractions(x: int, y: int, n: int)
    requires n > 0 && x <= y
    ensures x as real / n as real <= y as real / n as real
    ensures y as real / n as real - x as real / n as real == (y - x) as real / n as real
    ensures 0 as real / n as real == 0.0 && n as real / n as real == 1.0
  {
    var r := n as real;
    var a, b, c := x as real / r, y as real / r, (y - x) as real / r;
    assert a * r == x as real && b * r == y as real && c * r == (y - x) as real;
    Order(a, b, r);
    assert (b - a) * r == b * r - a * r;
    Order(b - a, c, r);
    Order(c, b - a, r);
  }

  lemma PeakIsTime(x: int, n: int)
    requires n > 0
    ensures 19 * x <= 13 * n ==> x as real / n as real <= PEAK_TIME
    ensures 19 * x >= 13 * n ==> x as real / n as real >= PEAK_TIME
  {
    var k, r := x as real / n as real, n as real;
    assert k * r == x as real && 19.0 * (x as real) == (19 * x) as real && 13.0 * r == (13 * n) as real;
    assert PEAK_TIME * r == 13.0 * r / 19.0;
    if 19 * x <= 13 * n { Order(k, PEAK_TIME, r); }
    if 19 * x >= 13 * n { Order(PEAK_TIME, k, r); }
  }

  lemma Order(a: real, b: real, n: real)
    requires n > 0.0 && a * n <= b * n
    ensures a <= b
  {
    if a > b { Strictly(a, b, n); }
  }

  lemma Strictly(a: real, b: real, n: real)
    requires n > 0.0 && a > b
    ensures a * n > b * n
  {
    assert (a - b) * n > 0.0;
  }

  lemma PartIs(v: View, now: int)
    requires During(v, now)
    ensures Part(v, now) == (now - v.start) as real / v.duration as real
  {}

  /** A frame shows the curve's part of the way from `from` to `to`. */
  lemma ShownIs(v: View, now: int)
    requires During(v, now)
    ensures Shown(v, now) == Lerp(v.from, v.to as real, Ease(v.model, Part(v, now)))
  {
    Ends(v.model);
    WholeWay(v.from, v.to as real);
  }

  lemma WholeWay(from: real, to: real)
    ensures Lerp(from, to, 0.0) == from && Lerp(from, to, 1.0) == to
  {}

  /** Four positions one after the other, to the right or to the left. */
  predicate InOrder(a: real, b: real, c: real, d: real) { a <= b <= c <= d || a >= b >= c >= d }

  lemma ScaledOrder(from: real, to: real, a: real, b: real, c: real, d: real)
    requires a <= b <= c <= d
    ensures InOrder(Lerp(from, to, a), Lerp(from, to, b), Lerp(from, to, c), Lerp(from, to, d))
  {
    Advance(from, to, a, b);
    Advance(from, to, b, c);
    Advance(from, to, c, d);
  }

  lemma Advance(from: real, to: real, a: real, b: real)
    requires a <= b
    ensures if to >= from then Lerp(from, to, a) <= Lerp(from, to, b) else Lerp(from, to, a) >= Lerp(from, to, b)
  {
    if to >= from {
      Product(to - from, b - a);
      assert (to - from) * (b - a) == (to - from) * b - (to - from) * a;
    } else {
      Product(from - to, b - a);
      assert (from - to) * (b - a) == (to - from) * a - (to - from) * b;
    }
  }

  /** In the gallery model a move goes from `from` to `to` without ever turning back. */
  lemma GalleryAdvances(v: View, t: int, u: int)
    requires v.model.Gallery? && During(v, t) && During(v, u) && t <= u
    ensures InOrder(v.from, Shown(v, t), Shown(v, u), v.to as real)
  {
    hide Shown, Ease, Part, Lerp;
    PartIsTime(v, t, u);
    ShownIs(v, t);
    ShownIs(v, u);
    GalleryRises(0.0, Part(v, t));
    GalleryRises(Part(v, t), Part(v, u));
    GalleryRises(Part(v, u), 1.0);
    Ends(Gallery);
    WholeWay(v.from, v.to as real);
    ScaledOrder(v.from, v.to as real, 0.0, Ease(v.model, Part(v, t)), Ease(v.model, Part(v, u)), 1.0);
  }

  lemma GalleryRises(j: real, k: real)
    requires 0.0 <= j <= k <= 1.0
    ensures Ease(Gallery, j) <= Ease(Gallery, k)
  {
    hide EaseInOut, GalleryMean;
    GallerySlope(j, k);
    GalleryMeans(j, k);
    Product(k - j, GalleryMean(j, k));
  }

  /** In the snap model it first goes, without turning back, to 54/1805 of the way past `to`, and has turned when 13/19 of the
      time have passed; from there it comes back to `to`. */
  lemma SnapSettles(v: View, t: int, u: int)
    requires v.model.Snap? && During(v, t) && During(v, u) && t <= u
    ensures var top := Lerp(v.from, v.to as real, 1.0 + 54.0 / 1805.0);
            && (19 * (u - v.start) <= 13 * v.duration ==> InOrder(v.from, Shown(v, t), Shown(v, u), top))
            && (19 * (t - v.start) >= 13 * v.duration ==> InOrder(top, Shown(v, t), Shown(v, u), v.to as real))
  {
    hide Shown, Ease, Part, Lerp;
    PartIsTime(v, t, u);
    ShownIs(v, t);
    ShownIs(v, u);
    var a, b := Part(v, t), Part(v, u);
    Ends(Snap);
    PeakIs();
    WholeWay(v.from, v.to as real);
    if b <= PEAK_TIME {
      SnapTurns(0.0, a);
      SnapTurns(a, b);
      SnapTurns(b, PEAK_TIME);
      ScaledOrder(v.from, v.to as real, 0.0, Ease(Snap, a), Ease(Snap, b), PEAK);
    }
    if a >= PEAK_TIME {
      SnapTurns(PEAK_TIME, a);
      SnapTurns(a, b);
      SnapTurns(b, 1.0);
      ScaledOrder(v.from, v.to as real, 1.0, Ease(Snap, b), Ease(Snap, a), PEAK);
    }
  }

  lemma PeakIs()
    ensures Ease(Snap, PEAK_TIME) == PEAK
  {}

  lemma SnapTurns(j: real, k: real)
    requires 0.0 <= j <= k <= 1.0
    ensures k <= PEAK_TIME ==> Ease(Snap, j) <= Ease(Snap, k)
    ensures j >= PEAK_TIME ==> Ease(Snap, j) >= Ease(Snap, k)
  {
    hide EaseBack, SnapMean;
    SnapSlope(j, k);
    SnapMeans(j, k);
    var m := SnapMean(j, k);
    if m >= 0.0 { Product(k - j, m); } else { Product(k - j, -m); }
  }

  /** As far as the position may move in part of a duration. */
  function Reach(m: Model, from: real, to: real, part: real): real { Steepest(m) * Abs(to - from) * part }

  /** In either model no frame jumps: the position changes by at most 3.9 (gallery: 1.5) times the way for each part of the duration,
      counted from `from` at the start and up to `to` at the end. */
  lemma MoveIsSmooth(v: View, t: int, u: int)
    requires During(v, t) && During(v, u) && t <= u
    ensures var from, to, n := v.from, v.to as real, v.duration as real;
            && Abs(Shown(v, u) - Shown(v, t)) <= Reach(v.model, from, to, (u - t) as real / n)
            && Abs(Shown(v, t) - from) <= Reach(v.model, from, to, (t - v.start) as real / n)
            && Abs(to - Shown(v, u)) <= Reach(v.model, from, to, (v.start + v.duration - u) as real / n)
  {
    hide Shown, Ease, Reach, Abs, Part, Lerp;
    PartIs(v, t);
    PartIs(v, u);
    PartIsTime(v, t, u);
    ShownIs(v, t);
    ShownIs(v, u);
    Fractions(u - v.start, v.duration, v.duration);
    var a, b := Part(v, t), Part(v, u);
    Ends(v.model);
    WholeWay(v.from, v.to as real);
    Speed(v.model, a, b, v.from, v.to as real);
    Speed(v.model, 0.0, a, v.from, v.to as real);
    Speed(v.model, b, 1.0, v.from, v.to as real);
  }

  lemma Speed(m: Model, j: real, k: real, from: real, to: real)
    requires 0.0 <= j <= k <= 1.0
    ensures Abs(Lerp(from, to, Ease(m, k)) - Lerp(from, to, Ease(m, j))) <= Reach(m, from, to, k - j)
  {
    hide Abs, EaseBack, EaseInOut, SnapMean, GalleryMean, Lerp, Reach;
    if m.Snap? {
      SnapSlope(j, k);
      SnapMeans(j, k);
      Bounded(from, to, Ease(m, j), Ease(m, k), k - j, SnapMean(j, k), 3.9);
    } else {
      GallerySlope(j, k);
      GalleryMeans(j, k);
      Bounded(from, to, Ease(m, j), Ease(m, k), k - j, GalleryMean(j, k), 1.5);
    }
    ReachIs(m, from, to, k - j);
  }

  lemma ReachIs(m: Model, from: real, to: real, x: real)
    ensures Reach(m, from, to, x) == (if m.Snap? then 3.9 else 1.5) * Abs(to - from) * x
  {}

  lemma Bounded(from: real, to: real, e: real, f: real, x: real, m: real, most: real)
    requires x >= 0.0 && -most <= m <= most && f - e == x * m
    ensures Abs(Lerp(from, to, f) - Lerp(from, to, e)) <= most * Abs(to - from) * x
  {
    hide Lerp, Abs;
    LerpChange(from, to, e, f);
    BoundedWay(to - from, x, m, f - e, Lerp(from, to, f) - Lerp(from, to, e), most);
  }

  lemma LerpChange(from: real, to: real, e: real, f: real)
    ensures Lerp(from, to, f) - Lerp(from, to, e) == (to - from) * (f - e)
  {}

  lemma BoundedWay(way: real, x: real, m: real, z: real, change: real, most: real)
    requires x >= 0.0 && -most <= m <= most && z == x * m && change == way * z
    ensures Abs(change) <= most * Abs(way) * x
  {
    var w := Abs(way);
    Product(x, most - m);
    Product(x, most + m);
    assert x * (most - m) == x * most - z && x * (most + m) == x * most + z;
    Product(w, x * most - z);
    Product(w, x * most + z);
    assert w * (x * most - z) == w * (x * most) - w * z && w * (x * most + z) == w * (x * most) + w * z;
    assert w * (x * most) == most * w * x;
    assert way * z == w * z || way * z == -(w * z);
  }
}
