/** The triangle rasteriser of the cartridge view: one band of scanlines, one draw list.

    Coordinates, inverse depths and colours are reals; rounding of floats is not modelled.
    A pixel is specified by `Plot`; the scanline loops with their per-edge span solving and
    their stepped values are proved to compute exactly that. */
module Raster {
  import opened Arithmetic

  const SHALLOW := 0.000000001    // 1e-9f, below which a slope counts as horizontal
  const OPAQUE := 0.999

  /** Screen position and 1/w of a projected vertex. */
  datatype Vertex = Vertex(x: real, y: real, iw: real)
  datatype Colour = Colour(r: real, g: real, b: real)
  datatype Rgb = Rgb(r: int, g: int, b: int)
  /** One value at each corner of a triangle. */
  datatype Corners = Corners(q0: real, q1: real, q2: real)
  type Depth = r: real | r >= 0.0
  datatype Pixel = Pixel(rgb: Rgb, depth: Depth)

  /** Flat colour, or a texture (with its gloss, if any) sampled at (u, v). */
  datatype Paint =
    | Flat(colour: Colour)
    | Textured(u0: real, v0: real, u1: real, v1: real, u2: real, v2: real, sample: (real, real) -> Colour)

  datatype Draw = Draw(s0: Vertex, s1: Vertex, s2: Vertex, paint: Paint,
                       shade: real, alpha: real, rim: real, ymin: int, ymax: int)

  function Min(a: real, b: real): real { if a < b then a else b }
  function Max(a: real, b: real): real { if a > b then a else b }
  function Min3(a: real, b: real, c: real): real { Min(a, Min(b, c)) }
  function Max3(a: real, b: real, c: real): real { Max(a, Max(b, c)) }

  // ---------- edge functions ----------

  /** Value of the edge function from `a` to `b` at the centre of pixel (x, y). */
  function Edge(a: Vertex, b: Vertex, x: int, y: int): real {
    (b.x - a.x) * (y as real + 0.5 - a.y) - (b.y - a.y) * (x as real + 0.5 - a.x)
  }

  function Slope(a: Vertex, b: Vertex): real { -(b.y - a.y) }

  function W0(d: Draw, x: int, y: int): real { Edge(d.s1, d.s2, x, y) }
  function W1(d: Draw, x: int, y: int): real { Edge(d.s2, d.s0, x, y) }
  function W2(d: Draw, x: int, y: int): real { Edge(d.s0, d.s1, x, y) }

  function Area(d: Draw): real {
    (d.s1.x - d.s0.x) * (d.s2.y - d.s0.y) - (d.s2.x - d.s0.x) * (d.s1.y - d.s0.y)
  }

  predicate FrontFacing(d: Draw) { Area(d) < -0.000001 }

  /** The pixel centre passes all three half-plane tests. */
  predicate Covers(d: Draw, x: int, y: int) {
    W0(d, x, y) <= 0.0 && W1(d, x, y) <= 0.0 && W2(d, x, y) <= 0.0
  }

  /** The left end of the box: the column of the leftmost corner, or the edge of the frame. */
  function MinX(d: Draw): (left: int)
    ensures left >= 0
    ensures left == 0 || (left as real <= d.s0.x && left as real <= d.s1.x && left as real <= d.s2.x)
    ensures d.s0.x < left as real + 1.0 || d.s1.x < left as real + 1.0 || d.s2.x < left as real + 1.0
  {
    var m := Min3(d.s0.x, d.s1.x, d.s2.x).Floor;
    if m < 0 then 0 else m
  }

  function Slopes(d: Draw): (r: seq<real>)
    ensures |r| == 3
  {
    [Slope(d.s1, d.s2), Slope(d.s2, d.s0), Slope(d.s0, d.s1)]
  }

  /** The three edge values at the left end of a scanline. */
  function Rows(d: Draw, y: int): (r: seq<real>)
    ensures |r| == 3
  {
    [W0(d, MinX(d), y), W1(d, MinX(d), y), W2(d, MinX(d), y)]
  }

  predicate Shallow(slope: real) { -SHALLOW <= slope <= SHALLOW }

  /** Some nearly horizontal edge is positive at the left end, and the scanline is dropped. */
  predicate Rejected(rows: seq<real>, slopes: seq<real>)
    requires |rows| == |slopes| == 3
  {
    exists e | 0 <= e < 3 :: Shallow(slopes[e]) && rows[e] > 0.0
  }

  /** All three edge values are non-positive k pixels to the right of the left end. */
  predicate InsideAt(rows: seq<real>, slopes: seq<real>, k: int)
    requires |rows| == |slopes| == 3
  {
    forall e | 0 <= e < 3 :: rows[e] + k as real * slopes[e] <= 0.0
  }

  predicate Visible(d: Draw, x: int, y: int) {
    FrontFacing(d) && Covers(d, x, y) && !Rejected(Rows(d, y), Slopes(d))
  }

  // ---------- interpolation and shading ----------

  /** Vertex values weighed by three edge values (or by their slopes). */
  function Weigh(d: Draw, q: Corners, w0: real, w1: real, w2: real): real
    requires FrontFacing(d)
  {
    (w0 * q.q0 + w1 * q.q1 + w2 * q.q2) * (1.0 / Area(d))
  }

  /** A quantity linear over the triangle, from its three vertex values. */
  function Interpolate(d: Draw, q: Corners, x: int, y: int): real
    requires FrontFacing(d)
  {
    Weigh(d, q, W0(d, x, y), W1(d, x, y), W2(d, x, y))
  }

  /** Its change from one pixel to the next. */
  function Increment(d: Draw, q: Corners): real
    requires FrontFacing(d)
  {
    Weigh(d, q, Slopes(d)[0], Slopes(d)[1], Slopes(d)[2])
  }

  function IwCorners(d: Draw): Corners { Corners(d.s0.iw, d.s1.iw, d.s2.iw) }

  /** u/w and v/w at the corners; zero for a flat draw, which never reads them. */
  function UwCorners(d: Draw): Corners {
    match d.paint
    case Flat(_) => Corners(0.0, 0.0, 0.0)
    case Textured(u0, _, u1, _, u2, _, _) => Corners(u0 * d.s0.iw, u1 * d.s1.iw, u2 * d.s2.iw)
  }

  function VwCorners(d: Draw): Corners {
    match d.paint
    case Flat(_) => Corners(0.0, 0.0, 0.0)
    case Textured(_, v0, _, v1, _, v2, _) => Corners(v0 * d.s0.iw, v1 * d.s1.iw, v2 * d.s2.iw)
  }

  function Iw(d: Draw, x: int, y: int): real
    requires FrontFacing(d)
  {
    Interpolate(d, IwCorners(d), x, y)
  }

  function Source(p: Paint, uw: real, vw: real, iw: real): Colour
    requires iw > 0.0
  {
    match p
    case Flat(c) => c
    case Textured(_, _, _, _, _, _, sample) => sample(uw * (1.0 / iw), vw * (1.0 / iw))
  }

  function Channel(d: Draw, src: real, dst: int): int {
    var c := src * d.shade + d.rim;
    var c := if c < 0.0 then 0.0 else c;
    var c := if c > 255.0 then 255.0 else c;
    var c := if d.alpha < OPAQUE then dst as real * (1.0 - d.alpha) + c * d.alpha else c;
    (c + 0.5).Floor
  }

  function Blend(d: Draw, src: Colour, dst: Rgb): Rgb {
    Rgb(Channel(d, src.r, dst.r), Channel(d, src.g, dst.g), Channel(d, src.b, dst.b))
  }

  /** One draw on one pixel: the half-plane test, the depth test, the blend. */
  function Plot(d: Draw, zwrite: bool, x: int, y: int, p: Pixel): Pixel {
    if Visible(d, x, y) && Iw(d, x, y) > p.depth then
      Pixel(Blend(d, Source(d.paint, Interpolate(d, UwCorners(d), x, y), Interpolate(d, VwCorners(d), x, y), Iw(d, x, y)), p.rgb),
            if zwrite then Iw(d, x, y) else p.depth)
    else p
  }

  /** A whole draw list on one pixel, in list order. */
  function PlotAll(ds: seq<Draw>, zwrite: bool, x: int, y: int, p: Pixel): Pixel {
    if ds == [] then p else PlotAll(ds[1..], zwrite, x, y, Plot(ds[0], zwrite, x, y, p))
  }

  // ---------- geometry ----------

  lemma EdgeStep(a: Vertex, b: Vertex, x: int, k: int, y: int)
    ensures Edge(a, b, x + k, y) == Edge(a, b, x, y) + k as real * Slope(a, b)
  {
    var dy, px := b.y - a.y, x as real + 0.5 - a.x;
    assert dy * (px + k as real) == dy * px + dy * k as real;
    assert (x + k) as real + 0.5 - a.x == px + k as real;
  }

  lemma InterpolateStep(d: Draw, q: Corners, x: int, y: int)
    requires FrontFacing(d)
    ensures Interpolate(d, q, x + 1, y) == Interpolate(d, q, x, y) + Increment(d, q)
  {
    EdgeStep(d.s1, d.s2, x, 1, y);
    EdgeStep(d.s2, d.s0, x, 1, y);
    EdgeStep(d.s0, d.s1, x, 1, y);
    var w0, w1, w2 := W0(d, x, y), W1(d, x, y), W2(d, x, y);
    var s := Slopes(d);
    Distribute(w0, s[0], q.q0);
    Distribute(w1, s[1], q.q1);
    Distribute(w2, s[2], q.q2);
    Distribute(w0 * q.q0 + w1 * q.q1 + w2 * q.q2, s[0] * q.q0 + s[1] * q.q1 + s[2] * q.q2, 1.0 / Area(d));
  }

  lemma Distribute(a: real, b: real, c: real)
    ensures (a + b) * c == a * c + b * c
  {}

  /** Relative to the pixel centre the edge values are the cross products of the corners. */
  lemma Cross(a: Vertex, b: Vertex, x: int, y: int)
    ensures var px, py := x as real + 0.5, y as real + 0.5;
            Edge(a, b, x, y) == (a.x - px) * (b.y - py) - (b.x - px) * (a.y - py)
  {
    var px, py := x as real + 0.5, y as real + 0.5;
    var aX, aY, bX, bY := a.x - px, a.y - py, b.x - px, b.y - py;
    assert b.x - a.x == bX - aX && b.y - a.y == bY - aY;
    assert (bX - aX) * (-aY) - (bY - aY) * (-aX) == aX * bY - bX * aY;
  }

  /** Barycentric identities: the edge values sum to the area and weigh the corners to the centre. */
  lemma Barycentric(d: Draw, x: int, y: int)
    ensures W0(d, x, y) + W1(d, x, y) + W2(d, x, y) == Area(d)
    ensures var px, py := x as real + 0.5, y as real + 0.5;
            && W0(d, x, y) * (d.s0.x - px) + W1(d, x, y) * (d.s1.x - px) + W2(d, x, y) * (d.s2.x - px) == 0.0
            && W0(d, x, y) * (d.s0.y - py) + W1(d, x, y) * (d.s1.y - py) + W2(d, x, y) * (d.s2.y - py) == 0.0
  {
    Cross(d.s1, d.s2, x, y);
    Cross(d.s2, d.s0, x, y);
    Cross(d.s0, d.s1, x, y);
    var px, py := x as real + 0.5, y as real + 0.5;
    CrossSums(d.s0.x - px, d.s0.y - py, d.s1.x - px, d.s1.y - py, d.s2.x - px, d.s2.y - py);
    assert Area(d) == ((d.s1.x - px) - (d.s0.x - px)) * ((d.s2.y - py) - (d.s0.y - py))
                    - ((d.s2.x - px) - (d.s0.x - px)) * ((d.s1.y - py) - (d.s0.y - py));
  }

  lemma CrossSums(a0: real, b0: real, a1: real, b1: real, a2: real, b2: real)
    ensures var w0, w1, w2 := a1 * b2 - a2 * b1, a2 * b0 - a0 * b2, a0 * b1 - a1 * b0;
            && w0 + w1 + w2 == (a1 - a0) * (b2 - b0) - (a2 - a0) * (b1 - b0)
            && w0 * a0 + w1 * a1 + w2 * a2 == 0.0
            && w0 * b0 + w1 * b1 + w2 * b2 == 0.0
  {}

  lemma WeightedPositive(w0: real, w1: real, w2: real, c0: real, c1: real, c2: real)
    requires w0 <= 0.0 && w1 <= 0.0 && w2 <= 0.0 && w0 + w1 + w2 < 0.0
    ensures c0 > 0.0 && c1 > 0.0 && c2 > 0.0 ==> w0 * c0 + w1 * c1 + w2 * c2 < 0.0
  {
    if c0 > 0.0 && c1 > 0.0 && c2 > 0.0 {
      assert w0 * c0 <= 0.0 && w1 * c1 <= 0.0 && w2 * c2 <= 0.0;
      assert w0 * c0 < 0.0 || w1 * c1 < 0.0 || w2 * c2 < 0.0;
    }
  }

  /** A weighted sum of non-positive weights that is not all zero keeps the sign of its terms. */
  lemma WeightedSign(w0: real, w1: real, w2: real, c0: real, c1: real, c2: real)
    requires w0 <= 0.0 && w1 <= 0.0 && w2 <= 0.0 && w0 + w1 + w2 < 0.0
    requires w0 * c0 + w1 * c1 + w2 * c2 == 0.0
    ensures Min3(c0, c1, c2) <= 0.0 <= Max3(c0, c1, c2)
  {
    WeightedPositive(w0, w1, w2, c0, c1, c2);
    WeightedPositive(w0, w1, w2, -c0, -c1, -c2);
  }

  /** Nothing outside the bounding box of a front-facing triangle passes the three tests. */
  lemma BoundingBox(d: Draw, x: int, y: int)
    requires FrontFacing(d) && Covers(d, x, y)
    ensures Min3(d.s0.x, d.s1.x, d.s2.x).Floor <= x < Ceil(Max3(d.s0.x, d.s1.x, d.s2.x))
    ensures Min3(d.s0.y, d.s1.y, d.s2.y).Floor <= y < Ceil(Max3(d.s0.y, d.s1.y, d.s2.y))
  {
    Barycentric(d, x, y);
    var px, py := x as real + 0.5, y as real + 0.5;
    WeightedSign(W0(d, x, y), W1(d, x, y), W2(d, x, y), d.s0.x - px, d.s1.x - px, d.s2.x - px);
    WeightedSign(W0(d, x, y), W1(d, x, y), W2(d, x, y), d.s0.y - py, d.s1.y - py, d.s2.y - py);
  }

  lemma InsideThree(rows: seq<real>, slopes: seq<real>, k: int, w0: real, w1: real, w2: real)
    requires |rows| == |slopes| == 3
    requires w0 == rows[0] + k as real * slopes[0]
    requires w1 == rows[1] + k as real * slopes[1]
    requires w2 == rows[2] + k as real * slopes[2]
    ensures InsideAt(rows, slopes, k) <==> w0 <= 0.0 && w1 <= 0.0 && w2 <= 0.0
  {
    if w0 <= 0.0 && w1 <= 0.0 && w2 <= 0.0 {
      forall e | 0 <= e < 3 ensures rows[e] + k as real * slopes[e] <= 0.0 {
        assert e == 0 || e == 1 || e == 2;
      }
    }
  }

  lemma EdgeFrom(a: Vertex, b: Vertex, lo: int, x: int, y: int)
    ensures Edge(a, b, x, y) == Edge(a, b, lo, y) + (x - lo) as real * Slope(a, b)
  {
    EdgeStep(a, b, lo, x - lo, y);
  }

  lemma FromLeftEnd(d: Draw, y: int, x: int)
    ensures var k := (x - MinX(d)) as real;
            && W0(d, x, y) == Rows(d, y)[0] + k * Slopes(d)[0]
            && W1(d, x, y) == Rows(d, y)[1] + k * Slopes(d)[1]
            && W2(d, x, y) == Rows(d, y)[2] + k * Slopes(d)[2]
  {
    hide Edge, Slope;
    EdgeFrom(d.s1, d.s2, MinX(d), x, y);
    EdgeFrom(d.s2, d.s0, MinX(d), x, y);
    EdgeFrom(d.s0, d.s1, MinX(d), x, y);
  }

  lemma CoversFromRows(d: Draw, x: int, y: int)
    ensures Covers(d, x, y) <==> InsideAt(Rows(d, y), Slopes(d), x - MinX(d))
  {
    hide W0, W1, W2, Rows, Slopes, InsideAt, MinX;
    FromLeftEnd(d, y, x);
    InsideThree(Rows(d, y), Slopes(d), x - MinX(d), W0(d, x, y), W1(d, x, y), W2(d, x, y));
  }

  // ---------- what a pixel is given ----------

  /** A quantity that is linear over the screen. */
  datatype Plane = Plane(a: real, b: real, c: real) {
    function Over(x: real, y: real): real { a * x + b * y + c }

    /** Its value at the centre of a pixel. */
    function At(x: int, y: int): real { Over(x as real + 0.5, y as real + 0.5) }
  }

  /** The plane through the three values at the corners. */
  predicate Through(p: Plane, d: Draw, v0: real, v1: real, v2: real) {
    p.Over(d.s0.x, d.s0.y) == v0 && p.Over(d.s1.x, d.s1.y) == v1 && p.Over(d.s2.x, d.s2.y) == v2
  }

  lemma WeighedPlane(w0: real, w1: real, w2: real, x: seq<real>, y: seq<real>, p: Plane, v: real)
    requires |x| == |y| == 3
    requires w0 * x[0] + w1 * x[1] + w2 * x[2] == 0.0 && w0 * y[0] + w1 * y[1] + w2 * y[2] == 0.0
    ensures w0 * (p.a * x[0] + p.b * y[0] + v) + w1 * (p.a * x[1] + p.b * y[1] + v) + w2 * (p.a * x[2] + p.b * y[2] + v)
         == (w0 + w1 + w2) * v
  {
    assert p.a * (w0 * x[0] + w1 * x[1] + w2 * x[2]) == 0.0 && p.b * (w0 * y[0] + w1 * y[1] + w2 * y[2]) == 0.0;
    assert w0 * (p.a * x[0]) + w1 * (p.a * x[1]) + w2 * (p.a * x[2]) == p.a * (w0 * x[0] + w1 * x[1] + w2 * x[2]);
    assert w0 * (p.b * y[0]) + w1 * (p.b * y[1]) + w2 * (p.b * y[2]) == p.b * (w0 * y[0] + w1 * y[1] + w2 * y[2]);
  }

  lemma FromCentre(p: Plane, vx: real, vy: real, x: int, y: int)
    ensures p.Over(vx, vy) == p.a * (vx - (x as real + 0.5)) + p.b * (vy - (y as real + 0.5)) + p.At(x, y)
  {}

  /** Interpolation gives every pixel the plane through the corner values. */
  lemma InterpolatesPlane(d: Draw, q: Corners, p: Plane, x: int, y: int)
    requires FrontFacing(d) && Through(p, d, q.q0, q.q1, q.q2)
    ensures Interpolate(d, q, x, y) == p.At(x, y)
  {
    hide Edge;
    var px, py := x as real + 0.5, y as real + 0.5;
    Barycentric(d, x, y);
    FromCentre(p, d.s0.x, d.s0.y, x, y);
    FromCentre(p, d.s1.x, d.s1.y, x, y);
    FromCentre(p, d.s2.x, d.s2.y, x, y);
    WeighedPlane(W0(d, x, y), W1(d, x, y), W2(d, x, y), [d.s0.x - px, d.s1.x - px, d.s2.x - px],
                 [d.s0.y - py, d.s1.y - py, d.s2.y - py], p, p.At(x, y));
    Cancels(Area(d), p.At(x, y));
  }

  lemma Cancels(a: real, v: real)
    requires a != 0.0
    ensures a * v * (1.0 / a) == v
  {
    assert a * (1.0 / a) == 1.0;
    assert a * v * (1.0 / a) == v * (a * (1.0 / a));
  }

  // ---------- when the span solver is exact ----------

  lemma Rises(k: nat, slope: real)
    requires k == 0 || slope >= 0.0
    ensures k as real * slope >= 0.0
  {
    if k == 0 {
      assert 0.0 * slope == 0.0;
    }
  }

  /** For edges of the given slopes, over a box n pixels wider than one: every scanline draws exactly
      its inside pixels if and only if no slope is negative and shallow (or the box is one pixel wide). */
  lemma SpanExactIff(slopes: seq<real>, n: nat)
    requires |slopes| == 3
    ensures (forall rows: seq<real>, k: int | |rows| == 3 && 0 <= k <= n && InsideAt(rows, slopes, k) ::
               !Rejected(rows, slopes))
       <==> (n == 0 || forall e | 0 <= e < 3 :: !(-SHALLOW <= slopes[e] < 0.0))
  {
    if n == 0 || forall e | 0 <= e < 3 :: !(-SHALLOW <= slopes[e] < 0.0) {
      forall rows: seq<real>, k: int | |rows| == 3 && 0 <= k <= n && InsideAt(rows, slopes, k)
        ensures !Rejected(rows, slopes)
      {
        forall e | 0 <= e < 3 && Shallow(slopes[e]) ensures rows[e] <= 0.0 {
          Rises(k, slopes[e]);
        }
      }
    } else {
      var e :| 0 <= e < 3 && -SHALLOW <= slopes[e] < 0.0;
      var rows := seq(3, i requires 0 <= i < 3 => if i == e then -slopes[e] else -Max(slopes[i], 0.0));
      assert InsideAt(rows, slopes, 1) by {
        assert forall i | 0 <= i < 3 :: 1 as real * slopes[i] == slopes[i];
      }
      assert Shallow(slopes[e]) && rows[e] > 0.0;
      assert Rejected(rows, slopes);
    }
  }

  /** A row with an inside pixel is dropped exactly for a shallow negative slope. */
  lemma RejectedIff(rows: seq<real>, slopes: seq<real>, k: nat)
    requires |rows| == |slopes| == 3 && InsideAt(rows, slopes, k)
    ensures Rejected(rows, slopes) <==> exists e | 0 <= e < 3 :: -SHALLOW <= slopes[e] < 0.0 && rows[e] > 0.0
  {
    forall e | 0 <= e < 3 && slopes[e] >= 0.0 ensures rows[e] <= 0.0 {
      Rises(k, slopes[e]);
    }
  }

  /** A covered pixel is lost exactly when the left end of its scanline lies outside an edge of such a slope. */
  lemma LostIff(d: Draw, x: int, y: int)
    requires FrontFacing(d) && Covers(d, x, y) && x >= 0
    ensures !Visible(d, x, y) <==> exists e | 0 <= e < 3 :: -SHALLOW <= Slopes(d)[e] < 0.0 && Rows(d, y)[e] > 0.0
  {
    hide Covers, Slopes, Rows, InsideAt, Rejected;
    BoundingBox(d, x, y);
    CoversFromRows(d, x, y);
    RejectedIff(Rows(d, y), Slopes(d), x - MinX(d));
  }

  predicate NoShallowDescent(d: Draw) {
    forall e | 0 <= e < 3 :: !(-SHALLOW <= Slopes(d)[e] < 0.0)
  }

  /** Without a shallow negative slope the drawn pixels are exactly the covered ones. */
  lemma VisibleIsCovered(d: Draw, x: nat, y: int)
    requires FrontFacing(d) && NoShallowDescent(d)
    ensures Visible(d, x, y) <==> Covers(d, x, y)
  {
    if Covers(d, x, y) {
      LostIff(d, x, y);
    }
  }

  /** A triangle with such a slope that loses a covered pixel: its top edge falls 1e-9 over 4 pixels. */
  lemma ShallowEdgeLosesAPixel()
    ensures exists d: Draw :: FrontFacing(d) && Covers(d, 2, 0) && !Visible(d, 2, 0)
  {
    var d := Draw(Vertex(0.0, 0.50000000024, 1.0), Vertex(1.0, 4.5, 1.0), Vertex(4.0, 0.49999999976, 1.0),
                  Flat(Colour(0.0, 0.0, 0.0)), 1.0, 1.0, 0.0, 0, 5);
    assert MinX(d) == 0 by {
      assert Min3(d.s0.x, d.s1.x, d.s2.x) == 0.0;
    }
    assert Slopes(d)[1] == -0.00000000048;
    assert W1(d, 0, 0) > 0.0;
    assert Shallow(Slopes(d)[1]) && Rows(d, 0)[1] > 0.0;
    assert Rejected(Rows(d, 0), Slopes(d));
    assert W0(d, 2, 0) <= 0.0 && W1(d, 2, 0) <= 0.0 && W2(d, 2, 0) <= 0.0;
    assert FrontFacing(d) && Covers(d, 2, 0) && !Visible(d, 2, 0);
  }

  /** The edge may be short: here it ends within half a pixel of the leftmost corner, and no other edge falls. */
  lemma ShortShallowEdgeLosesAPixel()
    ensures exists d: Draw ::
              && FrontFacing(d) && Slopes(d)[0] >= 0.0 && Slopes(d)[1] >= 0.0 && Max(d.s0.x, d.s1.x) <= Min3(d.s0.x, d.s1.x, d.s2.x) + 0.5
              && Covers(d, 1, 0) && !Visible(d, 1, 0)
  {
    var d := Draw(Vertex(0.7, 0.4999999995, 1.0), Vertex(1.1, 0.5000000005, 1.0), Vertex(10000.7, 0.4999999995, 1.0),
                  Flat(Colour(0.0, 0.0, 0.0)), 1.0, 1.0, 0.0, 0, 1);
    assert Min3(d.s0.x, d.s1.x, d.s2.x) == 0.7 && MinX(d) == 0;
    assert Slopes(d)[2] == -SHALLOW && Rows(d, 0)[2] > 0.0;
    assert Rejected(Rows(d, 0), Slopes(d));
    assert W0(d, 1, 0) <= 0.0 && W1(d, 1, 0) <= 0.0 && W2(d, 1, 0) <= 0.0;
    assert FrontFacing(d) && Covers(d, 1, 0) && !Visible(d, 1, 0);
  }
}
