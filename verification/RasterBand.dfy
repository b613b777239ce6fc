/** The scanline loops of the rasteriser, over the colour and depth buffers in place. */
module RasterBand {
  import opened Arithmetic
  import opened Raster

  class Target {
    const width: nat
    const height: nat
    const rgb: array2<Rgb>
    const depth: array2<Depth>

    constructor (width: nat, height: nat)
      ensures this.width == width && this.height == height && Valid()
      ensures fresh(rgb) && fresh(depth)
      ensures forall y, x | InFrame(y, x) :: At(y, x).depth == 0.0
    {
      this.width, this.height := width, height;
      rgb := new Rgb[height, width]((_, _) => Rgb(0, 0, 0));
      depth := new Depth[height, width]((_, _) => 0.0);
    }

    ghost predicate Valid() {
      && rgb.Length0 == depth.Length0 == height
      && rgb.Length1 == depth.Length1 == width
    }

    predicate InFrame(y: int, x: int) { 0 <= y < height && 0 <= x < width }

    ghost function At(y: int, x: int): Pixel
      requires Valid() && InFrame(y, x)
      reads rgb, depth
    {
      Pixel(rgb[y, x], depth[y, x])
    }
  }

  /** The x range one scanline may touch: each edge cuts the box, widened by a pixel. */
  method SolveSpan(rows: seq<real>, slopes: seq<real>, minx: int, maxx: int) returns (lo: int, hi: int)
    requires |rows| == |slopes| == 3
    requires 0 <= minx <= maxx
    ensures minx <= lo && hi <= maxx
    ensures Rejected(rows, slopes) ==> lo > hi
    ensures !Rejected(rows, slopes) ==>
              forall k | 0 <= k <= maxx - minx && InsideAt(rows, slopes, k) :: lo <= minx + k <= hi
  {
    lo, hi := minx, maxx;
    ghost var rejected := false;
    for e := 0 to 3
      invariant rejected <==> exists j | 0 <= j < e :: Shallow(slopes[j]) && rows[j] > 0.0
      invariant rejected ==> lo >= 1 && hi <= 0
      invariant !rejected ==>
                  forall k | 0 <= k <= maxx - minx && InsideAt(rows, slopes, k) :: lo <= minx + k <= hi
    {
      var row, slope := rows[e], slopes[e];
      if slope > SHALLOW || slope < -SHALLOW {
        var bound := minx as real - row / slope;
        forall k | 0 <= k <= maxx - minx && InsideAt(rows, slopes, k)
          ensures slope > 0.0 ==> (minx + k) as real <= bound
          ensures slope < 0.0 ==> (minx + k) as real >= bound
        {
          HalfLine(row, slope, k);
        }
        if bound < minx as real - 2.0 {
          bound := minx as real - 2.0;
        } else if bound > maxx as real + 2.0 {
          bound := maxx as real + 2.0;
        }
        if slope > 0.0 {
          var h := bound.Floor + 1;
          if h < hi {
            hi := h;
          }
        } else {
          var l := Ceil(bound) - 1;
          if l > lo {
            lo := l;
          }
        }
      } else if row > 0.0 {
        lo, hi := 1, 0;
        rejected := true;
      }
    }
    if lo < minx {
      lo := minx;
    }
    if hi > maxx {
      hi := maxx;
    }
  }

  lemma HalfLine(row: real, slope: real, k: int)
    requires slope != 0.0
    requires row + k as real * slope <= 0.0
    ensures slope > 0.0 ==> k as real <= -(row / slope)
    ensures slope < 0.0 ==> k as real >= -(row / slope)
  {
    var q := row / slope;
    assert row == q * slope;
    assert (q + k as real) * slope <= 0.0;
  }

  /** What one triangle does to one pixel of the frame, given the band it is clipped to. */
  function BandPlot(d: Draw, zwrite: bool, bandY0: int, bandY1: int, y: int, x: int, p: Pixel): Pixel {
    if bandY0 <= y < bandY1 then Plot(d, zwrite, x, y, p) else p
  }

  /** A pixel whose row or column lies outside the clipped bounding box is left alone by `Plot`. */
  lemma OutsideBox(d: Draw, x: nat, y: int, maxx: int, maxy: int)
    requires FrontFacing(d)
    requires maxx == Ceil(Max3(d.s0.x, d.s1.x, d.s2.x)) && maxy == Ceil(Max3(d.s0.y, d.s1.y, d.s2.y))
    ensures Visible(d, x, y) ==> MinX(d) <= x <= maxx && Min3(d.s0.y, d.s1.y, d.s2.y).Floor <= y <= maxy
  {
    if Visible(d, x, y) {
      BoundingBox(d, x, y);
    }
  }

  method RasterBand(t: Target, d: Draw, zwrite: bool, bandY0: int, bandY1: int)
    requires t.Valid() && 0 <= bandY0 && bandY1 <= t.height
    modifies t.rgb, t.depth
    ensures forall y, x | t.InFrame(y, x) ::
              t.At(y, x) == BandPlot(d, zwrite, bandY0, bandY1, y, x, old(t.At(y, x)))
  {
    if Area(d) >= -0.000001 {
      return;
    }
    var boxMaxX, boxMinY := Ceil(Max3(d.s0.x, d.s1.x, d.s2.x)), Min3(d.s0.y, d.s1.y, d.s2.y).Floor;
    var boxMaxY := Ceil(Max3(d.s0.y, d.s1.y, d.s2.y));
    var minx := MinX(d);
    var miny := if boxMinY < bandY0 then bandY0 else boxMinY;
    var maxx := if boxMaxX > t.width - 1 then t.width - 1 else boxMaxX;
    var maxy := if boxMaxY > bandY1 - 1 then bandY1 - 1 else boxMaxY;
    forall y, x | t.InFrame(y, x) && bandY0 <= y < bandY1 && Visible(d, x, y)
      ensures minx <= x <= maxx && miny <= y <= maxy
    {
      OutsideBox(d, x, y, boxMaxX, boxMaxY);
    }
    if minx > maxx || miny > maxy {
      return;
    }
    for y := miny to maxy + 1
      invariant forall i, j | t.InFrame(i, j) && i < y ::
                  t.At(i, j) == BandPlot(d, zwrite, bandY0, bandY1, i, j, old(t.At(i, j)))
      invariant forall i, j | t.InFrame(i, j) && y <= i :: t.At(i, j) == old(t.At(i, j))
    {
      label row:
      RasterRow(t, d, zwrite, y, minx, maxx);
      forall j | 0 <= j < t.width
        ensures t.At(y, j) == BandPlot(d, zwrite, bandY0, bandY1, y, j, old(t.At(y, j)))
      {
        assert t.At(y, j) == Plot(d, zwrite, j, y, old@row(t.At(y, j)));
      }
    }
  }

  /** One scanline: solve the span and enter it at its left end. */
  method RasterRow(t: Target, d: Draw, zwrite: bool, y: int, minx: int, maxx: int)
    requires t.Valid() && 0 <= y < t.height && FrontFacing(d)
    requires minx == MinX(d) <= maxx < t.width
    requires forall x | 0 <= x < t.width && Visible(d, x, y) :: minx <= x <= maxx
    modifies t.rgb, t.depth
    ensures forall i, j | t.InFrame(i, j) && i != y :: t.At(i, j) == old(t.At(i, j))
    ensures forall j | 0 <= j < t.width :: t.At(y, j) == Plot(d, zwrite, j, y, old(t.At(y, j)))
  {
    hide Covers, Iw, Interpolate, Increment, Weigh, Source, Channel, Blend, Rejected, W0, W1, W2, Rows, Slopes, Edge;
    var slopes, rows := Slopes(d), Rows(d, y);
    var lo, hi := SolveSpan(rows, slopes, minx, maxx);
    forall x | 0 <= x < t.width && Visible(d, x, y) ensures lo <= x <= hi {
      CoversFromRows(d, x, y);
    }
    forall j, p | 0 <= j < t.width && !(lo <= j <= hi) ensures Plot(d, zwrite, j, y, p) == p {}
    if lo > hi {
      return;
    }
    var w0 := rows[0] + (lo - minx) as real * slopes[0];
    var w1 := rows[1] + (lo - minx) as real * slopes[1];
    var w2 := rows[2] + (lo - minx) as real * slopes[2];
    FromLeftEnd(d, y, lo);
    RasterSpan(t, d, zwrite, y, lo, hi, w0, w1, w2);
  }

  /** The pixels of one span, with the edge values and the interpolants stepped per pixel. */
  method RasterSpan(t: Target, d: Draw, zwrite: bool, y: int, lo: int, hi: int, l0: real, l1: real, l2: real)
    requires t.Valid() && 0 <= y < t.height && FrontFacing(d)
    requires 0 <= lo <= hi < t.width
    requires !Rejected(Rows(d, y), Slopes(d))
    requires l0 == W0(d, lo, y) && l1 == W1(d, lo, y) && l2 == W2(d, lo, y)
    modifies t.rgb, t.depth
    ensures forall i, j | t.InFrame(i, j) && !(i == y && lo <= j <= hi) :: t.At(i, j) == old(t.At(i, j))
    ensures forall j | lo <= j <= hi :: t.At(y, j) == Plot(d, zwrite, j, y, old(t.At(y, j)))
  {
    var slopes := Slopes(d);
    var iws, uws, vws := IwCorners(d), UwCorners(d), VwCorners(d);
    var diwdx, duwdx, dvwdx := Increment(d, iws), Increment(d, uws), Increment(d, vws);
    var w0, w1, w2 := l0, l1, l2;
    var iw, uw, vw := Weigh(d, iws, w0, w1, w2), Weigh(d, uws, w0, w1, w2), Weigh(d, vws, w0, w1, w2);
    for x := lo to hi + 1
      invariant w0 == W0(d, x, y) && w1 == W1(d, x, y) && w2 == W2(d, x, y)
      invariant iw == Interpolate(d, iws, x, y)
      invariant uw == Interpolate(d, uws, x, y)
      invariant vw == Interpolate(d, vws, x, y)
      invariant forall i, j | t.InFrame(i, j) && !(i == y && lo <= j < x) :: t.At(i, j) == old(t.At(i, j))
      invariant forall j | lo <= j < x :: t.At(y, j) == Plot(d, zwrite, j, y, old(t.At(y, j)))
    {
      RasterPixel(t, d, zwrite, y, x, w0, w1, w2, iw, uw, vw);
      StepAll(d, x, y);
      w0, w1, w2 := w0 + slopes[0], w1 + slopes[1], w2 + slopes[2];
      iw, uw, vw := iw + diwdx, uw + duwdx, vw + dvwdx;
    }
  }

  method RasterPixel(t: Target, d: Draw, zwrite: bool, y: int, x: int,
                     w0: real, w1: real, w2: real, iw: real, uw: real, vw: real)
    requires t.Valid() && t.InFrame(y, x) && FrontFacing(d)
    requires !Rejected(Rows(d, y), Slopes(d))
    requires w0 == W0(d, x, y) && w1 == W1(d, x, y) && w2 == W2(d, x, y)
    requires iw == Iw(d, x, y)
    requires uw == Interpolate(d, UwCorners(d), x, y) && vw == Interpolate(d, VwCorners(d), x, y)
    modifies t.rgb, t.depth
    ensures forall i, j | t.InFrame(i, j) && !(i == y && j == x) :: t.At(i, j) == old(t.At(i, j))
    ensures t.At(y, x) == Plot(d, zwrite, x, y, old(t.At(y, x)))
  {
    if w0 <= 0.0 && w1 <= 0.0 && w2 <= 0.0 {
      if iw > t.depth[y, x] {
        t.rgb[y, x] := Blend(d, Source(d.paint, uw, vw, iw), t.rgb[y, x]);
        if zwrite {
          t.depth[y, x] := iw;
        }
      }
    }
  }

  lemma StepAll(d: Draw, x: int, y: int)
    requires FrontFacing(d)
    ensures W0(d, x + 1, y) == W0(d, x, y) + Slopes(d)[0]
    ensures W1(d, x + 1, y) == W1(d, x, y) + Slopes(d)[1]
    ensures W2(d, x + 1, y) == W2(d, x, y) + Slopes(d)[2]
    ensures Interpolate(d, IwCorners(d), x + 1, y) == Interpolate(d, IwCorners(d), x, y) + Increment(d, IwCorners(d))
    ensures Interpolate(d, UwCorners(d), x + 1, y) == Interpolate(d, UwCorners(d), x, y) + Increment(d, UwCorners(d))
    ensures Interpolate(d, VwCorners(d), x + 1, y) == Interpolate(d, VwCorners(d), x, y) + Increment(d, VwCorners(d))
  {
    EdgeStep(d.s1, d.s2, x, 1, y);
    EdgeStep(d.s2, d.s0, x, 1, y);
    EdgeStep(d.s0, d.s1, x, 1, y);
    InterpolateStep(d, IwCorners(d), x, y);
    InterpolateStep(d, UwCorners(d), x, y);
    InterpolateStep(d, VwCorners(d), x, y);
  }

  // ---------- draw lists ----------

  /** The row bounds `cart3d_emit` stores with every triangle. */
  predicate Emitted(d: Draw) {
    && d.ymin == Min3(d.s0.y, d.s1.y, d.s2.y).Floor
    && d.ymax == Ceil(Max3(d.s0.y, d.s1.y, d.s2.y))
  }

  /** Band rejection by the stored bounds drops only triangles that draw nothing in the band. */
  lemma RejectionIsSafe(d: Draw, bandY0: int, bandY1: int, x: nat, y: int)
    requires Emitted(d) && bandY0 <= y < bandY1
    requires d.ymax < bandY0 || d.ymin >= bandY1
    ensures !Visible(d, x, y)
  {
    if Visible(d, x, y) {
      BoundingBox(d, x, y);
    }
  }

  lemma PlotAllSnoc(ds: seq<Draw>, d: Draw, zwrite: bool, x: int, y: int, p: Pixel)
    ensures PlotAll(ds + [d], zwrite, x, y, p) == Plot(d, zwrite, x, y, PlotAll(ds, zwrite, x, y, p))
  {
    if ds != [] {
      PlotAllSnoc(ds[1..], d, zwrite, x, y, Plot(ds[0], zwrite, x, y, p));
      assert (ds + [d])[1..] == ds[1..] + [d];
    } else {
      assert [d][1..] == [];
    }
  }

  method DrawListBand(t: Target, draws: seq<Draw>, zwrite: bool, bandY0: int, bandY1: int)
    requires t.Valid()
    requires forall d | d in draws :: Emitted(d)
    modifies t.rgb, t.depth
    ensures forall y, x | t.InFrame(y, x) ::
              t.At(y, x) == if bandY0 <= y < bandY1 then PlotAll(draws, zwrite, x, y, old(t.At(y, x)))
                            else old(t.At(y, x))
  {
    var y0 := if bandY0 < 0 then 0 else bandY0;
    var y1 := if bandY1 > t.height then t.height else bandY1;
    for i := 0 to |draws|
      invariant forall y, x | t.InFrame(y, x) ::
                  t.At(y, x) == if y0 <= y < y1 then PlotAll(draws[..i], zwrite, x, y, old(t.At(y, x)))
                                else old(t.At(y, x))
    {
      label before:
      if draws[i].ymax < y0 || draws[i].ymin >= y1 {
        forall y, x | t.InFrame(y, x) && y0 <= y < y1 ensures !Visible(draws[i], x, y) {
          RejectionIsSafe(draws[i], y0, y1, x, y);
        }
      } else {
        RasterBand(t, draws[i], zwrite, y0, y1);
      }
      forall y, x | t.InFrame(y, x) && y0 <= y < y1
        ensures t.At(y, x) == PlotAll(draws[..i + 1], zwrite, x, y, old(t.At(y, x)))
      {
        assert t.At(y, x) == Plot(draws[i], zwrite, x, y, old@before(t.At(y, x)));
        PlotAllSnoc(draws[..i], draws[i], zwrite, x, y, old(t.At(y, x)));
        assert draws[..i + 1] == draws[..i] + [draws[i]];
      }
    }
    assert draws[..|draws|] == draws;
  }

  /** The single-threaded path: one band that is the whole frame. */
  method DrawList(t: Target, draws: seq<Draw>, zwrite: bool)
    requires t.Valid()
    requires forall d | d in draws :: Emitted(d)
    modifies t.rgb, t.depth
    ensures forall y, x | t.InFrame(y, x) :: t.At(y, x) == PlotAll(draws, zwrite, x, y, old(t.At(y, x)))
  {
    DrawListBand(t, draws, zwrite, 0, t.height);
  }
}
