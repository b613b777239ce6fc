/** What a whole draw list leaves in one pixel: the nearest depth, and whose colour it shows. */
module DepthBuffer {
  import opened Raster

  /** `v` is the maximum of the old depth and of every visible draw's 1/w. */
  ghost predicate IsNearest(ds: seq<Draw>, x: int, y: int, below: real, v: real) {
    && v >= below
    && (forall d | d in ds && Visible(d, x, y) :: Iw(d, x, y) <= v)
    && (v == below || exists d | d in ds :: Visible(d, x, y) && Iw(d, x, y) == v)
  }

  /** A depth-writing pass leaves the maximum. */
  lemma {:induction false} DepthIsNearest(ds: seq<Draw>, x: int, y: int, p: Pixel)
    ensures IsNearest(ds, x, y, p.depth, PlotAll(ds, true, x, y, p).depth)
  {
    if ds != [] {
      var d, q := ds[0], Plot(ds[0], true, x, y, p);
      DepthIsNearest(ds[1..], x, y, q);
      var v := PlotAll(ds, true, x, y, p).depth;
      assert q.depth == if Visible(d, x, y) && Iw(d, x, y) > p.depth then Iw(d, x, y) else p.depth;
      forall e | e in ds && Visible(e, x, y) ensures Iw(e, x, y) <= v {
        if e !in ds[1..] {
          assert e == d;
        }
      }
    }
  }

  /** So it does not depend on the order of the draws. */
  lemma DepthIgnoresOrder(ds: seq<Draw>, es: seq<Draw>, x: int, y: int, p: Pixel)
    requires forall d :: d in ds <==> d in es
    ensures PlotAll(ds, true, x, y, p).depth == PlotAll(es, true, x, y, p).depth
  {
    DepthIsNearest(ds, x, y, p);
    DepthIsNearest(es, x, y, p);
  }

  /** A pass without depth writes changes no depth. */
  lemma {:induction false} GlassKeepsDepth(ds: seq<Draw>, x: int, y: int, p: Pixel)
    ensures PlotAll(ds, false, x, y, p).depth == p.depth
  {
    if ds != [] {
      GlassKeepsDepth(ds[1..], x, y, Plot(ds[0], false, x, y, p));
    }
  }

  /** The colour an opaque draw shows, which no longer reads the pixel below. */
  function SolidColour(d: Draw, x: int, y: int): Rgb
    requires FrontFacing(d) && Iw(d, x, y) > 0.0
  {
    Blend(d, Source(d.paint, Interpolate(d, UwCorners(d), x, y), Interpolate(d, VwCorners(d), x, y), Iw(d, x, y)),
          Rgb(0, 0, 0))
  }

  lemma OpaqueIgnoresBackground(d: Draw, src: Colour, under: Rgb)
    requires d.alpha >= OPAQUE
    ensures Blend(d, src, under) == Blend(d, src, Rgb(0, 0, 0))
  {}

  /** Draw k is visible here and is the first in the list to reach depth v. */
  ghost predicate IsWinner(ds: seq<Draw>, x: int, y: int, v: real, k: int) {
    && 0 <= k < |ds| && Visible(ds[k], x, y) && Iw(ds[k], x, y) == v
    && forall j | 0 <= j < k :: !(Visible(ds[j], x, y) && Iw(ds[j], x, y) == v)
  }

  /** After an opaque depth-writing pass the pixel is untouched if no draw is nearer than it was;
      otherwise it shows the earliest of the nearest draws. */
  lemma LaterWinner(ds: seq<Draw>, x: int, y: int, depth: real, k: nat)
    requires ds != [] && IsWinner(ds[1..], x, y, depth, k) && (Visible(ds[0], x, y) ==> Iw(ds[0], x, y) < depth)
    ensures IsWinner(ds, x, y, depth, k + 1) && ds[k + 1] == ds[1..][k]
  {
    hide Visible, Iw;
    assert forall j | 0 <= j < |ds| - 1 :: ds[1..][j] == ds[j + 1];
  }

  lemma {:induction false} OpaqueWinner(ds: seq<Draw>, x: int, y: int, p: Pixel)
    requires forall d | d in ds :: d.alpha >= OPAQUE
    ensures var q := PlotAll(ds, true, x, y, p);
            if q.depth > p.depth then
              exists k :: IsWinner(ds, x, y, q.depth, k) && q.rgb == SolidColour(ds[k], x, y)
            else q == p
  {
    hide Source, Interpolate, UwCorners, VwCorners, Covers;
    DepthIsNearest(ds, x, y, p);
    if ds != [] {
      var d, p1 := ds[0], Plot(ds[0], true, x, y, p);
      var q := PlotAll(ds, true, x, y, p);
      OpaqueWinner(ds[1..], x, y, p1);
      DepthIsNearest(ds[1..], x, y, p1);
      if q.depth > p1.depth {
        var k :| IsWinner(ds[1..], x, y, q.depth, k) && q.rgb == SolidColour(ds[1..][k], x, y);
        assert Visible(d, x, y) ==> Iw(d, x, y) <= p1.depth;
        LaterWinner(ds, x, y, q.depth, k);
      } else if q.depth > p.depth {
        assert Visible(d, x, y) && q.depth == Iw(d, x, y);
        OpaqueIgnoresBackground(d, Source(d.paint, Interpolate(d, UwCorners(d), x, y), Interpolate(d, VwCorners(d), x, y), Iw(d, x, y)), p.rgb);
        assert IsWinner(ds, x, y, q.depth, 0);
      } else {
        assert p1 == p;
      }
    }
  }

  /** Hence, when no two visible draws tie at this pixel, the whole pixel ignores the draw order. */
  lemma OpaqueIgnoresOrder(ds: seq<Draw>, es: seq<Draw>, x: int, y: int, p: Pixel)
    requires forall d :: d in ds <==> d in es
    requires forall d | d in ds :: d.alpha >= OPAQUE
    requires forall d, e | d in ds && e in ds && Visible(d, x, y) && Visible(e, x, y) && Iw(d, x, y) == Iw(e, x, y) :: d == e
    ensures PlotAll(ds, true, x, y, p) == PlotAll(es, true, x, y, p)
  {
    DepthIgnoresOrder(ds, es, x, y, p);
    OpaqueWinner(ds, x, y, p);
    OpaqueWinner(es, x, y, p);
    var q, r := PlotAll(ds, true, x, y, p), PlotAll(es, true, x, y, p);
    if q.depth > p.depth {
      var k :| IsWinner(ds, x, y, q.depth, k) && q.rgb == SolidColour(ds[k], x, y);
      var l :| IsWinner(es, x, y, r.depth, l) && r.rgb == SolidColour(es[l], x, y);
      assert ds[k] in ds && es[l] in ds;
      assert ds[k] == es[l];
    }
  }
}
