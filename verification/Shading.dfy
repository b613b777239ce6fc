/** What one draw writes into one pixel, told from the corners of its triangle and not from the stepped values. */
module Shading {
  import opened Raster

  /** Three values at the corners of a front-facing triangle lie on one plane. */
  lemma PlaneExists(d: Draw, v0: real, v1: real, v2: real) returns (p: Plane)
    requires FrontFacing(d)
    ensures Through(p, d, v0, v1, v2)
  {
    var x1, y1, x2, y2 := d.s1.x - d.s0.x, d.s1.y - d.s0.y, d.s2.x - d.s0.x, d.s2.y - d.s0.y;
    var n := Area(d);
    var a, b := ((v1 - v0) * y2 - (v2 - v0) * y1) / n, ((v2 - v0) * x1 - (v1 - v0) * x2) / n;
    Cramer(x1, y1, x2, y2, v1 - v0, v2 - v0, n);
    p := Plane(a, b, v0 - a * d.s0.x - b * d.s0.y);
    Shifted(a, b, d.s1.x, d.s1.y, d.s0.x, d.s0.y);
    Shifted(a, b, d.s2.x, d.s2.y, d.s0.x, d.s0.y);
  }

  lemma Shifted(a: real, b: real, x: real, y: real, x0: real, y0: real)
    ensures a * (x - x0) + b * (y - y0) == a * x + b * y - a * x0 - b * y0
  {}

  lemma Cramer(x1: real, y1: real, x2: real, y2: real, r1: real, r2: real, n: real)
    requires n != 0.0 && n == x1 * y2 - x2 * y1
    ensures var a, b := (r1 * y2 - r2 * y1) / n, (r2 * x1 - r1 * x2) / n; a * x1 + b * y1 == r1 && a * x2 + b * y2 == r2
  {
    var a, b := (r1 * y2 - r2 * y1) / n, (r2 * x1 - r1 * x2) / n;
    var an, bn := r1 * y2 - r2 * y1, r2 * x1 - r1 * x2;
    assert a * n == an && b * n == bn;
    Scaled(a, b, n, x1, y1, an, bn, r1);
    Scaled(a, b, n, x2, y2, an, bn, r2);
  }

  lemma Scaled(a: real, b: real, n: real, x: real, y: real, an: real, bn: real, r: real)
    requires n != 0.0 && a * n == an && b * n == bn && an * x + bn * y == r * n
    ensures a * x + b * y == r
  {
    assert (a * x + b * y) * n == an * x + bn * y;
    assert (a * x + b * y - r) * n == 0.0;
  }

  /** Rounded to the nearest whole number, a half upwards. */
  predicate Rounds(v: real, n: int) { n as real - 0.5 <= v < n as real + 0.5 }

  /** A colour channel after a draw: the lit source kept between 0 and 255; through glass, that much of the way from what was there. */
  predicate Mixes(d: Draw, src: real, was: int, now: int) {
    var raw := src * d.shade + d.rim;
    var lit := if raw < 0.0 then 0.0 else if raw > 255.0 then 255.0 else raw;
    Rounds(if d.alpha < 0.999 then was as real + d.alpha * (lit - was as real) else lit, now)
  }

  lemma ChannelMixes(d: Draw, src: real, was: int)
    ensures Mixes(d, src, was, Channel(d, src, was))
  {
    var raw := src * d.shade + d.rim;
    var lit := if raw < 0.0 then 0.0 else if raw > 255.0 then 255.0 else raw;
    Towards(was as real, d.alpha, lit);
  }

  lemma Towards(was: real, alpha: real, lit: real)
    ensures was * (1.0 - alpha) + lit * alpha == was + alpha * (lit - was)
  {}

  /** A draw leaves a pixel alone unless it is visible there and nearer than what the pixel shows. Then the depth it writes is the
      plane of its corners' 1/w at the pixel's centre, a texture is read where the planes of u/w and v/w divided by that lead,
      and each channel takes the source's own. */
  lemma PlotPaints(d: Draw, zwrite: bool, x: int, y: int, p: Pixel, iw: Plane, u: Plane, v: Plane)
    requires FrontFacing(d) && Through(iw, d, d.s0.iw, d.s1.iw, d.s2.iw)
    requires d.paint.Textured? ==>
               && Through(u, d, d.paint.u0 * d.s0.iw, d.paint.u1 * d.s1.iw, d.paint.u2 * d.s2.iw)
               && Through(v, d, d.paint.v0 * d.s0.iw, d.paint.v1 * d.s1.iw, d.paint.v2 * d.s2.iw)
    ensures var q, near := Plot(d, zwrite, x, y, p), iw.At(x, y);
            if Visible(d, x, y) && near > p.depth then
              var src := if d.paint.Flat? then d.paint.colour else d.paint.sample(u.At(x, y) / near, v.At(x, y) / near);
              && q.depth == (if zwrite then near else p.depth)
              && Mixes(d, src.r, p.rgb.r, q.rgb.r) && Mixes(d, src.g, p.rgb.g, q.rgb.g) && Mixes(d, src.b, p.rgb.b, q.rgb.b)
            else q == p
  {
    hide Visible, Interpolate, Mixes, Channel, Through;
    InterpolatesPlane(d, IwCorners(d), iw, x, y);
    if iw.At(x, y) > p.depth {
      SourceIs(d, x, y, iw.At(x, y), u, v);
      var src := Source(d.paint, Interpolate(d, UwCorners(d), x, y), Interpolate(d, VwCorners(d), x, y), iw.At(x, y));
      hide Source, UwCorners, VwCorners;
      ChannelMixes(d, src.r, p.rgb.r);
      ChannelMixes(d, src.g, p.rgb.g);
      ChannelMixes(d, src.b, p.rgb.b);
    }
  }

  /** The source a draw is given at a pixel. */
  lemma SourceIs(d: Draw, x: int, y: int, near: real, u: Plane, v: Plane)
    requires FrontFacing(d) && near > 0.0
    requires d.paint.Textured? ==>
               && Through(u, d, d.paint.u0 * d.s0.iw, d.paint.u1 * d.s1.iw, d.paint.u2 * d.s2.iw)
               && Through(v, d, d.paint.v0 * d.s0.iw, d.paint.v1 * d.s1.iw, d.paint.v2 * d.s2.iw)
    ensures Source(d.paint, Interpolate(d, UwCorners(d), x, y), Interpolate(d, VwCorners(d), x, y), near)
         == if d.paint.Flat? then d.paint.colour else d.paint.sample(u.At(x, y) / near, v.At(x, y) / near)
  {
    if d.paint.Textured? {
      hide Interpolate, FrontFacing, Source, Through, UwCorners, VwCorners;
      TextureCorners(d);
      InterpolatesPlane(d, UwCorners(d), u, x, y);
      InterpolatesPlane(d, VwCorners(d), v, x, y);
      TextureIs(d.paint, Interpolate(d, UwCorners(d), x, y), Interpolate(d, VwCorners(d), x, y), near);
    }
  }

  lemma TextureCorners(d: Draw)
    requires d.paint.Textured?
    ensures UwCorners(d) == Corners(d.paint.u0 * d.s0.iw, d.paint.u1 * d.s1.iw, d.paint.u2 * d.s2.iw)
    ensures VwCorners(d) == Corners(d.paint.v0 * d.s0.iw, d.paint.v1 * d.s1.iw, d.paint.v2 * d.s2.iw)
  {}

  lemma TextureIs(p: Paint, uw: real, vw: real, near: real)
    requires p.Textured? && near > 0.0
    ensures Source(p, uw, vw, near) == p.sample(uw / near, vw / near)
  {
    Divided(uw, near);
    Divided(vw, near);
  }

  lemma Divided(a: real, n: real)
    requires n > 0.0
    ensures a * (1.0 / n) == a / n
  {
    assert (a / n) * n == a && (1.0 / n) * n == 1.0;
    assert (a * (1.0 / n)) * n == a * ((1.0 / n) * n);
    Same(a * (1.0 / n), a / n, n);
  }

  lemma Same(x: real, y: real, n: real)
    requires n > 0.0 && x * n == y * n
    ensures x == y
  {
    assert (x - y) * n == 0.0;
  }
}
