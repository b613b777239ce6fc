/** The renderer's rectangle fill, against setting every pixel of the rectangle. */
module FillRect {
  import opened Optional
  import opened ByteText
  import opened Arithmetic

  /** A frame in a byte buffer: the mapped screen at its active offset, or the shadow copy at 0. */
  datatype Frame = Frame(xres: nat, yres: nat, stride: nat, bpp: nat, rotated: bool, offset: nat) {

    /** The driver's geometry: whole pixels in a line. */
    predicate Shaped() { 2 <= bpp <= 4 && 0 < stride && xres * bpp <= stride }

    /** And whole lines in the buffer. */
    predicate Fits(size: nat) { Shaped() && offset + yres * stride <= size }
  }

  /** The bytes of a pixel, lowest first. */
  function Lane(colour: nat, k: nat): Byte {
    if k == 0 then colour % 256 else if k == 1 then colour / 256 % 256
    else if k == 2 then colour / 65536 % 256 else colour / 16777216 % 256
  }

  /** The bytes of a pixel, read lowest first, are the colour cut to the pixel's width. */
  lemma LanesAreColour(colour: nat)
    ensures Lane(colour, 0) + 256 * Lane(colour, 1) == colour % 0x1_0000
    ensures Lane(colour, 0) + 256 * Lane(colour, 1) + 0x1_0000 * Lane(colour, 2) == colour % 0x100_0000
    ensures Lane(colour, 0) + 256 * Lane(colour, 1) + 0x1_0000 * Lane(colour, 2) + 0x100_0000 * Lane(colour, 3) == colour % 0x1_0000_0000
  {
    LowPair(colour);
    ThirdLane(colour);
    FourthLane(colour);
  }

  lemma LowPair(n: nat)
    ensures n % 0x1_0000 == n % 256 + 256 * (n / 256 % 256)
  {
    ModUnique(n, 0x1_0000, n / 256 / 256, n % 256 + 256 * (n / 256 % 256));
  }

  lemma ThirdLane(n: nat)
    ensures n % 0x100_0000 == n % 0x1_0000 + 0x1_0000 * (n / 0x1_0000 % 256)
  {
    ModUnique(n, 0x100_0000, n / 0x1_0000 / 256, n % 0x1_0000 + 0x1_0000 * (n / 0x1_0000 % 256));
  }

  lemma FourthLane(n: nat)
    ensures n % 0x1_0000_0000 == n % 0x100_0000 + 0x100_0000 * (n / 0x100_0000 % 256)
  {
    ModUnique(n, 0x1_0000_0000, n / 0x100_0000 / 256, n % 0x100_0000 + 0x100_0000 * (n / 0x100_0000 % 256));
  }

  // ---------- which byte belongs to which pixel ----------

  function Row(f: Frame, i: int): int
    requires f.stride > 0
  {
    (i - f.offset) / f.stride
  }

  function Column(f: Frame, i: int): nat
    requires f.stride > 0
  {
    (i - f.offset) % f.stride
  }

  /** The point shown by a byte, unless it is padding or outside the frame. */
  function PointOf(f: Frame, i: int): Option<(int, int)>
    requires f.stride > 0 && f.bpp > 0
  {
    var row, x := Row(f, i), Column(f, i) / f.bpp;
    if i < f.offset || row >= f.yres || x >= f.xres then None
    else if f.rotated then Some((f.xres - 1 - x, f.yres - 1 - row))
    else Some((x, row))
  }

  function LaneOf(f: Frame, i: int): nat
    requires f.stride > 0 && f.bpp > 0
  {
    Column(f, i) % f.bpp
  }

  /** Where a pixel's first byte stands. */
  function Position(f: Frame, x: nat, row: nat): nat { f.offset + row * f.stride + x * f.bpp }

  lemma Placed(f: Frame, x: nat, row: nat, k: nat)
    requires f.Shaped() && x < f.xres && row < f.yres && k < f.bpp
    ensures var i := Position(f, x, row) + k;
            && f.offset <= i && Row(f, i) == row && Column(f, i) / f.bpp == x && LaneOf(f, i) == k
  {
    var c := x * f.bpp + k;
    Below(x, f.xres, f.bpp);
    ModUnique(row * f.stride + c, f.stride, row, c);
    ModUnique(c, f.bpp, x, k);
  }

  /** Every pixel of a frame that fits is whole inside the buffer. */
  lemma Inside(f: Frame, size: nat, x: nat, row: nat)
    requires f.Fits(size) && x < f.xres && row < f.yres
    ensures Position(f, x, row) + f.bpp <= size
  {
    Below(x, f.xres, f.bpp);
    Below(row, f.yres, f.stride);
  }

  lemma Below(a: nat, b: nat, n: nat)
    requires a < b
    ensures a * n + n <= b * n
  {
    assert (b - a) * n == b * n - a * n;
    if n > 0 { Grows(n, b - a); }
  }

  lemma Parts(f: Frame, i: int)
    requires f.stride > 0 && f.bpp > 0 && f.offset <= i
    ensures i == f.offset + Row(f, i) * f.stride + Column(f, i)
    ensures Column(f, i) == Column(f, i) / f.bpp * f.bpp + LaneOf(f, i) && LaneOf(f, i) < f.bpp
  {}

  /** The bytes of a pixel are a run of bpp bytes, and no others. */
  lemma RunOf(f: Frame, x: nat, row: nat, i: int)
    requires f.Shaped() && x < f.xres && row < f.yres
    ensures var start := Position(f, x, row);
            && (f.offset <= i && Row(f, i) == row && Column(f, i) / f.bpp == x <==> start <= i < start + f.bpp)
            && (start <= i < start + f.bpp ==> LaneOf(f, i) == i - start)
  {
    hide Row, Column, LaneOf;
    var start := Position(f, x, row);
    if start <= i < start + f.bpp {
      Placed(f, x, row, i - start);
    } else if f.offset <= i {
      Parts(f, i);
    }
  }

  // ---------- pictures ----------

  /** Points from (x, y) up to, not including, (xEnd, yEnd). */
  datatype Area = Area(x: int, y: int, xEnd: int, yEnd: int) {
    predicate Has(p: (int, int)) { x <= p.0 < xEnd && y <= p.1 < yEnd }
  }

  function Point(x: int, y: int): Area { Area(x, y, x + 1, y + 1) }

  function PaintedByte(f: Frame, colour: nat, area: Area, i: int, was: Byte): Byte
    requires f.stride > 0 && f.bpp > 0
  {
    var p := PointOf(f, i);
    if p.Some? && area.Has(p.value) then Lane(colour, LaneOf(f, i)) else was
  }

  /** The bytes after every point of an area takes the colour. */
  function Painted(s: Bytes, f: Frame, colour: nat, area: Area): Bytes
    requires f.stride > 0 && f.bpp > 0
  {
    seq<Byte>(|s|, i requires 0 <= i < |s| => PaintedByte(f, colour, area, i, s[i]))
  }

  class Screen {
    var mem: array<Byte>
    var frame: Frame

    predicate Valid()
      reads this
    {
      frame.Shaped()
    }

    constructor (mem: array<Byte>, frame: Frame)
      requires frame.Shaped()
      ensures Valid() && this.mem == mem && this.frame == frame
    {
      this.mem, this.frame := mem, frame;
    }

    /** The bytes of a pixel from a position on. */
    method StoreAt(p: nat, colour: nat, ghost x: nat, ghost row: nat)
      requires Valid() && x < frame.xres && row < frame.yres && p == Position(frame, x, row) && p + frame.bpp <= mem.Length
      modifies mem
      ensures forall i | 0 <= i < mem.Length ::
                mem[i] == if frame.offset <= i && Row(frame, i) == row && Column(frame, i) / frame.bpp == x
                          then Lane(colour, LaneOf(frame, i)) else old(mem[i])
    {
      hide Row, Column, LaneOf, Lane, Position;
      mem[p] := Lane(colour, 0);
      mem[p + 1] := Lane(colour, 1);
      if frame.bpp >= 3 {
        mem[p + 2] := Lane(colour, 2);
      }
      if frame.bpp == 4 {
        mem[p + 3] := Lane(colour, 3);
      }
      forall i | 0 <= i < mem.Length
        ensures mem[i] == if frame.offset <= i && Row(frame, i) == row && Column(frame, i) / frame.bpp == x
                          then Lane(colour, LaneOf(frame, i)) else old(mem[i])
      {
        RunOf(frame, x, row, i);
      }
    }

    /** One pixel, clipped to the screen and left out when the buffer does not hold all of it. */
    method PutPixel(x0: int, y0: int, colour: nat)
      requires Valid()
      modifies mem
      ensures mem[..] == if Held(frame, mem.Length, x0, y0) then Painted(old(mem[..]), frame, colour, Point(x0, y0)) else old(mem[..])
    {
      hide Row, Column, LaneOf, Lane;
      var x, y := x0, y0;
      if x < 0 || y < 0 || x >= frame.xres || y >= frame.yres {
        NeverShown(mem[..], frame, colour, Point(x0, y0));
        return;
      }
      if frame.rotated {
        x := frame.xres - 1 - x;
        y := frame.yres - 1 - y;
      }
      var offset := frame.offset + y * frame.stride + x * frame.bpp;
      if offset < 0 || offset + frame.bpp > mem.Length {
        return;
      }
      StoreAt(offset, colour, x, y);
    }

    /** The rectangle, clipped, turned with the screen and written line by line. */
    method Fill(x0: int, y0: int, w: int, h: int, colour: nat)
      requires Valid() && frame.Fits(mem.Length)
      modifies mem
      ensures mem[..] == Painted(old(mem[..]), frame, colour, Area(x0, y0, x0 + w, y0 + h))
    {
      hide Row, Column, LaneOf, Lane;
      ghost var area := Area(x0, y0, x0 + w, y0 + h);
      ghost var before := mem[..];
      var x, y, xEnd, yEnd := x0, y0, x0 + w, y0 + h;
      if x < 0 { x := 0; }
      if y < 0 { y := 0; }
      if xEnd > frame.xres { xEnd := frame.xres; }
      if yEnd > frame.yres { yEnd := frame.yres; }
      if w <= 0 || h <= 0 || x >= xEnd || y >= yEnd {
        NeverShown(mem[..], frame, colour, area);
        return;
      }
      if frame.rotated {
        var rotatedX, rotatedY := frame.xres - xEnd, frame.yres - yEnd;
        xEnd, yEnd := rotatedX + (xEnd - x), rotatedY + (yEnd - y);
        x, y := rotatedX, rotatedY;
      }
      FillLines(x, y, xEnd, yEnd, colour);
      forall i | 0 <= i < mem.Length ensures mem[i] == PaintedByte(frame, colour, area, i, before[i]) {
        PointOnScreen(frame, i);
        if frame.offset <= i { RowOnScreen(frame, i); }
      }
    }

    /** The plain way: one pixel for each point of the rectangle, in any order. It leaves the bytes that the fill leaves. */
    method FillByPixels(x0: int, y0: int, w: int, h: int, colour: nat, points: seq<(int, int)>)
      requires Valid() && frame.Fits(mem.Length)
      requires forall p :: p in points <==> Area(x0, y0, x0 + w, y0 + h).Has(p)
      modifies mem
      ensures mem[..] == Painted(old(mem[..]), frame, colour, Area(x0, y0, x0 + w, y0 + h))
    {
      hide PointOf, LaneOf, Lane, Held;
      ghost var before := mem[..];
      assert points[0..] == points;
      for i := 0 to |points|
        invariant PutAll(mem[..], frame, colour, points[i..]) == PutAll(before, frame, colour, points)
      {
        assert points[i..][1..] == points[i + 1..];
        AllHeld(frame, mem.Length, points[i].0, points[i].1);
        PutPixel(points[i].0, points[i].1, colour);
      }
      FillIsEveryPixel(before, frame, colour, Area(x0, y0, x0 + w, y0 + h), points);
    }

    /** The fill in buffer coordinates: a position that steps along each line. */
    method FillLines(x: nat, y: nat, xEnd: nat, yEnd: nat, colour: nat)
      requires Valid() && frame.Fits(mem.Length) && x <= xEnd <= frame.xres && y <= yEnd <= frame.yres
      modifies mem
      ensures forall i | 0 <= i < mem.Length ::
                mem[i] == if frame.offset <= i && y <= Row(frame, i) < yEnd && x <= Column(frame, i) / frame.bpp < xEnd
                          then Lane(colour, LaneOf(frame, i)) else old(mem[i])
    {
      hide Row, Column, LaneOf, Lane;
      for yy := y to yEnd
        invariant forall i | 0 <= i < mem.Length ::
                    mem[i] == if frame.offset <= i && y <= Row(frame, i) < yy && x <= Column(frame, i) / frame.bpp < xEnd
                              then Lane(colour, LaneOf(frame, i)) else old(mem[i])
      {
        var row := frame.offset + yy * frame.stride + x * frame.bpp;
        for xx := x to xEnd
          invariant row == Position(frame, xx, yy)
          invariant forall i | 0 <= i < mem.Length ::
                      mem[i] == if frame.offset <= i && x <= Column(frame, i) / frame.bpp
                                   && ((y <= Row(frame, i) < yy && Column(frame, i) / frame.bpp < xEnd)
                                       || (Row(frame, i) == yy && Column(frame, i) / frame.bpp < xx))
                                then Lane(colour, LaneOf(frame, i)) else old(mem[i])
        {
          Inside(frame, mem.Length, xx, yy);
          StoreAt(row, colour, xx, yy);
          NextPosition(frame, xx, yy);
          row := row + frame.bpp;
        }
      }
    }
  }

  lemma NextPosition(f: Frame, x: nat, row: nat)
    ensures Position(f, x + 1, row) == Position(f, x, row) + f.bpp
  {}

  /** The buffer holds all the bytes of a point of the screen. */
  predicate Held(f: Frame, size: nat, x: int, y: int)
    requires f.Shaped()
  {
    0 <= x < f.xres && 0 <= y < f.yres ==>
      Position(f, if f.rotated then f.xres - 1 - x else x, if f.rotated then f.yres - 1 - y else y) + f.bpp <= size
  }

  /** In a buffer of whole lines every point is held. */
  lemma AllHeld(f: Frame, size: nat, x: int, y: int)
    requires f.Fits(size)
    ensures Held(f, size, x, y)
  {
    if 0 <= x < f.xres && 0 <= y < f.yres {
      Inside(f, size, if f.rotated then f.xres - 1 - x else x, if f.rotated then f.yres - 1 - y else y);
    }
  }

  // ---------- one fill, many pixels ----------

  /** Setting points one after the other. */
  function PutAll(s: Bytes, f: Frame, colour: nat, points: seq<(int, int)>): Bytes
    requires f.stride > 0 && f.bpp > 0
    decreases |points|
  {
    if points == [] then s
    else PutAll(Painted(s, f, colour, Point(points[0].0, points[0].1)), f, colour, points[1..])
  }

  lemma {:induction false} PutAllAt(s: Bytes, f: Frame, colour: nat, points: seq<(int, int)>, i: nat)
    requires f.stride > 0 && f.bpp > 0 && i < |s|
    ensures |PutAll(s, f, colour, points)| == |s|
    ensures PutAll(s, f, colour, points)[i]
         == if PointOf(f, i).Some? && PointOf(f, i).value in points then Lane(colour, LaneOf(f, i)) else s[i]
    decreases |points|
  {
    hide PointOf, LaneOf, Lane;
    if points != [] {
      PutAllAt(Painted(s, f, colour, Point(points[0].0, points[0].1)), f, colour, points[1..], i);
    }
  }

  /** The fill leaves the bytes that setting every point of the rectangle leaves, in any order and with any repeats;
      the padding of the lines keeps its bytes. */
  lemma FillIsEveryPixel(s: Bytes, f: Frame, colour: nat, area: Area, points: seq<(int, int)>)
    requires f.stride > 0 && f.bpp > 0
    requires forall p :: p in points <==> area.Has(p)
    ensures Painted(s, f, colour, area) == PutAll(s, f, colour, points)
    ensures forall i | 0 <= i < |s| && PointOf(f, i).None? :: Painted(s, f, colour, area)[i] == s[i]
  {
    hide PointOf, LaneOf, Lane;
    PutAllLength(s, f, colour, points);
    forall i | 0 <= i < |s| ensures PutAll(s, f, colour, points)[i] == Painted(s, f, colour, area)[i] {
      PutAllAt(s, f, colour, points, i);
    }
  }

  lemma {:induction false} PutAllLength(s: Bytes, f: Frame, colour: nat, points: seq<(int, int)>)
    requires f.stride > 0 && f.bpp > 0
    ensures |PutAll(s, f, colour, points)| == |s|
    decreases |points|
  {
    if points != [] { PutAllLength(Painted(s, f, colour, Point(points[0].0, points[0].1)), f, colour, points[1..]); }
  }

  lemma RowOnScreen(f: Frame, i: int)
    requires f.stride > 0 && f.bpp > 0 && f.offset <= i
    ensures Row(f, i) >= 0 && Column(f, i) / f.bpp >= 0
  {
    NonNegative(i - f.offset, f.stride);
    NonNegative(Column(f, i), f.bpp);
  }

  /** An area off the screen shows nothing. */
  lemma NeverShown(s: Bytes, f: Frame, colour: nat, area: Area)
    requires f.stride > 0 && f.bpp > 0
    requires area.xEnd <= 0 || area.yEnd <= 0 || area.x >= f.xres || area.y >= f.yres || area.x >= area.xEnd || area.y >= area.yEnd
             || f.xres == 0 || f.yres == 0
    ensures Painted(s, f, colour, area) == s
  {
    forall i | 0 <= i < |s| ensures PaintedByte(f, colour, area, i, s[i]) == s[i] {
      PointOnScreen(f, i);
    }
  }

  lemma PointOnScreen(f: Frame, i: int)
    requires f.stride > 0 && f.bpp > 0
    ensures var p := PointOf(f, i); p.Some? ==> 0 <= p.value.0 < f.xres && 0 <= p.value.1 < f.yres
  {
    if i >= f.offset {
      NonNegative(i - f.offset, f.stride);
      NonNegative(Column(f, i), f.bpp);
    }
  }

  lemma NonNegative(a: int, n: int)
    requires a >= 0 && n > 0
    ensures a / n >= 0
  {}
}
