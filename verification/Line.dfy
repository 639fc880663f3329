/** ctx_put_pixel and ctx_draw_line (source/kernel/libs/ui/graphics_context.c):
    Bresenham's line on a clipped pixel buffer. */
module Line {
  import opened Bits

  // ----- the ideal line

  datatype Point = Point(x: int, y: int)

  function Abs(v: int): nat { if v < 0 then 0 - v else v }

  function Max(a: int, b: int): int { if a >= b then a else b }

  /** After k of d0 steps along the major axis: the integer nearest k*d/d0, the
      smaller one of two. */
  function Minor(k: nat, d: nat, d0: nat): nat {
    if d0 == 0 then 0 else MinorWf(k, d, d0); (2 * k * d + d0 - 1) / (2 * d0)
  }

  lemma MinorWf(k: nat, d: nat, d0: nat)
    requires d0 > 0
    ensures (2 * k * d + d0 - 1) / (2 * d0) >= 0
  {
    DivBound(2 * k * d + d0 - 1, 2 * d0);
  }

  /** Half a pixel: the defining property of Minor, in units of 1/(2*d0). */
  lemma HalfPixel(k: nat, d: nat, d0: nat)
    requires d0 > 0
    ensures 0 - d0 < 2 * (k * d - Minor(k, d, d0) * d0) <= d0
  {
    var t, m := 2 * k * d + d0 - 1, Minor(k, d, d0);
    DivBound(t, 2 * d0);
    MulAssoc(2, k, d);
    MulAssoc(2, m, d0);
    assert m * (2 * d0) == 2 * (m * d0);
  }

  lemma HalfPixelUnique(k: nat, d: nat, d0: nat, m: nat)
    requires d0 > 0 && 0 - d0 < 2 * (k * d - m * d0) <= d0
    ensures m == Minor(k, d, d0)
  {
    var t := 2 * k * d + d0 - 1;
    MulAssoc(2, k, d);
    assert m * (2 * d0) == 2 * (m * d0);
    DivModUnique(t, 2 * d0, m, t - m * (2 * d0));
  }

  /** The line's k-th point. */
  function PointAt(x1: int, y1: int, x2: int, y2: int, k: nat): Point {
    var dx, dy := Abs(x2 - x1), Abs(y2 - y1);
    var sx, sy := if x1 < x2 then 1 else -1, if y1 < y2 then 1 else -1;
    if dx >= dy then Point(x1 + sx * k, y1 + sy * Minor(k, dy, dx))
    else Point(x1 + sx * Minor(k, dx, dy), y1 + sy * k)
  }

  function LinePoints(x1: int, y1: int, x2: int, y2: int, n: nat): seq<Point> {
    seq(n, k requires 0 <= k => PointAt(x1, y1, x2, y2, k))
  }

  // ----- one turn of the loop

  /** d0*k + ... modulo 2*d0: what Minor leaves over. */
  function Rest(k: nat, d: nat, d0: nat): int
    requires d0 > 0
  {
    (2 * k * d + d0 - 1) % (2 * d0)
  }

  lemma Advance(k: nat, d: nat, d0: nat, e: int)
    requires d <= d0 && d0 > 0 && 2 * e == 3 * d0 - 1 - Rest(k, d, d0) - 2 * d
    ensures 0 - d < 2 * e < 3 * d0
    ensures Minor(k + 1, d, d0) == Minor(k, d, d0) + if 2 * e < d0 then 1 else 0
    ensures var e' := e - d + if 2 * e < d0 then d0 else 0;
            2 * e' == 3 * d0 - 1 - Rest(k + 1, d, d0) - 2 * d
  {
    NextMinor(k, d, d0);
    if d == d0 {
      Diagonal(k, d0);
    }
  }

  lemma NextMinor(k: nat, d: nat, d0: nat)
    requires d <= d0 && d0 > 0
    ensures 0 <= Rest(k, d, d0) < 2 * d0
    ensures Rest(k, d, d0) + 2 * d >= 2 * d0 ==>
              Minor(k + 1, d, d0) == Minor(k, d, d0) + 1 && Rest(k + 1, d, d0) == Rest(k, d, d0) + 2 * d - 2 * d0
    ensures Rest(k, d, d0) + 2 * d < 2 * d0 ==>
              Minor(k + 1, d, d0) == Minor(k, d, d0) && Rest(k + 1, d, d0) == Rest(k, d, d0) + 2 * d
  {
    var t := 2 * k * d + d0 - 1;
    assert 2 * (k + 1) * d + d0 - 1 == t + 2 * d by {
      MulAssoc(2, k, d);
      MulAssoc(2, k + 1, d);
      Distribute(k, 1, d);
    }
    NextQuotient(t, 2 * d, 2 * d0);
  }

  lemma NextQuotient(t: nat, step: nat, b: nat)
    requires step <= b && b > 0
    ensures t % b + step >= b ==> (t + step) / b == t / b + 1 && (t + step) % b == t % b + step - b
    ensures t % b + step < b ==> (t + step) / b == t / b && (t + step) % b == t % b + step
  {
    var m: int, r: int := t / b, t % b;
    assert t == m * b + r;
    Distribute(m, 1, b);
    if r + step >= b {
      DivModUnique(t + step, b, m + 1, r + step - b);
    } else {
      DivModUnique(t + step, b, m, r + step);
    }
  }

  lemma Diagonal(k: nat, d0: nat)
    requires d0 > 0
    ensures Rest(k, d0, d0) == d0 - 1
  {
    MulAssoc(k, 2, d0);
    DivModUnique(2 * k * d0 + d0 - 1, 2 * d0, k, d0 - 1);
  }

  lemma Start(d: nat, d0: nat)
    requires d0 > 0
    ensures Minor(0, d, d0) == 0 && Rest(0, d, d0) == d0 - 1
  {
    DivModUnique(d0 - 1, 2 * d0, 0, d0 - 1);
  }

  lemma Finish(d: nat, d0: nat)
    requires d0 > 0
    ensures Minor(d0, d, d0) == d
  {
    assert d0 * d == d * d0;
    HalfPixelUnique(d0, d, d0, d);
  }

  /** Every point is within half a pixel of the true line, measured along the minor
      axis; the major axis moves one pixel per point; the ends are the given ones. */
  lemma LineAccurate(x1: int, y1: int, x2: int, y2: int, k: nat)
    requires k <= Max(Abs(x2 - x1), Abs(y2 - y1))
    ensures var dx, dy, p := Abs(x2 - x1), Abs(y2 - y1), PointAt(x1, y1, x2, y2, k);
            var i, j := Abs(p.x - x1), Abs(p.y - y1);
            && (dx >= dy ==> i == k && 2 * Abs(k * dy - j * dx) <= dx)
            && (dx < dy ==> j == k && 2 * Abs(k * dx - i * dy) <= dy)
    ensures PointAt(x1, y1, x2, y2, 0) == Point(x1, y1)
    ensures PointAt(x1, y1, x2, y2, Max(Abs(x2 - x1), Abs(y2 - y1))) == Point(x2, y2)
  {
    var dx, dy := Abs(x2 - x1), Abs(y2 - y1);
    if dx >= dy && dx > 0 {
      HalfPixel(k, dy, dx);
      Start(dy, dx);
      Finish(dy, dx);
    } else if dx < dy {
      HalfPixel(k, dx, dy);
      Start(dx, dy);
      Finish(dx, dy);
    }
  }

  /** Neighbouring points of the line touch. */
  lemma LineConnected(x1: int, y1: int, x2: int, y2: int, k: nat)
    ensures var p, q := PointAt(x1, y1, x2, y2, k), PointAt(x1, y1, x2, y2, k + 1);
            Abs(q.x - p.x) <= 1 && Abs(q.y - p.y) <= 1 && p != q
  {
    var dx, dy := Abs(x2 - x1), Abs(y2 - y1);
    if dx >= dy {
      if dx > 0 { NextMinor(k, dy, dx); }
    } else {
      NextMinor(k, dx, dy);
    }
  }

  // ----- the pixel buffer

  type byte = x: int | 0 <= x < 256

  /** Byte k of a little-endian store of color. */
  function ColorByte(color: word, k: nat): byte {
    if k == 0 then color % 0x100
    else if k == 1 then color / 0x100 % 0x100
    else if k == 2 then color / 0x1_0000 % 0x100
    else color / 0x100_0000 % 0x100
  }

  /** The four bytes are the digits of the color to base 256. */
  lemma ColorBytes(color: word)
    ensures ColorByte(color, 0) + 0x100 * ColorByte(color, 1) == color % 0x1_0000
    ensures ColorByte(color, 0) + 0x100 * ColorByte(color, 1)
            + 0x1_0000 * ColorByte(color, 2) + 0x100_0000 * ColorByte(color, 3) == color
  {
    LowHalf(color);
    LowHalf(color / 0x1_0000);
    assert color / 0x1_0000 / 0x100 == color / 0x100_0000;
  }

  lemma LowHalf(x: nat)
    ensures x % 0x100 + 0x100 * (x / 0x100 % 0x100) == x % 0x1_0000
  {
    DivModUnique(x, 0x1_0000, x / 0x100 / 0x100, x % 0x100 + 0x100 * (x / 0x100 % 0x100));
  }

  /** The little-endian number in n bytes from position o on. */
  function Load(b: seq<byte>, o: nat, n: nat): nat
    requires o + n <= |b|
    decreases n
  {
    if n == 0 then 0 else b[o] as int + 0x100 * Load(b, o + 1, n - 1)
  }

  lemma LoadIs(b: seq<byte>, o: nat, n: nat)
    requires o + n <= |b| && n in {1, 2, 4}
    ensures n == 1 ==> Load(b, o, n) == b[o] as int
    ensures n == 2 ==> Load(b, o, n) == b[o] as int + 0x100 * (b[o + 1] as int)
    ensures n == 4 ==>
              Load(b, o, n) == b[o] as int + 0x100 * (b[o + 1] as int)
                               + 0x1_0000 * (b[o + 2] as int) + 0x100_0000 * (b[o + 3] as int)
  {
    if n == 4 {
      assert Load(b, o + 2, 2) == b[o + 2] as int + 0x100 * (b[o + 3] as int);
    }
  }

  class GraphicsContext {
    const buffer: array<byte>
    const width: int
    const height: int
    const pitch: int
    const bytesPerPixel: int

    constructor (buffer: array<byte>, width: int, height: int, pitch: int, bytesPerPixel: int)
      ensures this.buffer == buffer && this.width == width && this.height == height
      ensures this.pitch == pitch && this.bytesPerPixel == bytesPerPixel
    {
      this.buffer, this.width, this.height := buffer, width, height;
      this.pitch, this.bytesPerPixel := pitch, bytesPerPixel;
    }

    /** The rows fit in the buffer and do not overlap. */
    predicate Sound() {
      && width >= 0 && height >= 0 && bytesPerPixel > 0
      && 0 < pitch && width * bytesPerPixel <= pitch && height * pitch <= buffer.Length < 0x8000_0000
    }

    predicate Visible(p: Point) {
      0 <= p.x < width && 0 <= p.y < height && bytesPerPixel in {1, 2, 4}
    }

    /** The pixel that byte a of the buffer belongs to. */
    function Owner(a: nat): Point
      requires Sound()
    {
      Point(a % pitch / bytesPerPixel, a / pitch)
    }

    /** Byte a once the pixels pts have been given the color. */
    ghost function Ink(b: seq<byte>, pts: set<Point>, color: word, a: nat): byte
      requires Sound() && a < |b|
    {
      if Owner(a) in pts && Visible(Owner(a)) then ColorByte(color, a % pitch % bytesPerPixel) else b[a]
    }

    /** Exactly the visible pixels of pts have been painted. */
    ghost predicate Painted(b: seq<byte>, b': seq<byte>, pts: set<Point>, color: word)
      requires Sound()
    {
      |b'| == |b| && forall a: nat :: a < |b| ==> b'[a] == Ink(b, pts, color, a)
    }

    lemma PaintedTwice(b: seq<byte>, b': seq<byte>, b'': seq<byte>, s: set<Point>, t: set<Point>, color: word)
      requires Sound() && Painted(b, b', s, color) && Painted(b', b'', t, color)
      ensures Painted(b, b'', s + t, color)
    {
      forall a: nat | a < |b| ensures b''[a] == Ink(b, s + t, color, a) {
        assert b''[a] == Ink(b', t, color, a);
        assert b'[a] == Ink(b, s, color, a);
      }
    }

    /** The bytes of pixel (x, y) are the bytesPerPixel ones from its offset on. */
    lemma OwnerRange(x: int, y: int, a: nat)
      requires Sound() && 0 <= x < width && 0 <= y < height
      ensures 0 <= y * pitch + x * bytesPerPixel
      ensures y * pitch + x * bytesPerPixel + bytesPerPixel <= height * pitch
      ensures Owner(a) == Point(x, y) <==>
                0 <= a - (y * pitch + x * bytesPerPixel) < bytesPerPixel
      ensures Owner(a) == Point(x, y) ==> a % pitch % bytesPerPixel == a - (y * pitch + x * bytesPerPixel)
    {
      OwnerRangeAbstract(x, y, a, pitch, bytesPerPixel, width);
      MulMono(y + 1, height, pitch);
      Distribute(y, 1, pitch);
    }

    /** Where the bytes of pixel (x, y) start. */
    function Offset(x: int, y: int): (o: nat)
      requires Sound() && 0 <= x < width && 0 <= y < height
      ensures o + bytesPerPixel <= buffer.Length
    {
      OwnerRange(x, y, 0);
      y * pitch + x * bytesPerPixel
    }

    /** A painted pixel reads back as the color, cut to its width, and any other pixel as before. */
    lemma PaintedReads(b: seq<byte>, b': seq<byte>, pts: set<Point>, color: word, x: int, y: int)
      requires Sound() && |b| == buffer.Length && Painted(b, b', pts, color)
      requires 0 <= x < width && 0 <= y < height && bytesPerPixel in {1, 2, 4}
      ensures Load(b', Offset(x, y), bytesPerPixel) ==
              if Point(x, y) !in pts then Load(b, Offset(x, y), bytesPerPixel)
              else if bytesPerPixel == 1 then color % 0x100
              else if bytesPerPixel == 2 then color % 0x1_0000
              else color
    {
      var o := Offset(x, y);
      forall k | 0 <= k < bytesPerPixel
        ensures b'[o + k] == if Point(x, y) in pts then ColorByte(color, k) else b[o + k]
      {
        OwnerRange(x, y, o + k);
      }
      LoadIs(b, o, bytesPerPixel);
      LoadIs(b', o, bytesPerPixel);
      ColorBytes(color);
    }

    method PutPixel(x: int, y: int, color: word)
      requires Sound()
      modifies buffer
      ensures Painted(old(buffer[..]), buffer[..], {Point(x, y)}, color)
    {
      if x < 0 || x >= width || y < 0 || y >= height {
        return;
      }
      var offset := y * pitch + x * bytesPerPixel;
      forall a: nat ensures Owner(a) == Point(x, y) <==> 0 <= a - offset < bytesPerPixel
                    ensures Owner(a) == Point(x, y) ==> a % pitch % bytesPerPixel == a - offset {
        OwnerRange(x, y, a);
      }
      OwnerRange(x, y, 0);
      match bytesPerPixel
      case 1 =>
        buffer[offset] := ColorByte(color, 0);
      case 2 =>
        buffer[offset], buffer[offset + 1] := ColorByte(color, 0), ColorByte(color, 1);
      case 4 =>
        buffer[offset], buffer[offset + 1] := ColorByte(color, 0), ColorByte(color, 1);
        buffer[offset + 2], buffer[offset + 3] := ColorByte(color, 2), ColorByte(color, 3);
      case _ =>
    }
  }

  lemma OwnerRangeAbstract(x: nat, y: nat, a: nat, pitch: int, bpp: int, width: int)
    requires bpp > 0 && pitch > 0 && x < width && width * bpp <= pitch
    ensures 0 <= y * pitch && 0 <= x * bpp && x * bpp + bpp <= pitch
    ensures a % pitch / bpp == x && a / pitch == y <==> 0 <= a - (y * pitch + x * bpp) < bpp
    ensures a % pitch / bpp == x && a / pitch == y ==> a % pitch % bpp == a - (y * pitch + x * bpp)
  {
    MulMono(x + 1, width, bpp);
    Distribute(x, 1, bpp);
    var k := a - (y * pitch + x * bpp);
    if 0 <= k < bpp {
      DivModUnique(a, pitch, y, x * bpp + k);
      DivModUnique(x * bpp + k, bpp, x, k);
    }
    if a % pitch / bpp == x && a / pitch == y {
      assert a == y * pitch + a % pitch;
      assert a % pitch == x * bpp + a % pitch % bpp;
    }
  }

  // ----- the loop

  predicate Int32(v: int) { -0x8000_0000 <= v < 0x8000_0000 }

  ghost function Points(s: seq<Point>): set<Point> {
    set p | p in s
  }

  /** The loop variables. */
  datatype Cursor = Cursor(x: int, y: int, err: int)

  /** One turn, with both tests made on the same doubled error. */
  function Step(c: Cursor, dx: int, dy: int, sx: int, sy: int): Cursor {
    var right, down := 2 * c.err > -dy, 2 * c.err < dx;
    Cursor(if right then c.x + sx else c.x, if down then c.y + sy else c.y,
           c.err - (if right then dy else 0) + (if down then dx else 0))
  }

  /** The loop variables before the k-th point is plotted. */
  ghost predicate Tracks(x1: int, y1: int, x2: int, y2: int, k: nat, c: Cursor) {
    var dx, dy := Abs(x2 - x1), Abs(y2 - y1);
    && Point(c.x, c.y) == PointAt(x1, y1, x2, y2, k)
    && (dx >= dy && dx > 0 ==> 2 * c.err == 3 * dx - 1 - Rest(k, dy, dx) - 2 * dy)
    && (dx < dy ==> -2 * c.err == 3 * dy - 1 - Rest(k, dx, dy) - 2 * dx)
  }

  /** No int of the turn leaves 32 bits: the doubled error and both updates of the error. */
  predicate TurnFits(err: int, dx: int, dy: int) {
    && Int32(2 * err)
    && (2 * err > -dy ==> Int32(err - dy))
    && Int32(Step(Cursor(0, 0, err), dx, dy, 1, 1).err)
  }

  /** The error before the k-th point is plotted. */
  function ErrorAt(dx: nat, dy: nat, k: nat): int
    requires dx > 0 || dy > 0
  {
    if dx >= dy then (3 * dx - 1 - Rest(k, dy, dx)) / 2 - dy else dx - (3 * dy - 1 - Rest(k, dx, dy)) / 2
  }

  /** No 32-bit int of the line overflows: the spans and every turn before the last point. */
  ghost predicate NoOverflow(x1: int, y1: int, x2: int, y2: int) {
    var dx, dy := Abs(x2 - x1), Abs(y2 - y1);
    && Int32(dx) && Int32(dy)
    && forall k: nat :: k < Max(dx, dy) ==> TurnFits(ErrorAt(dx, dy, k), dx, dy)
  }

  lemma ErrorIs(x1: int, y1: int, x2: int, y2: int, k: nat, c: Cursor)
    requires Tracks(x1, y1, x2, y2, k, c) && (x1 != x2 || y1 != y2)
    ensures c.err == ErrorAt(Abs(x2 - x1), Abs(y2 - y1), k)
  {
  }

  lemma NotAtEnd(x1: int, y1: int, x2: int, y2: int, k: nat, c: Cursor)
    requires Tracks(x1, y1, x2, y2, k, c) && (c.x != x2 || c.y != y2)
    requires k <= Max(Abs(x2 - x1), Abs(y2 - y1))
    ensures k < Max(Abs(x2 - x1), Abs(y2 - y1))
  {
    LineAccurate(x1, y1, x2, y2, k);
  }

  lemma Turn(x1: int, y1: int, x2: int, y2: int, k: nat, c: Cursor, c': Cursor)
    requires Tracks(x1, y1, x2, y2, k, c) && (c.x != x2 || c.y != y2)
    requires c' == Step(c, Abs(x2 - x1), Abs(y2 - y1), if x1 < x2 then 1 else -1, if y1 < y2 then 1 else -1)
    requires k <= Max(Abs(x2 - x1), Abs(y2 - y1))
    ensures k + 1 <= Max(Abs(x2 - x1), Abs(y2 - y1))
    ensures Tracks(x1, y1, x2, y2, k + 1, c')
  {
    LineAccurate(x1, y1, x2, y2, 0);
    var dx, dy := Abs(x2 - x1), Abs(y2 - y1);
    if dx >= dy {
      Advance(k, dy, dx, c.err);
    } else {
      Advance(k, dx, dy, -c.err);
    }
  }

  lemma OnePointMore(x1: int, y1: int, x2: int, y2: int, n: nat)
    ensures LinePoints(x1, y1, x2, y2, n + 1) == LinePoints(x1, y1, x2, y2, n) + [PointAt(x1, y1, x2, y2, n)]
  {
  }

  lemma PointsAppend(s: seq<Point>, p: Point)
    ensures Points(s + [p]) == Points(s) + {p}
  {
  }

  method DrawLine(ctx: GraphicsContext, x1: int, y1: int, x2: int, y2: int, color: word)
    returns (ghost pts: seq<Point>)
    requires ctx.Sound() && NoOverflow(x1, y1, x2, y2)
    modifies ctx.buffer
    ensures pts == LinePoints(x1, y1, x2, y2, Max(Abs(x2 - x1), Abs(y2 - y1)) + 1)
    ensures ctx.Painted(old(ctx.buffer[..]), ctx.buffer[..], Points(pts), color)
  {
    var dx := if x2 > x1 then x2 - x1 else x1 - x2;
    var dy := if y2 > y1 then y2 - y1 else y1 - y2;
    var sx, sy := if x1 < x2 then 1 else -1, if y1 < y2 then 1 else -1;
    var x, y, err := x1, y1, dx - dy;
    ghost var k: nat, n: nat := 0, Max(dx, dy);
    pts := [];
    Endpoints(x1, y1, x2, y2);
    while true
      invariant k <= n && Tracks(x1, y1, x2, y2, k, Cursor(x, y, err))
      invariant pts == LinePoints(x1, y1, x2, y2, k)
      invariant ctx.Painted(old(ctx.buffer[..]), ctx.buffer[..], Points(pts), color)
      decreases n - k
    {
      pts := PlotNext(ctx, old(ctx.buffer[..]), pts, Point(x, y), color);
      OnePointMore(x1, y1, x2, y2, k);
      if x == x2 && y == y2 {
        BeforeEnd(x1, y1, x2, y2, k);
        break;
      }
      ghost var c := Cursor(x, y, err);
      NotAtEnd(x1, y1, x2, y2, k, c);
      ErrorIs(x1, y1, x2, y2, k, c);
      assert TurnFits(err, dx, dy);
      var e2 := 2 * err;
      x, y, err := MoveCursor(x, y, err, e2, dx, dy, sx, sy);
      Turn(x1, y1, x2, y2, k, c, Cursor(x, y, err));
      k := k + 1;
    }
  }

  method MoveCursor(x0: int, y0: int, err0: int, e2: int, dx: int, dy: int, sx: int, sy: int)
    returns (x: int, y: int, err: int)
    requires e2 == 2 * err0 && TurnFits(err0, dx, dy)
    ensures Cursor(x, y, err) == Step(Cursor(x0, y0, err0), dx, dy, sx, sy)
  {
    x, y, err := x0, y0, err0;
    if e2 > -dy { err := err - dy; x := x + sx; }
    assert Int32(err);
    if e2 < dx { err := err + dx; y := y + sy; }
    assert Int32(err);
  }

  method PlotNext(ctx: GraphicsContext, ghost b0: seq<byte>, ghost pts: seq<Point>, p: Point, color: word)
    returns (ghost pts': seq<Point>)
    requires ctx.Sound() && ctx.Painted(b0, ctx.buffer[..], Points(pts), color)
    modifies ctx.buffer
    ensures pts' == pts + [p] && ctx.Painted(b0, ctx.buffer[..], Points(pts'), color)
  {
    ghost var b := ctx.buffer[..];
    ctx.PutPixel(p.x, p.y, color);
    ctx.PaintedTwice(b0, b, ctx.buffer[..], Points(pts), {p}, color);
    PointsAppend(pts, p);
    pts' := pts + [p];
  }

  lemma Endpoints(x1: int, y1: int, x2: int, y2: int)
    ensures PointAt(x1, y1, x2, y2, 0) == Point(x1, y1)
    ensures PointAt(x1, y1, x2, y2, Max(Abs(x2 - x1), Abs(y2 - y1))) == Point(x2, y2)
    ensures Tracks(x1, y1, x2, y2, 0, Cursor(x1, y1, Abs(x2 - x1) - Abs(y2 - y1)))
  {
    LineAccurate(x1, y1, x2, y2, 0);
    var dx, dy := Abs(x2 - x1), Abs(y2 - y1);
    if Max(dx, dy) > 0 {
      Start(if dx >= dy then dy else dx, Max(dx, dy));
    }
  }

  /** The end point is not met early. */
  lemma BeforeEnd(x1: int, y1: int, x2: int, y2: int, k: nat)
    requires k <= Max(Abs(x2 - x1), Abs(y2 - y1)) && PointAt(x1, y1, x2, y2, k) == Point(x2, y2)
    ensures k == Max(Abs(x2 - x1), Abs(y2 - y1))
  {
    LineAccurate(x1, y1, x2, y2, k);
  }

  /** Spans within which no slope overflows. */
  const MAX_SPAN: nat := 715_827_882

  lemma ShortLinesFit(x1: int, y1: int, x2: int, y2: int)
    requires Abs(x2 - x1) <= MAX_SPAN && Abs(y2 - y1) <= MAX_SPAN
    ensures NoOverflow(x1, y1, x2, y2)
  {
    var dx, dy := Abs(x2 - x1), Abs(y2 - y1);
    forall k: nat | k < Max(dx, dy) ensures TurnFits(ErrorAt(dx, dy, k), dx, dy) {
      if dx >= dy {
        NextMinor(k, dy, dx);
      } else {
        NextMinor(k, dx, dy);
      }
    }
  }

  /** A horizontal line overflows exactly from a span of 2^30 on: its doubled error is twice
      its span. */
  lemma HorizontalFitsIff(x1: int, x2: int, y: int)
    ensures NoOverflow(x1, y, x2, y) <==> Abs(x2 - x1) < 0x4000_0000
  {
    var dx := Abs(x2 - x1);
    if dx > 0 {
      forall k: nat | k < dx ensures ErrorAt(dx, 0, k) == dx {
        DivModUnique(dx - 1, 2 * dx, 0, dx - 1);
      }
      assert NoOverflow(x1, y, x2, y) ==> TurnFits(ErrorAt(dx, 0, 0), dx, 0);
    }
  }
}
