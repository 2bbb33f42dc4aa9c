/** Bresenham's line on a framebuffer. */
module Line {
  import opened LineRange

  newtype int32 = x: int | -0x8000_0000 <= x < 0x8000_0000

  datatype Point = Point(x: int, y: int)

  function Abs(a: int): (r: nat)
    ensures r == a || r == -a
  {
    if a < 0 then -a else a
  }

  /** The side of the bounding box that gets one pixel per step. */
  function Length(a: Point, b: Point): nat {
    Max(Abs(b.x - a.x), Abs(b.y - a.y))
  }

  /** Twice the deviation of p from the line from a to b, measured along the minor axis and scaled
      by the length of the major one. */
  function Deviation(a: Point, b: Point, p: Point): int {
    2 * (Abs(p.y - a.y) * Abs(b.x - a.x) - Abs(p.x - a.x) * Abs(b.y - a.y))
  }

  /** The pixel i steps in x and j in y away from a, towards b. */
  function Place(a: Point, b: Point, i: nat, j: nat): Point {
    Point(if a.x < b.x then a.x + i else a.x - i, if a.y < b.y then a.y + j else a.y - j)
  }

  /** p is the k-th pixel of the line: k steps along the major axis, within the box, at most half a
      pixel off. */
  ghost predicate OnLine(a: Point, b: Point, k: nat, p: Point) {
    && Abs(Deviation(a, b, p)) <= Length(a, b)
    && (if Abs(b.x - a.x) >= Abs(b.y - a.y) then p.x == Place(a, b, k, k).x else p.y == Place(a, b, k, k).y)
    && (a.x <= p.x <= b.x || b.x <= p.x <= a.x)
    && (a.y <= p.y <= b.y || b.y <= p.y <= a.y)
  }

  /** A position on the way: i steps in x and j in y have been made, d is the deviation. */
  ghost predicate OnTheWay(dx: nat, dy: nat, k: nat, i: nat, j: nat, d: int) {
    && d == j * dx - i * dy && i <= dx && j <= dy
    && HalfPixel(dx, dy, k, i, j, d)
  }

  /** One step per pixel along the major axis, and at most half a pixel off on the minor one. */
  ghost predicate HalfPixel(dx: nat, dy: nat, k: nat, i: nat, j: nat, d: int) {
    if dx >= dy then i == k <= dx && 2 * d <= dx && 0 <= 2 * d + dx else j == k <= dy && 2 * d <= dy && 0 <= 2 * d + dy
  }

  lemma Monotone(a: nat, b: nat, c: nat)
    requires a <= b
    ensures a * c <= b * c
  {
  }

  lemma Cancel(a: int, b: int, c: nat)
    requires a * c < b * c
    ensures a < b
  {
  }

  lemma PositiveFactor(x: int, c: nat)
    requires x * c > 0
    ensures x > 0
  {
  }

  /** Half a pixel at most, at the end of the major axis, means exactly at the end of the minor one,
      and before the end never beyond it. */
  lemma EndOfMinor(major: nat, minor: nat, k: nat, j: nat, d: int)
    requires k <= major && d == j * major - k * minor && 2 * d <= major && 0 <= 2 * d + major && major > 0
    ensures j <= minor && (k == major ==> j == minor)
  {
    Monotone(k, major, minor);
    assert (minor + 1) * major == minor * major + major;
    Cancel(j, minor + 1, major);
    if k == major {
      assert (j + 1) * major == j * major + major;
      Cancel(minor, j + 1, major);
    }
  }

  lemma Bounded(dx: nat, dy: nat, k: nat, i: nat, j: nat, d: int)
    requires HalfPixel(dx, dy, k, i, j, d) && d == j * dx - i * dy && dx + dy > 0
    ensures i <= dx && j <= dy && (k == Max(dx, dy) ==> i == dx && j == dy)
  {
    if dx >= dy {
      EndOfMinor(dx, dy, i, j, d);
    } else {
      EndOfMinor(dy, dx, j, i, -d);
    }
  }

  /** The two tests of the source keep the deviation within half a pixel. */
  lemma TestsKeepHalfPixel(dx: nat, dy: nat, k: nat, i: nat, j: nat, d: int, goX: bool, goY: bool)
    requires HalfPixel(dx, dy, k, i, j, d) && k < Max(dx, dy)
    requires goX == (2 * (dx - dy + d) > 0 - dy) && goY == (2 * (dx - dy + d) < dx)
    requires dx == dy ==> d == 0
    ensures HalfPixel(dx, dy, k + 1, if goX then i + 1 else i, if goY then j + 1 else j,
                      d + (if goY then dx else 0) - (if goX then dy else 0))
  {
  }

  lemma Diagonal(n: nat, i: nat, j: nat, d: int)
    requires d == j * n - i * n && 2 * d <= n && 0 <= 2 * d + n && n > 0
    ensures d == 0
  {
    assert d == (j - i) * n;
    if d > 0 {
      PositiveFactor(j - i, n);
      Monotone(1, j - i, n);
    } else if d < 0 {
      assert (i - j) * n == -d;
      PositiveFactor(i - j, n);
      Monotone(1, i - j, n);
    }
  }

  lemma OneStep(i: nat, dy: nat, go: bool)
    ensures (if go then i + 1 else i) * dy == i * dy + (if go then dy else 0)
  {
  }

  lemma StepKeepsOnTheWay(dx: nat, dy: nat, k: nat, i: nat, j: nat, d: int, goX: bool, goY: bool)
    requires OnTheWay(dx, dy, k, i, j, d) && k < Max(dx, dy)
    requires goX == (2 * (dx - dy + d) > 0 - dy) && goY == (2 * (dx - dy + d) < dx)
    ensures OnTheWay(dx, dy, k + 1, if goX then i + 1 else i, if goY then j + 1 else j,
                     d + (if goY then dx else 0) - (if goX then dy else 0))
  {
    if dx == dy {
      Diagonal(dx, i, j, d);
    }
    TestsKeepHalfPixel(dx, dy, k, i, j, d, goX, goY);
    hide HalfPixel;
    OneStep(i, dy, goX);
    OneStep(j, dx, goY);
    Bounded(dx, dy, k + 1, if goX then i + 1 else i, if goY then j + 1 else j,
            d + (if goY then dx else 0) - (if goX then dy else 0));
  }

  class Framebuffer {
    const width: nat
    const height: nat
    const stride: nat  // 32-bit words per scanline: the pitch divided by four
    var pixels: array<nat>

    ghost predicate Valid()
      reads this
    {
      width <= stride && stride * height <= pixels.Length
    }

    constructor (width: nat, height: nat, stride: nat, memory: array<nat>)
      requires width <= stride && stride * height <= memory.Length
      ensures Valid() && this.width == width && this.height == height && this.stride == stride && pixels == memory
    {
      this.width, this.height, this.stride, pixels := width, height, stride, memory;
    }

    predicate InBounds(x: int, y: int) {
      x >= 0 && y >= 0 && x < width && y < height
    }

    lemma AddressInside(x: int, y: int)
      requires Valid() && InBounds(x, y)
      ensures 0 <= y * stride + x < pixels.Length
    {
      Monotone(y + 1, height, stride);
      assert (y + 1) * stride == y * stride + stride;
    }

    lemma AddressesApart(x: int, y: int, u: int, v: int)
      requires Valid() && InBounds(x, y) && InBounds(u, v) && y * stride + x == v * stride + u
      ensures x == u && y == v
    {
      assert (v + 1) * stride == v * stride + stride && (y + 1) * stride == y * stride + stride;
      Cancel(y, v + 1, stride);
      Cancel(v, y + 1, stride);
    }

    ghost function Pixel(x: int, y: int): nat
      requires Valid() && InBounds(x, y)
      reads this, pixels
    {
      AddressInside(x, y);
      pixels[y * stride + x]
    }

    method DrawPixel(x: int, y: int, color: nat)
      requires Valid()
      modifies pixels
      ensures Valid()
      ensures forall u, v :: 0 <= u < width && 0 <= v < height ==>
                Pixel(u, v) == if u == x && v == y then color else old(Pixel(u, v))
    {
      if !InBounds(x, y) { return; }
      AddressInside(x, y);
      forall u, v | InBounds(u, v) && v * stride + u == y * stride + x ensures u == x && v == y {
        AddressesApart(x, y, u, v);
      }
      ghost var was := pixels[..];
      pixels[y * stride + x] := color;
      forall u, v | InBounds(u, v)
        ensures Pixel(u, v) == if u == x && v == y then color else old(Pixel(u, v))
      {
        AddressInside(u, v);
        assert pixels[v * stride + u] == if v * stride + u == y * stride + x then color else was[v * stride + u];
      }
    }

    /** Draws from a to b, both included. All intermediate values stay within 32 bits; the condition
        is exactly the one under which they do. */
    method DrawLine(x0: int32, y0: int32, x1: int32, y1: int32, color: nat) returns (ghost plotted: seq<Point>)
      requires Valid()
      requires LineFits(Abs(x1 as int - x0 as int), Abs(y1 as int - y0 as int))
      modifies pixels
      ensures Valid()
      ensures var a, b := Point(x0 as int, y0 as int), Point(x1 as int, y1 as int);
              && |plotted| == Length(a, b) + 1 && plotted[0] == a && plotted[Length(a, b)] == b
              && (forall k :: 0 <= k < |plotted| ==> OnLine(a, b, k, plotted[k]))
      ensures forall u, v :: 0 <= u < width && 0 <= v < height ==>
                Pixel(u, v) == if Point(u, v) in plotted then color else old(Pixel(u, v))
    {
      NeverOverflowsIff(Abs(x1 as int - x0 as int), Abs(y1 as int - y0 as int));
      hide OnTheWay, OnLine, Pixel, Along, Deviation, LineFits, StepFits, Dev;
      var dx := if x1 > x0 then x1 - x0 else x0 - x1;
      var dy := if y1 > y0 then y1 - y0 else y0 - y1;
      var sx: int32 := if x0 < x1 then 1 else -1;
      var sy: int32 := if y0 < y1 then 1 else -1;
      var err := dx - dy;
      var x, y := x0, y0;
      plotted := [];
      ghost var a, b := Point(x0 as int, y0 as int), Point(x1 as int, y1 as int);
      ghost var k, i, j, d := 0, 0, 0, 0;
      AtStart(a, b);
      while true
        invariant Valid() && |plotted| == k <= Length(a, b)
        invariant Along(a, b, x as int, y as int, err as int, k, i, j, d)
        invariant k == 0 ==> x == x0 && y == y0
        invariant k > 0 ==> plotted[0] == a
        invariant forall n :: 0 <= n < k ==> OnLine(a, b, n, plotted[n])
        invariant forall u, v :: 0 <= u < width && 0 <= v < height ==>
                    Pixel(u, v) == if Point(u, v) in plotted then color else old(Pixel(u, v))
        decreases Length(a, b) - k
      {
        Positioned(a, b, x as int, y as int, err as int, k, i, j, d);
        DrawPixel(x as int, y as int, color);
        plotted := plotted + [Point(x as int, y as int)];
        if x == x1 && y == y1 { break; }
        x, y, err, i, j, d := Advance(a, b, x, y, err, dx, dy, sx, sy, k, i, j, d);
        k := k + 1;
      }
    }
  }

  /** The loop's variables after k pixels: i steps in x and j in y, deviation d. */
  ghost predicate Along(a: Point, b: Point, x: int, y: int, err: int, k: nat, i: nat, j: nat, d: int) {
    var dx, dy := Abs(b.x - a.x), Abs(b.y - a.y);
    && Small(a) && Small(b) && NeverOverflows(dx, dy)
    && OnTheWay(dx, dy, k, i, j, d) && d == Dev(dx, dy, k) && err == dx - dy + d
    && Point(x, y) == Place(a, b, i, j)
  }

  /** Both coordinates are 32-bit integers. */
  predicate Small(p: Point) {
    Fits(p.x) && Fits(p.y)
  }

  /** The direction of a step. */
  function Sign(a: int, b: int): int {
    if a < b then 1 else -1
  }

  /** The two tests of the loop body, in 32-bit arithmetic. */
  method Advance(ghost a: Point, ghost b: Point, x: int32, y: int32, err: int32, dx: int32, dy: int32, sx: int32, sy: int32,
                 ghost k: nat, ghost i: nat, ghost j: nat, ghost d: int)
    returns (x': int32, y': int32, err': int32, ghost i': nat, ghost j': nat, ghost d': int)
    requires Along(a, b, x as int, y as int, err as int, k, i, j, d) && k < Length(a, b)
    requires dx as int == Abs(b.x - a.x) && dy as int == Abs(b.y - a.y)
    requires sx as int == Sign(a.x, b.x) && sy as int == Sign(a.y, b.y)
    ensures Along(a, b, x' as int, y' as int, err' as int, k + 1, i', j', d')
  {
    hide Along, Place, Length, Sign, Abs;
    i', j', d' := AlongNext(a, b, x as int, y as int, err as int, k, i, j, d);
    assert StepFits(dx as int, dy as int, err as int - dx as int + dy as int);
    var e2 := 2 * err;
    x', y', err' := x, y, err;
    if e2 > -dy {
      err' := err' - dy;
      x' := x' + sx;
    }
    if e2 < dx {
      err' := err' + dx;
      y' := y' + sy;
    }
  }

  lemma AlongNext(a: Point, b: Point, x: int, y: int, err: int, k: nat, i: nat, j: nat, d: int)
    returns (i': nat, j': nat, d': int)
    requires Along(a, b, x, y, err, k, i, j, d) && k < Length(a, b)
    ensures var dx, dy := Abs(b.x - a.x), Abs(b.y - a.y);
            var goX, goY := GoX(dx, dy, err - dx + dy), GoY(dx, dy, err - dx + dy);
            && StepFits(dx, dy, err - dx + dy) && Small(Place(a, b, i', j'))
            && Place(a, b, i', j') == Point(if goX then x + Sign(a.x, b.x) else x, if goY then y + Sign(a.y, b.y) else y)
            && Along(a, b, Place(a, b, i', j').x, Place(a, b, i', j').y,
                     err + (if goY then dx else 0) - (if goX then dy else 0), k + 1, i', j', d')
  {
    hide OnTheWay, Place, Abs, NeverOverflows, Dev, GoX, GoY, StepFits, Length, Max, Sign;
    var dx, dy := Abs(b.x - a.x), Abs(b.y - a.y);
    var goX, goY := GoX(dx, dy, d), GoY(dx, dy, d);
    LengthIs(a, b);
    RoundOnTheWay(dx, dy, k, i, j);
    i' := if goX then i + 1 else i;
    j' := if goY then j + 1 else j;
    d' := Dev(dx, dy, k + 1);
    PlaceSmall(a, b, k + 1, i', j', d');
    PlaceNext(a, b, i, j, goX, goY);
  }

  lemma LengthIs(a: Point, b: Point)
    ensures Length(a, b) == Max(Abs(b.x - a.x), Abs(b.y - a.y))
  {
  }

  /** One round of the loop, from pixel k to pixel k + 1. */
  lemma RoundOnTheWay(dx: nat, dy: nat, k: nat, i: nat, j: nat)
    requires NeverOverflows(dx, dy) && k < Max(dx, dy) && OnTheWay(dx, dy, k, i, j, Dev(dx, dy, k))
    ensures var d := Dev(dx, dy, k);
            && StepFits(dx, dy, d)
            && Dev(dx, dy, k + 1) == d + (if GoY(dx, dy, d) then dx else 0) - (if GoX(dx, dy, d) then dy else 0)
            && OnTheWay(dx, dy, k + 1, if GoX(dx, dy, d) then i + 1 else i, if GoY(dx, dy, d) then j + 1 else j,
                        Dev(dx, dy, k + 1))
  {
    hide OnTheWay, StepFits;
    var d := Dev(dx, dy, k);
    Round(dx, dy, k);
    StepKeepsOnTheWay(dx, dy, k, i, j, d, GoX(dx, dy, d), GoY(dx, dy, d));
  }

  lemma PlaceNext(a: Point, b: Point, i: nat, j: nat, goX: bool, goY: bool)
    ensures var p := Place(a, b, i, j);
            Place(a, b, if goX then i + 1 else i, if goY then j + 1 else j)
            == Point(if goX then p.x + Sign(a.x, b.x) else p.x, if goY then p.y + Sign(a.y, b.y) else p.y)
  {
  }

  lemma PlaceSmall(a: Point, b: Point, k: nat, i: nat, j: nat, d: int)
    requires Small(a) && Small(b) && OnTheWay(Abs(b.x - a.x), Abs(b.y - a.y), k, i, j, d)
    ensures Small(Place(a, b, i, j))
  {
  }

  lemma AtStart(a: Point, b: Point)
    requires Small(a) && Small(b) && NeverOverflows(Abs(b.x - a.x), Abs(b.y - a.y))
    ensures Along(a, b, a.x, a.y, Abs(b.x - a.x) - Abs(b.y - a.y), 0, 0, 0, 0)
  {
  }

  lemma Positioned(a: Point, b: Point, x: int, y: int, err: int, k: nat, i: nat, j: nat, d: int)
    requires Along(a, b, x, y, err, k, i, j, d)
    ensures OnLine(a, b, k, Point(x, y)) && (Point(x, y) == b <==> k == Length(a, b)) && k <= Length(a, b)
  {
    var p := Point(x, y);
    if Abs(b.x - a.x) + Abs(b.y - a.y) > 0 {
      Bounded(Abs(b.x - a.x), Abs(b.y - a.y), k, i, j, d);
    }
    assert Abs(p.x - a.x) == i && Abs(p.y - a.y) == j;
    assert Deviation(a, b, p) == 2 * (j * Abs(b.x - a.x) - i * Abs(b.y - a.y));
  }
}
