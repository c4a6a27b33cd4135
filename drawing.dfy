// Integer rasterisation for the monitor display: straight lines, the
// Bresenham walk, clearing an image, and the offset view of a sub-image.

module Drawing {
  import opened Wire

  /** A colour as its 16-bit RGBA channels. */
  datatype Colour = Colour(r: uint16, g: uint16, b: uint16, a: uint16)

  /** `color.White`. */
  const White := Colour(0xffff, 0xffff, 0xffff, 0xffff)
  /** What a pixel that was never set reads as. */
  const Transparent := Colour(0, 0, 0, 0)

  type Point = (int, int)

  /** The colour an image shows at a point. */
  function Lookup(pix: map<Point, Colour>, p: Point): Colour
  {
    if p in pix then pix[p] else Transparent
  }

  /** The pixels after setting each point of `pts` to `c`, in order. */
  function Paint(pix: map<Point, Colour>, pts: seq<Point>, c: Colour): map<Point, Colour>
    decreases |pts|
  {
    if pts == [] then pix else Paint(pix[pts[0] := c], pts[1..], c)
  }

  /** Painting sets exactly the points painted, to `c`, and leaves every
      other pixel as it was. */
  lemma {:induction false} PaintCovers(pix: map<Point, Colour>, pts: seq<Point>, c: Colour, p: Point)
    ensures p in Paint(pix, pts, c) <==> p in pix || p in pts
    ensures p in Paint(pix, pts, c) ==> Paint(pix, pts, c)[p] == if p in pts then c else pix[p]
    decreases |pts|
  {
    if pts != [] {
      PaintCovers(pix[pts[0] := c], pts[1..], c, p);
      assert p in pts <==> p == pts[0] || p in pts[1..];
    }
  }

  /** A `draw.Image`: the pixels set so far and the size of its bounds. */
  class Image {
    var pix: map<Point, Colour>
    const width: nat
    const height: nat

    constructor (width: nat, height: nat)
      ensures pix == map[] && this.width == width && this.height == height
    {
      pix := map[];
      this.width := width;
      this.height := height;
    }

    /** `Set`. */
    method Set(x: int, y: int, c: Colour)
      modifies this
      ensures pix == old(pix)[(x, y) := c]
    {
      pix := pix[(x, y) := c];
    }

    /** `At`. */
    function At(x: int, y: int): Colour
      reads this
    {
      Lookup(pix, (x, y))
    }
  }

  // ---------------------------------------------------------------------
  // Lines

  /** `absSign`: the magnitude of `a` and the direction to step by. */
  function AbsSign(a: int): (r: (int, int))
    ensures r.0 >= 0 && (r.1 == 1 || r.1 == -1)
    ensures r.0 * r.1 == a
    ensures r.1 == -1 <==> a < 0
  {
    if a < 0 then (-a, -1) else (a, 1)
  }

  /** The points `(x, lo)` to `(x, hi)`, in increasing `y`. */
  function Column(x: int, lo: int, hi: int): seq<Point>
    decreases hi - lo
  {
    if lo > hi then [] else [(x, lo)] + Column(x, lo + 1, hi)
  }

  /** The points `(lo, y)` to `(hi, y)`, in increasing `x`. */
  function Row(y: int, lo: int, hi: int): seq<Point>
    decreases hi - lo
  {
    if lo > hi then [] else [(lo, y)] + Row(y, lo + 1, hi)
  }

  lemma {:induction false} ColumnHas(x: int, lo: int, hi: int, p: Point)
    ensures p in Column(x, lo, hi) <==> p.0 == x && lo <= p.1 <= hi
    decreases hi - lo
  {
    if lo <= hi {
      ColumnHas(x, lo + 1, hi, p);
    }
  }

  lemma {:induction false} RowHas(y: int, lo: int, hi: int, p: Point)
    ensures p in Row(y, lo, hi) <==> p.1 == y && lo <= p.0 <= hi
    decreases hi - lo
  {
    if lo <= hi {
      RowHas(y, lo + 1, hi, p);
    }
  }

  /** Steps left from `x` to `x1` in the direction `s`. */
  function Remaining(x: int, x1: int, s: int): int
  {
    if s == 1 then x1 - x else x - x1
  }

  /** `s` is a unit step that does not lead away from `x1`. */
  predicate Heading(x: int, x1: int, s: int)
  {
    (s == 1 && x <= x1) || (s == -1 && x >= x1)
  }

  /** Whether a round of the Bresenham loop at `(x, y, err)` returns: a
      coordinate due to step is already at its target. */
  predicate Stops(x: int, y: int, x1: int, y1: int, dx: int, dy: int, err: int)
  {
    (2 * err >= dy && x == x1) || (2 * err <= dx && y == y1)
  }

  /** `x` after a round: one step when `2·err ≥ dy`. */
  function NextX(x: int, sx: int, dy: int, err: int): int
  {
    if 2 * err >= dy then x + sx else x
  }

  /** `y` after a round: one step when `2·err ≤ dx`. */
  function NextY(y: int, sy: int, dx: int, err: int): int
  {
    if 2 * err <= dx then y + sy else y
  }

  /** The error term after a round. */
  function NextErr(dx: int, dy: int, err: int): int
  {
    err + (if 2 * err >= dy then dy else 0) + (if 2 * err <= dx then dx else 0)
  }

  /** The points the Bresenham loop sets from the state `(x, y, err)` on:
      the current point, then those from the next state unless the round
      returns. As `dy ≤ 0 ≤ dx` a round always steps a coordinate or
      returns, so every round brings the walk one step closer. */
  function Trail(x: int, y: int, x1: int, y1: int, sx: int, sy: int, dx: int, dy: int, err: int): (t: seq<Point>)
    requires Heading(x, x1, sx) && Heading(y, y1, sy) && dy <= 0 <= dx
    ensures |t| >= 1 && t[0] == (x, y)
    decreases Remaining(x, x1, sx) + Remaining(y, y1, sy)
  {
    if Stops(x, y, x1, y1, dx, dy, err) then [(x, y)]
    else [(x, y)] + Trail(NextX(x, sx, dy, err), NextY(y, sy, dx, err), x1, y1, sx, sy, dx, dy, NextErr(dx, dy, err))
  }

  /** The points `bresenham` sets for a line from `(x0, y0)` to `(x1, y1)`. */
  function Bresenham(x0: int, y0: int, x1: int, y1: int): seq<Point>
  {
    var (dx, sx) := AbsSign(x1 - x0);
    var (ady, sy) := AbsSign(y1 - y0);
    Trail(x0, y0, x1, y1, sx, sy, dx, -ady, dx - ady)
  }

  /** The Bresenham error term from `(x, y)` on, with `rx` and `ry` steps
      left: `err = dx + dy - rx·dy - ry·dx`, and the steps left never
      exceed the line's extent. */
  predicate OnTrack(x: int, y: int, x1: int, y1: int, sx: int, sy: int, dx: int, dy: int, err: int)
  {
    var rx, ry := Remaining(x, x1, sx), Remaining(y, y1, sy);
    rx <= dx && ry <= -dy && err == dx + dy - rx * dy - ry * dx
  }

  /** `q` is one of the eight neighbours of `p`. */
  predicate KingStep(p: Point, q: Point)
  {
    p != q && -1 <= q.0 - p.0 <= 1 && -1 <= q.1 - p.1 <= 1
  }

  /** Every point of `t` lies between `(x, y)` and `(x1, y1)`, coordinate
      by coordinate. */
  predicate Within(t: seq<Point>, x: int, y: int, x1: int, y1: int, sx: int, sy: int)
  {
    forall i :: 0 <= i < |t| ==>
      Heading(t[i].0, x1, sx) && Heading(x, t[i].0, sx) && Heading(t[i].1, y1, sy) && Heading(y, t[i].1, sy)
  }

  /** Each point of `t` is a king's move from the one before. */
  predicate Connected(t: seq<Point>)
  {
    forall i :: 0 <= i < |t| - 1 ==> KingStep(t[i], t[i + 1])
  }

  /** Neither coordinate overshoots: every point of the walk lies between
      its start and the target, coordinate by coordinate, and each point
      is a king's move from the one before. */
  lemma {:induction false} TrailBounded(x: int, y: int, x1: int, y1: int, sx: int, sy: int, dx: int, dy: int, err: int)
    requires Heading(x, x1, sx) && Heading(y, y1, sy) && dy <= 0 <= dx
    ensures Within(Trail(x, y, x1, y1, sx, sy, dx, dy, err), x, y, x1, y1, sx, sy)
    ensures Connected(Trail(x, y, x1, y1, sx, sy, dx, dy, err))
    decreases Remaining(x, x1, sx) + Remaining(y, y1, sy)
  {
    var t := Trail(x, y, x1, y1, sx, sy, dx, dy, err);
    if !Stops(x, y, x1, y1, dx, dy, err) {
      var x', y', err' := NextX(x, sx, dy, err), NextY(y, sy, dx, err), NextErr(dx, dy, err);
      var u := Trail(x', y', x1, y1, sx, sy, dx, dy, err');
      assert t == [(x, y)] + u && u[0] == (x', y');
      assert KingStep((x, y), (x', y'));
      assert Heading(x, x', sx) && Heading(y, y', sy);
      TrailBounded(x', y', x1, y1, sx, sy, dx, dy, err');
      assert Within(u, x', y', x1, y1, sx, sy) && Connected(u);
      forall i | 0 <= i < |t|
        ensures Heading(t[i].0, x1, sx) && Heading(x, t[i].0, sx) && Heading(t[i].1, y1, sy) && Heading(y, t[i].1, sy)
      {
        if i > 0 {
          assert t[i] == u[i - 1];
        }
      }
      forall i | 0 <= i < |t| - 1
        ensures KingStep(t[i], t[i + 1])
      {
        if i > 0 {
          assert t[i] == u[i - 1] && t[i + 1] == u[i];
        }
      }
    }
  }

  /** A round that returns does so at the target while the error term is
      on track. */
  lemma StopsAtTarget(x: int, y: int, x1: int, y1: int, sx: int, sy: int, dx: int, dy: int, err: int)
    requires Heading(x, x1, sx) && Heading(y, y1, sy) && dy <= 0 <= dx
    requires OnTrack(x, y, x1, y1, sx, sy, dx, dy, err) && Stops(x, y, x1, y1, dx, dy, err)
    ensures x == x1 && y == y1
  {
    var rx, ry := Remaining(x, x1, sx), Remaining(y, y1, sy);
    if 2 * err >= dy && x == x1 {
      // No x step is left, so the error term leaves no y step either.
      if ry >= 1 {
        ProductAtLeast(ry, dx);
      }
    } else if rx >= 1 {
      // A stop on y with an x step left contradicts the error term.
      ProductAtMost(rx, dy);
    }
  }

  /** A round that does not return keeps the error term on track. */
  lemma StepOnTrack(x: int, y: int, x1: int, y1: int, sx: int, sy: int, dx: int, dy: int, err: int)
    requires Heading(x, x1, sx) && Heading(y, y1, sy) && dy <= 0 <= dx
    requires OnTrack(x, y, x1, y1, sx, sy, dx, dy, err) && !Stops(x, y, x1, y1, dx, dy, err)
    ensures OnTrack(NextX(x, sx, dy, err), NextY(y, sy, dx, err), x1, y1, sx, sy, dx, dy, NextErr(dx, dy, err))
  {
    var rx, ry := Remaining(x, x1, sx), Remaining(y, y1, sy);
    var rx', ry' := Remaining(NextX(x, sx, dy, err), x1, sx), Remaining(NextY(y, sy, dx, err), y1, sy);
    StepDown(rx, dy);
    StepDown(ry, dx);
    assert rx' == if 2 * err >= dy then rx - 1 else rx;
    assert ry' == if 2 * err <= dx then ry - 1 else ry;
  }

  lemma StepDown(r: int, d: int)
    ensures (r - 1) * d == r * d - d
  {
  }

  /** While the error term is on track the walk ends exactly at the
      target. */
  lemma {:induction false} TrailEnds(x: int, y: int, x1: int, y1: int, sx: int, sy: int, dx: int, dy: int, err: int)
    requires Heading(x, x1, sx) && Heading(y, y1, sy) && dy <= 0 <= dx
    requires OnTrack(x, y, x1, y1, sx, sy, dx, dy, err)
    ensures var t := Trail(x, y, x1, y1, sx, sy, dx, dy, err); t[|t| - 1] == (x1, y1)
    decreases Remaining(x, x1, sx) + Remaining(y, y1, sy)
  {
    if Stops(x, y, x1, y1, dx, dy, err) {
      StopsAtTarget(x, y, x1, y1, sx, sy, dx, dy, err);
    } else {
      var x', y', err' := NextX(x, sx, dy, err), NextY(y, sy, dx, err), NextErr(dx, dy, err);
      StepOnTrack(x, y, x1, y1, sx, sy, dx, dy, err);
      TrailEnds(x', y', x1, y1, sx, sy, dx, dy, err');
      var t := Trail(x, y, x1, y1, sx, sy, dx, dy, err);
      assert t == [(x, y)] + Trail(x', y', x1, y1, sx, sy, dx, dy, err');
    }
  }

  lemma ProductAtLeast(r: int, d: int)
    requires r >= 1 && d >= 0
    ensures r * d >= d
  {
    assert r * d == (r - 1) * d + d;
  }

  lemma ProductAtMost(r: int, d: int)
    requires r >= 1 && d <= 0
    ensures r * d <= d
  {
    assert r * d == (r - 1) * d + d;
  }

  /** The walk from `(x0, y0)` starts there, ends at `(x1, y1)`, stays in
      the rectangle they span and moves one king's step at a time. */
  lemma BresenhamLine(x0: int, y0: int, x1: int, y1: int)
    ensures var t := Bresenham(x0, y0, x1, y1);
      t[0] == (x0, y0) && t[|t| - 1] == (x1, y1)
      && (forall i :: 0 <= i < |t| ==>
            Min(x0, x1) <= t[i].0 <= Max(x0, x1) && Min(y0, y1) <= t[i].1 <= Max(y0, y1))
      && Connected(t)
  {
    var (dx, sx) := AbsSign(x1 - x0);
    var (ady, sy) := AbsSign(y1 - y0);
    assert Remaining(x0, x1, sx) == dx && Remaining(y0, y1, sy) == ady;
    assert dx * -ady == -(ady * dx);
    var t := Trail(x0, y0, x1, y1, sx, sy, dx, -ady, dx - ady);
    assert Bresenham(x0, y0, x1, y1) == t;
    TrailBounded(x0, y0, x1, y1, sx, sy, dx, -ady, dx - ady);
    TrailEnds(x0, y0, x1, y1, sx, sy, dx, -ady, dx - ady);
    BoxOf(t, x0, y0, x1, y1, sx, sy);
  }

  /** Points between two corners, coordinate by coordinate, lie in the
      rectangle the corners span. */
  lemma BoxOf(t: seq<Point>, x0: int, y0: int, x1: int, y1: int, sx: int, sy: int)
    requires Within(t, x0, y0, x1, y1, sx, sy)
    ensures forall i :: 0 <= i < |t| ==>
      Min(x0, x1) <= t[i].0 <= Max(x0, x1) && Min(y0, y1) <= t[i].1 <= Max(y0, y1)
  {
  }

  /** `bresenham`. */
  method DrawBresenham(img: Image, x0: int, y0: int, x1: int, y1: int, c: Colour)
    modifies img
    ensures img.pix == Paint(old(img.pix), Bresenham(x0, y0, x1, y1), c)
  {
    var (dx, sx) := AbsSign(x1 - x0);
    var (dy, sy) := AbsSign(y1 - y0);
    dy := -dy;
    var err := dx + dy;
    Walk(img, x0, y0, x1, y1, sx, sy, dx, dy, err, c);
  }

  /** The loop of `bresenham` from the state `(x, y, err)` on. */
  method Walk(img: Image, x0: int, y0: int, x1: int, y1: int, sx: int, sy: int, dx: int, dy: int, err0: int, c: Colour)
    requires Heading(x0, x1, sx) && Heading(y0, y1, sy) && dy <= 0 <= dx
    modifies img
    ensures img.pix == Paint(old(img.pix), Trail(x0, y0, x1, y1, sx, sy, dx, dy, err0), c)
  {
    var x, y, err := x0, y0, err0;
    ghost var all := Trail(x, y, x1, y1, sx, sy, dx, dy, err);
    while true
      invariant Heading(x, x1, sx) && Heading(y, y1, sy)
      invariant Paint(img.pix, Trail(x, y, x1, y1, sx, sy, dx, dy, err), c) == Paint(old(img.pix), all, c)
      decreases Remaining(x, x1, sx) + Remaining(y, y1, sy)
    {
      ghost var rest := Trail(x, y, x1, y1, sx, sy, dx, dy, err);
      ghost var nx, ny, nerr := NextX(x, sx, dy, err), NextY(y, sy, dx, err), NextErr(dx, dy, err);
      TrailUnfold(x, y, x1, y1, sx, sy, dx, dy, err);
      PaintFirst(img.pix, rest, c);
      img.Set(x, y, c);
      var e2 := 2 * err;
      if e2 >= dy {
        if x == x1 {
          PaintNone(img.pix, rest[1..], c);
          return;
        }
        err := err + dy;
        x := x + sx;
      }
      if e2 <= dx {
        if y == y1 {
          PaintNone(img.pix, rest[1..], c);
          return;
        }
        err := err + dx;
        y := y + sy;
      }
      assert x == nx && y == ny && err == nerr;
    }
  }

  /** One round of the walk: a round that returns sets only the current
      point, any other sets it and goes on from the next state. */
  lemma TrailUnfold(x: int, y: int, x1: int, y1: int, sx: int, sy: int, dx: int, dy: int, err: int)
    requires Heading(x, x1, sx) && Heading(y, y1, sy) && dy <= 0 <= dx
    ensures var t := Trail(x, y, x1, y1, sx, sy, dx, dy, err);
      (Stops(x, y, x1, y1, dx, dy, err) ==> t[1..] == []) &&
      (!Stops(x, y, x1, y1, dx, dy, err) ==>
        Heading(NextX(x, sx, dy, err), x1, sx) && Heading(NextY(y, sy, dx, err), y1, sy) &&
        t[1..] == Trail(NextX(x, sx, dy, err), NextY(y, sy, dx, err), x1, y1, sx, sy, dx, dy, NextErr(dx, dy, err)))
  {
  }

  /** Painting a run is painting its first point, then the rest. */
  lemma PaintFirst(pix: map<Point, Colour>, pts: seq<Point>, c: Colour)
    requires pts != []
    ensures Paint(pix, pts, c) == Paint(pix[pts[0] := c], pts[1..], c)
  {
  }

  lemma PaintNone(pix: map<Point, Colour>, pts: seq<Point>, c: Colour)
    requires pts == []
    ensures Paint(pix, pts, c) == pix
  {
  }

  /** The points `line` sets: a column or a row, lowest coordinate first,
      when the line is vertical or horizontal, else the Bresenham walk. */
  function LinePoints(x0: int, y0: int, x1: int, y1: int): seq<Point>
  {
    if x0 == x1 then Column(x0, Min(y0, y1), Max(y0, y1))
    else if y0 == y1 then Row(y0, Min(x0, x1), Max(x0, x1))
    else Bresenham(x0, y0, x1, y1)
  }

  /** `line`. */
  method Line(img: Image, x0: int, y0: int, x1: int, y1: int, c: Colour)
    modifies img
    ensures img.pix == Paint(old(img.pix), LinePoints(x0, y0, x1, y1), c)
  {
    if x0 == x1 {
      var lo, hi := y0, y1;
      if lo > hi {
        lo, hi := hi, lo;
      }
      while lo <= hi
        invariant Paint(img.pix, Column(x0, lo, hi), c) == Paint(old(img.pix), LinePoints(x0, y0, x1, y1), c)
        decreases hi - lo
      {
        img.Set(x0, lo, c);
        lo := lo + 1;
      }
    } else if y0 == y1 {
      var lo, hi := x0, x1;
      if lo > hi {
        lo, hi := hi, lo;
      }
      while lo <= hi
        invariant Paint(img.pix, Row(y0, lo, hi), c) == Paint(old(img.pix), LinePoints(x0, y0, x1, y1), c)
        decreases hi - lo
      {
        img.Set(lo, y0, c);
        lo := lo + 1;
      }
    } else {
      DrawBresenham(img, x0, y0, x1, y1, c);
    }
  }

  /** A vertical line sets exactly the column between its ends, a
      horizontal one exactly the row between its ends, and every line sets
      both of its end points. */
  lemma LineSets(x0: int, y0: int, x1: int, y1: int, p: Point)
    ensures x0 == x1 ==>
      (p in LinePoints(x0, y0, x1, y1) <==> p.0 == x0 && Min(y0, y1) <= p.1 <= Max(y0, y1))
    ensures x0 != x1 && y0 == y1 ==>
      (p in LinePoints(x0, y0, x1, y1) <==> p.1 == y0 && Min(x0, x1) <= p.0 <= Max(x0, x1))
    ensures (x0, y0) in LinePoints(x0, y0, x1, y1) && (x1, y1) in LinePoints(x0, y0, x1, y1)
  {
    var lo, hi := Min(y0, y1), Max(y0, y1);
    if x0 == x1 {
      ColumnHas(x0, lo, hi, p);
      ColumnHas(x0, lo, hi, (x0, y0));
      ColumnHas(x0, lo, hi, (x1, y1));
    } else if y0 == y1 {
      RowHas(y0, Min(x0, x1), Max(x0, x1), p);
      RowHas(y0, Min(x0, x1), Max(x0, x1), (x0, y0));
      RowHas(y0, Min(x0, x1), Max(x0, x1), (x1, y1));
    } else {
      BresenhamLine(x0, y0, x1, y1);
      var t := Bresenham(x0, y0, x1, y1);
      assert t[0] in t && t[|t| - 1] in t;
    }
  }

  // ---------------------------------------------------------------------
  // Clearing

  /** The points `blank` sets: columns `x` to `width - 1`, each from
      `y = 0` to `height - 1`. */
  function Columns(x: int, width: int, height: int): seq<Point>
    decreases width - x
  {
    if x >= width then [] else Column(x, 0, height - 1) + Columns(x + 1, width, height)
  }

  lemma {:induction false} ColumnsHas(x: int, width: int, height: int, p: Point)
    ensures p in Columns(x, width, height) <==> x <= p.0 < width && 0 <= p.1 < height
    decreases width - x
  {
    if x < width {
      ColumnHas(x, 0, height - 1, p);
      ColumnsHas(x + 1, width, height, p);
    }
  }

  /** `blank`: sets every pixel of the bounds' size to white, column by
      column. */
  method Blank(img: Image)
    modifies img
    ensures img.pix == Paint(old(img.pix), Columns(0, img.width, img.height), White)
  {
    var goal := Paint(img.pix, Columns(0, img.width, img.height), White);
    var x := 0;
    while x < img.width
      invariant 0 <= x <= img.width
      invariant Paint(img.pix, Columns(x, img.width, img.height), White) == goal
      decreases img.width - x
    {
      var y := 0;
      ColumnsUnfold(x, img.width, img.height);
      while y < img.height
        invariant 0 <= y <= img.height
        invariant Paint(img.pix, Column(x, y, img.height - 1) + Columns(x + 1, img.width, img.height), White) == goal
        decreases img.height - y
      {
        ColumnFront(x, y, img.height - 1, Columns(x + 1, img.width, img.height));
        PaintFirst(img.pix, Column(x, y, img.height - 1) + Columns(x + 1, img.width, img.height), White);
        img.Set(x, y, White);
        y := y + 1;
      }
      ColumnFront(x, y, img.height - 1, Columns(x + 1, img.width, img.height));
      x := x + 1;
    }
    ColumnsUnfold(x, img.width, img.height);
    PaintNone(img.pix, Columns(x, img.width, img.height), White);
  }

  /** A column followed by more points: its first point, then the rest of
      the column and the points after it; an empty column adds nothing. */
  lemma ColumnFront(x: int, y: int, hi: int, more: seq<Point>)
    ensures y <= hi ==> Column(x, y, hi) + more == [(x, y)] + (Column(x, y + 1, hi) + more)
    ensures y > hi ==> Column(x, y, hi) + more == more
  {
    if y <= hi {
      assert Column(x, y, hi) == [(x, y)] + Column(x, y + 1, hi);
    } else {
      assert Column(x, y, hi) == [];
    }
  }

  lemma ColumnsUnfold(x: int, width: int, height: int)
    ensures x < width ==> Columns(x, width, height) == Column(x, 0, height - 1) + Columns(x + 1, width, height)
    ensures x >= width ==> Columns(x, width, height) == []
  {
  }

  /** After `blank` every pixel inside the bounds' size is white and every
      pixel outside it is as it was. */
  lemma BlankCovers(pix: map<Point, Colour>, width: nat, height: nat, p: Point)
    ensures var now := Paint(pix, Columns(0, width, height), White);
      (0 <= p.0 < width && 0 <= p.1 < height ==> p in now && now[p] == White)
      && (!(0 <= p.0 < width && 0 <= p.1 < height) ==> (p in now <==> p in pix) && (p in pix ==> now[p] == pix[p]))
  {
    ColumnsHas(0, width, height, p);
    PaintCovers(pix, Columns(0, width, height), White, p);
  }

  // ---------------------------------------------------------------------
  // The offset view of a sub-image

  /** `drawOffset`: an image addressed with coordinates relative to
      `offset`. */
  class OffsetImage {
    const image: Image
    const offset: Point

    constructor (image: Image, offset: Point)
      ensures this.image == image && this.offset == offset
    {
      this.image := image;
      this.offset := offset;
    }

    /** `At` as the Go code writes it: it subtracts the offset, so it reads
        the pixel that the translated `At` reads twice the offset away. */
    function AtAsWritten(x: int, y: int): (c: Colour)
      reads image
      ensures c == image.At(x - offset.0, y - offset.1)
      ensures c == At(x - 2 * offset.0, y - 2 * offset.1)
    {
      Lookup(image.pix, (x - offset.0, y - offset.1))
    }

    /** `At` translated the way `Set` is: the colour at `(x, y)` relative
        to the offset. */
    function At(x: int, y: int): (c: Colour)
      reads image
      ensures c == image.At(x + offset.0, y + offset.1)
    {
      Lookup(image.pix, (x + offset.0, y + offset.1))
    }

    /** `Set`: writes the pixel `(x, y)` relative to the offset. Read back
        through `At` the point shows `c` and no other point changes; read
        back through the Go code's `At`, a non-zero offset shows the pixel
        as it was before. */
    method Set(x: int, y: int, c: Colour)
      modifies image
      ensures image.pix == old(image.pix)[(x + offset.0, y + offset.1) := c]
      ensures At(x, y) == c
      ensures forall u, v :: (u, v) != (x, y) ==> At(u, v) == old(At(u, v))
      ensures offset != (0, 0) ==> AtAsWritten(x, y) == old(AtAsWritten(x, y))
    {
      image.Set(x + offset.0, y + offset.1, c);
    }
  }

  /** The colour the Go code's `At` reads at `(x, y)` right after its `Set`
      wrote `c` there. */
  function ReadBackAsWritten(pix: map<Point, Colour>, offset: Point, x: int, y: int, c: Colour): Colour
  {
    Lookup(pix[(x + offset.0, y + offset.1) := c], (x - offset.0, y - offset.1))
  }

  /** The colour the translated `At` reads at `(x, y)` right after `Set`
      wrote `c` there. */
  function ReadBack(pix: map<Point, Colour>, offset: Point, x: int, y: int, c: Colour): Colour
  {
    Lookup(pix[(x + offset.0, y + offset.1) := c], (x + offset.0, y + offset.1))
  }

  /** With the Go code's `At`, a point written through a view offset by
      (1, 0) on a blank image reads back transparent instead of white: the
      two methods address different pixels. */
  lemma AsWrittenReadsElsewhere()
    ensures ReadBackAsWritten(map[], (1, 0), 0, 0, White) == Transparent != White
  {
  }

  /** With the translated `At`, every point written reads back as the
      colour written, whatever the offset and the image. */
  lemma ReadBackWritten(pix: map<Point, Colour>, offset: Point, x: int, y: int, c: Colour)
    ensures ReadBack(pix, offset, x, y, c) == c
  {
  }
}
