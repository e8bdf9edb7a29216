/** Rectangles and lines in the framebuffer: fb_fill_rect and fb_draw_line of common/src/fb_util.c. */
module Framebuffer {
  import opened Words

  // Screen coordinates. Pixel (x, y) is word y * width + x of the framebuffer.
  datatype Screen = Screen(width: nat, height: nat)
  {
    ghost predicate Valid() { 0 < width < 0x8000 && 0 < height < 0x8000 }

    predicate Contains(x: int, y: int) { 0 <= x < width && 0 <= y < height }
  }

  // The framebuffer after every pixel of a region took a color.
  ghost predicate Painted(s: Screen, before: seq<UInt32>, after: seq<UInt32>, region: (int, int) -> bool, color: UInt32)
    requires s.width > 0
  {
    && |after| == |before|
    && forall j | 0 <= j < |after| :: after[j] == if region(j % s.width, j / s.width) then color else before[j]
  }

  lemma PixelIndex(s: Screen, x: int, y: int)
    requires s.Valid() && s.Contains(x, y)
    ensures 0 <= y * s.width + x < s.width * s.height
    ensures (y * s.width + x) % s.width == x && (y * s.width + x) / s.width == y
  {
    MulMonotone(s.width, y + 1, s.height);
    MulMonotone(s.width, 0, y);
    Distribute(s.width, y, 1);
    DivModUnique(y * s.width + x, s.width, y, x);
  }

  // Offsets, up to the row after the last and the column after the last, fit an unsigned word.
  lemma OffsetFits(s: Screen, x: nat, y: nat)
    requires s.Valid() && x <= s.width && y <= s.height
    ensures 0 <= y * s.width + x < TWO_32
  {
    MulMonotone(s.width, 0, y);
    MulMonotone(s.width, y, 0x7fff);
  }

  lemma NextRow(s: Screen, x: nat, y: nat)
    requires s.Valid() && x <= s.width && y < s.height
    ensures (y + 1) * s.width + x == y * s.width + x + s.width < TWO_32
  {
    OffsetFits(s, x, y + 1);
    Distribute(s.width, y, 1);
  }

  lemma SameIndex(s: Screen, x: int, y: int, j: int)
    requires s.Valid() && s.Contains(x, y)
    ensures j == y * s.width + x <==> j % s.width == x && j / s.width == y
  {
    PixelIndex(s, x, y);
    DivideBack(j, s.width);
  }

  lemma IndexOnScreen(s: Screen, j: nat)
    requires s.Valid() && j < s.width * s.height
    ensures 0 <= j % s.width < s.width && 0 <= j / s.width < s.height
  {
    DivideBack(j, s.width);
    if j / s.width >= s.height {
      MulMonotone(s.width, s.height, j / s.width);
    }
  }

  // ----- Lines -----

  datatype Pixel = Pixel(x: int, y: int)

  // How far a line of width dx and height dy has risen after i columns: the nearest pixel, rounded
  // down at a tie, when the line is no steeper than 45 degrees; one pixel a column otherwise.
  function Rise(dx: int, dy: int, i: int): int
    requires dx > 0
  {
    if dy > dx then i else (2 * dy * i + dx - 1) / (2 * dx)
  }

  function Left(p: Pixel, q: Pixel): Pixel { if q.x < p.x then q else p }
  function Right(p: Pixel, q: Pixel): Pixel { if q.x < p.x then p else q }
  function Abs(x: int): nat { if x < 0 then -x else x }

  // The pixels fb_draw_line colours between two endpoints.
  predicate OnLine(p: Pixel, q: Pixel, x: int, y: int)
  {
    if p.x == q.x then x == p.x && (p.y <= y <= q.y || q.y <= y <= p.y)
    else
      var l, r := Left(p, q), Right(p, q);
      && l.x <= x <= r.x
      && var rise := Rise(r.x - l.x, Abs(r.y - l.y), x - l.x);
         y == if l.y <= r.y then l.y + rise else l.y - rise
  }

  // Twice the distance, in units of 1/dx pixel, between the ideal line and the pixel column i steps in.
  function Error(dx: int, dy: int, i: int, s: int): int { 2 * (dy * i) - 2 * (dx * s) }

  lemma RiseIs(dx: int, dy: int, i: int, s: int)
    requires dx > 0 && dy <= dx
    ensures s == Rise(dx, dy, i) <==> -dx < Error(dx, dy, i, s) <= dx
  {
    var a := 2 * dy * i + dx - 1;
    MulAssoc(2, dy, i);
    MulAssoc(2, dx, s);
    if -dx < Error(dx, dy, i, s) <= dx {
      DivModUnique(a, 2 * dx, s, a - 2 * dx * s);
    } else if s == Rise(dx, dy, i) {
      DivideBack(a, 2 * dx);
      assert false;
    }
  }

  lemma RiseEnds(dx: int, dy: int)
    requires dx > 0 && 0 <= dy
    ensures Rise(dx, dy, 0) == 0
    ensures Rise(dx, dy, dx) == if dy > dx then dx else dy
  {
    if dy <= dx {
      RiseIs(dx, dy, 0, 0);
      RiseIs(dx, dy, dx, dy);
    }
  }

  // From one column to the next a line rises by at most one pixel and never falls.
  lemma RiseStep(dx: int, dy: int, i: int)
    requires dx > 0 && 0 <= dy
    ensures Rise(dx, dy, i) <= Rise(dx, dy, i + 1) <= Rise(dx, dy, i) + 1
  {
    if dy <= dx {
      var s := Rise(dx, dy, i);
      RiseIs(dx, dy, i, s);
      Distribute(dy, i, 1);
      Distribute(dx, s, 1);
      RiseIs(dx, dy, i + 1, s);
      RiseIs(dx, dy, i + 1, s + 1);
    }
  }

  lemma ErrorStep(dx: int, dy: int, i: int, s: int)
    ensures Error(dx, dy, i + 1, s) == Error(dx, dy, i, s) + 2 * dy
    ensures Error(dx, dy, i, s + 1) == Error(dx, dy, i, s) - 2 * dx
  {
    Distribute(dy, i, 1);
    Distribute(dx, s, 1);
  }

  // The decision variable of the loop i columns in: the error of staying in the row, off by dx.
  function Decision(dx: int, dy: int, i: int): int
    requires dx > 0
  {
    Error(dx, dy, i + 1, Rise(dx, dy, i)) - dx
  }

  // Its sign says whether the next column is one row higher.
  lemma DecisionStep(dx: int, dy: int, i: int)
    requires 0 < dx && 0 <= dy && 0 <= i
    ensures Rise(dx, dy, i + 1) == Rise(dx, dy, i) + if Decision(dx, dy, i) <= 0 then 0 else 1
    ensures Decision(dx, dy, i + 1) == Decision(dx, dy, i) + if Decision(dx, dy, i) <= 0 then 2 * dy else 2 * (dy - dx)
  {
    var s := Rise(dx, dy, i);
    ErrorStep(dx, dy, i + 1, s);
    ErrorStep(dx, dy, i + 2, s);
    if dy <= dx {
      ErrorStep(dx, dy, i, s);
      RiseIs(dx, dy, i, s);
      RiseIs(dx, dy, i + 1, s);
      RiseIs(dx, dy, i + 1, s + 1);
    } else {
      SteepDecision(dx, dy, i);
    }
  }

  lemma SteepDecision(dx: int, dy: int, i: int)
    requires 0 < dx < dy && 0 <= i
    ensures Decision(dx, dy, i) == 2 * (i * (dy - dx)) + 2 * dy - dx > 0
  {
    ErrorStep(dx, dy, i, i);
    Distribute(i, dy, dx);
    MulMonotone(i, 0, dy - dx);
  }

  lemma DecisionStart(dx: int, dy: int)
    requires 0 < dx && 0 <= dy
    ensures Decision(dx, dy, 0) == 2 * dy - dx
  {
    RiseEnds(dx, dy);
  }

  // The decision variable fits a 32-bit word.
  lemma DecisionRange(dx: int, dy: int, i: int)
    requires 0 < dx < 0x8000 && 0 <= dy < 0x8000 && 0 <= i <= dx
    ensures -0x10000 <= Decision(dx, dy, i) <= TWO_31 - 0x10000
  {
    if dy <= dx {
      var s := Rise(dx, dy, i);
      ErrorStep(dx, dy, i, s);
      RiseIs(dx, dy, i, s);
    } else {
      SteepDecision(dx, dy, i);
      SteepBound(dx, dy, i);
    }
  }

  lemma SteepBound(dx: int, dy: int, i: int)
    requires 0 < dx < dy < 0x8000 && 0 <= i <= dx
    ensures 0 <= i * (dy - dx) <= 0x3fff_0000
  {
    MulMonotone(i, 0, dy - dx);
    MulMonotone(i, dy - dx, 0x7fff);
    MulMonotone(0x7fff, i, 0x7ffe);
  }

  lemma {:induction false} RiseRange(dx: int, dy: int, i: int)
    requires dx > 0 && 0 <= dy && 0 <= i <= dx
    ensures 0 <= Rise(dx, dy, i) <= dy
    decreases dx - i
  {
    RiseEnds(dx, dy);
    RiseMonotone(dx, dy, 0, i);
    RiseMonotone(dx, dy, i, dx);
  }

  lemma {:induction false} RiseMonotone(dx: int, dy: int, i: int, j: int)
    requires dx > 0 && 0 <= dy && i <= j
    ensures Rise(dx, dy, i) <= Rise(dx, dy, j)
    decreases j - i
  {
    if i < j {
      RiseStep(dx, dy, i);
      RiseMonotone(dx, dy, i + 1, j);
    }
  }

  // Drawing from either end colours the same pixels.
  lemma LineSymmetric(p: Pixel, q: Pixel, x: int, y: int)
    ensures OnLine(p, q, x, y) <==> OnLine(q, p, x, y)
  {
  }

  // Each column between the endpoints has exactly one pixel of a line that is not vertical, and for
  // lines of at most 45 degrees it lies within half a pixel of the ideal line.
  lemma OnePixelPerColumn(p: Pixel, q: Pixel, x: int) returns (y: int)
    requires p.x != q.x && Left(p, q).x <= x <= Right(p, q).x
    ensures forall z :: OnLine(p, q, x, z) <==> z == y
    ensures var l, r := Left(p, q), Right(p, q);
            Abs(r.y - l.y) <= r.x - l.x ==>
            Abs(2 * ((r.x - l.x) * (y - l.y)) - 2 * ((r.y - l.y) * (x - l.x))) <= r.x - l.x
  {
    var l, r := Left(p, q), Right(p, q);
    var dx, dy, i := r.x - l.x, Abs(r.y - l.y), x - l.x;
    var s := Rise(dx, dy, i);
    y := if l.y <= r.y then l.y + s else l.y - s;
    if dy <= dx {
      RiseIs(dx, dy, i, s);
      if l.y > r.y {
        Negated(dx, s);
        Negated(i, dy);
      }
    }
  }

  lemma Negated(x: int, y: int)
    ensures x * -y == -(x * y) && -y * x == -(y * x)
  {
  }

  // A vertical line has one pixel in every row between its endpoints, in their column, and no others.
  lemma OnePixelPerRow(p: Pixel, q: Pixel, x: int, y: int)
    requires p.x == q.x
    ensures OnLine(p, q, x, y) <==> x == p.x && (y - p.y) * (y - q.y) <= 0
  {
    if p.y < y && q.y < y {
      MulMonotone(y - p.y, 1, y - q.y);
    } else if y < p.y && y < q.y {
      MulMonotone(p.y - y, 1, q.y - y);
      assert (y - p.y) * (y - q.y) == (p.y - y) * (q.y - y);
    } else if p.y <= y <= q.y {
      MulMonotone(y - p.y, y - q.y, 0);
    } else {
      MulMonotone(y - q.y, y - p.y, 0);
      assert (y - p.y) * (y - q.y) == (y - q.y) * (y - p.y);
    }
  }

  // Half way between two rows a line stays in the one it comes from, going from left to right.
  lemma TieStaysInRow(p: Pixel, q: Pixel, x: int, y: int)
    requires p.x != q.x && OnLine(p, q, x, y)
    requires Abs(q.y - p.y) <= Abs(q.x - p.x)
    ensures var l, r := Left(p, q), Right(p, q);
            var error := 2 * ((r.y - l.y) * (x - l.x)) - 2 * ((r.x - l.x) * (y - l.y));
            if l.y <= r.y then -(r.x - l.x) < error <= r.x - l.x else -(r.x - l.x) <= error < r.x - l.x
  {
    var l, r := Left(p, q), Right(p, q);
    var dx, dy, i := r.x - l.x, Abs(r.y - l.y), x - l.x;
    var s := Rise(dx, dy, i);
    RiseIs(dx, dy, i, s);
    if l.y > r.y {
      Negated(dx, s);
      Negated(i, dy);
    }
  }

  // A line steeper than 45 degrees is drawn at 45 degrees from its left endpoint.
  lemma SteepIsDiagonal(p: Pixel, q: Pixel, x: int, y: int)
    requires p.x != q.x && Abs(q.y - p.y) > Abs(q.x - p.x)
    ensures var l, r := Left(p, q), Right(p, q);
            OnLine(p, q, x, y) <==> l.x <= x <= r.x && y - l.y == if l.y <= r.y then x - l.x else l.x - x
  {
  }

  // The line meets both its endpoints exactly when it is vertical or no steeper than 45 degrees.
  lemma EndpointsDrawnIff(p: Pixel, q: Pixel)
    ensures OnLine(p, q, p.x, p.y) && OnLine(p, q, q.x, q.y) <==> p.x == q.x || Abs(q.y - p.y) <= Abs(q.x - p.x)
  {
    if p.x != q.x {
      var l, r := Left(p, q), Right(p, q);
      RiseEnds(r.x - l.x, Abs(r.y - l.y));
    }
  }

  // Neighbouring columns are joined: their pixels are at most one row apart.
  lemma LineConnected(p: Pixel, q: Pixel, x: int, y: int, z: int)
    requires p.x != q.x && OnLine(p, q, x, y) && OnLine(p, q, x + 1, z)
    ensures Abs(z - y) <= 1
  {
    var l, r := Left(p, q), Right(p, q);
    RiseStep(r.x - l.x, Abs(r.y - l.y), x - l.x);
  }

  // A line between two points of the screen stays on it.
  lemma LineOnScreen(s: Screen, p: Pixel, q: Pixel, x: int, y: int)
    requires s.Contains(p.x, p.y) && s.Contains(q.x, q.y) && OnLine(p, q, x, y)
    ensures s.Contains(x, y)
  {
    if p.x != q.x {
      var l, r := Left(p, q), Right(p, q);
      RiseRange(r.x - l.x, Abs(r.y - l.y), x - l.x);
    }
  }

  // ----- Rectangles -----

  // A width or height cut at the screen's edge, in unsigned words.
  function Clip(start: UInt32, size: UInt32, limit: nat): UInt32
  {
    if (start + size) % TWO_32 > limit then (limit - start) % TWO_32 else size
  }

  // The words of the framebuffer that fb_fill_rect stores to, wherever they lie: columns words from
  // each of rows offsets, a screen's width apart.
  ghost predicate Stores(s: Screen, left: UInt32, top: UInt32, width: UInt32, height: UInt32, j: int)
  {
    exists i, k :: StoresAt(s, left, top, width, height, i, k, j)
  }

  predicate StoresAt(s: Screen, left: UInt32, top: UInt32, width: UInt32, height: UInt32, i: int, k: int, j: int)
  {
    && 0 <= i < Clip(top, height, s.height) && 0 <= k < Clip(left, width, s.width)
    && j == (top * s.width + left) % TWO_32 + i * s.width + k
  }

  predicate InRectangle(left: UInt32, top: UInt32, width: UInt32, height: UInt32, x: int, y: int)
  {
    left <= x < left + width && top <= y < top + height
  }

  // It fills its line buffer and the framebuffer within their bounds, and stores to exactly those
  // pixels of the screen that lie in the rectangle.
  ghost predicate FillsExactly(s: Screen, left: UInt32, top: UInt32, width: UInt32, height: UInt32)
    requires s.Valid()
  {
    && Clip(left, width, s.width) <= s.width
    && (forall j | Stores(s, left, top, width, height, j) :: 0 <= j < s.width * s.height)
    && (forall j | 0 <= j < s.width * s.height ::
          Stores(s, left, top, width, height, j) <==> InRectangle(left, top, width, height, j % s.width, j / s.width))
  }

  // The corner lies on the screen or its far edges, and neither sum wraps.
  predicate Fits(s: Screen, left: UInt32, top: UInt32, width: UInt32, height: UInt32)
  {
    left <= s.width && left + width < TWO_32 && top <= s.height && top + height < TWO_32
  }

  // What a caller has to see to: the line buffer is not overrun, and the rectangle fits unless
  // its clipped width or height is zero.
  predicate Fillable(s: Screen, left: UInt32, top: UInt32, width: UInt32, height: UInt32)
  {
    && Clip(left, width, s.width) <= s.width
    && (Clip(left, width, s.width) == 0 || Clip(top, height, s.height) == 0 || Fits(s, left, top, width, height))
  }

  lemma ClipFits(start: UInt32, size: UInt32, limit: nat)
    requires limit < 0x8000 && start <= limit && start + size < TWO_32
    ensures Clip(start, size, limit) == if start + size > limit then limit - start else size
  {
  }

  lemma ClipZero(start: UInt32, size: UInt32, limit: nat, z: int)
    requires limit < 0x8000 && Clip(start, size, limit) == 0 && start <= z < start + size
    ensures z >= limit
  {
  }

  lemma FitsFillsExactly(s: Screen, left: UInt32, top: UInt32, width: UInt32, height: UInt32, j: int)
    requires s.Valid() && Fits(s, left, top, width, height)
    ensures Stores(s, left, top, width, height, j) ==> 0 <= j < s.width * s.height
    ensures 0 <= j < s.width * s.height ==>
      (Stores(s, left, top, width, height, j) <==> InRectangle(left, top, width, height, j % s.width, j / s.width))
  {
    if Stores(s, left, top, width, height, j) {
      var i, k :| StoresAt(s, left, top, width, height, i, k, j);
      StoredIsInside(s, left, top, width, height, i, k, j);
    }
    if 0 <= j < s.width * s.height && InRectangle(left, top, width, height, j % s.width, j / s.width) {
      InsideIsStored(s, left, top, width, height, j);
    }
  }

  lemma StoredIsInside(s: Screen, left: UInt32, top: UInt32, width: UInt32, height: UInt32, i: int, k: int, j: int)
    requires s.Valid() && Fits(s, left, top, width, height) && StoresAt(s, left, top, width, height, i, k, j)
    ensures 0 <= j < s.width * s.height && InRectangle(left, top, width, height, j % s.width, j / s.width)
  {
    ClippedInside(left, width, s.width, k);
    ClippedInside(top, height, s.height, i);
    FirstOffset(s, left, top);
    RowMajor(s.width, left, top, i, k);
    PixelIndex(s, left + k, top + i);
  }

  lemma ClippedInside(start: UInt32, size: UInt32, limit: nat, i: int)
    requires limit < 0x8000 && start <= limit && start + size < TWO_32 && 0 <= i < Clip(start, size, limit)
    ensures start + i < limit && start + i < start + size
  {
    ClipFits(start, size, limit);
  }

  lemma RowMajor(w: int, x: int, y: int, i: int, k: int)
    ensures y * w + x + i * w + k == (y + i) * w + (x + k)
  {
    Distribute(w, y, i);
  }

  lemma InsideIsStored(s: Screen, left: UInt32, top: UInt32, width: UInt32, height: UInt32, j: int)
    requires s.Valid() && Fits(s, left, top, width, height)
    requires 0 <= j < s.width * s.height && InRectangle(left, top, width, height, j % s.width, j / s.width)
    ensures Stores(s, left, top, width, height, j)
  {
    var x, y := j % s.width, j / s.width;
    ClipFits(left, width, s.width);
    ClipFits(top, height, s.height);
    FirstOffset(s, left, top);
    IndexOnScreen(s, j);
    DivideBack(j, s.width);
    Distribute(s.width, y, top);
    assert StoresAt(s, left, top, width, height, y - top, x - left, j);
  }

  lemma FirstOffset(s: Screen, left: UInt32, top: UInt32)
    requires s.Valid() && left <= s.width && top <= s.height
    ensures (top * s.width + left) % TWO_32 == top * s.width + left
  {
    OffsetFits(s, left, top);
  }

  lemma EmptyFillsExactly(s: Screen, left: UInt32, top: UInt32, width: UInt32, height: UInt32, j: int)
    requires s.Valid() && (Clip(left, width, s.width) == 0 || Clip(top, height, s.height) == 0)
    ensures !Stores(s, left, top, width, height, j)
    ensures 0 <= j < s.width * s.height ==> !InRectangle(left, top, width, height, j % s.width, j / s.width)
  {
    if 0 <= j < s.width * s.height && InRectangle(left, top, width, height, j % s.width, j / s.width) {
      IndexOnScreen(s, j);
      if Clip(left, width, s.width) == 0 {
        ClipZero(left, width, s.width, j % s.width);
      } else {
        ClipZero(top, height, s.height, j / s.width);
      }
    }
  }

  // With something to store, the first row and the one after the last show that the rectangle fits.
  lemma ExactFits(s: Screen, left: UInt32, top: UInt32, width: UInt32, height: UInt32)
    requires s.Valid() && FillsExactly(s, left, top, width, height)
    requires Clip(left, width, s.width) > 0 && Clip(top, height, s.height) > 0
    ensures Fits(s, left, top, width, height)
  {
    FirstRow(s, left, top, width, height);
    NoRowPastEnd(s, left, top, width, height);
    ClipTells(left, width, s.width);
    ClipTells(top, height, s.height);
  }

  lemma FirstRow(s: Screen, left: UInt32, top: UInt32, width: UInt32, height: UInt32)
    requires s.Valid() && FillsExactly(s, left, top, width, height)
    requires Clip(left, width, s.width) > 0 && Clip(top, height, s.height) > 0
    ensures left <= s.width && top <= s.height
  {
    var first := (top * s.width + left) % TWO_32;
    RowStored(s, left, top, width, height, 0);
    assert Stores(s, left, top, width, height, first);
    IndexOnScreen(s, first);
    assert InRectangle(left, top, width, height, first % s.width, first / s.width);
  }

  lemma NoRowPastEnd(s: Screen, left: UInt32, top: UInt32, width: UInt32, height: UInt32)
    requires s.Valid() && FillsExactly(s, left, top, width, height) && Clip(left, width, s.width) > 0
    ensures Clip(top, height, s.height) <= s.height
  {
    assert s.height * s.width == s.width * s.height;
    if Clip(top, height, s.height) > s.height {
      RowStored(s, left, top, width, height, s.height);
    }
  }

  lemma ClipTells(start: UInt32, size: UInt32, limit: nat)
    requires limit < 0x8000 && start <= limit
    ensures Clip(start, size, limit) <= limit <==> start + size < TWO_32
  {
  }

  lemma RowStored(s: Screen, left: UInt32, top: UInt32, width: UInt32, height: UInt32, i: nat)
    requires s.Valid() && Clip(left, width, s.width) > 0 && i < Clip(top, height, s.height)
    ensures Stores(s, left, top, width, height, (top * s.width + left) % TWO_32 + i * s.width)
  {
    assert StoresAt(s, left, top, width, height, i, 0, (top * s.width + left) % TWO_32 + i * s.width);
  }

  // A call stays inside both buffers and paints exactly the rectangle's part of the screen, for
  // whatever unsigned arguments, exactly when they are fillable.
  lemma FillsExactlyIff(s: Screen, left: UInt32, top: UInt32, width: UInt32, height: UInt32)
    requires s.Valid()
    ensures FillsExactly(s, left, top, width, height) <==> Fillable(s, left, top, width, height)
  {
    if Fillable(s, left, top, width, height) {
      if Clip(left, width, s.width) == 0 || Clip(top, height, s.height) == 0 {
        forall j { EmptyFillsExactly(s, left, top, width, height, j); }
      } else {
        forall j { FitsFillsExactly(s, left, top, width, height, j); }
      }
    } else if FillsExactly(s, left, top, width, height) {
      ExactFits(s, left, top, width, height);
      assert false;
    }
  }

  class Frame {
    const screen: Screen
    const pixels: array<UInt32>

    ghost predicate Valid() { screen.Valid() && pixels.Length == screen.width * screen.height }

    constructor (s: Screen)
      requires s.Valid()
      ensures Valid() && screen == s && fresh(pixels)
    {
      screen := s;
      pixels := new UInt32[s.width * s.height](_ => 0);
    }

    // The coordinates are unsigned words, and so are the sums. What lies off the screen is clipped.
    method FillRect(left: UInt32, top: UInt32, width: UInt32, height: UInt32, color: UInt32)
      requires Valid() && Fillable(screen, left, top, width, height)
      modifies pixels
      ensures Painted(screen, old(pixels[..]), pixels[..], (x, y) => InRectangle(left, top, width, height, x, y), color)
    {
      var columns := if (left + width) % TWO_32 > screen.width then (screen.width - left) % TWO_32 else width;
      var rows := if (top + height) % TWO_32 > screen.height then (screen.height - top) % TWO_32 else height;
      var barLine := BarLine(columns, color);
      if columns != 0 && rows != 0 {
        ClipFits(left, width, screen.width);
        ClipFits(top, height, screen.height);
      }
      CopyLines(left, top, columns, rows, barLine, color);
      forall j | 0 <= j < pixels.Length
        ensures InRectangle(left, top, width, height, j % screen.width, j / screen.width)
          <==> left <= j % screen.width < left + columns && top <= j / screen.width < top + rows
      {
        IndexOnScreen(screen, j);
        if columns == 0 || rows == 0 {
          EmptyFillsExactly(screen, left, top, width, height, j);
        }
      }
    }

    // A line buffer as wide as the screen, its first n words coloured.
    method BarLine(n: nat, color: UInt32) returns (line: array<UInt32>)
      requires Valid() && n <= screen.width
      ensures fresh(line) && line.Length == screen.width && forall k | 0 <= k < n :: line[k] == color
    {
      line := new UInt32[screen.width](_ => 0);
      for i := 0 to n
        invariant forall k | 0 <= k < i :: line[k] == color
      {
        line[i] := color;
      }
    }

    // The loop of memcpys, which may copy nothing from a corner off the screen.
    method CopyLines(left: UInt32, top: UInt32, columns: nat, rows: nat, line: array<UInt32>, color: UInt32)
      requires Valid() && (columns == 0 || rows == 0 || (left + columns <= screen.width && top + rows <= screen.height))
      requires columns <= line.Length && line != pixels && forall k | 0 <= k < columns :: line[k] == color
      modifies pixels
      ensures Painted(screen, old(pixels[..]), pixels[..],
                      (x, y) => left <= x < left + columns && top <= y < top + rows, color)
    {
      var fbOffset: UInt32 := (top * screen.width + left) % TWO_32;
      var fbPointer := fbOffset as int;
      if columns != 0 && rows != 0 {
        FirstOffset(screen, left, top);
      }
      for i := 0 to rows
        invariant columns == 0 || fbPointer == (top + i) * screen.width + left || rows == 0
        invariant Painted(screen, old(pixels[..]), pixels[..],
                          (x, y) => left <= x < left + columns && top <= y < top + i, color)
      {
        CopyLine(left, top + i, fbPointer, columns, line, color);
        RowMajor(screen.width, left, top + i, 1, 0);
        fbPointer := fbPointer + screen.width;
      }
    }

    // The memcpy of one row.
    method CopyLine(x0: nat, y: nat, offset: int, n: nat, line: array<UInt32>, color: UInt32)
      requires Valid() && n <= line.Length && line != pixels && forall k | 0 <= k < n :: line[k] == color
      requires n == 0 || (x0 + n <= screen.width && y < screen.height && offset == y * screen.width + x0)
      modifies pixels
      ensures Painted(screen, old(pixels[..]), pixels[..], (u, v) => x0 <= u < x0 + n && v == y, color)
    {
      for k := 0 to n
        invariant Painted(screen, old(pixels[..]), pixels[..], (u, v) => x0 <= u < x0 + k && v == y, color)
      {
        PixelIndex(screen, x0 + k, y);
        pixels[offset + k] := line[k];
        forall j | 0 <= j < pixels.Length
          ensures j == offset + k <==> j % screen.width == x0 + k && j / screen.width == y
        {
          SameIndex(screen, x0 + k, y, j);
        }
      }
    }

    method DrawLine(p: Pixel, q: Pixel, color: UInt32)
      requires Valid() && screen.Contains(p.x, p.y) && screen.Contains(q.x, q.y)
      modifies pixels
      ensures Painted(screen, old(pixels[..]), pixels[..], (x, y) => OnLine(p, q, x, y), color)
    {
      var dx: Int32, dy: Int32 := q.x - p.x, q.y - p.y;
      if dx == 0 && dy == 0 {
        SetPixel(p.x, p.y, color);
      } else if dx == 0 {
        VerticalLine(p, q, color);
      } else if dy == 0 {
        HorizontalLine(p, q, color);
      } else {
        SlopedLine(p, q, color);
      }
    }

    method SetPixel(x: int, y: int, color: UInt32)
      requires Valid() && screen.Contains(x, y)
      modifies pixels
      ensures Painted(screen, old(pixels[..]), pixels[..], (u, v) => u == x && v == y, color)
    {
      OffsetFits(screen, x, y);
      var fbOffset: UInt32 := y * screen.width + x;
      StoreAt(fbOffset, x, y, color);
    }

    // The store at the offset of pixel (x, y).
    method StoreAt(fbOffset: UInt32, ghost x: int, ghost y: int, color: UInt32)
      requires Valid() && screen.Contains(x, y) && fbOffset == y * screen.width + x
      modifies pixels
      ensures Painted(screen, old(pixels[..]), pixels[..], (u, v) => u == x && v == y, color)
    {
      PixelIndex(screen, x, y);
      pixels[fbOffset] := color;
      forall j | 0 <= j < pixels.Length ensures j == fbOffset <==> j % screen.width == x && j / screen.width == y {
        SameIndex(screen, x, y, j);
      }
    }

    method VerticalLine(p: Pixel, q: Pixel, color: UInt32)
      requires Valid() && screen.Contains(p.x, p.y) && screen.Contains(q.x, q.y) && p.x == q.x
      modifies pixels
      ensures Painted(screen, old(pixels[..]), pixels[..], (x, y) => OnLine(p, q, x, y), color)
    {
      var start, stop := if p.y < q.y then p.y else q.y, if p.y < q.y then q.y else p.y;
      OffsetFits(screen, p.x, start);
      var fbOffset: UInt32 := start * screen.width + p.x;
      var i := start;
      while i <= stop
        invariant start <= i <= stop + 1
        invariant fbOffset == i * screen.width + p.x
        invariant Painted(screen, old(pixels[..]), pixels[..], (x, y) => x == p.x && start <= y < i, color)
      {
        StoreAt(fbOffset, p.x, i, color);
        NextRow(screen, p.x, i);
        fbOffset := fbOffset + screen.width;
        i := i + 1;
      }
    }

    method HorizontalLine(p: Pixel, q: Pixel, color: UInt32)
      requires Valid() && screen.Contains(p.x, p.y) && screen.Contains(q.x, q.y) && p.y == q.y && p.x != q.x
      modifies pixels
      ensures Painted(screen, old(pixels[..]), pixels[..], (x, y) => OnLine(p, q, x, y), color)
    {
      var start, stop := if p.x < q.x then p.x else q.x, if p.x < q.x then q.x else p.x;
      OffsetFits(screen, 0, p.y);
      var fbOffset: UInt32 := p.y * screen.width;
      var i := start;
      while i <= stop
        invariant start <= i <= stop + 1
        invariant Painted(screen, old(pixels[..]), pixels[..], (x, y) => y == p.y && start <= x < i, color)
      {
        OffsetFits(screen, i, p.y);
        StoreAt(fbOffset + i, i, p.y, color);
        i := i + 1;
      }
      FlatRise(stop - start);
    }

    method SlopedLine(p: Pixel, q: Pixel, color: UInt32)
      requires Valid() && screen.Contains(p.x, p.y) && screen.Contains(q.x, q.y) && p.x != q.x && p.y != q.y
      modifies pixels
      ensures Painted(screen, old(pixels[..]), pixels[..], (x, y) => OnLine(p, q, x, y), color)
    {
      var x0, y0, x1, y1 := p.x, p.y, q.x, q.y;
      if x1 < x0 {
        x0, x1, y0, y1 := x1, x0, y1, y0;
      }
      var flip := false;
      if y1 < y0 {
        flip := true;
        y0, y1 := y1, y0;
      }
      DrawColumns(p, q, x0, y0, x1, y1, flip, color);
    }

    // The loop, after the endpoints were ordered: left to right, and upwards unless flipped.
    method DrawColumns(ghost p: Pixel, ghost q: Pixel, x0: nat, y0: nat, x1: nat, y1: nat, flip: bool, color: UInt32)
      requires Ordered(p, q, x0, y0, x1, y1, flip)
      modifies pixels
      ensures Painted(screen, old(pixels[..]), pixels[..], (x, y) => OnLine(p, q, x, y), color)
    {
      var x: Int32, y: Int32, xEnd: Int32 := x0, y0, x1;
      var dx: Int32, dy: Int32 := x1 - x0, y1 - y0;
      var d: Int32 := 2 * dy - dx;
      LineStart(p, q);
      while x <= xEnd
        invariant x0 <= x <= xEnd + 1
        invariant LoopState(p, q, x, y - y0, d)
        invariant PaintedBefore(screen, old(pixels[..]), pixels[..], p, q, x, color)
      {
        PaintColumn(p, q, x, y, x0, y0, x1, y1, flip, color, d, old(pixels[..]));
        y, d := NextColumn(p, q, x, y, x0, y0, x1, y1, flip, d);
        x := x + 1;
      }
    }

    ghost predicate Ordered(p: Pixel, q: Pixel, x0: nat, y0: nat, x1: nat, y1: nat, flip: bool)
    {
      && Valid() && screen.Contains(p.x, p.y) && screen.Contains(q.x, q.y) && p.x != q.x
      && x0 == Left(p, q).x && x1 == Right(p, q).x && flip == (Right(p, q).y < Left(p, q).y)
      && (if flip then y1 else y0) == Left(p, q).y && (if flip then y0 else y1) == Right(p, q).y
    }

    // One iteration paints the one pixel the line has in column x.
    method PaintColumn(ghost p: Pixel, ghost q: Pixel, x: Int32, y: Int32, x0: nat, y0: nat, x1: nat, y1: nat,
                       flip: bool, color: UInt32, ghost d: Int32, ghost before: seq<UInt32>)
      requires Ordered(p, q, x0, y0, x1, y1, flip) && x0 <= x <= x1 && LoopState(p, q, x, y - y0, d)
      requires PaintedBefore(screen, before, pixels[..], p, q, x, color)
      modifies pixels
      ensures PaintedBefore(screen, before, pixels[..], p, q, x + 1, color)
    {
      ghost var row := if flip then y0 + y1 - y else y;
      LoopOnLine(p, q, x, y - y0, d);
      LineOnScreen(screen, p, q, x, row);
      if flip {
        SetPixel(x, y0 + y1 - y, color);
      } else {
        SetPixel(x, y, color);
      }
    }

    // Its decision takes it to the row and the decision variable of column x + 1.
    method NextColumn(ghost p: Pixel, ghost q: Pixel, ghost x: Int32, y: Int32, x0: nat, y0: nat, x1: nat, y1: nat,
                      ghost flip: bool, d: Int32)
      returns (yNext: Int32, dNext: Int32)
      requires Ordered(p, q, x0, y0, x1, y1, flip) && x0 <= x <= x1 && LoopState(p, q, x, y - y0, d)
      ensures LoopState(p, q, x + 1, yNext - y0, dNext)
    {
      LineStep(p, q, x, y - y0, d);
      var dx: Int32, dy: Int32 := x1 - x0, y1 - y0;
      var xIncrement: Int32, yIncrement: Int32 := 2 * dy, 2 * (dy - dx);
      if d <= 0 {
        yNext, dNext := y, d + xIncrement;
      } else {
        yNext, dNext := y + 1, d + yIncrement;
      }
    }
  }

  // The part of a line left of column x is painted.
  ghost predicate PaintedBefore(s: Screen, before: seq<UInt32>, after: seq<UInt32>, p: Pixel, q: Pixel, x: int,
                                color: UInt32)
    requires s.width > 0
  {
    Painted(s, before, after, (u, v) => OnLine(p, q, u, v) && u < x, color)
  }

  // The loop variables in column x: the rows risen so far and the decision variable.
  ghost predicate LoopState(p: Pixel, q: Pixel, x: int, risen: int, d: int)
    requires p.x != q.x
  {
    var l, r := Left(p, q), Right(p, q);
    risen == Rise(r.x - l.x, Abs(r.y - l.y), x - l.x) && d == Decision(r.x - l.x, Abs(r.y - l.y), x - l.x)
  }

  lemma LoopOnLine(p: Pixel, q: Pixel, x: int, risen: int, d: int)
    requires p.x != q.x && Left(p, q).x <= x <= Right(p, q).x && LoopState(p, q, x, risen, d)
    ensures var l := Left(p, q);
            OnLine(p, q, x, if l.y <= Right(p, q).y then l.y + risen else l.y - risen)
  {
  }

  lemma LineStart(p: Pixel, q: Pixel)
    requires p.x != q.x
    ensures var l, r := Left(p, q), Right(p, q);
            LoopState(p, q, l.x, 0, 2 * Abs(r.y - l.y) - (r.x - l.x))
  {
    var l, r := Left(p, q), Right(p, q);
    RiseEnds(r.x - l.x, Abs(r.y - l.y));
    DecisionStart(r.x - l.x, Abs(r.y - l.y));
  }

  lemma LineStep(p: Pixel, q: Pixel, x: int, risen: int, d: int)
    requires p.x != q.x && Left(p, q).x <= x <= Right(p, q).x
    requires Right(p, q).x - Left(p, q).x < 0x8000 && Abs(q.y - p.y) < 0x8000
    requires LoopState(p, q, x, risen, d)
    ensures -0x10000 <= d <= TWO_31 - 0x10000 && 0 <= risen < 0x8000
    ensures var l, r := Left(p, q), Right(p, q);
            var dx, dy := r.x - l.x, Abs(r.y - l.y);
            if d <= 0 then LoopState(p, q, x + 1, risen, d + 2 * dy)
            else LoopState(p, q, x + 1, risen + 1, d + 2 * (dy - dx))
  {
    var l, r := Left(p, q), Right(p, q);
    DecisionRange(r.x - l.x, Abs(r.y - l.y), x - l.x);
    RiseRange(r.x - l.x, Abs(r.y - l.y), x - l.x);
    DecisionStep(r.x - l.x, Abs(r.y - l.y), x - l.x);
    assert x + 1 - l.x == x - l.x + 1;
  }

  lemma FlatRise(dx: int)
    requires dx > 0
    ensures forall i :: Rise(dx, 0, i) == 0
  {
    forall i ensures Rise(dx, 0, i) == 0 { RiseIs(dx, 0, i, 0); }
  }
}
