/** Grid points, inclusive selection rectangles and the selection state. */
module Selection {
  import opened Base

  /** A cell coordinate (`UVec2`). */
  datatype Point = Point(x: nat, y: nat)

  /** An inclusive rectangle of cells from `min` to `max`. */
  datatype Rect = Rect(min: Point, max: Point)

  /** The selection: box-drag state, the selected rectangle and whether its content is being dragged. */
  datatype SelectionState = SelectionState(
    dragging: bool,
    start: Point,
    current: Point,
    rect: Option<Rect>,
    moving: bool)

  /** `SelectionState::default()`. */
  const DefaultSelection: SelectionState := SelectionState(false, Point(0, 0), Point(0, 0), None, false)

  /** The default selection has no rectangle and no drag or move in progress. */
  lemma DefaultSelectionIsIdle()
    ensures DefaultSelection.rect.None? && !DefaultSelection.dragging && !DefaultSelection.moving
  {
  }

  /** `min <= max` on both axes. */
  predicate Ordered(r: Rect)
  {
    r.min.x <= r.max.x && r.min.y <= r.max.y
  }

  /** The rectangle lies inside a `w` x `h` map. */
  predicate RectInMap(r: Rect, w: nat, h: nat)
  {
    Ordered(r) && r.max.x < w && r.max.y < h
  }

  /** `SelectionRect::width`: saturating, so never below 1. */
  function Width(r: Rect): (w: nat)
    ensures w >= 1
    ensures r.min.x <= r.max.x ==> w == r.max.x - r.min.x + 1
    ensures r.min.x > r.max.x ==> w == 1
  {
    SatSub(r.max.x, r.min.x) + 1
  }

  /** `SelectionRect::height`: saturating, so never below 1. */
  function Height(r: Rect): (h: nat)
    ensures h >= 1
    ensures r.min.y <= r.max.y ==> h == r.max.y - r.min.y + 1
    ensures r.min.y > r.max.y ==> h == 1
  {
    SatSub(r.max.y, r.min.y) + 1
  }

  /** `point_in_rect`: inclusive on both axes. */
  predicate PointInRect(p: Point, r: Rect)
  {
    r.min.x <= p.x <= r.max.x && r.min.y <= p.y <= r.max.y
  }

  /** `rect_from_two`: the bounding box of two points. */
  function RectFromTwo(a: Point, b: Point): (r: Rect)
    ensures Ordered(r)
    ensures PointInRect(a, r) && PointInRect(b, r)
    ensures r.min.x in {a.x, b.x} && r.min.y in {a.y, b.y} && r.max.x in {a.x, b.x} && r.max.y in {a.y, b.y}
  {
    Rect(Point(Min(a.x, b.x), Min(a.y, b.y)), Point(Max(a.x, b.x), Max(a.y, b.y)))
  }

  /** The bounding box is symmetric and the smallest rectangle holding both points. */
  lemma RectFromTwoSmallest(a: Point, b: Point, q: Rect)
    requires PointInRect(a, q) && PointInRect(b, q)
    ensures RectFromTwo(a, b) == RectFromTwo(b, a)
    ensures forall p :: PointInRect(p, RectFromTwo(a, b)) ==> PointInRect(p, q)
  {
  }

  /** `clamp_i32`: `v.max(lo).min(hi)`. */
  function ClampI32(v: int, lo: int, hi: int): (r: int)
    ensures lo <= hi ==> lo <= r <= hi
    ensures lo <= v <= hi ==> r == v
    ensures r == v || r == lo || r == hi
  {
    var m := if v >= lo then v else lo;
    if m <= hi then m else hi
  }

  /** Two's complement reinterpretation of a 32-bit signed value as unsigned (`as u32`). */
  function AsU32(v: int): (r: nat)
    ensures r < 0x1_0000_0000
    ensures 0 <= v < 0x1_0000_0000 ==> r == v
    ensures -0x1_0000_0000 <= v < 0 ==> r == v + 0x1_0000_0000
  {
    v % 0x1_0000_0000
  }

  /** `as i32` on a `u32`: values from 2^31 up read as negative. */
  function AsI32(v: nat): (r: int)
    requires v < 0x1_0000_0000
    ensures -0x8000_0000 <= r <= 0x7FFF_FFFF
    ensures v <= 0x7FFF_FFFF ==> r == v
    ensures AsU32(r) == v
  {
    if v <= 0x7FFF_FFFF then v else v - 0x1_0000_0000
  }

  /** A point whose coordinates read the same as `i32`. */
  predicate I32Point(p: Point)
  {
    p.x <= 0x7FFF_FFFF && p.y <= 0x7FFF_FFFF
  }

  /** Every corner fits a `u32`, as `SelectionRect`'s fields do. */
  predicate U32Rect(r: Rect)
  {
    r.min.x < 0x1_0000_0000 && r.min.y < 0x1_0000_0000 && r.max.x < 0x1_0000_0000 && r.max.y < 0x1_0000_0000
  }

  /**
   * Map sides small enough that every coordinate converts to `i32` exactly,
   * as the shift arithmetic assumes.
   */
  predicate I32Size(w: nat, h: nat)
  {
    w <= 0x7FFF_FFFF && h <= 0x7FFF_FFFF
  }

  /** `rect_shift`: move both corners by (dx, dy). */
  function RectShift(r: Rect, dx: int, dy: int): (s: Rect)
    ensures (&& r.min.x + dx >= 0 && r.min.y + dy >= 0
             && r.max.x + dx < 0x1_0000_0000 && r.max.y + dy < 0x1_0000_0000
             && Ordered(r)) ==>
      && Ordered(s)
      && s.min == Point(r.min.x + dx, r.min.y + dy)
      && Width(s) == Width(r) && Height(s) == Height(r)
  {
    Rect(Point(AsU32(r.min.x + dx), AsU32(r.min.y + dy)), Point(AsU32(r.max.x + dx), AsU32(r.max.y + dy)))
  }

  // ---------------------------------------------------------------------
  // Row-major enumeration of a rectangle
  // ---------------------------------------------------------------------

  /** Number of cells in a rectangle. */
  function Area(r: Rect): (n: nat)
    ensures n >= 1
  {
    Width(r) * Height(r)
  }

  /** The `i`-th cell of `r` in row-major order (rows top to bottom, then columns). */
  function CellOf(r: Rect, i: nat): Point
  {
    Point(r.min.x + i % Width(r), r.min.y + i / Width(r))
  }

  /** Row-major offset of a cell inside `r`. */
  function OffsetOf(r: Rect, p: Point): (n: nat)
    requires PointInRect(p, r)
    ensures n < Area(r)
  {
    RowMajorBound(p.x - r.min.x, p.y - r.min.y, Width(r), Height(r));
    (p.y - r.min.y) * Width(r) + (p.x - r.min.x)
  }

  /** The `i`-th row-major cell lies in `r` and has offset `i`. */
  lemma CellOfInRect(r: Rect, i: nat)
    requires Ordered(r) && i < Area(r)
    ensures PointInRect(CellOf(r, i), r) && OffsetOf(r, CellOf(r, i)) == i
  {
    var w := Width(r);
    DivBound(i, w, Height(r));
    assert i == (i / w) * w + i % w;
  }

  /** Every cell of `r` is the row-major cell at its offset. */
  lemma OffsetOfInRange(r: Rect, p: Point)
    requires PointInRect(p, r)
    ensures OffsetOf(r, p) < Area(r) && CellOf(r, OffsetOf(r, p)) == p
  {
    var w := Width(r);
    RowMajorBound(p.x - r.min.x, p.y - r.min.y, w, Height(r));
    DivModUnique(OffsetOf(r, p), w, p.y - r.min.y, p.x - r.min.x);
  }

  /** `CellOf` and `OffsetOf` are inverse bijections between `0..Area(r)` and the cells of `r`. */
  lemma RowMajorBijection(r: Rect)
    requires Ordered(r)
    ensures forall i :: 0 <= i < Area(r) ==> PointInRect(CellOf(r, i), r) && OffsetOf(r, CellOf(r, i)) == i
    ensures forall p :: PointInRect(p, r) ==> OffsetOf(r, p) < Area(r) && CellOf(r, OffsetOf(r, p)) == p
  {
    forall i | 0 <= i < Area(r)
      ensures PointInRect(CellOf(r, i), r) && OffsetOf(r, CellOf(r, i)) == i
    {
      CellOfInRect(r, i);
    }
    forall p | PointInRect(p, r)
      ensures OffsetOf(r, p) < Area(r) && CellOf(r, OffsetOf(r, p)) == p
    {
      OffsetOfInRange(r, p);
    }
  }
}
