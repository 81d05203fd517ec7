/**
 * `apply_selection_transform`: rotate, mirror or reset the orientation of
 * the selected block on one layer. The block is read row-major, every tile
 * is re-oriented, the tiles are scattered into the transformed block (whose
 * sides are swapped by a quarter turn) anchored at the same top-left
 * corner, and the old and new rectangles are written back first-write-wins.
 */
module SelectionTransform {
  import opened Base
  import opened TileMapCore
  import opened Selection
  import opened Undo
  import opened Edits
  import opened Editor
  import opened BlockMove
  import opened Orientation

  /** A quarter turn, which swaps the sides of the block. */
  predicate Turns(a: ContextMenuAction)
  {
    a == PasteRotateCw || a == PasteRotateCcw
  }

  /** The actions the selection transform handles; every other action is refused. */
  predicate IsTransform(a: ContextMenuAction)
  {
    Turns(a) || a == PasteFlipX || a == PasteFlipY || a == PasteReset
  }

  /** `(new_w, new_h)`: the sides of the transformed block. */
  function NewSize(a: ContextMenuAction, w: nat, h: nat): (nat, nat)
  {
    if Turns(a) then (h, w) else (w, h)
  }

  /** A local coordinate inside a `w` x `h` block. */
  predicate InBlock(p: Point, w: nat, h: nat)
  {
    p.x < w && p.y < h
  }

  /**
   * The mapping functions: where source cell `s` of the `w` x `h` block
   * lands in the transformed block. `PasteReset` keeps every cell in place.
   */
  function Mapping(a: ContextMenuAction, s: Point, w: nat, h: nat): (d: Point)
    requires InBlock(s, w, h)
    ensures InBlock(d, NewSize(a, w, h).0, NewSize(a, w, h).1)
  {
    match a
    case PasteRotateCw => Point(h - 1 - s.y, s.x)
    case PasteRotateCcw => Point(s.y, w - 1 - s.x)
    case PasteFlipX => Point(w - 1 - s.x, s.y)
    case PasteFlipY => Point(s.x, h - 1 - s.y)
    case _ => s
  }

  /** The source cell that lands on cell `d` of the transformed block. */
  function Unmapping(a: ContextMenuAction, d: Point, w: nat, h: nat): (s: Point)
    requires InBlock(d, NewSize(a, w, h).0, NewSize(a, w, h).1)
    ensures InBlock(s, w, h)
  {
    match a
    case PasteRotateCw => Point(d.y, h - 1 - d.x)
    case PasteRotateCcw => Point(w - 1 - d.y, d.x)
    case PasteFlipX => Point(w - 1 - d.x, d.y)
    case PasteFlipY => Point(d.x, h - 1 - d.y)
    case _ => d
  }

  /**
   * Every mapping is a bijection from the `w` x `h` block onto the
   * transformed block: `Unmapping` undoes it on both sides.
   */
  lemma MappingBijection(a: ContextMenuAction, w: nat, h: nat)
    ensures forall s :: InBlock(s, w, h) ==> Unmapping(a, Mapping(a, s, w, h), w, h) == s
    ensures forall d :: InBlock(d, NewSize(a, w, h).0, NewSize(a, w, h).1) ==>
      Mapping(a, Unmapping(a, d, w, h), w, h) == d
  {
    forall s | InBlock(s, w, h) ensures Unmapping(a, Mapping(a, s, w, h), w, h) == s {
      MappingRoundTrip(a, s, w, h);
    }
    forall d | InBlock(d, NewSize(a, w, h).0, NewSize(a, w, h).1)
      ensures Mapping(a, Unmapping(a, d, w, h), w, h) == d
    {
      UnmappingRoundTrip(a, d, w, h);
    }
  }

  /** `Unmapping` undoes `Mapping` at one source cell. */
  lemma MappingRoundTrip(a: ContextMenuAction, s: Point, w: nat, h: nat)
    requires InBlock(s, w, h)
    ensures Unmapping(a, Mapping(a, s, w, h), w, h) == s
  {
    match a
    case PasteRotateCw =>
      assert Mapping(a, s, w, h) == Point(h - 1 - s.y, s.x);
    case PasteRotateCcw =>
      assert Mapping(a, s, w, h) == Point(s.y, w - 1 - s.x);
    case PasteFlipX =>
      assert Mapping(a, s, w, h) == Point(w - 1 - s.x, s.y);
    case PasteFlipY =>
      assert Mapping(a, s, w, h) == Point(s.x, h - 1 - s.y);
    case _ =>
  }

  /** `Mapping` undoes `Unmapping` at one destination cell. */
  lemma UnmappingRoundTrip(a: ContextMenuAction, d: Point, w: nat, h: nat)
    requires InBlock(d, NewSize(a, w, h).0, NewSize(a, w, h).1)
    ensures Mapping(a, Unmapping(a, d, w, h), w, h) == d
  {
    match a
    case PasteRotateCw =>
      assert Unmapping(a, d, w, h) == Point(d.y, h - 1 - d.x);
    case PasteRotateCcw =>
      assert Unmapping(a, d, w, h) == Point(w - 1 - d.y, d.x);
    case PasteFlipX =>
      assert Unmapping(a, d, w, h) == Point(w - 1 - d.x, d.y);
    case PasteFlipY =>
      assert Unmapping(a, d, w, h) == Point(d.x, h - 1 - d.y);
    case _ =>
  }

  /**
   * The clockwise and counter-clockwise mappings undo each other (the
   * second one works on the turned `h` x `w` block), and each mirror mapping
   * is an involution.
   */
  lemma MappingInverses(s: Point, w: nat, h: nat)
    requires InBlock(s, w, h)
    ensures Mapping(PasteRotateCcw, Mapping(PasteRotateCw, s, w, h), h, w) == s
    ensures Mapping(PasteRotateCw, Mapping(PasteRotateCcw, s, w, h), h, w) == s
    ensures Mapping(PasteFlipX, Mapping(PasteFlipX, s, w, h), w, h) == s
    ensures Mapping(PasteFlipY, Mapping(PasteFlipY, s, w, h), w, h) == s
  {
  }

  /** The group element a non-reset action multiplies orientations by. */
  function GroupOf(a: ContextMenuAction): GroupOp
    requires IsTransform(a) && a != PasteReset
  {
    match a
    case PasteRotateCw => QuarterCw
    case PasteRotateCcw => QuarterCcw
    case PasteFlipX => MirrorX
    case PasteFlipY => MirrorY
  }

  /**
   * The orientation change applied to each tile of the block: the reset
   * clears rotation and both mirrors, every other action multiplies the
   * tile's orientation matrix by its group matrix on the left.
   */
  function TransformTile(a: ContextMenuAction, t: TileRef): (u: TileRef)
    requires IsTransform(a)
    ensures u.tilesetId == t.tilesetId && u.index == t.index
    ensures a == PasteReset ==> u.rot == 0 && !u.flipX && !u.flipY
    ensures a != PasteReset ==>
      TileOrientationMat(u.rot, u.flipX, u.flipY) == MatMul(GroupMat(GroupOf(a)), TileOrientationMat(t.rot, t.flipX, t.flipY))
  {
    if a == PasteReset then t.(rot := 0, flipX := false, flipY := false)
    else
      ApplyGroupTransformMatrix(t, GroupOf(a));
      ApplyGroupTransform(t, GroupMat(GroupOf(a)))
  }

  /** An empty cell stays empty; a tile is re-oriented. */
  function TransformCell(a: ContextMenuAction, c: Cell): (r: Cell)
    requires IsTransform(a)
    ensures r.None? <==> c.None?
  {
    match c
    case None => None
    case Some(t) => Some(TransformTile(a, t))
  }

  /** The transformed block, anchored at the same top-left corner. */
  function NewRect(a: ContextMenuAction, r: Rect): (n: Rect)
    ensures n.min == r.min && Ordered(n)
    ensures Width(n) == NewSize(a, Width(r), Height(r)).0
    ensures Height(n) == NewSize(a, Width(r), Height(r)).1
  {
    var (nw, nh) := NewSize(a, Width(r), Height(r));
    Rect(r.min, Point(r.min.x + nw - 1, r.min.y + nh - 1))
  }

  /**
   * The block the source reads: `w` x `h` cells from the minimum corner,
   * with the saturating sides. It is the selection itself when the corners
   * are in order.
   */
  function ReadBlock(r: Rect): (b: Rect)
    ensures Ordered(b) && b.min == r.min && Width(b) == Width(r) && Height(b) == Height(r)
    ensures Ordered(r) ==> b == r
    ensures NewRect(PasteReset, r) == b
  {
    Rect(r.min, Point(r.min.x + Width(r) - 1, r.min.y + Height(r) - 1))
  }

  /** The transformed block fits inside the map. */
  predicate Fits(a: ContextMenuAction, r: Rect, m: TileMap)
  {
    NewRect(a, r).max.x < m.width && NewRect(a, r).max.y < m.height
  }

  /** The position of map cell `p` relative to the top-left corner `o`. */
  function Local(o: Point, p: Point): Point
    requires o.x <= p.x && o.y <= p.y
  {
    Point(p.x - o.x, p.y - o.y)
  }

  /** The map cell at position `q` relative to the corner `o`. */
  function Global(o: Point, q: Point): Point
  {
    Point(o.x + q.x, o.y + q.y)
  }

  /** Map cell `q` of the new rectangle receives the tile of this old-rectangle cell. */
  function Source(a: ContextMenuAction, r: Rect, q: Point): (p: Point)
    requires Ordered(r) && PointInRect(q, NewRect(a, r))
    ensures PointInRect(p, r)
  {
    Global(r.min, Unmapping(a, Local(r.min, q), Width(r), Height(r)))
  }

  /** The map cell old-rectangle cell `p` is moved to. */
  function Dest(a: ContextMenuAction, r: Rect, p: Point): (q: Point)
    requires Ordered(r) && PointInRect(p, r)
    ensures PointInRect(q, NewRect(a, r))
  {
    Global(r.min, Mapping(a, Local(r.min, p), Width(r), Height(r)))
  }

  /** `Source` and `Dest` are inverse bijections between the old and the new rectangle. */
  lemma SourceDest(a: ContextMenuAction, r: Rect)
    requires Ordered(r)
    ensures forall p :: PointInRect(p, r) ==> Source(a, r, Dest(a, r, p)) == p
    ensures forall q :: PointInRect(q, NewRect(a, r)) ==> Dest(a, r, Source(a, r, q)) == q
  {
    forall p | PointInRect(p, r) ensures Source(a, r, Dest(a, r, p)) == p {
      SourceOfDest(a, r, p);
    }
    forall q | PointInRect(q, NewRect(a, r)) ensures Dest(a, r, Source(a, r, q)) == q {
      DestOfSource(a, r, q);
    }
  }

  /** `Source` undoes `Dest` at one cell of the old rectangle. */
  lemma SourceOfDest(a: ContextMenuAction, r: Rect, p: Point)
    requires Ordered(r) && PointInRect(p, r)
    ensures Source(a, r, Dest(a, r, p)) == p
  {
    var s := Local(r.min, p);
    MappingRoundTrip(a, s, Width(r), Height(r));
    assert Local(r.min, Dest(a, r, p)) == Mapping(a, s, Width(r), Height(r));
  }

  /** `Dest` undoes `Source` at one cell of the new rectangle. */
  lemma DestOfSource(a: ContextMenuAction, r: Rect, q: Point)
    requires Ordered(r) && PointInRect(q, NewRect(a, r))
    ensures Dest(a, r, Source(a, r, q)) == q
  {
    var d := Local(r.min, q);
    UnmappingRoundTrip(a, d, Width(r), Height(r));
    assert Local(r.min, Source(a, r, q)) == Unmapping(a, d, Width(r), Height(r));
  }

  /** What cell `q` of the new rectangle holds afterwards: its source tile, transformed. */
  function Moved(a: ContextMenuAction, m: TileMap, layer: nat, r: Rect, q: Point): Cell
    requires Ordered(r) && Indexable(m, layer, r) && IsTransform(a)
    requires PointInRect(q, NewRect(a, r))
  {
    var p := Source(a, r, q);
    IndexableAt(m, layer, r, p);
    TransformCell(a, m.tiles[PointIdx(m, layer, p)])
  }

  /**
   * The `dst` buffer: the transformed block row-major, each cell holding
   * the transformed tile of the source cell that lands on it.
   */
  function Dst(a: ContextMenuAction, m: TileMap, layer: nat, r: Rect): (dst: seq<Cell>)
    requires Ordered(r) && Indexable(m, layer, r) && IsTransform(a)
    ensures |dst| == Area(NewRect(a, r))
  {
    var n := NewRect(a, r);
    RowMajorBijection(n);
    seq(Area(n), j requires 0 <= j < Area(n) => Moved(a, m, layer, r, CellOf(n, j)))
  }

  /**
   * `dst` is what scattering the source buffer produces: the transformed
   * tile of the `i`-th row-major source cell sits at the row-major offset of
   * that cell's image.
   */
  lemma DstScatter(a: ContextMenuAction, m: TileMap, layer: nat, r: Rect)
    requires Ordered(r) && Indexable(m, layer, r) && IsTransform(a)
    ensures var src, dst, n := RectCellsOf(m, layer, r), Dst(a, m, layer, r), NewRect(a, r);
      forall i :: 0 <= i < Area(r) ==> (PointInRect(CellOf(r, i), r) &&
        dst[OffsetOf(n, Dest(a, r, CellOf(r, i)))] == TransformCell(a, src[i]))
  {
    forall i | 0 <= i < Area(r)
      ensures PointInRect(CellOf(r, i), r)
      ensures Dst(a, m, layer, r)[OffsetOf(NewRect(a, r), Dest(a, r, CellOf(r, i)))]
        == TransformCell(a, RectCellsOf(m, layer, r)[i])
    {
      DstAt(a, m, layer, r, i);
    }
  }

  /** The scatter at one source offset. */
  lemma DstAt(a: ContextMenuAction, m: TileMap, layer: nat, r: Rect, i: nat)
    requires Ordered(r) && Indexable(m, layer, r) && IsTransform(a)
    requires i < Area(r)
    ensures PointInRect(CellOf(r, i), r)
    ensures Dst(a, m, layer, r)[OffsetOf(NewRect(a, r), Dest(a, r, CellOf(r, i)))]
      == TransformCell(a, RectCellsOf(m, layer, r)[i])
  {
    var n := NewRect(a, r);
    CellOfInRect(r, i);
    var p := CellOf(r, i);
    var q := Dest(a, r, p);
    OffsetOfInRange(n, q);
    SourceOfDest(a, r, p);
  }

  /** Every slot of `dst` is the image of one source offset: the scatter fills it. */
  lemma DstCovered(a: ContextMenuAction, r: Rect, j: nat)
    requires Ordered(r) && j < Area(NewRect(a, r))
    ensures PointInRect(CellOf(NewRect(a, r), j), NewRect(a, r))
    ensures var p := Source(a, r, CellOf(NewRect(a, r), j)); var i := OffsetOf(r, p);
      CellOf(r, i) == p && OffsetOf(NewRect(a, r), Dest(a, r, CellOf(r, i))) == j
  {
    var n := NewRect(a, r);
    CellOfInRect(n, j);
    var q := CellOf(n, j);
    var p := Source(a, r, q);
    OffsetOfInRange(r, p);
    DestOfSource(a, r, q);
  }

  /**
   * The two write-back passes: the old rectangle, then the transformed
   * block from `dst`. The first pass is empty when the corners are out of
   * order; the block read is then `ReadBlock(r)`.
   */
  function TransformWrites(a: ContextMenuAction, m: TileMap, layer: nat, r: Rect): (ws: seq<Write>)
    requires Valid(m) && layer < m.layers && Indexable(m, layer, ReadBlock(r)) && IsTransform(a)
    requires Fits(a, r, m)
    ensures WritesInRange(ws, |m.tiles|)
    ensures WriteIndices(ws) == (if Ordered(r) then RectIndices(m, layer, r) else {}) + RectIndices(m, layer, NewRect(a, r))
  {
    var b := ReadBlock(r);
    assert NewRect(a, b) == NewRect(a, r);
    MoveWrites(m, layer, r, NewRect(a, r), Dst(a, m, layer, b), !Ordered(r))
  }

  /** The slot of `dst` for cell `q` of the new rectangle holds the moved tile of `q`. */
  lemma DstOfCell(a: ContextMenuAction, m: TileMap, layer: nat, r: Rect, q: Point)
    requires Ordered(r) && Indexable(m, layer, r) && IsTransform(a)
    requires PointInRect(q, NewRect(a, r))
    ensures Dst(a, m, layer, r)[OffsetOf(NewRect(a, r), q)] == Moved(a, m, layer, r, q)
  {
    OffsetOfInRange(NewRect(a, r), q);
  }

  /** The result of a transform: handled or not, and the new selection, map and undo stack. */
  datatype Outcome = Outcome(handled: bool, selection: SelectionState, tiles: TileMap, undo: UndoStack)

  /** A quarter turn moves the selection onto the turned block. */
  function TurnedSelection(a: ContextMenuAction, sel: SelectionState, n: Rect): (s: SelectionState)
    ensures Turns(a) ==> s.rect == Some(n) && s.start == n.min && s.current == n.max
    ensures !Turns(a) ==> s == sel
    ensures s.dragging == sel.dragging && s.moving == sel.moving
  {
    if Turns(a) then sel.(rect := Some(n), start := n.min, current := n.max) else sel
  }

  /**
   * `apply_selection_transform` on `layer` (the edit layer). It is refused
   * without a selection or when the transformed block would leave the map.
   * The block is then read, which panics when a stale selection reaches
   * past the tiles, and only after that is an action that is not a
   * transform refused.
   */
  function ApplySelectionTransform(a: ContextMenuAction, sel: SelectionState, m: TileMap, layer: nat, undo: UndoStack)
    : (r: Result<Outcome>)
    requires Valid(m) && layer < m.layers
    ensures r.Err? <==> sel.rect.Some? && Fits(a, sel.rect.value, m) && !Indexable(m, layer, ReadBlock(sel.rect.value))
    ensures r.Err? ==> r.error == IndexPanic
    ensures sel.rect.Some? && RectInMap(sel.rect.value, m.width, m.height) ==> r.Ok?
    ensures r.Ok? ==> (r.value.handled <==> sel.rect.Some? && Fits(a, sel.rect.value, m) && IsTransform(a))
    ensures r.Ok? && !r.value.handled ==> r.value == Outcome(false, sel, m, undo)
    ensures r.Ok? && r.value.handled ==> r.value.selection == TurnedSelection(a, sel, NewRect(a, sel.rect.value))
    ensures r.Ok? ==> UndoableEdit(m, undo, r.value.tiles, r.value.undo)
    ensures r.Ok? && r.value.handled ==> forall k ::
      (&& 0 <= k < |m.tiles| && k !in RectIndices(m, layer, NewRect(a, sel.rect.value))
       && (Ordered(sel.rect.value) ==> k !in RectIndices(m, layer, sel.rect.value)))
      ==> r.value.tiles.tiles[k] == m.tiles[k]
  {
    if sel.rect.None? then Ok(Outcome(false, sel, m, undo))
    else
      var rect := sel.rect.value;
      if !Fits(a, rect, m) then Ok(Outcome(false, sel, m, undo))
      else if !Indexable(m, layer, ReadBlock(rect)) then Err(IndexPanic)
      else if !IsTransform(a) then Ok(Outcome(false, sel, m, undo))
      else
        var ws := TransformWrites(a, m, layer, rect);
        var (cells, changes, _) := TouchedApply(m.tiles, ws);
        TouchedApplyFaithful(m.tiles, ws);
        RecordsEmpty(m.tiles, cells, EditCommand(changes));
        var sel' := TurnedSelection(a, sel, NewRect(a, rect));
        if changes == [] then Ok(Outcome(true, sel', m, undo))
        else
          var (m', undo') := Commit(m, undo, cells, changes);
          Ok(Outcome(true, sel', m', undo'))
  }

  /**
   * A handled transform leaves every cell of the new rectangle on the edit
   * layer holding the transformed tile of its source cell, empties the
   * cells of the old rectangle outside the new one, and changes nothing
   * else on any layer.
   */
  lemma ApplySelectionTransformCells(a: ContextMenuAction, sel: SelectionState, m: TileMap, layer: nat, undo: UndoStack)
    requires Valid(m) && layer < m.layers
    requires sel.rect.Some? && RectInMap(sel.rect.value, m.width, m.height)
    requires Fits(a, sel.rect.value, m) && IsTransform(a)
    ensures var r := ApplySelectionTransform(a, sel, m, layer, undo); var rect := sel.rect.value;
      r.Ok? && forall l: nat, p: Point :: l < m.layers && InBounds(m, p.x, p.y) ==>
        && PointIdx(m, l, p) < |r.value.tiles.tiles|
        && r.value.tiles.tiles[PointIdx(m, l, p)] ==
             if l == layer && PointInRect(p, NewRect(a, rect)) then Moved(a, m, layer, rect, p)
             else if l == layer && PointInRect(p, rect) then None
             else m.tiles[PointIdx(m, l, p)]
  {
    var rect := sel.rect.value;
    var n := NewRect(a, rect);
    var dst := Dst(a, m, layer, rect);
    MoveWritesEffect(m, layer, rect, n, dst, false);
    var res := TouchedApply(m.tiles, TransformWrites(a, m, layer, rect));
    RecordsEmpty(m.tiles, res.0, EditCommand(res.1));
    var r := ApplySelectionTransform(a, sel, m, layer, undo).value;
    assert r.tiles.tiles == res.0;
    forall l: nat, p: Point | l < m.layers && InBounds(m, p.x, p.y)
      ensures PointIdx(m, l, p) < |r.tiles.tiles|
      ensures r.tiles.tiles[PointIdx(m, l, p)] ==
        if l == layer && PointInRect(p, n) then Moved(a, m, layer, rect, p)
        else if l == layer && PointInRect(p, rect) then None
        else m.tiles[PointIdx(m, l, p)]
    {
      if l == layer && PointInRect(p, n) {
        DstOfCell(a, m, layer, rect, p);
      }
    }
  }

  /** The reset keeps every tile in place and clears its orientation. */
  lemma ResetClearsOrientation(m: TileMap, layer: nat, r: Rect, p: Point)
    requires Valid(m) && layer < m.layers && RectInMap(r, m.width, m.height)
    requires PointInRect(p, r)
    ensures PointInRect(p, NewRect(PasteReset, r))
    ensures var before := m.tiles[PointIdx(m, layer, p)]; var after := Moved(PasteReset, m, layer, r, p);
      && (before.None? ==> after.None?)
      && (before.Some? ==> after == Some(before.value.(rot := 0, flipX := false, flipY := false)))
  {
    assert Source(PasteReset, r, p) == p;
  }

  /**
   * A quarter turn moves the tile of old cell `p` to `Dest(p)` and turns its
   * orientation matrix a quarter in the same direction.
   */
  lemma TurnMovesTile(a: ContextMenuAction, m: TileMap, layer: nat, r: Rect, p: Point)
    requires Valid(m) && layer < m.layers && RectInMap(r, m.width, m.height) && Turns(a)
    requires PointInRect(p, r) && m.tiles[PointIdx(m, layer, p)].Some?
    ensures var t := m.tiles[PointIdx(m, layer, p)].value; var u := Moved(a, m, layer, r, Dest(a, r, p));
      && u.Some? && u.value.tilesetId == t.tilesetId && u.value.index == t.index
      && TileOrientationMat(u.value.rot, u.value.flipX, u.value.flipY)
           == MatMul(RotMatCw(if a == PasteRotateCw then 1 else 3), TileOrientationMat(t.rot, t.flipX, t.flipY))
  {
    SourceDest(a, r);
    assert GroupMat(GroupOf(a)) == RotMatCw(if a == PasteRotateCw then 1 else 3);
  }
}
