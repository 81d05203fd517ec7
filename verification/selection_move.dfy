/**
 * `selection_move_with_mouse`: in the Select tool, pressing the left button
 * inside the selection picks up its block on the edit layer; dragging moves
 * it (with Ctrl held at the press, copies it), clamped so it stays on the
 * map when it fits; releasing writes it back first-write-wins as one
 * undoable command and moves the selection onto it.
 */
module SelectionMove {
  import opened Base
  import opened TileMapCore
  import opened Input
  import opened Selection
  import opened Undo
  import opened Edits
  import opened Editor
  import opened BlockMove

  /** The drag in progress (`SelectionMoveDrag`, without its preview sprites). */
  datatype MoveDrag = MoveDrag(active: bool, copy: bool, start: Point, current: Point, rect: Rect, buf: seq<Cell>)

  /** `SelectionMoveDrag::default()`. */
  const IdleDrag: MoveDrag := MoveDrag(false, false, Point(0, 0), Point(0, 0), Rect(Point(0, 0), Point(0, 0)), [])

  /**
   * An active drag holds an ordered block, picked up around a cursor cell,
   * with one buffer cell per block cell; its corners and cursor cells read
   * the same as `i32`. None of this depends on the map, which may have
   * been resized since the press.
   */
  predicate DragFits(d: MoveDrag)
  {
    d.active ==>
      && Ordered(d.rect) && I32Point(d.rect.max) && |d.buf| == Area(d.rect)
      && I32Point(d.start) && I32Point(d.current)
  }

  /** The result of one frame: the drag, the selection, the map and the undo stack. */
  datatype MoveFrame = MoveFrame(drag: MoveDrag, selection: SelectionState, tiles: TileMap, undo: UndoStack)

  /** The block is no wider and no taller than the map. */
  predicate BlockFits(r: Rect, m: TileMap)
  {
    Width(r) <= m.width && Height(r) <= m.height
  }

  /**
   * The cursor's offset from the press point, each axis clamped to the
   * range that keeps the block on the map; on an axis where the block is
   * longer than the map that range is empty and the clamp returns its
   * upper end.
   */
  function ClampedOffset(d: MoveDrag, m: TileMap): (o: (int, int))
    requires d.active && DragFits(d) && I32Size(m.width, m.height)
    ensures Width(d.rect) <= m.width ==> -(d.rect.min.x as int) <= o.0 <= m.width - 1 - d.rect.max.x
    ensures Height(d.rect) <= m.height ==> -(d.rect.min.y as int) <= o.1 <= m.height - 1 - d.rect.max.y
    ensures Width(d.rect) > m.width ==> o.0 == m.width - 1 - d.rect.max.x
    ensures Height(d.rect) > m.height ==> o.1 == m.height - 1 - d.rect.max.y
    ensures var dx := d.current.x - d.start.x;
      -(d.rect.min.x as int) <= dx <= m.width - 1 - d.rect.max.x ==> o.0 == dx
    ensures var dy := d.current.y - d.start.y;
      -(d.rect.min.y as int) <= dy <= m.height - 1 - d.rect.max.y ==> o.1 == dy
  {
    (ClampI32(d.current.x - d.start.x, -(d.rect.min.x as int), m.width - 1 - d.rect.max.x),
     ClampI32(d.current.y - d.start.y, -(d.rect.min.y as int), m.height - 1 - d.rect.max.y))
  }

  /**
   * One axis of the drop: a block spanning `lo..=hi` shifted by the offset
   * `c` clamped to `[-lo, size - 1 - hi]`, its new ends stored `as u32`. A
   * block that fits lands inside `0..size` with its length kept; a block
   * longer than a non-empty axis ends at the map's edge with its start
   * wrapped past its end.
   */
  lemma AxisLanding(lo: nat, hi: nat, c: int, size: nat)
    requires lo <= hi <= 0x7FFF_FFFF && size <= 0x7FFF_FFFF
    ensures var o := ClampI32(c, -(lo as int), size - 1 - hi);
      var a, b := AsU32(lo + o), AsU32(hi + o);
      && (hi - lo + 1 <= size ==> a == lo + o && b == hi + o && a <= b < size)
      && (hi - lo + 1 > size && size >= 1 ==> b == size - 1 && b < a)
      && (a <= b ==> b - a == hi - lo)
      && (size >= 1 ==> b < size)
  {
    var o := ClampI32(c, -(lo as int), size - 1 - hi);
    if hi - lo + 1 > size {
      assert o == size - 1 - hi;
    }
  }

  /**
   * Where the block lands: the picked-up rectangle shifted by the clamped
   * offset. A block that fits the map lands on it with its size; a longer
   * one wraps its minimum past its maximum, so nothing lies inside it.
   */
  function Landed(d: MoveDrag, m: TileMap): (n: Rect)
    requires d.active && DragFits(d) && I32Size(m.width, m.height)
    ensures BlockFits(d.rect, m) ==>
      && RectInMap(n, m.width, m.height)
      && n.min == Point(d.rect.min.x + ClampedOffset(d, m).0, d.rect.min.y + ClampedOffset(d, m).1)
    ensures Ordered(n) ==> Width(n) == Width(d.rect) && Height(n) == Height(d.rect)
    ensures !BlockFits(d.rect, m) && m.width >= 1 && m.height >= 1 ==> !Ordered(n)
    ensures m.width >= 1 && m.height >= 1 ==> n.max.x < m.width && n.max.y < m.height
  {
    var o := ClampedOffset(d, m);
    AxisLanding(d.rect.min.x, d.rect.max.x, d.current.x - d.start.x, m.width);
    AxisLanding(d.rect.min.y, d.rect.max.y, d.current.y - d.start.y, m.height);
    RectShift(d.rect, o.0, o.1)
  }

  /**
   * The drop panics: in move mode a cell of the old block, or a cell of
   * the landed block, lies past the tiles.
   */
  predicate DropPanics(m: TileMap, layer: nat, d: MoveDrag, n: Rect)
  {
    (!d.copy && !Indexable(m, layer, d.rect)) || (Ordered(n) && !Indexable(m, layer, n))
  }

  /**
   * The drop's writes: the block write-back when the landed rectangle is
   * ordered; otherwise its loops are empty and move mode only empties the
   * old block.
   */
  function DropWrites(m: TileMap, layer: nat, d: MoveDrag, n: Rect): (ws: seq<Write>)
    requires d.active && DragFits(d) && !DropPanics(m, layer, d, n)
    requires Ordered(n) ==> Width(n) == Width(d.rect) && Height(n) == Height(d.rect)
    ensures WritesInRange(ws, |m.tiles|)
    ensures WriteIndices(ws) ==
      (if d.copy then {} else RectIndices(m, layer, d.rect)) + (if Ordered(n) then RectIndices(m, layer, n) else {})
  {
    if Ordered(n) then MoveWrites(m, layer, d.rect, n, d.buf, d.copy)
    else if d.copy then []
    else RectWrites(m, layer, d.rect, Uniform(d.rect, None))
  }

  /**
   * The drop records a command that undoes it; a block landing on no cell
   * empties the old block in move mode and changes nothing in copy mode.
   */
  lemma DropEffect(m: TileMap, layer: nat, d: MoveDrag, n: Rect)
    requires d.active && DragFits(d) && !DropPanics(m, layer, d, n)
    requires Ordered(n) ==> Width(n) == Width(d.rect) && Height(n) == Height(d.rect)
    ensures var res := TouchedApply(m.tiles, DropWrites(m, layer, d, n));
      && Records(m.tiles, res.0, EditCommand(res.1))
      && (!Ordered(n) ==> forall i :: 0 <= i < |m.tiles| ==>
            res.0[i] == if !d.copy && i in RectIndices(m, layer, d.rect) then None else m.tiles[i])
  {
    var ws := DropWrites(m, layer, d, n);
    var res := TouchedApply(m.tiles, ws);
    TouchedApplyFaithful(m.tiles, ws);
    if !Ordered(n) && !d.copy {
      forall i | 0 <= i < |m.tiles| && i in RectIndices(m, layer, d.rect)
        ensures res.0[i] == None
      {
        var f := FirstWriteTo(ws, i).value;
        assert ws[f].value == Uniform(d.rect, None)[f];
      }
    }
  }

  /** A drag picked up on the map drops on the map, as the block write-back places it. */
  lemma DropOnMap(m: TileMap, layer: nat, d: MoveDrag)
    requires Valid(m) && I32Size(m.width, m.height) && layer < m.layers && d.active && DragFits(d)
    ensures var n := Landed(d, m);
      RectInMap(d.rect, m.width, m.height) ==>
      && RectInMap(n, m.width, m.height) && !DropPanics(m, layer, d, n)
      && DropWrites(m, layer, d, n) == MoveWrites(m, layer, d.rect, n, d.buf, d.copy)
      && var res := TouchedApply(m.tiles, DropWrites(m, layer, d, n));
         forall l: nat, p: Point :: l < m.layers && InBounds(m, p.x, p.y) ==>
           && PointIdx(m, l, p) < |res.0|
           && res.0[PointIdx(m, l, p)] == Placed(m, layer, d.rect, n, d.buf, d.copy, l, p)
  {
    if RectInMap(d.rect, m.width, m.height) {
      MoveWritesEffect(m, layer, d.rect, Landed(d, m), d.buf, d.copy);
    }
  }

  /**
   * Release: write the block back on `layer` (move or copy mode), push the
   * changes as one command, move the selection onto the landed block and
   * end the drag. A block no longer on the map may panic or vanish.
   */
  function CommitDrag(d: MoveDrag, layer: nat, sel: SelectionState, m: TileMap, undo: UndoStack): (r: Result<MoveFrame>)
    requires Valid(m) && I32Size(m.width, m.height) && layer < m.layers && d.active && DragFits(d)
    ensures r.Err? <==> DropPanics(m, layer, d, Landed(d, m))
    ensures r.Err? ==> r.error == IndexPanic
    ensures r.Ok? ==> UndoableEdit(m, undo, r.value.tiles, r.value.undo)
    ensures r.Ok? ==> !r.value.drag.active && !r.value.selection.moving && r.value.selection.dragging == sel.dragging
    ensures r.Ok? ==> var n := Landed(d, m);
      r.value.selection.rect == Some(n) && r.value.selection.start == n.min && r.value.selection.current == n.max
    ensures r.Ok? ==> var n := Landed(d, m);
      && |r.value.tiles.tiles| == |m.tiles|
      && forall i :: (&& 0 <= i < |m.tiles| && (d.copy || i !in RectIndices(m, layer, d.rect))
                      && (!Ordered(n) || i !in RectIndices(m, layer, n))) ==> r.value.tiles.tiles[i] == m.tiles[i]
    ensures r.Ok? && !Ordered(Landed(d, m)) ==> forall i :: 0 <= i < |m.tiles| ==>
      r.value.tiles.tiles[i] == if !d.copy && i in RectIndices(m, layer, d.rect) then None else m.tiles[i]
    ensures RectInMap(d.rect, m.width, m.height) ==>
      && r.Ok?
      && forall l: nat, p: Point :: l < m.layers && InBounds(m, p.x, p.y) ==>
           && PointIdx(m, l, p) < |r.value.tiles.tiles|
           && r.value.tiles.tiles[PointIdx(m, l, p)] == Placed(m, layer, d.rect, Landed(d, m), d.buf, d.copy, l, p)
  {
    var n := Landed(d, m);
    if DropPanics(m, layer, d, n) then Err(IndexPanic)
    else
      var ws := DropWrites(m, layer, d, n);
      var (cells, changes, _) := TouchedApply(m.tiles, ws);
      DropEffect(m, layer, d, n);
      DropOnMap(m, layer, d);
      var (m', undo') := Commit(m, undo, cells, changes);
      Ok(MoveFrame(d.(active := false), sel.(rect := Some(n), start := n.min, current := n.max, moving := false), m', undo'))
  }

  /** The frame is ignored and any drag dropped: wrong tool, menu, Space or Alt held, no selection or no map. */
  predicate MoveBlocked(tools: ToolState, menu: MenuState, k: Keys, sel: SelectionState, hasMap: bool)
  {
    tools.tool != Select || MenuBlocks(menu) || Held(k, Space) || Held(k, Alt) || sel.rect.None? || !hasMap
  }

  /** A press starts a drag: no drag yet, the button went down on a cell of the selection. */
  predicate Starts(d: MoveDrag, mouse: Mouse, pos: Option<Point>, rect: Rect)
  {
    !d.active && mouse.leftStart && pos.Some? && PointInRect(pos.value, rect)
  }

  /**
   * The drag right after a press at `p`: copy mode when Ctrl is held, the
   * block read row-major; a stale selection whose cells lie past the tiles
   * panics.
   */
  function PickUp(k: Keys, p: Point, rect: Rect, m: TileMap, layer: nat): (d: Result<MoveDrag>)
    requires Valid(m) && layer < m.layers && PointInRect(p, rect) && I32Point(p) && I32Point(rect.max)
    ensures d.Err? <==> !Indexable(m, layer, rect)
    ensures d.Err? ==> d.error == IndexPanic
    ensures d.Ok? ==> d.value.active && DragFits(d.value) && d.value.rect == rect && d.value.start == p && d.value.current == p
    ensures d.Ok? ==> (d.value.copy <==> Held(k, Ctrl))
    ensures d.Ok? ==> forall q :: PointInRect(q, rect) ==>
      && OffsetOf(rect, q) < |d.value.buf| && PointIdx(m, layer, q) < |m.tiles|
      && d.value.buf[OffsetOf(rect, q)] == m.tiles[PointIdx(m, layer, q)]
    ensures RectInMap(rect, m.width, m.height) ==> d.Ok?
  {
    if !Indexable(m, layer, rect) then Err(IndexPanic)
    else
      RowMajorBijection(rect);
      Ok(MoveDrag(true, Held(k, Ctrl), p, p, rect, RectCellsOf(m, layer, rect)))
  }

  /**
   * What every frame keeps: a drag's block fits its buffer and reads as
   * `i32`, the map keeps its size, the edit is undoable, and on a map with
   * cells the selection's maximum corner reads as `i32`.
   */
  predicate FrameKeeps(m: TileMap, undo: UndoStack, f: MoveFrame)
  {
    && DragFits(f.drag) && f.tiles.width == m.width && f.tiles.height == m.height
    && UndoableEdit(m, undo, f.tiles, f.undo)
    && (m.width >= 1 && m.height >= 1 && f.selection.rect.Some? ==> I32Point(f.selection.rect.value.max))
  }

  /** An active drag follows the cursor cell while the button is held down. */
  function FollowCursor(mouse: Mouse, pos: Option<Point>, d: MoveDrag): (d2: MoveDrag)
    ensures d2 == d.(current := d2.current)
    ensures pos.Some? && mouse.leftDown ==> d2.current == pos.value
    ensures !(pos.Some? && mouse.leftDown) ==> d2 == d
  {
    if pos.Some? && mouse.leftDown then d.(current := pos.value) else d
  }

  /**
   * The frame releases an active drag, and dropping it, after it has
   * followed the cursor, reaches past the tiles.
   */
  predicate ReleasePanics(mouse: Mouse, pos: Option<Point>, d: MoveDrag, layer: nat, m: TileMap)
    requires I32Size(m.width, m.height) && CursorOnMap(pos, m) && d.active && DragFits(d)
  {
    && (mouse.leftEnd || !mouse.leftDown)
    && DropPanics(m, layer, FollowCursor(mouse, pos, d), Landed(FollowCursor(mouse, pos, d), m))
  }

  /**
   * One frame of `selection_move_with_mouse` on edit layer
   * `EditLayer(activeLayer, m)`. Window and camera are taken as present;
   * `pos` is the cursor cell. The selection's maximum corner reads the same
   * as `i32`, which every frame keeps.
   */
  function SelectionMoveWithMouse(
    tools: ToolState, menu: MenuState, k: Keys, mouse: Mouse, activeLayer: nat, pos: Option<Point>,
    d: MoveDrag, sel: SelectionState, hasMap: bool, m: TileMap, undo: UndoStack): (r: Result<MoveFrame>)
    requires Valid(m) && I32Size(m.width, m.height) && CursorOnMap(pos, m) && DragFits(d)
    requires sel.rect.Some? ==> I32Point(sel.rect.value.max)
    ensures r.Err? ==> r.error == IndexPanic
    ensures r.Err? ==>
      && !MoveBlocked(tools, menu, k, sel, hasMap) && (d.active || Starts(d, mouse, pos, sel.rect.value))
      && ((!d.active && !Indexable(m, EditLayer(activeLayer, m), sel.rect.value)) || mouse.leftEnd || !mouse.leftDown)
    ensures (&& !MoveBlocked(tools, menu, k, sel, hasMap) && Starts(d, mouse, pos, sel.rect.value)
             && !Indexable(m, EditLayer(activeLayer, m), sel.rect.value)) ==> r.Err?
    ensures !MoveBlocked(tools, menu, k, sel, hasMap) && d.active ==>
      (r.Err? <==> ReleasePanics(mouse, pos, d, EditLayer(activeLayer, m), m))
    ensures sel.rect.Some? && RectInMap(sel.rect.value, m.width, m.height) && (d.active ==> RectInMap(d.rect, m.width, m.height)) ==>
      && r.Ok?
      && (r.value.selection.rect.Some? ==> RectInMap(r.value.selection.rect.value, m.width, m.height))
      && (r.value.drag.active ==> RectInMap(r.value.drag.rect, m.width, m.height))
    ensures r.Ok? ==> FrameKeeps(m, undo, r.value)
    ensures MoveBlocked(tools, menu, k, sel, hasMap) ==>
      r == Ok(MoveFrame(d.(active := false), sel.(moving := false), m, undo))
    ensures !MoveBlocked(tools, menu, k, sel, hasMap) && !d.active && !Starts(d, mouse, pos, sel.rect.value) ==>
      r == Ok(MoveFrame(d, sel.(moving := false), m, undo))
    ensures r.Ok? && mouse.leftDown && !mouse.leftEnd ==> r.value.tiles == m && r.value.undo == undo
    ensures r.Ok? && r.value.tiles != m ==> !r.value.drag.active && !r.value.selection.moving
    ensures r.Ok? && r.value.drag.active ==> r.value.drag.copy == (if d.active then d.copy else Held(k, Ctrl))
  {
    if MoveBlocked(tools, menu, k, sel, hasMap) then Ok(MoveFrame(d.(active := false), sel.(moving := false), m, undo))
    else Press(k, mouse, pos, d, EditLayer(activeLayer, m), sel, m, undo)
  }

  /** An unblocked frame: a press on the selection picks up its block, and an active drag goes on. */
  function Press(k: Keys, mouse: Mouse, pos: Option<Point>, d: MoveDrag, layer: nat, sel: SelectionState, m: TileMap, undo: UndoStack)
    : (r: Result<MoveFrame>)
    requires Valid(m) && I32Size(m.width, m.height) && CursorOnMap(pos, m) && layer < m.layers && DragFits(d)
    requires sel.rect.Some? && I32Point(sel.rect.value.max)
    ensures r.Err? ==> r.error == IndexPanic
    ensures r.Err? ==>
      && (d.active || Starts(d, mouse, pos, sel.rect.value))
      && ((!d.active && !Indexable(m, layer, sel.rect.value)) || mouse.leftEnd || !mouse.leftDown)
    ensures Starts(d, mouse, pos, sel.rect.value) && !Indexable(m, layer, sel.rect.value) ==> r.Err?
    ensures d.active ==> (r.Err? <==> ReleasePanics(mouse, pos, d, layer, m))
    ensures RectInMap(sel.rect.value, m.width, m.height) && (d.active ==> RectInMap(d.rect, m.width, m.height)) ==>
      && r.Ok?
      && (r.value.selection.rect.Some? ==> RectInMap(r.value.selection.rect.value, m.width, m.height))
      && (r.value.drag.active ==> RectInMap(r.value.drag.rect, m.width, m.height))
    ensures r.Ok? ==> DragFits(r.value.drag) && r.value.tiles.width == m.width && r.value.tiles.height == m.height
    ensures r.Ok? ==> UndoableEdit(m, undo, r.value.tiles, r.value.undo)
    ensures r.Ok? && m.width >= 1 && m.height >= 1 && r.value.selection.rect.Some? ==> I32Point(r.value.selection.rect.value.max)
    ensures !d.active && !Starts(d, mouse, pos, sel.rect.value) ==> r == Ok(MoveFrame(d, sel.(moving := false), m, undo))
    ensures r.Ok? && mouse.leftDown && !mouse.leftEnd ==> r.value.tiles == m && r.value.undo == undo
    ensures r.Ok? && r.value.tiles != m ==> !r.value.drag.active && !r.value.selection.moving
    ensures r.Ok? && r.value.drag.active ==> r.value.drag.copy == (if d.active then d.copy else Held(k, Ctrl))
  {
    if d.active then Follow(mouse, pos, d, layer, sel, m, undo)
    else if !Starts(d, mouse, pos, sel.rect.value) then Ok(MoveFrame(d, sel.(moving := false), m, undo))
    else Grab(k, mouse, pos.value, layer, sel, m, undo)
  }

  /** A press at `p` inside the selection: the block is picked up and followed in the same frame. */
  function Grab(k: Keys, mouse: Mouse, p: Point, layer: nat, sel: SelectionState, m: TileMap, undo: UndoStack)
    : (r: Result<MoveFrame>)
    requires Valid(m) && I32Size(m.width, m.height) && CursorOnMap(Some(p), m) && layer < m.layers
    requires sel.rect.Some? && I32Point(sel.rect.value.max) && PointInRect(p, sel.rect.value)
    ensures r.Err? ==> r.error == IndexPanic && (!Indexable(m, layer, sel.rect.value) || mouse.leftEnd || !mouse.leftDown)
    ensures !Indexable(m, layer, sel.rect.value) ==> r.Err?
    ensures RectInMap(sel.rect.value, m.width, m.height) ==>
      && r.Ok?
      && (r.value.selection.rect.Some? ==> RectInMap(r.value.selection.rect.value, m.width, m.height))
      && (r.value.drag.active ==> RectInMap(r.value.drag.rect, m.width, m.height))
    ensures r.Ok? ==> DragFits(r.value.drag) && r.value.tiles.width == m.width && r.value.tiles.height == m.height
    ensures r.Ok? ==> UndoableEdit(m, undo, r.value.tiles, r.value.undo)
    ensures r.Ok? && m.width >= 1 && m.height >= 1 && r.value.selection.rect.Some? ==> I32Point(r.value.selection.rect.value.max)
    ensures r.Ok? && mouse.leftDown && !mouse.leftEnd ==> r.value.tiles == m && r.value.undo == undo
    ensures r.Ok? && r.value.tiles != m ==> !r.value.drag.active && !r.value.selection.moving
    ensures r.Ok? && r.value.drag.active ==> r.value.drag.copy == Held(k, Ctrl)
  {
    var d1 := PickUp(k, p, sel.rect.value, m, layer);
    if d1.Err? then Err(IndexPanic)
    else Follow(mouse, Some(p), d1.value, layer, sel.(moving := true), m, undo)
  }

  /**
   * A drag in progress: the block follows the cursor while the button is
   * held and drops on release.
   */
  function Follow(mouse: Mouse, pos: Option<Point>, d: MoveDrag, layer: nat, sel: SelectionState, m: TileMap, undo: UndoStack)
    : (r: Result<MoveFrame>)
    requires Valid(m) && I32Size(m.width, m.height) && CursorOnMap(pos, m) && layer < m.layers && d.active && DragFits(d)
    ensures r.Err? ==> r.error == IndexPanic && (mouse.leftEnd || !mouse.leftDown)
    ensures r.Err? <==> ReleasePanics(mouse, pos, d, layer, m)
    ensures r.Ok? ==> DragFits(r.value.drag) && r.value.tiles.width == m.width && r.value.tiles.height == m.height
    ensures r.Ok? ==> UndoableEdit(m, undo, r.value.tiles, r.value.undo)
    ensures r.Ok? && r.value.selection.rect != sel.rect ==>
      r.value.selection.rect.Some? && (m.width >= 1 && m.height >= 1 ==> I32Point(r.value.selection.rect.value.max))
    ensures RectInMap(d.rect, m.width, m.height) ==>
      && r.Ok?
      && (r.value.selection.rect != sel.rect ==> RectInMap(r.value.selection.rect.value, m.width, m.height))
    ensures r.Ok? && mouse.leftDown && !mouse.leftEnd ==> r.value.tiles == m && r.value.undo == undo && r.value.selection == sel
    ensures r.Ok? && r.value.tiles != m ==> !r.value.drag.active && !r.value.selection.moving
    ensures r.Ok? && r.value.drag.active ==> r.value.drag.copy == d.copy && r.value.drag.rect == d.rect
  {
    var d2 := FollowCursor(mouse, pos, d);
    if !(mouse.leftEnd || !mouse.leftDown) then Ok(MoveFrame(d2, sel, m, undo))
    else CommitDrag(d2, layer, sel, m, undo)
  }

  /**
   * With the block read from the map at the press, a cell of the landed
   * rectangle receives the cell the same distance from the old corner:
   * the block is translated, not reshuffled.
   */
  lemma PickedBlockTranslates(m: TileMap, layer: nat, r: Rect, n: Rect, p: Point)
    requires Valid(m) && layer < m.layers && RectInMap(r, m.width, m.height)
    requires Width(n) == Width(r) && Height(n) == Height(r) && PointInRect(p, n)
    ensures var q := Point(p.x - n.min.x + r.min.x, p.y - n.min.y + r.min.y);
      && PointInRect(q, r) && OffsetOf(n, p) < Area(r)
      && RectCellsOf(m, layer, r)[OffsetOf(n, p)] == m.tiles[PointIdx(m, layer, q)]
  {
    var q := Point(p.x - n.min.x + r.min.x, p.y - n.min.y + r.min.y);
    assert OffsetOf(n, p) == OffsetOf(r, q);
    OffsetOfInRange(r, q);
  }

  /**
   * Placing a block read from the map itself: a cell of the landed
   * rectangle on the edit layer holds the cell at the same place in the old
   * block; in move mode the rest of the old block is empty; every other
   * cell is unchanged.
   */
  lemma PlacedPickedBlock(m: TileMap, layer: nat, r: Rect, n: Rect, copy: bool, l: nat, p: Point)
    requires Valid(m) && layer < m.layers && RectInMap(r, m.width, m.height)
    requires Width(n) == Width(r) && Height(n) == Height(r)
    requires l < m.layers && InBounds(m, p.x, p.y)
    ensures var v := Placed(m, layer, r, n, RectCellsOf(m, layer, r), copy, l, p);
      && (l == layer && PointInRect(p, n) ==>
            var q := Point(p.x - n.min.x + r.min.x, p.y - n.min.y + r.min.y);
            PointInRect(q, r) && v == m.tiles[PointIdx(m, layer, q)])
      && (l == layer && !PointInRect(p, n) && PointInRect(p, r) ==>
            v == if copy then m.tiles[PointIdx(m, l, p)] else None)
      && (!(l == layer && (PointInRect(p, n) || PointInRect(p, r))) ==> v == m.tiles[PointIdx(m, l, p)])
  {
    if l == layer && PointInRect(p, n) {
      PickedBlockTranslates(m, layer, r, n, p);
    }
  }

  /** A drag that changed the map is taken back by one undo and re-applied by redo. */
  lemma DragUndoRestores(d: MoveDrag, layer: nat, sel: SelectionState, m: TileMap, undo: UndoStack)
    requires Valid(m) && I32Size(m.width, m.height) && layer < m.layers && d.active && DragFits(d)
    ensures var r := CommitDrag(d, layer, sel, m, undo);
      r.Ok? && r.value.tiles != m ==>
        UndoStep(r.value.tiles, r.value.undo).0 == m && RedoStep(m, UndoStep(r.value.tiles, r.value.undo).1).0 == r.value.tiles
  {
    var r := CommitDrag(d, layer, sel, m, undo);
    if r.Ok? && r.value.tiles != m {
      UndoableEditRoundTrip(m, undo, r.value.tiles, r.value.undo);
    }
  }
}
