/**
 * The rectangle tool: drag with the left button to span a box, release to
 * fill it (or clear it with Shift held) on the edit layer as one undoable
 * command.
 */
module RectTool {
  import opened Base
  import opened TileMapCore
  import opened Input
  import opened Selection
  import opened Undo
  import opened Edits
  import opened Editor
  import Paint

  /** The drag in progress: its anchor and the latest cursor cell. */
  datatype RectDrag = RectDrag(active: bool, start: Point, current: Point)

  const IdleDrag: RectDrag := RectDrag(false, Point(0, 0), Point(0, 0))

  /** An active drag has both ends on the map. */
  predicate DragOnMap(d: RectDrag, m: TileMap)
  {
    d.active ==> InBounds(m, d.start.x, d.start.y) && InBounds(m, d.current.x, d.current.y)
  }

  /** The tool, menu and modifier guards that cancel any drag. */
  predicate Cancels(tool: ToolKind, keys: Keys, menu: MenuState)
  {
    tool != Rectangle || MenuBlocks(menu) || Held(keys, Alt) || Held(keys, Space)
  }

  /** The drag after this frame's press and motion, before the release check. */
  function Track(mouse: Mouse, pos: Option<Point>, d: RectDrag): (r: RectDrag)
    ensures !d.active && pos.Some? && mouse.leftStart ==> r == RectDrag(true, pos.value, pos.value)
    ensures !d.active && !(pos.Some? && mouse.leftStart) ==> r == d
    ensures d.active ==> r.active && r.start == d.start
    ensures d.active && pos.Some? && mouse.leftDown ==> r.current == pos.value
    ensures d.active && !(pos.Some? && mouse.leftDown) ==> r.current == d.current
  {
    var d1 := if !d.active && pos.Some? && mouse.leftStart then RectDrag(true, pos.value, pos.value) else d;
    if d1.active && pos.Some? && mouse.leftDown then d1.(current := pos.value) else d1
  }

  /**
   * The release's writes: `desired` at the `idx_layer` index of every cell of
   * the box in row-major order. An index past the tiles, which a drag left
   * over from before a resize can reach, is skipped by the blind write, as
   * the source's loop skips it; an in-range one may name a wrapped cell of
   * the next row or layer.
   */
  function BoxWrites(m: TileMap, layer: nat, box: Rect, desired: Cell): (ws: seq<Write>)
    ensures |ws| == Area(box)
    ensures forall i :: 0 <= i < |ws| ==> ws[i].value == desired
    ensures WriteIndices(ws) == RectIndices(m, layer, box)
  {
    var ws := seq(Area(box), i requires 0 <= i < Area(box) => Write(PointIdx(m, layer, CellOf(box, i)), desired));
    assert forall k :: k in RectIndices(m, layer, box) ==> k in WriteIndices(ws) by {
      forall k | k in RectIndices(m, layer, box) ensures k in WriteIndices(ws) {
        var i :| 0 <= i < Area(box) && k == PointIdx(m, layer, CellOf(box, i));
        assert ws[i].idx == k;
      }
    }
    ws
  }

  /** One frame of `rect_with_mouse`. */
  function RectStep(
    tool: ToolKind, keys: Keys, mouse: Mouse, menu: MenuState, activeId: Option<string>,
    selectedTile: nat, activeLayer: nat, hasMap: bool, pos: Option<Point>,
    m: TileMap, undo: UndoStack, d: RectDrag)
    : (r: (TileMap, UndoStack, RectDrag))
    requires Valid(m) && CursorOnMap(pos, m)
    ensures DragOnMap(d, m) ==> DragOnMap(r.2, m)
    ensures r.0 == m.(tiles := r.0.tiles) && |r.0.tiles| == |m.tiles|
    ensures Cancels(tool, keys, menu) ==> r == (m, undo, d.(active := false))
    ensures !Cancels(tool, keys, menu) && !hasMap ==> r == (m, undo, d)
    ensures r.2.active ==> r.0 == m && r.1 == undo
    ensures r.0 != m ==> !Cancels(tool, keys, menu) && hasMap && (mouse.leftEnd || !mouse.leftDown)
  {
    if Cancels(tool, keys, menu) then (m, undo, d.(active := false))
    else if !hasMap then (m, undo, d)
    else if !d.active && pos.None? then (m, undo, d)
    else
      var d1 := Track(mouse, pos, d);
      if !d1.active then (m, undo, d1)
      else if !(mouse.leftEnd || !mouse.leftDown) then (m, undo, d1)
      else
        var erase := Held(keys, Shift);
        if !erase && activeId.None? then (m, undo, d1.(active := false))
        else
          var desired := if erase then None else Some(TileRef(activeId.value, selectedTile, 0, false, false));
          var box := RectFromTwo(d1.start, d1.current);
          var layer := EditLayer(activeLayer, m);
          var (cells, changes) := BlindApply(m.tiles, BoxWrites(m, layer, box, desired));
          var (m', undo') := Commit(m, undo, cells, changes);
          (m', undo', d1.(active := false))
  }

  /**
   * Every frame of the rectangle tool is an undoable edit. On release with a
   * tile to place (or Shift held) every in-range index the box's loops visit
   * holds the desired value and every other index is unchanged; with the
   * drag on the map, that is every cell of the box on the edit layer and
   * nothing else.
   */
  lemma RectStepEffect(
    tool: ToolKind, keys: Keys, mouse: Mouse, menu: MenuState, activeId: Option<string>,
    selectedTile: nat, activeLayer: nat, hasMap: bool, pos: Option<Point>,
    m: TileMap, undo: UndoStack, d: RectDrag)
    requires Valid(m) && CursorOnMap(pos, m)
    ensures var r := RectStep(tool, keys, mouse, menu, activeId, selectedTile, activeLayer, hasMap, pos, m, undo, d);
      UndoableEdit(m, undo, r.0, r.1)
    ensures var r := RectStep(tool, keys, mouse, menu, activeId, selectedTile, activeLayer, hasMap, pos, m, undo, d);
      var d1 := Track(mouse, pos, d);
      var erase := Held(keys, Shift);
      (&& !Cancels(tool, keys, menu) && hasMap && d1.active && (mouse.leftEnd || !mouse.leftDown)
       && (erase || activeId.Some?)) ==>
        && !r.2.active
        && forall k :: 0 <= k < |m.tiles| ==>
             r.0.tiles[k] ==
               if k in RectIndices(m, EditLayer(activeLayer, m), RectFromTwo(d1.start, d1.current))
               then (if erase then None else Some(TileRef(activeId.value, selectedTile, 0, false, false)))
               else m.tiles[k]
    ensures var r := RectStep(tool, keys, mouse, menu, activeId, selectedTile, activeLayer, hasMap, pos, m, undo, d);
      var d1 := Track(mouse, pos, d);
      var erase := Held(keys, Shift);
      (&& DragOnMap(d, m) && !Cancels(tool, keys, menu) && hasMap && d1.active && (mouse.leftEnd || !mouse.leftDown)
       && (erase || activeId.Some?)) ==>
        forall l: nat, p: Point :: l < m.layers && InBounds(m, p.x, p.y) ==>
          r.0.tiles[PointIdx(m, l, p)] ==
            if l == EditLayer(activeLayer, m) && PointInRect(p, RectFromTwo(d1.start, d1.current))
            then (if erase then None else Some(TileRef(activeId.value, selectedTile, 0, false, false)))
            else m.tiles[PointIdx(m, l, p)]
  {
    var r := RectStep(tool, keys, mouse, menu, activeId, selectedTile, activeLayer, hasMap, pos, m, undo, d);
    var d1 := Track(mouse, pos, d);
    var erase := Held(keys, Shift);
    if !Cancels(tool, keys, menu) && hasMap && d1.active && (mouse.leftEnd || !mouse.leftDown) && (erase || activeId.Some?) {
      var desired := if erase then None else Some(TileRef(activeId.value, selectedTile, 0, false, false));
      var box := RectFromTwo(d1.start, d1.current);
      var layer := EditLayer(activeLayer, m);
      BlindApplyUniform(m.tiles, BoxWrites(m, layer, box, desired), desired);
      if DragOnMap(d, m) {
        RectIndicesOnMap(m, layer, box);
      }
    }
  }

  /**
   * A drag left over from before a resize: on a 2 x 1 map with two layers, a
   * drag anchored at (3, 0) of the old, wider map is released off the map.
   * On layer 0 its index 3 wraps to cell (1, 0) of layer 1, which takes the
   * tile; on layer 1 its index 5 lies past the tiles and nothing changes.
   */
  lemma StaleDragWrapsToNextLayer(m: TileMap, undo: UndoStack, id: string)
    requires Valid(m) && m.width == 2 && m.height == 1 && m.layers == 2
    ensures var d := RectDrag(true, Point(3, 0), Point(3, 0));
      var mouse, menu := Mouse(false, false, true, false), MenuState(false, None, false, 0);
      var r0 := RectStep(Rectangle, Keys({}, {}, {}), mouse, menu, Some(id), 0, 0, true, None, m, undo, d);
      var r1 := RectStep(Rectangle, Keys({}, {}, {}), mouse, menu, Some(id), 0, 1, true, None, m, undo, d);
      && !DragOnMap(d, m)
      && r0.0.tiles == m.tiles[3 := Some(TileRef(id, 0, 0, false, false))]
      && PointIdx(m, 1, Point(1, 0)) == 3
      && r1.0 == m
  {
    var d := RectDrag(true, Point(3, 0), Point(3, 0));
    var mouse, menu := Mouse(false, false, true, false), MenuState(false, None, false, 0);
    var box := Rect(Point(3, 0), Point(3, 0));
    assert RectFromTwo(d.start, d.current) == box;
    assert Area(box) == 1 && CellOf(box, 0) == Point(3, 0);
    assert RectIndices(m, 0, box) == {3} && RectIndices(m, 1, box) == {5};
    RectStepEffect(Rectangle, Keys({}, {}, {}), mouse, menu, Some(id), 0, 0, true, None, m, undo, d);
    RectStepEffect(Rectangle, Keys({}, {}, {}), mouse, menu, Some(id), 0, 1, true, None, m, undo, d);
    var r0 := RectStep(Rectangle, Keys({}, {}, {}), mouse, menu, Some(id), 0, 0, true, None, m, undo, d);
    var r1 := RectStep(Rectangle, Keys({}, {}, {}), mouse, menu, Some(id), 0, 1, true, None, m, undo, d);
    assert r1.0.tiles == m.tiles;
  }
}
