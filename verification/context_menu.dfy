/**
 * The right-click menu: opening and closing it, the click it swallows, and
 * running the chosen entry (undo/redo, clipboard and selection entries, and
 * the paste-transform entries).
 */
module ContextMenu {
  import opened Base
  import opened TileMapCore
  import opened Input
  import opened Selection
  import opened Undo
  import opened Edits
  import opened Editor
  import opened PasteTransform

  // ---------------------------------------------------------------------
  // Clipboard and clearing
  // ---------------------------------------------------------------------

  /**
   * `copy_selection_to_clipboard`: the clipboard becomes the rectangle's
   * size and its cells on `layer`, row-major. A stale rectangle reaching
   * past the map's edge is read at the wrapped indices `idx_layer` gives,
   * and the copy panics when one of them is past the tiles; a rectangle with
   * its corners out of order copies no cell.
   */
  function CopySelectionToClipboard(m: TileMap, layer: nat, rect: Rect): (c: Result<Clipboard>)
    requires Valid(m) && layer < m.layers
    ensures c.Err? <==> Panics(m, layer, rect)
    ensures c.Err? ==> c.error == IndexPanic
    ensures c.Ok? ==> c.value.width == Width(rect) && c.value.height == Height(rect)
    ensures c.Ok? && !Ordered(rect) ==> c.value.tiles == []
    ensures c.Ok? && Ordered(rect) ==>
      && Indexable(m, layer, rect) && |c.value.tiles| == Area(rect)
      && forall i :: 0 <= i < Area(rect) ==> c.value.tiles[i] == m.tiles[RectIdx(m, layer, rect, i)]
    ensures RectInMap(rect, m.width, m.height) ==>
      && c.Ok? && HasContent(c.value) && |c.value.tiles| == c.value.width * c.value.height
      && forall p :: PointInRect(p, rect) ==>
           OffsetOf(rect, p) < |c.value.tiles| && c.value.tiles[OffsetOf(rect, p)] == m.tiles[PointIdx(m, layer, p)]
  {
    if !Ordered(rect) then Ok(Clipboard(Width(rect), Height(rect), []))
    else if !Indexable(m, layer, rect) then Err(IndexPanic)
    else
      RowMajorBijection(rect);
      Ok(Clipboard(Width(rect), Height(rect), RectCellsOf(m, layer, rect)))
  }

  /**
   * `clear_selection_to_none`: every non-empty cell the loops over the
   * rectangle visit on `layer` becomes empty; one command recording exactly
   * those cells is pushed, or nothing when there are none. On the map these
   * are the rectangle's cells; a stale rectangle reaching past the edge
   * clears the wrapped cells `idx_layer` gives, possibly on the next layer,
   * and panics when one of them is past the tiles.
   */
  function ClearSelectionToNone(m: TileMap, layer: nat, rect: Rect, undo: UndoStack): (r: Result<(TileMap, UndoStack)>)
    requires Valid(m) && layer < m.layers
    ensures r.Err? <==> Panics(m, layer, rect)
    ensures r.Err? ==> r.error == IndexPanic
    ensures r.Ok? ==> UndoableEdit(m, undo, r.value.0, r.value.1) && |r.value.0.tiles| == |m.tiles|
    ensures r.Ok? && r.value.0 != m ==> AllEffective(r.value.1.undo[|r.value.1.undo| - 1].changes)
    ensures r.Ok? ==> forall k :: 0 <= k < |m.tiles| ==>
      r.value.0.tiles[k] == if Ordered(rect) && k in RectIndices(m, layer, rect) then None else m.tiles[k]
    ensures RectInMap(rect, m.width, m.height) ==> r.Ok? && forall l: nat, p: Point :: l < m.layers && InBounds(m, p.x, p.y) ==>
      && PointIdx(m, l, p) < |r.value.0.tiles|
      && r.value.0.tiles[PointIdx(m, l, p)] == if l == layer && PointInRect(p, rect) then None else m.tiles[PointIdx(m, l, p)]
  {
    if !Ordered(rect) then Ok((m, undo))
    else if !Indexable(m, layer, rect) then Err(IndexPanic)
    else
      var ws := RectWrites(m, layer, rect, Uniform(rect, None));
      var (cells, changes) := BlindApply(m.tiles, ws);
      BlindApplyUniform(m.tiles, ws, None);
      RecordsEmpty(m.tiles, cells, EditCommand(changes));
      ClearOnMap(m, layer, rect);
      if changes == [] then Ok((m, undo))
      else Ok(Commit(m, undo, cells, changes))
  }

  /** On the map, the cells the clear visits are exactly the rectangle's cells on `layer`. */
  lemma ClearOnMap(m: TileMap, layer: nat, rect: Rect)
    requires Valid(m) && layer < m.layers
    ensures RectInMap(rect, m.width, m.height) ==> forall l: nat, p: Point :: l < m.layers && InBounds(m, p.x, p.y) ==>
      && PointIdx(m, l, p) < |m.tiles|
      && (PointIdx(m, l, p) in RectIndices(m, layer, rect) <==> l == layer && PointInRect(p, rect))
  {
    if RectInMap(rect, m.width, m.height) {
      RectIndicesOnMap(m, layer, rect);
    }
  }

  /**
   * A clear changes the map exactly when some cell of the rectangle on
   * `layer` held a tile; the command it then pushes holds exactly those
   * cells, each going from its tile to empty.
   */
  lemma ClearRecordsNonEmptyCells(m: TileMap, layer: nat, rect: Rect, undo: UndoStack)
    requires Valid(m) && layer < m.layers && RectInMap(rect, m.width, m.height)
    ensures var r := ClearSelectionToNone(m, layer, rect, undo).value;
      && (r.0 == m <==> forall p :: PointInRect(p, rect) ==> m.tiles[PointIdx(m, layer, p)].None?)
      && (r.0 != m ==>
            var cmd := r.1.undo[|r.1.undo| - 1];
            && (forall i :: 0 <= i < |cmd.changes| ==> cmd.changes[i].before.Some? && cmd.changes[i].after.None?)
            && forall p :: PointInRect(p, rect) ==>
                 (PointIdx(m, layer, p) in Indices(cmd.changes) <==> m.tiles[PointIdx(m, layer, p)].Some?))
  {
    var r := ClearSelectionToNone(m, layer, rect, undo).value;
    if r.0 == m {
      forall p | PointInRect(p, rect) ensures m.tiles[PointIdx(m, layer, p)].None? {
        assert r.0.tiles[PointIdx(m, layer, p)] == None;
      }
    } else {
      var cmd := r.1.undo[|r.1.undo| - 1];
      forall i | 0 <= i < |cmd.changes| ensures cmd.changes[i].before.Some? && cmd.changes[i].after.None? {
        var k := cmd.changes[i].idx;
        var c := Coords(m, k);
        assert k == PointIdx(m, c.0, Point(c.1, c.2));
      }
      forall p | PointInRect(p, rect)
        ensures PointIdx(m, layer, p) in Indices(cmd.changes) <==> m.tiles[PointIdx(m, layer, p)].Some?
      {
        var k := PointIdx(m, layer, p);
        if k in Indices(cmd.changes) {
          var i :| 0 <= i < |cmd.changes| && cmd.changes[i].idx == k;
        }
      }
      assert r.0.tiles != m.tiles;
      var k0 :| 0 <= k0 < |m.tiles| && m.tiles[k0] != r.0.tiles[k0];
      var c0 := Coords(m, k0);
      assert k0 == PointIdx(m, c0.0, Point(c0.1, c0.2));
      assert PointInRect(Point(c0.1, c0.2), rect) && m.tiles[PointIdx(m, layer, Point(c0.1, c0.2))].Some?;
    }
  }

  // ---------------------------------------------------------------------
  // Entering paste mode
  // ---------------------------------------------------------------------

  /**
   * Enter the Paste tool (menu entry and Ctrl+V): ignored with an empty
   * clipboard; otherwise the current tool is remembered unless it already
   * is Paste.
   */
  function EnterPasteTools(tools: ToolState, clip: Clipboard): (r: ToolState)
    ensures !HasContent(clip) ==> r == tools
    ensures HasContent(clip) ==> r.tool == Paste
    ensures HasContent(clip) && tools.tool != Paste ==> r.returnAfterPaste == Some(tools.tool)
    ensures tools.tool == Paste ==> r.returnAfterPaste == tools.returnAfterPaste
  {
    if !HasContent(clip) then tools
    else if tools.tool != Paste then ToolState(Paste, Some(tools.tool))
    else tools.(tool := Paste)
  }

  /** Entering paste from another tool and leaving it again returns to that tool. */
  lemma EnterThenExitPaste(tools: ToolState, clip: Clipboard)
    requires HasContent(clip) && tools.tool != Paste
    ensures ExitPasteTools(EnterPasteTools(tools, clip)) == ToolState(tools.tool, None)
  {
  }

  // ---------------------------------------------------------------------
  // Running a menu entry
  // ---------------------------------------------------------------------

  /** Everything a menu entry may change. */
  datatype EditorView = EditorView(
    tools: ToolState, paste: PasteState, selection: SelectionState, clipboard: Clipboard,
    tiles: TileMap, undo: UndoStack)

  /** The whole map as a selection rectangle. */
  function WholeMap(m: TileMap): (r: Rect)
    requires m.width > 0 && m.height > 0
    ensures RectInMap(r, m.width, m.height)
    ensures forall p: Point :: InBounds(m, p.x, p.y) <==> PointInRect(p, r)
  {
    Rect(Point(0, 0), Point(m.width - 1, m.height - 1))
  }

  /** The selection after select-all: the whole map, no box drag. */
  function SelectAll(sel: SelectionState, m: TileMap): (s: SelectionState)
    requires m.width > 0 && m.height > 0
    ensures s.rect == Some(WholeMap(m)) && !s.dragging && s.moving == sel.moving
  {
    var r := WholeMap(m);
    sel.(dragging := false, start := r.min, current := r.max, rect := Some(r))
  }

  /**
   * The menu's Copy, Cut and Delete on an existing selection: Copy and Cut
   * fill the clipboard with the rectangle's cells on `layer`, Cut and Delete
   * empty them, and the tool becomes Select. A stale selection whose loops
   * reach past the tiles panics.
   */
  function SelectionEntry(action: ContextMenuAction, layer: nat, v: EditorView): (r: Result<EditorView>)
    requires action in {SelectionCopy, SelectionCut, SelectionDelete}
    requires Valid(v.tiles) && layer < v.tiles.layers && v.selection.rect.Some?
    ensures r.Err? <==> Panics(v.tiles, layer, v.selection.rect.value)
    ensures r.Err? ==> r.error == IndexPanic
    ensures r.Ok? ==> UndoableEdit(v.tiles, v.undo, r.value.tiles, r.value.undo)
    ensures r.Ok? ==> r.value.tools == v.tools.(tool := Select) && r.value.selection == v.selection && r.value.paste == v.paste
    ensures r.Ok? && action == SelectionCopy ==> r.value.tiles == v.tiles && r.value.undo == v.undo
    ensures r.Ok? && action == SelectionDelete ==> r.value.clipboard == v.clipboard
    ensures r.Ok? && action != SelectionDelete ==>
      CopySelectionToClipboard(v.tiles, layer, v.selection.rect.value) == Ok(r.value.clipboard)
    ensures r.Ok? && action != SelectionCopy ==>
      ClearSelectionToNone(v.tiles, layer, v.selection.rect.value, v.undo) == Ok((r.value.tiles, r.value.undo))
  {
    var rect := v.selection.rect.value;
    if Panics(v.tiles, layer, rect) then Err(IndexPanic)
    else
      var clip := if action == SelectionDelete then v.clipboard else CopySelectionToClipboard(v.tiles, layer, rect).value;
      if action == SelectionCopy then
        Ok(v.(clipboard := clip, tools := v.tools.(tool := Select)))
      else
        var c := ClearSelectionToNone(v.tiles, layer, rect, v.undo).value;
        Ok(v.(clipboard := clip, tiles := c.0, undo := c.1, tools := v.tools.(tool := Select)))
  }

  /** The entries that only act in paste mode, handled by `apply_context_menu_paste_action`. */
  predicate PasteEntry(a: ContextMenuAction)
  {
    Orienting(a) || a == PasteReset || a == ExitPaste
  }

  /** A Copy, Cut or Delete entry that finds a map and a selection whose loops run past the tiles. */
  predicate EntryPanics(action: ContextMenuAction, activeLayer: nat, hasMap: bool, v: EditorView)
  {
    && action in {SelectionCopy, SelectionCut, SelectionDelete} && hasMap && v.selection.rect.Some?
    && Panics(v.tiles, EditLayer(activeLayer, v.tiles), v.selection.rect.value)
  }

  /** Every entry of `apply_context_menu_command` other than the paste-mode ones. */
  function EditorEntry(action: ContextMenuAction, activeLayer: nat, hasMap: bool, v: EditorView): (r: Result<EditorView>)
    requires !PasteEntry(action)
    requires Valid(v.tiles)
    ensures r.Err? <==> EntryPanics(action, activeLayer, hasMap, v)
    ensures r.Ok? ==>
      || UndoableEdit(v.tiles, v.undo, r.value.tiles, r.value.undo)
      || (r.value.tiles, r.value.undo) == UndoStep(v.tiles, v.undo)
      || (r.value.tiles, r.value.undo) == RedoStep(v.tiles, v.undo)
    ensures action == MenuUndo ==>
      r == Ok(if hasMap then var u := UndoStep(v.tiles, v.undo); v.(tiles := u.0, undo := u.1) else v)
    ensures action == MenuRedo ==>
      r == Ok(if hasMap then var u := RedoStep(v.tiles, v.undo); v.(tiles := u.0, undo := u.1) else v)
    ensures action == EnterPaste ==> r == Ok(v.(tools := EnterPasteTools(v.tools, v.clipboard)))
    ensures action == SelectionDeselect ==>
      r == Ok(v.(selection := v.selection.(dragging := false, rect := None), tools := v.tools.(tool := Select)))
    ensures action == SelectionSelectAll ==>
      r == Ok(if hasMap && v.tiles.width > 0 && v.tiles.height > 0
              then v.(selection := SelectAll(v.selection, v.tiles), tools := v.tools.(tool := Select))
              else v)
    ensures action in {SelectionCopy, SelectionCut, SelectionDelete} ==>
      r == if hasMap && v.selection.rect.Some? then SelectionEntry(action, EditLayer(activeLayer, v.tiles), v) else Ok(v)
  {
    var m := v.tiles;
    if action == MenuUndo then
      if !hasMap then Ok(v) else var u := UndoStep(m, v.undo); Ok(v.(tiles := u.0, undo := u.1))
    else if action == MenuRedo then
      if !hasMap then Ok(v) else var u := RedoStep(m, v.undo); Ok(v.(tiles := u.0, undo := u.1))
    else if action == EnterPaste then Ok(v.(tools := EnterPasteTools(v.tools, v.clipboard)))
    else if action == SelectionSelectAll then
      if !hasMap || m.width == 0 || m.height == 0 then Ok(v)
      else Ok(v.(selection := SelectAll(v.selection, m), tools := v.tools.(tool := Select)))
    else if action == SelectionDeselect then
      Ok(v.(selection := v.selection.(dragging := false, rect := None), tools := v.tools.(tool := Select)))
    else if !hasMap || v.selection.rect.None? then Ok(v)
    else SelectionEntry(action, EditLayer(activeLayer, m), v)
  }

  /**
   * `apply_context_menu_command`: run the pending entry, if any, with the
   * edit layer `EditLayer(activeLayer, m)` and the cell the menu was opened
   * over. `hasMap` says whether the map and its tile sprites exist. The
   * selection may be stale (the map was resized or loaded after it was
   * made); Copy, Cut and Delete then panic when its loops run past the
   * tiles.
   */
  function ApplyContextMenuCommand(action: Option<ContextMenuAction>, menuPos: Option<Point>, activeLayer: nat,
                                   hasMap: bool, v: EditorView): (r: Result<EditorView>)
    requires Valid(v.tiles) && CursorOnMap(menuPos, v.tiles)
    ensures r.Err? <==> action.Some? && EntryPanics(action.value, activeLayer, hasMap, v)
    ensures r.Err? ==> r.error == IndexPanic
    ensures r.Ok? ==>
      || UndoableEdit(v.tiles, v.undo, r.value.tiles, r.value.undo)
      || (r.value.tiles, r.value.undo) == UndoStep(v.tiles, v.undo)
      || (r.value.tiles, r.value.undo) == RedoStep(v.tiles, v.undo)
    ensures action.None? ==> r == Ok(v)
    ensures action == Some(MenuUndo) ==>
      r == Ok(if hasMap then var u := UndoStep(v.tiles, v.undo); v.(tiles := u.0, undo := u.1) else v)
    ensures action == Some(MenuRedo) ==>
      r == Ok(if hasMap then var u := RedoStep(v.tiles, v.undo); v.(tiles := u.0, undo := u.1) else v)
    ensures action == Some(EnterPaste) ==> r == Ok(v.(tools := EnterPasteTools(v.tools, v.clipboard)))
    ensures action == Some(SelectionDeselect) ==>
      r == Ok(v.(selection := v.selection.(dragging := false, rect := None), tools := v.tools.(tool := Select)))
    ensures action == Some(SelectionSelectAll) ==>
      r == Ok(if hasMap && v.tiles.width > 0 && v.tiles.height > 0
              then v.(selection := SelectAll(v.selection, v.tiles), tools := v.tools.(tool := Select))
              else v)
    ensures action.Some? && action.value in {SelectionCopy, SelectionCut, SelectionDelete} && r.Ok? ==>
      if hasMap && v.selection.rect.Some? then r.value.tools == v.tools.(tool := Select) && r.value.selection == v.selection
      else r.value == v
    ensures action == Some(SelectionCopy) && r.Ok? ==> r.value.tiles == v.tiles && r.value.undo == v.undo
    ensures action == Some(SelectionDelete) && r.Ok? ==> r.value.clipboard == v.clipboard
    ensures action.Some? && PasteEntry(action.value) ==>
      var o := ApplyContextMenuPasteAction(action.value, v.tools, v.paste, v.clipboard, menuPos, hasMap, v.tiles, v.undo);
      r == Ok(v.(tools := o.tools, paste := o.paste, tiles := o.tiles, undo := o.undo))
  {
    if action.None? then Ok(v)
    else if PasteEntry(action.value) then
      var o := ApplyContextMenuPasteAction(action.value, v.tools, v.paste, v.clipboard, menuPos, hasMap, v.tiles, v.undo);
      Ok(v.(tools := o.tools, paste := o.paste, tiles := o.tiles, undo := o.undo))
    else EditorEntry(action.value, activeLayer, hasMap, v)
  }

  /** The menu's Undo and Redo entries do what Ctrl+Z and Ctrl+Y do. */
  lemma MenuUndoMatchesKeys(k: Keys, menuPos: Option<Point>, activeLayer: nat, hasMap: bool, v: EditorView)
    requires Valid(v.tiles) && CursorOnMap(menuPos, v.tiles)
    requires Held(k, Ctrl)
    ensures WantsUndo(k) ==>
      var r := ApplyContextMenuCommand(Some(MenuUndo), menuPos, activeLayer, hasMap, v);
      r.Ok? && (r.value.tiles, r.value.undo) == UndoRedoShortcuts(k, hasMap, v.tiles, v.undo)
    ensures !WantsUndo(k) && WantsRedo(k) ==>
      var r := ApplyContextMenuCommand(Some(MenuRedo), menuPos, activeLayer, hasMap, v);
      r.Ok? && (r.value.tiles, r.value.undo) == UndoRedoShortcuts(k, hasMap, v.tiles, v.undo)
  {
  }

  /**
   * Cut is copy followed by clear: the clipboard holds the rectangle's old
   * cells on the edit layer, those cells are empty afterwards, every other
   * cell is unchanged, and one undo brings the cells back.
   */
  lemma CutMovesToClipboard(menuPos: Option<Point>, activeLayer: nat, v: EditorView, p: Point)
    requires Valid(v.tiles) && CursorOnMap(menuPos, v.tiles)
    requires v.selection.rect.Some? && RectInMap(v.selection.rect.value, v.tiles.width, v.tiles.height)
    requires PointInRect(p, v.selection.rect.value)
    ensures var r := ApplyContextMenuCommand(Some(SelectionCut), menuPos, activeLayer, true, v);
      var m, layer, rect := v.tiles, EditLayer(activeLayer, v.tiles), v.selection.rect.value;
      && r.Ok? && PointIdx(m, layer, p) < |m.tiles| && OffsetOf(rect, p) < |r.value.clipboard.tiles|
      && r.value.clipboard.tiles[OffsetOf(rect, p)] == m.tiles[PointIdx(m, layer, p)]
      && r.value.tiles.tiles[PointIdx(m, layer, p)] == None
      && (r.value.tiles != m ==> UndoStep(r.value.tiles, r.value.undo).0 == m)
  {
    var m, layer, rect := v.tiles, EditLayer(activeLayer, v.tiles), v.selection.rect.value;
    var c := ClearSelectionToNone(m, layer, rect, v.undo).value;
    var clip := CopySelectionToClipboard(m, layer, rect).value;
    var r := ApplyContextMenuCommand(Some(SelectionCut), menuPos, activeLayer, true, v);
    assert r == SelectionEntry(SelectionCut, layer, v);
    assert r.Ok? && r.value.tiles == c.0 && r.value.undo == c.1 && r.value.clipboard == clip;
    assert clip.tiles[OffsetOf(rect, p)] == m.tiles[PointIdx(m, layer, p)];
    assert c.0.tiles[PointIdx(m, layer, p)] == None;
    if r.value.tiles != m {
      UndoableEditRoundTrip(m, v.undo, c.0, c.1);
    }
  }

  // ---------------------------------------------------------------------
  // Opening, closing and the swallowed click
  // ---------------------------------------------------------------------

  /** A cursor position in window pixels. */
  datatype ScreenPos = ScreenPos(x: real, y: real)

  /** Width of the left panel, in pixels. */
  const LEFT_PANEL_WIDTH_PX: real := 320.0

  /** The cursor is over the canvas: right of the left panel and below the top bar of height `topReserved`. */
  predicate OverCanvas(cursor: ScreenPos, topReserved: real)
  {
    cursor.x > LEFT_PANEL_WIDTH_PX && cursor.y > topReserved
  }

  /**
   * `context_menu_open_close`: Escape closes an open menu and swallows the
   * next left click (and does nothing else this frame); a right press over
   * the canvas opens the menu at the cursor cell `tilePos` with a fresh
   * signature. The window is taken as present.
   */
  function ContextMenuOpenClose(k: Keys, mouse: Mouse, cursor: Option<ScreenPos>, topReserved: real,
                                tilePos: Option<Point>, menu: MenuState): (r: MenuState)
    ensures Tapped(k, Escape) ==> r == (if menu.open then menu.(open := false, consumeLeftClick := true) else menu)
    ensures !Tapped(k, Escape) && mouse.rightStart && cursor.Some? && OverCanvas(cursor.value, topReserved) ==>
      r == MenuState(true, tilePos, false, 0)
    ensures r != menu ==> (Tapped(k, Escape) && !r.open && r.consumeLeftClick) || (r.open && !r.consumeLeftClick)
  {
    if Tapped(k, Escape) then
      if menu.open then menu.(open := false, consumeLeftClick := true) else menu
    else if mouse.rightStart && cursor.Some? && OverCanvas(cursor.value, topReserved) then
      MenuState(true, tilePos, false, 0)
    else menu
  }

  /** `context_menu_clear_consumption`: the swallowed click is over once the left button is up. */
  function ClearConsumption(mouse: Mouse, menu: MenuState): (r: MenuState)
    ensures r.open == menu.open && r.mapPos == menu.mapPos && r.signature == menu.signature
    ensures r.consumeLeftClick <==> menu.consumeLeftClick && mouse.leftDown
  {
    if menu.consumeLeftClick && !mouse.leftDown then menu.(consumeLeftClick := false) else menu
  }

  /**
   * Closing the menu with Escape blocks the map tools until the left
   * button is up, and from then on they are no longer blocked.
   */
  lemma EscapeSwallowsOneClick(k: Keys, mouse: Mouse, cursor: Option<ScreenPos>, topReserved: real,
                               tilePos: Option<Point>, menu: MenuState, later: Mouse)
    requires menu.open && Tapped(k, Escape)
    ensures var closed := ContextMenuOpenClose(k, mouse, cursor, topReserved, tilePos, menu);
      && !closed.open && MenuBlocks(closed)
      && (later.leftDown ==> MenuBlocks(ClearConsumption(later, closed)))
      && (!later.leftDown ==> !MenuBlocks(ClearConsumption(later, closed)))
  {
  }
}
