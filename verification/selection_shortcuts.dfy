/**
 * The selection's keyboard shortcuts: Ctrl+C / Ctrl+V / Escape (copy, enter
 * and leave paste), Ctrl+X / Delete / Backspace (cut and clear), Ctrl+A /
 * Ctrl+D (select all, deselect) and Alt+arrow (move the selected block one
 * cell). `typing` says whether a map-size input field has keyboard focus.
 */
module SelectionShortcuts {
  import opened Base
  import opened TileMapCore
  import opened Input
  import opened Selection
  import opened Undo
  import opened Edits
  import opened Editor
  import opened BlockMove
  import opened SelectionBox
  import opened PasteTransform
  import opened ContextMenu

  // ---------------------------------------------------------------------
  // Copy, paste, escape
  // ---------------------------------------------------------------------

  /** The tool state and the clipboard after one frame. */
  datatype ClipFrame = ClipFrame(tools: ToolState, clipboard: Clipboard)

  /**
   * `copy_paste_shortcuts`. Escape leaves the Paste tool and ends the frame;
   * otherwise, with Ctrl held, C copies the selection (ending the frame when
   * there is no map or no selection) and V then enters paste, so Ctrl+C+V in
   * one frame pastes what was just copied. Copying a stale selection whose
   * loops run past the tiles panics.
   */
  function CopyPasteShortcuts(typing: bool, k: Keys, tools: ToolState, activeLayer: nat, sel: SelectionState,
                              hasMap: bool, m: TileMap, clip: Clipboard): (r: Result<ClipFrame>)
    requires Valid(m)
    ensures r.Err? <==>
      && !typing && !Tapped(k, Escape) && Held(k, Ctrl) && Tapped(k, KeyC) && hasMap && sel.rect.Some?
      && Panics(m, EditLayer(activeLayer, m), sel.rect.value)
    ensures r.Err? ==> r.error == IndexPanic
    ensures typing || !(Tapped(k, Escape) || Held(k, Ctrl)) ==> r == Ok(ClipFrame(tools, clip))
    ensures !typing && Tapped(k, Escape) ==>
      r == Ok(ClipFrame(if tools.tool == Paste then ExitPasteTools(tools) else tools, clip))
    ensures !typing && !Tapped(k, Escape) && Held(k, Ctrl) && Tapped(k, KeyC) && r.Ok? ==>
      if hasMap && sel.rect.Some? then
        && CopySelectionToClipboard(m, EditLayer(activeLayer, m), sel.rect.value) == Ok(r.value.clipboard)
        && r.value.tools == if Tapped(k, KeyV) then EnterPasteTools(tools, r.value.clipboard) else tools
      else r.value == ClipFrame(tools, clip)
    ensures !typing && !Tapped(k, Escape) && Held(k, Ctrl) && !Tapped(k, KeyC) ==>
      r == Ok(ClipFrame(if Tapped(k, KeyV) then EnterPasteTools(tools, clip) else tools, clip))
  {
    if typing then Ok(ClipFrame(tools, clip))
    else if Tapped(k, Escape) then
      Ok(ClipFrame(if tools.tool == Paste then ExitPasteTools(tools) else tools, clip))
    else if !Held(k, Ctrl) then Ok(ClipFrame(tools, clip))
    else if !Tapped(k, KeyC) then
      Ok(ClipFrame(if Tapped(k, KeyV) then EnterPasteTools(tools, clip) else tools, clip))
    else if !hasMap || sel.rect.None? then Ok(ClipFrame(tools, clip))
    else
      var c := CopySelectionToClipboard(m, EditLayer(activeLayer, m), sel.rect.value);
      if c.Err? then Err(IndexPanic)
      else Ok(ClipFrame(if Tapped(k, KeyV) then EnterPasteTools(tools, c.value) else tools, c.value))
  }

  /**
   * Ctrl+C+V over a selection: the clipboard holds the selected cells of the
   * edit layer, the Paste tool is active, and Escape in a later frame
   * returns to the tool used before.
   */
  lemma CopyPasteThenEscape(k: Keys, esc: Keys, tools: ToolState, activeLayer: nat, sel: SelectionState,
                            m: TileMap, clip: Clipboard)
    requires Valid(m) && sel.rect.Some? && RectInMap(sel.rect.value, m.width, m.height)
    requires Held(k, Ctrl) && Tapped(k, KeyC) && Tapped(k, KeyV) && !Tapped(k, Escape)
    requires Tapped(esc, Escape) && tools.tool != Paste
    ensures var r := CopyPasteShortcuts(false, k, tools, activeLayer, sel, true, m, clip);
      && r.Ok? && r.value.tools == ToolState(Paste, Some(tools.tool))
      && (forall p :: PointInRect(p, sel.rect.value) ==>
            OffsetOf(sel.rect.value, p) < |r.value.clipboard.tiles|
            && r.value.clipboard.tiles[OffsetOf(sel.rect.value, p)] == m.tiles[PointIdx(m, EditLayer(activeLayer, m), p)])
      && CopyPasteShortcuts(false, esc, r.value.tools, activeLayer, sel, true, m, r.value.clipboard)
         == Ok(ClipFrame(ToolState(tools.tool, None), r.value.clipboard))
  {
  }

  // ---------------------------------------------------------------------
  // Cut and clear
  // ---------------------------------------------------------------------

  /** The clipboard, the map and the undo stack after one frame. */
  datatype CutFrame = CutFrame(clipboard: Clipboard, tiles: TileMap, undo: UndoStack)

  predicate WantsCut(k: Keys)
  {
    Held(k, Ctrl) && Tapped(k, KeyX)
  }

  predicate WantsClear(k: Keys)
  {
    Tapped(k, Delete) || Tapped(k, Backspace)
  }

  /** The cut/clear shortcut does something: no focused field, the Select tool, a selection, a key, a map. */
  predicate CutClearActive(typing: bool, k: Keys, tools: ToolState, sel: SelectionState, hasMap: bool)
  {
    !typing && tools.tool == Select && sel.rect.Some? && (WantsCut(k) || WantsClear(k)) && hasMap
  }

  /**
   * `selection_cut_delete_shortcuts`: Ctrl+X copies the selection to the
   * clipboard and clears it; Delete or Backspace only clears it. The clear
   * is one undoable command, pushed only when some cell held a tile. A
   * stale selection whose loops run past the tiles panics.
   */
  function CutDeleteShortcuts(typing: bool, k: Keys, tools: ToolState, activeLayer: nat, sel: SelectionState,
                              hasMap: bool, m: TileMap, clip: Clipboard, undo: UndoStack): (r: Result<CutFrame>)
    requires Valid(m)
    ensures r.Err? <==> CutClearActive(typing, k, tools, sel, hasMap) && Panics(m, EditLayer(activeLayer, m), sel.rect.value)
    ensures r.Err? ==> r.error == IndexPanic
    ensures r.Ok? ==> UndoableEdit(m, undo, r.value.tiles, r.value.undo)
    ensures !CutClearActive(typing, k, tools, sel, hasMap) ==> r == Ok(CutFrame(clip, m, undo))
    ensures r.Ok? && !(CutClearActive(typing, k, tools, sel, hasMap) && WantsCut(k)) ==> r.value.clipboard == clip
    ensures r.Ok? && CutClearActive(typing, k, tools, sel, hasMap) ==>
      var layer, rect := EditLayer(activeLayer, m), sel.rect.value;
      && (WantsCut(k) ==> CopySelectionToClipboard(m, layer, rect) == Ok(r.value.clipboard))
      && |r.value.tiles.tiles| == |m.tiles|
      && forall i :: 0 <= i < |m.tiles| ==>
           r.value.tiles.tiles[i] == if Ordered(rect) && i in RectIndices(m, layer, rect) then None else m.tiles[i]
    ensures CutClearActive(typing, k, tools, sel, hasMap) && RectInMap(sel.rect.value, m.width, m.height) ==>
      var layer, rect := EditLayer(activeLayer, m), sel.rect.value;
      && r.Ok?
      && forall l: nat, p: Point :: l < m.layers && InBounds(m, p.x, p.y) ==>
           && PointIdx(m, l, p) < |r.value.tiles.tiles|
           && r.value.tiles.tiles[PointIdx(m, l, p)] == if l == layer && PointInRect(p, rect) then None else m.tiles[PointIdx(m, l, p)]
  {
    if !CutClearActive(typing, k, tools, sel, hasMap) then Ok(CutFrame(clip, m, undo))
    else
      var layer, rect := EditLayer(activeLayer, m), sel.rect.value;
      var c := ClearSelectionToNone(m, layer, rect, undo);
      if c.Err? then Err(IndexPanic)
      else
        var clip' := if WantsCut(k) then CopySelectionToClipboard(m, layer, rect).value else clip;
        Ok(CutFrame(clip', c.value.0, c.value.1))
  }

  /** Ctrl+X and Delete do what the menu's Cut and Delete entries do, panics included. */
  lemma CutDeleteMatchesMenu(k: Keys, tools: ToolState, activeLayer: nat, menuPos: Option<Point>, v: EditorView)
    requires Valid(v.tiles) && CursorOnMap(menuPos, v.tiles)
    requires v.selection.rect.Some? && v.tools.tool == Select
    ensures WantsCut(k) ==>
      var r := CutDeleteShortcuts(false, k, v.tools, activeLayer, v.selection, true, v.tiles, v.clipboard, v.undo);
      var u := ApplyContextMenuCommand(Some(SelectionCut), menuPos, activeLayer, true, v);
      && r.Ok? == u.Ok?
      && (r.Ok? ==> r.value == CutFrame(u.value.clipboard, u.value.tiles, u.value.undo) && u.value.tools == v.tools)
    ensures !WantsCut(k) && WantsClear(k) ==>
      var r := CutDeleteShortcuts(false, k, v.tools, activeLayer, v.selection, true, v.tiles, v.clipboard, v.undo);
      var u := ApplyContextMenuCommand(Some(SelectionDelete), menuPos, activeLayer, true, v);
      && r.Ok? == u.Ok?
      && (r.Ok? ==> r.value == CutFrame(u.value.clipboard, u.value.tiles, u.value.undo) && u.value.tools == v.tools)
  {
    if WantsCut(k) {
      CutMatchesMenu(k, activeLayer, menuPos, v);
    } else if WantsClear(k) {
      DeleteMatchesMenu(k, activeLayer, menuPos, v);
    }
  }

  /** Ctrl+X and the menu's Cut. */
  lemma CutMatchesMenu(k: Keys, activeLayer: nat, menuPos: Option<Point>, v: EditorView)
    requires Valid(v.tiles) && CursorOnMap(menuPos, v.tiles)
    requires v.selection.rect.Some? && v.tools.tool == Select && WantsCut(k)
    ensures var r := CutDeleteShortcuts(false, k, v.tools, activeLayer, v.selection, true, v.tiles, v.clipboard, v.undo);
      var u := ApplyContextMenuCommand(Some(SelectionCut), menuPos, activeLayer, true, v);
      && r.Ok? == u.Ok?
      && (r.Ok? ==> r.value == CutFrame(u.value.clipboard, u.value.tiles, u.value.undo) && u.value.tools == v.tools)
  {
    var layer, rect := EditLayer(activeLayer, v.tiles), v.selection.rect.value;
    var s := SelectionEntry(SelectionCut, layer, v);
    assert ApplyContextMenuCommand(Some(SelectionCut), menuPos, activeLayer, true, v) == s;
    assert v.tools.(tool := Select) == v.tools;
    if !Panics(v.tiles, layer, rect) {
      var c := ClearSelectionToNone(v.tiles, layer, rect, v.undo).value;
      var clip := CopySelectionToClipboard(v.tiles, layer, rect).value;
      assert CutDeleteShortcuts(false, k, v.tools, activeLayer, v.selection, true, v.tiles, v.clipboard, v.undo)
        == Ok(CutFrame(clip, c.0, c.1));
      assert s.value.clipboard == clip && (s.value.tiles, s.value.undo) == c;
    }
  }

  /** Delete and the menu's Delete. */
  lemma DeleteMatchesMenu(k: Keys, activeLayer: nat, menuPos: Option<Point>, v: EditorView)
    requires Valid(v.tiles) && CursorOnMap(menuPos, v.tiles)
    requires v.selection.rect.Some? && v.tools.tool == Select && !WantsCut(k) && WantsClear(k)
    ensures var r := CutDeleteShortcuts(false, k, v.tools, activeLayer, v.selection, true, v.tiles, v.clipboard, v.undo);
      var u := ApplyContextMenuCommand(Some(SelectionDelete), menuPos, activeLayer, true, v);
      && r.Ok? == u.Ok?
      && (r.Ok? ==> r.value == CutFrame(u.value.clipboard, u.value.tiles, u.value.undo) && u.value.tools == v.tools)
  {
    var layer, rect := EditLayer(activeLayer, v.tiles), v.selection.rect.value;
    var s := SelectionEntry(SelectionDelete, layer, v);
    assert ApplyContextMenuCommand(Some(SelectionDelete), menuPos, activeLayer, true, v) == s;
    assert v.tools.(tool := Select) == v.tools;
    if !Panics(v.tiles, layer, rect) {
      var c := ClearSelectionToNone(v.tiles, layer, rect, v.undo).value;
      assert CutDeleteShortcuts(false, k, v.tools, activeLayer, v.selection, true, v.tiles, v.clipboard, v.undo)
        == Ok(CutFrame(v.clipboard, c.0, c.1));
      assert s.value.clipboard == v.clipboard && (s.value.tiles, s.value.undo) == c;
    }
  }

  // ---------------------------------------------------------------------
  // Select all and deselect
  // ---------------------------------------------------------------------

  /**
   * `selection_selectall_cancel_shortcuts` (active even while a field has
   * focus): Ctrl+D drops the selection and leaves the Paste tool for
   * Select; Ctrl+A selects the whole map and switches to Select.
   */
  function SelectAllCancelShortcuts(k: Keys, tools: ToolState, hasMap: bool, m: TileMap, sel: SelectionState)
    : (r: BoxFrame)
    ensures !Held(k, Ctrl) || !(Tapped(k, KeyD) || Tapped(k, KeyA)) ==> r == BoxFrame(tools, sel)
    ensures Held(k, Ctrl) && Tapped(k, KeyD) ==>
      && r.selection == sel.(dragging := false, rect := None)
      && r.tools == if tools.tool == Paste then tools.(tool := Select) else tools
    ensures Held(k, Ctrl) && !Tapped(k, KeyD) && Tapped(k, KeyA) ==>
      if hasMap && m.width > 0 && m.height > 0 then
        && r.tools == tools.(tool := Select)
        && !r.selection.dragging && r.selection.rect.Some?
        && (forall p: Point :: InBounds(m, p.x, p.y) <==> PointInRect(p, r.selection.rect.value))
        && r.selection.start == r.selection.rect.value.min && r.selection.current == r.selection.rect.value.max
      else r == BoxFrame(tools, sel)
  {
    if !Held(k, Ctrl) then BoxFrame(tools, sel)
    else if Tapped(k, KeyD) then
      BoxFrame(if tools.tool == Paste then tools.(tool := Select) else tools, sel.(dragging := false, rect := None))
    else if Tapped(k, KeyA) && hasMap && m.width > 0 && m.height > 0 then
      BoxFrame(tools.(tool := Select), SelectAll(sel, m))
    else BoxFrame(tools, sel)
  }

  /**
   * Ctrl+A matches the menu's Select All entry, and Ctrl+D leaves the same
   * selection as its Deselect entry (the entry also switches to Select from
   * any tool; the shortcut only from Paste).
   */
  lemma SelectAllCancelMatchesMenu(k: Keys, menuPos: Option<Point>, activeLayer: nat, v: EditorView)
    requires Valid(v.tiles) && CursorOnMap(menuPos, v.tiles)
    requires Held(k, Ctrl)
    ensures Tapped(k, KeyD) ==>
      var u := ApplyContextMenuCommand(Some(SelectionDeselect), menuPos, activeLayer, true, v);
      u.Ok? && SelectAllCancelShortcuts(k, v.tools, true, v.tiles, v.selection).selection == u.value.selection
    ensures !Tapped(k, KeyD) && Tapped(k, KeyA) ==>
      var r := SelectAllCancelShortcuts(k, v.tools, true, v.tiles, v.selection);
      var u := ApplyContextMenuCommand(Some(SelectionSelectAll), menuPos, activeLayer, true, v);
      u.Ok? && r == BoxFrame(u.value.tools, u.value.selection)
  {
  }

  // ---------------------------------------------------------------------
  // Alt+arrow block move
  // ---------------------------------------------------------------------

  /**
   * The one-cell step of the arrow tapped this frame: left, right, up
   * (y grows) and down, in that priority.
   */
  function ArrowStep(k: Keys): (o: Option<(int, int)>)
    ensures o.None? <==>
      !(Tapped(k, ArrowLeft) || Tapped(k, ArrowRight) || Tapped(k, ArrowUp) || Tapped(k, ArrowDown))
    ensures o.Some? ==> -1 <= o.value.0 <= 1 && -1 <= o.value.1 <= 1 && (o.value.0 == 0) != (o.value.1 == 0)
    ensures Tapped(k, ArrowLeft) ==> o == Some((-1, 0))
    ensures Tapped(k, ArrowRight) && !Tapped(k, ArrowLeft) ==> o == Some((1, 0))
    ensures Tapped(k, ArrowUp) && o.value.0 == 0 ==> o == Some((0, 1))
  {
    if Tapped(k, ArrowLeft) then Some((-1, 0))
    else if Tapped(k, ArrowRight) then Some((1, 0))
    else if Tapped(k, ArrowUp) then Some((0, 1))
    else if Tapped(k, ArrowDown) then Some((0, -1))
    else None
  }

  /**
   * The selection shifted by `step` in the source's `i32` arithmetic, or
   * nothing when a shifted corner would leave the `w` x `h` map (the block is
   * never clipped). The shifted maximum is stored back `as u32`.
   */
  function AltTarget(rect: Rect, step: (int, int), w: nat, h: nat): (n: Option<Rect>)
    requires U32Rect(rect) && I32Size(w, h)
    ensures n.Some? <==>
      && 0 <= AsI32(rect.min.x) + step.0 && 0 <= AsI32(rect.min.y) + step.1
      && AsI32(rect.max.x) + step.0 < w && AsI32(rect.max.y) + step.1 < h
    ensures n.Some? ==> n.value.min == Point(AsI32(rect.min.x) + step.0, AsI32(rect.min.y) + step.1)
    ensures n.Some? && Ordered(rect) && rect.max.x <= 0x7FFF_FFFF && rect.max.y <= 0x7FFF_FFFF ==>
      && RectInMap(n.value, w, h) && Width(n.value) == Width(rect) && Height(n.value) == Height(rect)
      && n.value.min == Point(rect.min.x + step.0, rect.min.y + step.1)
  {
    var x0, y0 := AsI32(rect.min.x) + step.0, AsI32(rect.min.y) + step.1;
    var x1, y1 := AsI32(rect.max.x) + step.0, AsI32(rect.max.y) + step.1;
    if x0 < 0 || y0 < 0 || x1 >= w || y1 >= h then None
    else Some(Rect(Point(x0, y0), Point(AsU32(x1), AsU32(y1))))
  }

  /**
   * Where the move writes the block: the old rectangle's width and height
   * counted from the shifted minimum corner.
   */
  function AltDest(rect: Rect, n: Rect): (d: Rect)
    ensures Ordered(d) && d.min == n.min && Width(d) == Width(rect) && Height(d) == Height(rect)
    ensures Ordered(rect) && Ordered(n) && Width(n) == Width(rect) && Height(n) == Height(rect) ==> d == n
  {
    Rect(n.min, Point(n.min.x + Width(rect) - 1, n.min.y + Height(rect) - 1))
  }

  /**
   * The move panics: an unordered selection buffers nothing, so the write
   * pass indexes an empty buffer; otherwise a read or a write runs past the
   * tiles.
   */
  predicate AltMovePanics(m: TileMap, layer: nat, rect: Rect, n: Rect)
  {
    !Ordered(rect) || !Indexable(m, layer, rect) || !Indexable(m, layer, AltDest(rect, n))
  }

  /** The write list of the source's Alt+arrow move: clear the old rectangle, then write the block into the new one. */
  function AsWrittenWrites(m: TileMap, layer: nat, rect: Rect, d: Rect): (ws: seq<Write>)
    requires Indexable(m, layer, rect) && Indexable(m, layer, d)
    requires Width(d) == Width(rect) && Height(d) == Height(rect)
    ensures WritesInRange(ws, |m.tiles|) && |ws| == 2 * Area(rect)
    ensures WriteIndices(ws) == RectIndices(m, layer, rect) + RectIndices(m, layer, d)
  {
    var clear := RectWrites(m, layer, rect, Uniform(rect, None));
    WriteIndicesConcat(clear, RectWrites(m, layer, d, RectCellsOf(m, layer, rect)));
    clear + RectWrites(m, layer, d, RectCellsOf(m, layer, rect))
  }

  /**
   * The source's cells are right: blind-writing the clear pass and then the
   * block leaves every cell as the block move places it.
   */
  lemma AsWrittenCells(m: TileMap, layer: nat, rect: Rect, n: Rect)
    requires Valid(m) && layer < m.layers && RectInMap(rect, m.width, m.height) && RectInMap(n, m.width, m.height)
    requires Width(n) == Width(rect) && Height(n) == Height(rect)
    ensures var res := BlindApply(m.tiles, AsWrittenWrites(m, layer, rect, n));
      forall l: nat, p: Point :: l < m.layers && InBounds(m, p.x, p.y) ==>
        && PointIdx(m, l, p) < |res.0|
        && res.0[PointIdx(m, l, p)] == Placed(m, layer, rect, n, RectCellsOf(m, layer, rect), false, l, p)
  {
    var buf := RectCellsOf(m, layer, rect);
    TwoRectBlindWrites(m, layer, rect, Uniform(rect, None), n, buf);
  }

  /**
   * Blind-writing one rectangle's values and then another's: the second
   * rectangle's values win where they overlap.
   */
  lemma TwoRectBlindWrites(m: TileMap, layer: nat, r1: Rect, v1: seq<Cell>, r2: Rect, v2: seq<Cell>)
    requires Valid(m) && layer < m.layers && RectInMap(r1, m.width, m.height) && RectInMap(r2, m.width, m.height)
    requires |v1| == Area(r1) && |v2| == Area(r2)
    ensures var res := BlindApply(m.tiles, RectWrites(m, layer, r1, v1) + RectWrites(m, layer, r2, v2));
      forall l: nat, p: Point :: l < m.layers && InBounds(m, p.x, p.y) ==>
        && PointIdx(m, l, p) < |res.0|
        && res.0[PointIdx(m, l, p)] ==
             if l == layer && PointInRect(p, r2) then v2[OffsetOf(r2, p)]
             else if l == layer && PointInRect(p, r1) then v1[OffsetOf(r1, p)]
             else m.tiles[PointIdx(m, l, p)]
  {
    var a := RectWrites(m, layer, r1, v1);
    var b := RectWrites(m, layer, r2, v2);
    BlindApplyConcat(m.tiles, a, b);
    RectBlindWrite(m, layer, r1, v1);
    var c1 := BlindApply(m.tiles, a).0;
    RectBlindWriteOn(m, c1, layer, r2, v2);
  }

  /** `RectBlindWrite` over any cell contents of the map's shape. */
  lemma RectBlindWriteOn(m: TileMap, c: seq<Cell>, layer: nat, r: Rect, vals: seq<Cell>)
    requires Valid(m) && layer < m.layers && RectInMap(r, m.width, m.height) && |vals| == Area(r)
    requires |c| == |m.tiles|
    ensures var res := BlindApply(c, RectWrites(m, layer, r, vals));
      forall l: nat, p: Point :: l < m.layers && InBounds(m, p.x, p.y) ==>
        && PointIdx(m, l, p) < |res.0|
        && res.0[PointIdx(m, l, p)] == if l == layer && PointInRect(p, r) then vals[OffsetOf(r, p)] else c[PointIdx(m, l, p)]
  {
    var m1 := m.(tiles := c);
    RectWritesSameShape(m, m1, layer, r, vals);
    RectBlindWrite(m1, layer, r, vals);
    var res := BlindApply(c, RectWrites(m, layer, r, vals));
    forall l: nat, p: Point | l < m.layers && InBounds(m, p.x, p.y)
      ensures PointIdx(m, l, p) < |res.0|
      ensures res.0[PointIdx(m, l, p)] == if l == layer && PointInRect(p, r) then vals[OffsetOf(r, p)] else c[PointIdx(m, l, p)]
    {
      assert PointIdx(m1, l, p) == PointIdx(m, l, p);
    }
  }

  /** The write list over a rectangle depends only on the map's shape, not on its cells. */
  lemma RectWritesSameShape(m: TileMap, m1: TileMap, layer: nat, r: Rect, vals: seq<Cell>)
    requires Valid(m) && layer < m.layers && RectInMap(r, m.width, m.height) && |vals| == Area(r)
    requires m1 == m.(tiles := m1.tiles) && |m1.tiles| == |m.tiles|
    ensures RectWrites(m1, layer, r, vals) == RectWrites(m, layer, r, vals)
  {
    var ws, ws1 := RectWrites(m, layer, r, vals), RectWrites(m1, layer, r, vals);
    forall i | 0 <= i < Area(r) ensures ws1[i] == ws[i] {
      assert RectIdx(m1, layer, r, i) == RectIdx(m, layer, r, i);
    }
  }

  /** The selection, the map and the undo stack after one frame. */
  datatype ShortcutMove = ShortcutMove(selection: SelectionState, tiles: TileMap, undo: UndoStack)

  /** Where an Alt+arrow press would move the selection, if it is to move at all. */
  function AltMoveTarget(typing: bool, k: Keys, tools: ToolState, sel: SelectionState, hasMap: bool, m: TileMap)
    : (n: Option<Rect>)
    requires sel.rect.Some? ==> U32Rect(sel.rect.value)
    requires I32Size(m.width, m.height)
    ensures n.Some? ==>
      && !typing && tools.tool == Select && sel.rect.Some? && Held(k, Alt) && ArrowStep(k).Some? && hasMap
      && n == AltTarget(sel.rect.value, ArrowStep(k).value, m.width, m.height)
    ensures !typing && tools.tool == Select && sel.rect.Some? && Held(k, Alt) && ArrowStep(k).Some? && hasMap ==>
      n == AltTarget(sel.rect.value, ArrowStep(k).value, m.width, m.height)
  {
    if typing || tools.tool != Select || sel.rect.None? || !Held(k, Alt) || ArrowStep(k).None? || !hasMap then None
    else AltTarget(sel.rect.value, ArrowStep(k).value, m.width, m.height)
  }

  /** On a selection inside the map the move never panics and writes exactly the shifted rectangle. */
  lemma AltMoveOnMap(typing: bool, k: Keys, tools: ToolState, activeLayer: nat, sel: SelectionState, hasMap: bool, m: TileMap)
    requires Valid(m) && I32Size(m.width, m.height)
    requires sel.rect.Some? && RectInMap(sel.rect.value, m.width, m.height)
    requires AltMoveTarget(typing, k, tools, sel, hasMap, m).Some?
    ensures var n := AltMoveTarget(typing, k, tools, sel, hasMap, m).value;
      && RectInMap(n, m.width, m.height) && AltDest(sel.rect.value, n) == n
      && !AltMovePanics(m, EditLayer(activeLayer, m), sel.rect.value, n)
  {
  }

  /** The source's cells on a selection inside the map are those of the block move. */
  lemma AsWrittenOnMap(typing: bool, k: Keys, tools: ToolState, activeLayer: nat, sel: SelectionState, hasMap: bool, m: TileMap)
    requires Valid(m) && I32Size(m.width, m.height) && sel.rect.Some? && U32Rect(sel.rect.value)
    requires AltMoveTarget(typing, k, tools, sel, hasMap, m).Some?
    requires !AltMovePanics(m, EditLayer(activeLayer, m), sel.rect.value, AltMoveTarget(typing, k, tools, sel, hasMap, m).value)
    ensures var layer, rect, n := EditLayer(activeLayer, m), sel.rect.value, AltMoveTarget(typing, k, tools, sel, hasMap, m).value;
      RectInMap(rect, m.width, m.height) ==>
      && RectInMap(n, m.width, m.height) && AltDest(rect, n) == n
      && var res := BlindApply(m.tiles, AsWrittenWrites(m, layer, rect, n));
         forall l: nat, p: Point :: l < m.layers && InBounds(m, p.x, p.y) ==>
           && PointIdx(m, l, p) < |res.0|
           && res.0[PointIdx(m, l, p)] == Placed(m, layer, rect, n, RectCellsOf(m, layer, rect), false, l, p)
  {
    var layer, rect, n := EditLayer(activeLayer, m), sel.rect.value, AltMoveTarget(typing, k, tools, sel, hasMap, m).value;
    if RectInMap(rect, m.width, m.height) {
      AltMoveOnMap(typing, k, tools, activeLayer, sel, hasMap, m);
      AsWrittenCells(m, layer, rect, n);
    }
  }

  /**
   * The frame's cells and undo stack are those of blind-writing the clear
   * pass over `rect` and then the block pass over `d`, every change of both
   * passes pushed as one command (none when nothing changed).
   */
  predicate TwoBlindPasses(m: TileMap, undo: UndoStack, layer: nat, rect: Rect, d: Rect, f: ShortcutMove)
  {
    && Indexable(m, layer, rect) && Indexable(m, layer, d)
    && Width(d) == Width(rect) && Height(d) == Height(rect)
    && var (cells, changes) := BlindApply(m.tiles, AsWrittenWrites(m, layer, rect, d));
       f.tiles == m.(tiles := cells) && f.undo == Push(undo, EditCommand(changes))
  }

  /**
   * `move_selection_shortcuts` as the source writes it: both passes are
   * blind writes recorded into one command, which may hold a cell twice
   * (cleared, then written); the selection follows when the command is not
   * empty. A stale selection may panic.
   */
  function MoveSelectionShortcutsAsWritten(typing: bool, k: Keys, tools: ToolState, activeLayer: nat,
                                           sel: SelectionState, hasMap: bool, m: TileMap, undo: UndoStack)
    : (r: Result<ShortcutMove>)
    requires Valid(m) && I32Size(m.width, m.height)
    requires sel.rect.Some? ==> U32Rect(sel.rect.value)
    ensures r.Err? <==>
      var n := AltMoveTarget(typing, k, tools, sel, hasMap, m);
      n.Some? && AltMovePanics(m, EditLayer(activeLayer, m), sel.rect.value, n.value)
    ensures r.Err? ==> r.error == IndexPanic
    ensures r.Ok? ==> r.value.tiles == m.(tiles := r.value.tiles.tiles) && |r.value.tiles.tiles| == |m.tiles|
    ensures AltMoveTarget(typing, k, tools, sel, hasMap, m).None? ==> r == Ok(ShortcutMove(sel, m, undo))
    ensures r.Ok? && AltMoveTarget(typing, k, tools, sel, hasMap, m).Some? ==>
      var layer, rect, n := EditLayer(activeLayer, m), sel.rect.value, AltMoveTarget(typing, k, tools, sel, hasMap, m).value;
      && (r.value.tiles != m ==> r.value.selection == sel.(rect := Some(n), start := n.min, current := n.max))
      && forall i :: 0 <= i < |m.tiles| && i !in RectIndices(m, layer, rect) && i !in RectIndices(m, layer, AltDest(rect, n)) ==>
           r.value.tiles.tiles[i] == m.tiles[i]
    ensures r.Ok? && AltMoveTarget(typing, k, tools, sel, hasMap, m).Some? ==>
      var layer, rect, n := EditLayer(activeLayer, m), sel.rect.value, AltMoveTarget(typing, k, tools, sel, hasMap, m).value;
      TwoBlindPasses(m, undo, layer, rect, AltDest(rect, n), r.value)
    ensures sel.rect.Some? && RectInMap(sel.rect.value, m.width, m.height) && AltMoveTarget(typing, k, tools, sel, hasMap, m).Some? ==>
      var layer, rect, n := EditLayer(activeLayer, m), sel.rect.value, AltMoveTarget(typing, k, tools, sel, hasMap, m).value;
      && r.Ok?
      && forall l: nat, p: Point :: l < m.layers && InBounds(m, p.x, p.y) ==>
           && PointIdx(m, l, p) < |r.value.tiles.tiles|
           && r.value.tiles.tiles[PointIdx(m, l, p)] == Placed(m, layer, rect, n, RectCellsOf(m, layer, rect), false, l, p)
  {
    var target := AltMoveTarget(typing, k, tools, sel, hasMap, m);
    if target.None? then Ok(ShortcutMove(sel, m, undo))
    else
      var layer, rect, n := EditLayer(activeLayer, m), sel.rect.value, target.value;
      if AltMovePanics(m, layer, rect, n) then Err(IndexPanic)
      else
        var d := AltDest(rect, n);
        var (cells, changes) := BlindApply(m.tiles, AsWrittenWrites(m, layer, rect, d));
        AsWrittenOnMap(typing, k, tools, activeLayer, sel, hasMap, m);
        BlindApplyQuiet(m.tiles, AsWrittenWrites(m, layer, rect, d));
        if changes == [] then Ok(ShortcutMove(sel, m, undo))
        else Ok(ShortcutMove(sel.(rect := Some(n), start := n.min, current := n.max),
                             m.(tiles := cells), Push(undo, EditCommand(changes))))
  }

  /**
   * The source's command does not undo its own move: shifting two tiles
   * `[T, T, _]` one cell right records (0: T to empty), (1: T to empty),
   * (1: empty to T), (2: empty to T), and replaying the befores in order
   * leaves cell 1 empty instead of restoring its tile.
   */
  lemma AsWrittenUndoLosesTile(t: TileRef)
    ensures var m := TileMap(3, 1, 1, [Some(t), Some(t), None], []);
      var sel := SelectionState(false, Point(0, 0), Point(1, 0), Some(Rect(Point(0, 0), Point(1, 0))), false);
      var k := Keys({Alt}, {ArrowRight}, {});
      var r := MoveSelectionShortcutsAsWritten(false, k, ToolState(Select, None), 0, sel, true, m, UndoStack([], [], 0));
      && r.Ok? && r.value.tiles.tiles == [None, Some(t), Some(t)]
      && UndoStep(r.value.tiles, r.value.undo).0.tiles == [Some(t), None, None]
      && UndoStep(r.value.tiles, r.value.undo).0 != m
  {
    ExampleMove(t);
    ExampleReplay(t);
  }

  /** The example move as written: the shifted cells, and the four changes as one command. */
  lemma ExampleMove(t: TileRef)
    ensures var m := TileMap(3, 1, 1, [Some(t), Some(t), None], []);
      var sel := SelectionState(false, Point(0, 0), Point(1, 0), Some(Rect(Point(0, 0), Point(1, 0))), false);
      var r := MoveSelectionShortcutsAsWritten(false, Keys({Alt}, {ArrowRight}, {}), ToolState(Select, None), 0, sel, true, m, UndoStack([], [], 0));
      && r.Ok? && r.value.tiles == m.(tiles := [None, Some(t), Some(t)])
      && r.value.undo.undo == [EditCommand([CellChange(0, Some(t), None), CellChange(1, Some(t), None),
                                            CellChange(1, None, Some(t)), CellChange(2, None, Some(t))])]
  {
    var m := TileMap(3, 1, 1, [Some(t), Some(t), None], []);
    var rect := Rect(Point(0, 0), Point(1, 0));
    var n := Rect(Point(1, 0), Point(2, 0));
    var k := Keys({Alt}, {ArrowRight}, {});
    var sel := SelectionState(false, Point(0, 0), Point(1, 0), Some(rect), false);
    ExampleTarget(t);
    ExampleWrites(t);
    ExampleRecord(t);
    var r := MoveSelectionShortcutsAsWritten(false, k, ToolState(Select, None), 0, sel, true, m, UndoStack([], [], 0));
    assert r.value.tiles == m.(tiles := [None, Some(t), Some(t)]);
  }

  /** The example's target: cells 1..2, written exactly, without a panic. */
  lemma ExampleTarget(t: TileRef)
    ensures var m := TileMap(3, 1, 1, [Some(t), Some(t), None], []);
      var rect, n := Rect(Point(0, 0), Point(1, 0)), Rect(Point(1, 0), Point(2, 0));
      var sel := SelectionState(false, Point(0, 0), Point(1, 0), Some(rect), false);
      && AltMoveTarget(false, Keys({Alt}, {ArrowRight}, {}), ToolState(Select, None), sel, true, m) == Some(n)
      && EditLayer(0, m) == 0 && AltDest(rect, n) == n && !AltMovePanics(m, 0, rect, n)
  {
    var m := TileMap(3, 1, 1, [Some(t), Some(t), None], []);
    var rect, n := Rect(Point(0, 0), Point(1, 0)), Rect(Point(1, 0), Point(2, 0));
    var k := Keys({Alt}, {ArrowRight}, {});
    assert ArrowStep(k) == Some((1, 0));
    assert AltDest(rect, n) == n;
    assert Valid(m) && RectInMap(rect, 3, 1) && RectInMap(n, 3, 1);
  }

  /** The two passes of the example move, as writes. */
  lemma ExampleWrites(t: TileRef)
    ensures AsWrittenWrites(TileMap(3, 1, 1, [Some(t), Some(t), None], []), 0, Rect(Point(0, 0), Point(1, 0)), Rect(Point(1, 0), Point(2, 0)))
      == [Write(0, None), Write(1, None), Write(1, Some(t)), Write(2, Some(t))]
  {
    var m := TileMap(3, 1, 1, [Some(t), Some(t), None], []);
    var rect := Rect(Point(0, 0), Point(1, 0));
    var n := Rect(Point(1, 0), Point(2, 0));
    ExampleClearPass(t);
    ExampleBlockPass(t);
    assert AsWrittenWrites(m, 0, rect, n)
      == RectWrites(m, 0, rect, Uniform(rect, None)) + RectWrites(m, 0, n, RectCellsOf(m, 0, rect));
  }

  /** The example's clear pass targets cells 0 and 1. */
  lemma ExampleClearPass(t: TileRef)
    ensures var m, rect := TileMap(3, 1, 1, [Some(t), Some(t), None], []), Rect(Point(0, 0), Point(1, 0));
      RectWrites(m, 0, rect, Uniform(rect, None)) == [Write(0, None), Write(1, None)]
  {
    var m, rect := TileMap(3, 1, 1, [Some(t), Some(t), None], []), Rect(Point(0, 0), Point(1, 0));
    var a := RectWrites(m, 0, rect, Uniform(rect, None));
    assert Area(rect) == 2 && CellOf(rect, 0) == Point(0, 0) && CellOf(rect, 1) == Point(1, 0);
    assert a[0] == Write(0, None) && a[1] == Write(1, None);
  }

  /** The example's block pass writes the two tiles to cells 1 and 2. */
  lemma ExampleBlockPass(t: TileRef)
    ensures var m, rect, n := TileMap(3, 1, 1, [Some(t), Some(t), None], []), Rect(Point(0, 0), Point(1, 0)), Rect(Point(1, 0), Point(2, 0));
      RectWrites(m, 0, n, RectCellsOf(m, 0, rect)) == [Write(1, Some(t)), Write(2, Some(t))]
  {
    var m, rect, n := TileMap(3, 1, 1, [Some(t), Some(t), None], []), Rect(Point(0, 0), Point(1, 0)), Rect(Point(1, 0), Point(2, 0));
    assert Area(rect) == 2 && CellOf(rect, 0) == Point(0, 0) && CellOf(rect, 1) == Point(1, 0);
    assert Area(n) == 2 && CellOf(n, 0) == Point(1, 0) && CellOf(n, 1) == Point(2, 0);
    var buf := RectCellsOf(m, 0, rect);
    assert buf == [Some(t), Some(t)];
    var b := RectWrites(m, 0, n, buf);
    assert b[0] == Write(1, Some(t)) && b[1] == Write(2, Some(t));
  }

  /** Blind-writing the example records cell 1 twice. */
  lemma ExampleRecord(t: TileRef)
    ensures BlindApply([Some(t), Some(t), None], [Write(0, None), Write(1, None), Write(1, Some(t)), Write(2, Some(t))])
      == ([None, Some(t), Some(t)],
          [CellChange(0, Some(t), None), CellChange(1, Some(t), None), CellChange(1, None, Some(t)), CellChange(2, None, Some(t))])
  {
    var w0, w1, w2, w3 := Write(0, None), Write(1, None), Write(1, Some(t)), Write(2, Some(t));
    var c0, c1, c2, c3 := CellChange(0, Some(t), None), CellChange(1, Some(t), None),
                          CellChange(1, None, Some(t)), CellChange(2, None, Some(t));
    var s0, s1, s2, s3 := [Some(t), Some(t), None], [None, Some(t), None], [None, None, None], [None, Some(t), Some(t)];
    assert [w0][..0] == [] && [w0, w1][..1] == [w0] && [w0, w1, w2][..2] == [w0, w1] && [w0, w1, w2, w3][..3] == [w0, w1, w2];
    assert BlindStep(s0, [], w0) == (s1, [c0]) by { assert s0[0 := None] == s1 && [] + [c0] == [c0] && s0[0] == Some(t); }
    assert BlindApply(s0, [w0]) == (s1, [c0]);
    assert BlindStep(s1, [c0], w1) == (s2, [c0, c1]) by { assert s1[1 := None] == s2 && [c0] + [c1] == [c0, c1] && s1[1] == Some(t); }
    assert BlindApply(s0, [w0, w1]) == (s2, [c0, c1]);
    assert BlindStep(s2, [c0, c1], w2) == (s1, [c0, c1, c2]) by { assert s2[1 := Some(t)] == s1 && [c0, c1] + [c2] == [c0, c1, c2] && s2[1] == None; }
    assert BlindApply(s0, [w0, w1, w2]) == (s1, [c0, c1, c2]);
    assert BlindStep(s1, [c0, c1, c2], w3) == (s3, [c0, c1, c2, c3]) by { assert s1[2 := Some(t)] == s3 && [c0, c1, c2] + [c3] == [c0, c1, c2, c3] && s1[2] == None; }
  }

  /** Replaying the befores of the example's record in order. */
  lemma ExampleReplay(t: TileRef)
    ensures Replay([None, Some(t), Some(t)],
                   [CellChange(0, Some(t), None), CellChange(1, Some(t), None), CellChange(1, None, Some(t)), CellChange(2, None, Some(t))],
                   false)
      == [Some(t), None, None]
  {
    var c0, c1, c2, c3 := CellChange(0, Some(t), None), CellChange(1, Some(t), None),
                          CellChange(1, None, Some(t)), CellChange(2, None, Some(t));
    var s3, u0, u1 := [None, Some(t), Some(t)], [Some(t), Some(t), Some(t)], [Some(t), None, Some(t)];
    assert [c0, c1, c2, c3][1..] == [c1, c2, c3] && [c1, c2, c3][1..] == [c2, c3] && [c2, c3][1..] == [c3] && [c3][1..] == [];
    assert WriteChange(s3, c0, false) == u0;
    assert WriteChange(u0, c1, false) == u0;
    assert WriteChange(u0, c2, false) == u1;
    assert WriteChange(u1, c3, false) == [Some(t), None, None];
    assert Replay(s3, [c0, c1, c2, c3], false) == Replay(u0, [c1, c2, c3], false);
    assert Replay(u0, [c1, c2, c3], false) == Replay(u0, [c2, c3], false);
    assert Replay(u0, [c2, c3], false) == Replay(u1, [c3], false);
    assert Replay(u1, [c3], false) == Replay([Some(t), None, None], [], false);
  }

  /**
   * The Alt+arrow block move: the block write shared with the mouse drag
   * (move mode, first write wins) recorded as one command, so undo restores
   * the map. The selection follows when the map changed. It panics exactly
   * where the source's move does.
   */
  function MoveSelectionShortcuts(typing: bool, k: Keys, tools: ToolState, activeLayer: nat,
                                  sel: SelectionState, hasMap: bool, m: TileMap, undo: UndoStack)
    : (r: Result<ShortcutMove>)
    requires Valid(m) && I32Size(m.width, m.height)
    requires sel.rect.Some? ==> U32Rect(sel.rect.value)
    ensures r.Err? <==>
      var n := AltMoveTarget(typing, k, tools, sel, hasMap, m);
      n.Some? && AltMovePanics(m, EditLayer(activeLayer, m), sel.rect.value, n.value)
    ensures r.Err? ==> r.error == IndexPanic
    ensures r.Ok? ==> UndoableEdit(m, undo, r.value.tiles, r.value.undo)
    ensures r.Ok? && (AltMoveTarget(typing, k, tools, sel, hasMap, m).None? || r.value.tiles == m) ==> r.value.selection == sel
    ensures AltMoveTarget(typing, k, tools, sel, hasMap, m).None? ==> r == Ok(ShortcutMove(sel, m, undo))
    ensures r.Ok? && AltMoveTarget(typing, k, tools, sel, hasMap, m).Some? ==>
      var layer, rect, n := EditLayer(activeLayer, m), sel.rect.value, AltMoveTarget(typing, k, tools, sel, hasMap, m).value;
      && (r.value.tiles != m ==> r.value.selection == sel.(rect := Some(n), start := n.min, current := n.max))
      && |r.value.tiles.tiles| == |m.tiles|
      && forall i :: 0 <= i < |m.tiles| && i !in RectIndices(m, layer, rect) && i !in RectIndices(m, layer, AltDest(rect, n)) ==>
           r.value.tiles.tiles[i] == m.tiles[i]
    ensures sel.rect.Some? && RectInMap(sel.rect.value, m.width, m.height) ==>
      && r.Ok? && (r.value.selection.rect.Some? ==> RectInMap(r.value.selection.rect.value, m.width, m.height))
    ensures sel.rect.Some? && RectInMap(sel.rect.value, m.width, m.height) && AltMoveTarget(typing, k, tools, sel, hasMap, m).Some? ==>
      var layer, rect, n := EditLayer(activeLayer, m), sel.rect.value, AltMoveTarget(typing, k, tools, sel, hasMap, m).value;
      && r.Ok?
      && forall l: nat, p: Point :: l < m.layers && InBounds(m, p.x, p.y) ==>
           && PointIdx(m, l, p) < |r.value.tiles.tiles|
           && r.value.tiles.tiles[PointIdx(m, l, p)] == Placed(m, layer, rect, n, RectCellsOf(m, layer, rect), false, l, p)
  {
    var target := AltMoveTarget(typing, k, tools, sel, hasMap, m);
    if target.None? then Ok(ShortcutMove(sel, m, undo))
    else
      var layer, rect, n := EditLayer(activeLayer, m), sel.rect.value, target.value;
      if AltMovePanics(m, layer, rect, n) then Err(IndexPanic)
      else
        var d := AltDest(rect, n);
        var buf := RectCellsOf(m, layer, rect);
        var (cells, changes, _) := TouchedApply(m.tiles, MoveWrites(m, layer, rect, d, buf, false));
        MoveWritesFrame(m, layer, rect, d, buf, false);
        ShortcutMoveOnMap(typing, k, tools, activeLayer, sel, hasMap, m);
        RecordsEmpty(m.tiles, cells, EditCommand(changes));
        if changes == [] then Ok(ShortcutMove(sel, m, undo))
        else
          var (m', undo') := Commit(m, undo, cells, changes);
          Ok(ShortcutMove(sel.(rect := Some(n), start := n.min, current := n.max), m', undo'))
  }

  /** The corrected move's cells on a selection inside the map are those of the block move. */
  lemma ShortcutMoveOnMap(typing: bool, k: Keys, tools: ToolState, activeLayer: nat, sel: SelectionState, hasMap: bool, m: TileMap)
    requires Valid(m) && I32Size(m.width, m.height) && sel.rect.Some? && U32Rect(sel.rect.value)
    requires AltMoveTarget(typing, k, tools, sel, hasMap, m).Some?
    requires !AltMovePanics(m, EditLayer(activeLayer, m), sel.rect.value, AltMoveTarget(typing, k, tools, sel, hasMap, m).value)
    ensures var layer, rect, n := EditLayer(activeLayer, m), sel.rect.value, AltMoveTarget(typing, k, tools, sel, hasMap, m).value;
      RectInMap(rect, m.width, m.height) ==>
      && RectInMap(n, m.width, m.height) && AltDest(rect, n) == n
      && var res := TouchedApply(m.tiles, MoveWrites(m, layer, rect, n, RectCellsOf(m, layer, rect), false));
         forall l: nat, p: Point :: l < m.layers && InBounds(m, p.x, p.y) ==>
           && PointIdx(m, l, p) < |res.0|
           && res.0[PointIdx(m, l, p)] == Placed(m, layer, rect, n, RectCellsOf(m, layer, rect), false, l, p)
  {
    var layer, rect, n := EditLayer(activeLayer, m), sel.rect.value, AltMoveTarget(typing, k, tools, sel, hasMap, m).value;
    if RectInMap(rect, m.width, m.height) {
      AltMoveOnMap(typing, k, tools, activeLayer, sel, hasMap, m);
      MoveWritesEffect(m, layer, rect, n, RectCellsOf(m, layer, rect), false);
    }
  }

  /**
   * On a selection inside the map the corrected move leaves the same map as
   * the source's: only the recorded command differs, and one undo of the
   * corrected move restores the map.
   */
  lemma MoveSelectionShortcutsCorrects(typing: bool, k: Keys, tools: ToolState, activeLayer: nat,
                                       sel: SelectionState, hasMap: bool, m: TileMap, undo: UndoStack)
    requires Valid(m) && I32Size(m.width, m.height)
    requires sel.rect.Some? ==> RectInMap(sel.rect.value, m.width, m.height)
    ensures var w := MoveSelectionShortcutsAsWritten(typing, k, tools, activeLayer, sel, hasMap, m, undo);
      var r := MoveSelectionShortcuts(typing, k, tools, activeLayer, sel, hasMap, m, undo);
      && r.Ok? && w.Ok? && r.value.tiles == w.value.tiles
      && (r.value.tiles != m ==> r.value.selection == w.value.selection && UndoStep(r.value.tiles, r.value.undo).0 == m)
  {
    var w := MoveSelectionShortcutsAsWritten(typing, k, tools, activeLayer, sel, hasMap, m, undo);
    var r := MoveSelectionShortcuts(typing, k, tools, activeLayer, sel, hasMap, m, undo);
    if AltMoveTarget(typing, k, tools, sel, hasMap, m).Some? {
      SameCellsEqual(m, r.value.tiles.tiles, w.value.tiles.tiles);
    }
    if r.value.tiles != m {
      UndoableEditRoundTrip(m, undo, r.value.tiles, r.value.undo);
    }
  }
}
