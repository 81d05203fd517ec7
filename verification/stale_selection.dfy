/**
 * A resize and the selection. `apply_custom_map_size` replaces the map but
 * leaves the selection alone, so after shrinking the map a selection can
 * reach past its edge. Cutting or deleting it then walks row-major indices
 * of the smaller map: past the last layer they panic, and on a lower layer
 * they land on cells of the next row or layer. The corrected apply drops a
 * selection that no longer lies inside the map.
 */
module StaleSelection {
  import opened Base
  import opened Text
  import opened TileMapCore
  import opened Selection
  import opened Undo
  import opened Editor
  import opened MapSize
  import opened ContextMenu

  /** With a map present, the selection lies inside it. */
  predicate SelectionFits(tileMap: Option<TileMap>, sel: SelectionState)
  {
    tileMap.Some? && sel.rect.Some? ==> RectInMap(sel.rect.value, tileMap.value.width, tileMap.value.height)
  }

  /** A view of the editor after a resize, with default tools, paste transform and clipboard. */
  function ViewAfter(sel: SelectionState, m: TileMap, undo: UndoStack): EditorView
  {
    EditorView(ToolState(Select, None), DefaultPaste, sel, Clipboard(0, 0, []), m, undo)
  }

  /**
   * As written: a 4 x 1 map with two layers and cells 2..3 selected, resized
   * to 2 x 1. The selection survives, no longer fits, and deleting it on
   * layer 1 panics.
   */
  lemma ShrinkThenDeletePanics()
    ensures var f := SizeFrame(SizeInput(NoFocus, "2", "1", true), (4, 1), Some(New(4, 1)), EmptyStack);
      var r := ApplyMapSize(f);
      var sel := DefaultSelection.(rect := Some(Rect(Point(2, 0), Point(3, 0))));
      && SelectionFits(f.tileMap, sel)
      && r.tileMap.Some? && Valid(r.tileMap.value) && r.tileMap.value.layers == 2
      && r.tileMap.value.width == 2 && r.tileMap.value.height == 1
      && !SelectionFits(r.tileMap, sel)
      && SelectionEntry(SelectionDelete, 1, ViewAfter(sel, r.tileMap.value, r.undo)) == Err(IndexPanic)
  {
    var f := SizeFrame(SizeInput(NoFocus, "2", "1", true), (4, 1), Some(New(4, 1)), EmptyStack);
    assert ParseU32Std("2") == Some(2) && ParseU32Std("1") == Some(1);
    assert RequestedSize(f.input) == Some((2, 1));
    var m := ApplyMapSize(f).tileMap.value;
    var rect := Rect(Point(2, 0), Point(3, 0));
    assert CellOf(rect, 0) == Point(2, 0);
    assert PointIdx(m, 1, CellOf(rect, 0)) == 4 == |m.tiles|;
    assert !Indexable(m, 1, rect);
  }

  /**
   * Corrected: the apply as before, dropping the selection when it no longer
   * lies inside the resulting map.
   */
  function ApplyMapSizeKeepingSelection(f: SizeFrame, sel: SelectionState): (r: (SizeFrame, SelectionState))
    requires Resizable(f.tileMap)
    ensures r.0 == ApplyMapSize(f)
    ensures SelectionFits(r.0.tileMap, r.1)
    ensures SelectionFits(r.0.tileMap, sel) ==> r.1 == sel
    ensures r.1 == sel || r.1 == sel.(rect := None)
  {
    var g := ApplyMapSize(f);
    (g, if SelectionFits(g.tileMap, sel) then sel else sel.(rect := None))
  }

  /**
   * After the corrected apply, copying, cutting or deleting the selection on
   * any layer of the map never panics.
   */
  lemma KeepingSelectionNeverPanics(f: SizeFrame, sel: SelectionState, action: ContextMenuAction, layer: nat)
    requires Resizable(f.tileMap) && action in {SelectionCopy, SelectionCut, SelectionDelete}
    requires var r := ApplyMapSizeKeepingSelection(f, sel);
      r.0.tileMap.Some? && Valid(r.0.tileMap.value) && layer < r.0.tileMap.value.layers && r.1.rect.Some?
    ensures var r := ApplyMapSizeKeepingSelection(f, sel);
      SelectionEntry(action, layer, ViewAfter(r.1, r.0.tileMap.value, r.0.undo)).Ok?
  {
  }
}
