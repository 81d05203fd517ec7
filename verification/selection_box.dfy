/**
 * `select_with_mouse`: dragging a box with the left button in the Select
 * tool, or with Alt held in any tool but Paste (which switches to Select).
 * The box is always the bounding box of the press cell and the cursor cell.
 */
module SelectionBox {
  import opened Base
  import opened TileMapCore
  import opened Input
  import opened Selection
  import opened Editor

  /** The result of one frame: the tool state and the selection. */
  datatype BoxFrame = BoxFrame(tools: ToolState, selection: SelectionState)

  /** Box selection is available: the Select tool, or Alt held outside the Paste tool. */
  predicate BoxAllowed(tools: ToolState, k: Keys)
  {
    tools.tool == Select || (Held(k, Alt) && tools.tool != Paste)
  }

  /** The frame is ignored: a block drag in progress, box selection unavailable, the menu, Space held, or no map. */
  predicate BoxBlocked(tools: ToolState, menu: MenuState, k: Keys, sel: SelectionState, hasMap: bool)
  {
    sel.moving || !BoxAllowed(tools, k) || MenuBlocks(menu) || Held(k, Space) || !hasMap
  }

  /** While a box is dragged, the selection is the box spanned by its two corners. */
  predicate BoxConsistent(sel: SelectionState)
  {
    sel.dragging ==> sel.rect == Some(RectFromTwo(sel.start, sel.current))
  }

  /** The selection rectangle, and a dragged box's corners, lie on a `w` x `h` map. */
  predicate SelectionOnMap(sel: SelectionState, w: nat, h: nat)
  {
    && (sel.rect.Some? ==> RectInMap(sel.rect.value, w, h))
    && (sel.dragging ==> sel.start.x < w && sel.start.y < h && sel.current.x < w && sel.current.y < h)
  }

  /**
   * One frame of `select_with_mouse`. Window and camera are taken as
   * present; `pos` is the cursor cell and `hasMap` says whether the tile
   * sprites exist.
   */
  function SelectWithMouse(tools: ToolState, menu: MenuState, k: Keys, mouse: Mouse, hasMap: bool,
                           pos: Option<Point>, sel: SelectionState): (r: BoxFrame)
    ensures BoxBlocked(tools, menu, k, sel, hasMap) ==> r == BoxFrame(tools, sel)
    ensures r.tools == tools || (r.tools == tools.(tool := Select) && Held(k, Alt) && !sel.dragging && r.selection.dragging)
    ensures r.selection.moving == sel.moving
    ensures !BoxBlocked(tools, menu, k, sel, hasMap) && !sel.dragging && mouse.leftStart && pos.Some? ==>
      var p := pos.value;
      r.selection == sel.(dragging := true, start := p, current := p, rect := Some(Rect(p, p)))
    ensures !sel.dragging && !(mouse.leftStart && pos.Some?) ==> r == BoxFrame(tools, sel)
    ensures !BoxBlocked(tools, menu, k, sel, hasMap) && sel.dragging && (mouse.leftEnd || !mouse.leftDown) ==>
      && !r.selection.dragging && r.selection.start == sel.start
      && r.selection.rect == Some(RectFromTwo(sel.start, r.selection.current))
    ensures sel.dragging ==> r.selection.start == sel.start
    ensures r.selection.current == sel.current || pos == Some(r.selection.current)
    ensures BoxConsistent(sel) ==> BoxConsistent(r.selection)
    ensures r.selection.dragging && !sel.dragging ==> BoxConsistent(r.selection)
  {
    if BoxBlocked(tools, menu, k, sel, hasMap) then BoxFrame(tools, sel)
    else if !sel.dragging then
      if mouse.leftStart && pos.Some? then
        var p := pos.value;
        var tools' := if Held(k, Alt) && tools.tool != Select then tools.(tool := Select) else tools;
        BoxFrame(tools', sel.(dragging := true, start := p, current := p, rect := Some(RectFromTwo(p, p))))
      else BoxFrame(tools, sel)
    else
      var s1 := if pos.Some? && mouse.leftDown
        then sel.(current := pos.value, rect := Some(RectFromTwo(sel.start, pos.value)))
        else sel;
      var s2 := if mouse.leftEnd || !mouse.leftDown
        then s1.(dragging := false, rect := Some(RectFromTwo(s1.start, s1.current)))
        else s1;
      BoxFrame(tools, s2)
  }

  /** With the cursor on the map, box selection keeps the selection on the map. */
  lemma SelectWithMouseOnMap(tools: ToolState, menu: MenuState, k: Keys, mouse: Mouse, hasMap: bool,
                             pos: Option<Point>, sel: SelectionState, w: nat, h: nat)
    requires SelectionOnMap(sel, w, h)
    requires pos.Some? ==> pos.value.x < w && pos.value.y < h
    ensures SelectionOnMap(SelectWithMouse(tools, menu, k, mouse, hasMap, pos, sel).selection, w, h)
  {
    var r := SelectWithMouse(tools, menu, k, mouse, hasMap, pos, sel);
    if r.selection.rect.Some? && r.selection.rect != sel.rect {
      assert r.selection.rect.value.max.x in {sel.start.x, sel.current.x, r.selection.current.x};
    }
  }

  /**
   * A whole box drag: press on `a`, move the held button to `b`, release
   * anywhere. The selection is the bounding box of `a` and `b`, the
   * smallest rectangle holding both.
   */
  lemma BoxDragSelects(tools: ToolState, menu: MenuState, k: Keys, a: Point, b: Point, c: Option<Point>,
                       sel: SelectionState)
    requires !sel.dragging && !BoxBlocked(tools, menu, k, sel, true)
    ensures var f1 := SelectWithMouse(tools, menu, k, Mouse(true, true, false, false), true, Some(a), sel);
      var f2 := SelectWithMouse(f1.tools, menu, k, Mouse(false, true, false, false), true, Some(b), f1.selection);
      var f3 := SelectWithMouse(f2.tools, menu, k, Mouse(false, false, true, false), true, c, f2.selection);
      && !f3.selection.dragging
      && f3.selection.rect == Some(RectFromTwo(a, b))
      && forall q :: PointInRect(a, q) && PointInRect(b, q) ==>
           forall p :: PointInRect(p, f3.selection.rect.value) ==> PointInRect(p, q)
  {
    var f1 := SelectWithMouse(tools, menu, k, Mouse(true, true, false, false), true, Some(a), sel);
    assert f1.tools.tool == Select;
    var f2 := SelectWithMouse(f1.tools, menu, k, Mouse(false, true, false, false), true, Some(b), f1.selection);
    assert f2.selection.dragging && f2.selection.start == a && f2.selection.current == b;
    forall q | PointInRect(a, q) && PointInRect(b, q)
      ensures forall p :: PointInRect(p, RectFromTwo(a, b)) ==> PointInRect(p, q)
    {
      RectFromTwoSmallest(a, b, q);
    }
  }
}
