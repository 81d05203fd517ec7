/**
 * `keyboard_shortcuts` ([ and ] step through the active tileset's tiles, R
 * clears the whole map as one undoable command) and `tool_shortcuts` (the
 * digit keys choose a tool, Shift+1/2/3 the brush size). Numpad digits are
 * the same keys as the digit row here. `typing` says whether a text field
 * (map size, palette search or layer name) has keyboard focus.
 */
module Shortcuts {
  import opened Base
  import opened Text
  import opened TileMapCore
  import opened Input
  import opened Undo
  import opened Edits
  import opened Editor

  // ---------------------------------------------------------------------
  // keyboard_shortcuts
  // ---------------------------------------------------------------------

  /**
   * The number of tiles to step through: columns times rows of the active
   * tileset's loaded atlas (`runtime` maps a tileset id to its columns and
   * rows), 1 when nothing is loaded, and never 0.
   */
  function TileCount(activeId: Option<string>, runtime: map<string, (nat, nat)>): (n: nat)
    ensures n >= 1
    ensures activeId.None? || activeId.value !in runtime ==> n == 1
    ensures activeId.Some? && activeId.value in runtime ==>
      var (c, r) := runtime[activeId.value];
      n == Max(SatMulU32(c, r), 1)
  {
    if activeId.Some? && activeId.value in runtime then
      var (c, r) := runtime[activeId.value];
      Max(SatMulU32(c, r), 1)
    else 1
  }

  /** `[` steps one tile back (stopping at 0), then `]` one tile forward (stopping at the last tile). */
  function StepTile(k: Keys, count: nat, selected: nat): (r: nat)
    requires count >= 1
    ensures !Tapped(k, BracketLeft) && !Tapped(k, BracketRight) ==> r == selected
    ensures Tapped(k, BracketRight) ==> r < count
    ensures Tapped(k, BracketLeft) && !Tapped(k, BracketRight) ==> r + 1 == selected || (selected == 0 && r == 0)
    ensures Tapped(k, BracketRight) && !Tapped(k, BracketLeft) && selected + 1 < count ==> r == selected + 1
    ensures Tapped(k, BracketRight) && !Tapped(k, BracketLeft) && selected + 1 >= count ==> r == count - 1
  {
    var s1 := if Tapped(k, BracketLeft) then SatSub(selected, 1) else selected;
    if Tapped(k, BracketRight) then Min(s1 + 1, count - 1) else s1
  }

  /** `]` then `[` comes back to a tile below the last; `[` then `]` comes back to a tile above 0. */
  lemma StepTileInverse(count: nat, selected: nat)
    requires count >= 1 && selected < count
    ensures var next := Keys({BracketRight}, {BracketRight}, {});
      var prev := Keys({BracketLeft}, {BracketLeft}, {});
      && (selected + 1 < count ==> StepTile(prev, count, StepTile(next, count, selected)) == selected)
      && (selected > 0 ==> StepTile(next, count, StepTile(prev, count, selected)) == selected)
  {
  }

  /**
   * The changes R records, as the loop builds them: one per non-empty cell
   * among the first `n`, in index order, from its tile to empty.
   */
  function ClearChanges(tiles: seq<Cell>, n: nat): (ch: seq<CellChange>)
    requires n <= |tiles|
    ensures forall i :: 0 <= i < |ch| ==> ch[i].after.None? && ch[i].before.Some?
    decreases n
  {
    if n == 0 then []
    else ClearChanges(tiles, n - 1) + (if tiles[n - 1].Some? then [CellChange(n - 1, tiles[n - 1], None)] else [])
  }

  /** The changes R records are exactly the difference between the map and an empty map. */
  lemma {:induction false} ClearChangesIsDiff(tiles: seq<Cell>, n: nat)
    requires n <= |tiles|
    ensures ClearChanges(tiles, n) == Diff(tiles, Empty(|tiles|), n)
    decreases n
  {
    if n > 0 {
      ClearChangesIsDiff(tiles, n - 1);
      var e := Empty(|tiles|);
      assert e[n - 1] == None;
      assert Diff(tiles, e, n) == Diff(tiles, e, n - 1)
        + (if tiles[n - 1] != e[n - 1] then [CellChange(n - 1, tiles[n - 1], e[n - 1])] else []);
    }
  }

  /** The map, the undo stack and the selected tile after one frame. */
  datatype KeyFrame = KeyFrame(selectedTile: nat, tiles: TileMap, undo: UndoStack)

  /** R: every cell of every layer becomes empty, recorded as one command. */
  function ClearMap(m: TileMap, undo: UndoStack): (r: (TileMap, UndoStack))
    ensures UndoableEdit(m, undo, r.0, r.1)
    ensures |r.0.tiles| == |m.tiles| && forall i :: 0 <= i < |r.0.tiles| ==> r.0.tiles[i].None?
    ensures (forall i :: 0 <= i < |m.tiles| ==> m.tiles[i].None?) ==> r == (m, undo)
  {
    var cleared := Empty(|m.tiles|);
    var changes := ClearChanges(m.tiles, |m.tiles|);
    ClearChangesIsDiff(m.tiles, |m.tiles|);
    DiffRecords(m.tiles, cleared);
    Commit(m, undo, cleared, changes)
  }

  /**
   * One frame of `keyboard_shortcuts` as written: it reads the keys
   * whether or not a text field has focus. `hasMap` says whether the map
   * and its tile sprites exist.
   */
  function KeyboardShortcutsAsWritten(k: Keys, activeId: Option<string>, runtime: map<string, (nat, nat)>,
                                      selected: nat, hasMap: bool, m: TileMap, undo: UndoStack): (r: KeyFrame)
    ensures UndoableEdit(m, undo, r.tiles, r.undo)
    ensures r.selectedTile == StepTile(k, TileCount(activeId, runtime), selected)
    ensures !(Tapped(k, KeyR) && hasMap) ==> r.tiles == m && r.undo == undo
    ensures Tapped(k, KeyR) && hasMap ==> forall i :: 0 <= i < |r.tiles.tiles| ==> r.tiles.tiles[i].None?
  {
    var sel := StepTile(k, TileCount(activeId, runtime), selected);
    if Tapped(k, KeyR) && hasMap then
      var (m', undo') := ClearMap(m, undo);
      KeyFrame(sel, m', undo')
    else KeyFrame(sel, m, undo)
  }

  /** One frame of `keyboard_shortcuts`, ignored while a text field has focus, as `tool_shortcuts` is. */
  function KeyboardShortcuts(typing: bool, k: Keys, activeId: Option<string>, runtime: map<string, (nat, nat)>,
                             selected: nat, hasMap: bool, m: TileMap, undo: UndoStack): (r: KeyFrame)
    ensures UndoableEdit(m, undo, r.tiles, r.undo)
    ensures typing ==> r == KeyFrame(selected, m, undo)
    ensures !typing ==> r.selectedTile == StepTile(k, TileCount(activeId, runtime), selected)
    ensures !(!typing && Tapped(k, KeyR) && hasMap) ==> r.tiles == m && r.undo == undo
    ensures !typing && Tapped(k, KeyR) && hasMap ==> forall i :: 0 <= i < |r.tiles.tiles| ==> r.tiles.tiles[i].None?
  {
    if typing then KeyFrame(selected, m, undo)
    else KeyboardShortcutsAsWritten(k, activeId, runtime, selected, hasMap, m, undo)
  }

  /** Clearing a map that held a tile is taken back by one undo. */
  lemma ClearUndoRestores(m: TileMap, undo: UndoStack)
    requires exists i :: 0 <= i < |m.tiles| && m.tiles[i].Some?
    ensures var r := ClearMap(m, undo);
      r.0 != m && UndoStep(r.0, r.1).0 == m
  {
    var r := ClearMap(m, undo);
    var i :| 0 <= i < |m.tiles| && m.tiles[i].Some?;
    assert r.0.tiles[i] != m.tiles[i];
    UndoableEditRoundTrip(m, undo, r.0, r.1);
  }

  /**
   * The letter R typed into the layer name field (which accepts letters)
   * also reaches `keyboard_shortcuts` in the same frame: the map is
   * cleared, where with the focus check nothing happens.
   */
  lemma TypingRClearsMap(t: TileRef)
    ensures var m := TileMap(1, 1, 1, [Some(t)], []);
      var r := Keys({KeyR}, {KeyR}, {});
      && KeyboardShortcutsAsWritten(r, None, map[], 0, true, m, EmptyStack).tiles.tiles == [None]
      && KeyboardShortcuts(true, r, None, map[], 0, true, m, EmptyStack).tiles == m
  {
    var m := TileMap(1, 1, 1, [Some(t)], []);
    var r := Keys({KeyR}, {KeyR}, {});
    var f := KeyboardShortcutsAsWritten(r, None, map[], 0, true, m, EmptyStack);
    assert |f.tiles.tiles| == 1 && f.tiles.tiles[0].None?;
  }

  // ---------------------------------------------------------------------
  // tool_shortcuts
  // ---------------------------------------------------------------------

  /** The tool each digit key 1 to 6 selects. */
  function DigitTool(d: nat): (t: Option<ToolKind>)
    ensures t.Some? <==> 1 <= d <= 6
  {
    if d == 1 then Some(Pencil)
    else if d == 2 then Some(Rectangle)
    else if d == 3 then Some(Fill)
    else if d == 4 then Some(Select)
    else if d == 5 then Some(Paste)
    else if d == 6 then Some(Eraser)
    else None
  }

  /** Different digits select different tools. */
  lemma DigitToolInjective(d1: nat, d2: nat)
    requires DigitTool(d1).Some? && DigitTool(d1) == DigitTool(d2)
    ensures d1 == d2
  {
  }

  /** The lowest digit in `lo..hi` tapped this frame. */
  function LowestTapped(k: Keys, lo: nat, hi: nat): (r: Option<nat>)
    ensures r.Some? ==> lo <= r.value <= hi && Tapped(k, Digit(r.value))
    ensures r.Some? ==> forall d :: lo <= d < r.value ==> !Tapped(k, Digit(d))
    ensures r.None? <==> forall d :: lo <= d <= hi ==> !Tapped(k, Digit(d))
    decreases hi + 1 - lo
  {
    if lo > hi then None
    else if Tapped(k, Digit(lo)) then Some(lo)
    else LowestTapped(k, lo + 1, hi)
  }

  /** The tool and the brush size after one frame. */
  datatype ToolFrame = ToolFrame(tools: ToolState, brushSize: nat)

  /**
   * One frame of `tool_shortcuts`. With Shift held the lowest of 1, 2, 3
   * tapped sets the brush size and the tool is kept; otherwise the lowest
   * of 1 to 6 tapped chooses the tool.
   */
  function ToolShortcuts(typing: bool, k: Keys, tools: ToolState, brushSize: nat): (r: ToolFrame)
    ensures typing ==> r == ToolFrame(tools, brushSize)
    ensures r.tools.returnAfterPaste == tools.returnAfterPaste
    ensures !typing && Held(k, Shift) ==>
      && r.tools == tools
      && r.brushSize == (match LowestTapped(k, 1, 3) case Some(d) => d case None => brushSize)
    ensures !typing && !Held(k, Shift) ==>
      && r.brushSize == brushSize
      && r.tools.tool == (match LowestTapped(k, 1, 6) case Some(d) => DigitTool(d).value case None => tools.tool)
  {
    if typing then ToolFrame(tools, brushSize)
    else if Held(k, Shift) then
      var size := if Tapped(k, Digit(1)) then 1
        else if Tapped(k, Digit(2)) then 2
        else if Tapped(k, Digit(3)) then 3
        else brushSize;
      ToolFrame(tools, size)
    else
      var tool := if Tapped(k, Digit(1)) then Pencil
        else if Tapped(k, Digit(2)) then Rectangle
        else if Tapped(k, Digit(3)) then Fill
        else if Tapped(k, Digit(4)) then Select
        else if Tapped(k, Digit(5)) then Paste
        else if Tapped(k, Digit(6)) then Eraser
        else tools.tool;
      ToolFrame(tools.(tool := tool), brushSize)
  }

  /** Tapping a single digit 1 to 6 without Shift selects exactly its tool. */
  lemma SingleDigitSelects(d: nat, tools: ToolState, brushSize: nat)
    requires 1 <= d <= 6
    ensures ToolShortcuts(false, Keys({Digit(d)}, {Digit(d)}, {}), tools, brushSize).tools.tool == DigitTool(d).value
  {
    var k := Keys({Digit(d)}, {Digit(d)}, {});
    assert LowestTapped(k, 1, 6) == Some(d);
  }
}
