/**
 * The eyedropper: holding I switches to the Eyedropper tool and releasing
 * it switches back (`eyedropper_hold_shortcut`); a click with the
 * Eyedropper samples the topmost tile under the cursor into the selected
 * tile and the active tileset (`eyedropper_with_mouse`). `typing` says
 * whether a map-size input field has keyboard focus.
 */
module Eyedropper {
  import opened Base
  import opened Text
  import opened TileMapCore
  import opened Input
  import opened Selection
  import opened Editor
  import opened TilesetLibrary
  import Paint

  /** The tool state and the tool saved while I is held (the system's local state). */
  datatype HoldFrame = HoldFrame(tools: ToolState, saved: Option<ToolKind>)

  /** One frame of `eyedropper_hold_shortcut`. */
  function EyedropperHoldShortcut(typing: bool, k: Keys, tools: ToolState, saved: Option<ToolKind>): (r: HoldFrame)
    ensures typing || !(Tapped(k, KeyI) || Released(k, KeyI)) ==> r == HoldFrame(tools, saved)
    ensures r.tools.returnAfterPaste == tools.returnAfterPaste
    ensures !typing && Tapped(k, KeyI) && !Released(k, KeyI) ==>
      && r.tools.tool == Eyedropper
      && r.saved == (if saved.Some? then saved else Some(tools.tool))
    ensures !typing && Released(k, KeyI) ==> r.saved.None?
    ensures !typing && Released(k, KeyI) && !Tapped(k, KeyI) ==>
      r.tools.tool == (if tools.tool == Eyedropper && saved.Some? then saved.value else tools.tool)
    ensures !typing && Tapped(k, KeyI) && Released(k, KeyI) ==>
      r.tools.tool == (if saved.Some? then saved.value else tools.tool)
  {
    if typing then HoldFrame(tools, saved)
    else
      var (t1, s1) := if Tapped(k, KeyI)
        then (tools.(tool := Eyedropper), if saved.None? then Some(tools.tool) else saved)
        else (tools, saved);
      if Released(k, KeyI) && s1.Some? then
        HoldFrame(if t1.tool == Eyedropper then t1.(tool := s1.value) else t1, None)
      else HoldFrame(t1, s1)
  }

  /** A frame with I pressed only. */
  const PressI: Keys := Keys({KeyI}, {KeyI}, {})

  /** A frame with I released only. */
  const ReleaseI: Keys := Keys({}, {}, {KeyI})

  /**
   * Holding I and letting go gives back the tool in use before, when the
   * tool was still the Eyedropper at the release; a tool chosen by hand
   * during the hold (`picked`) is kept instead.
   */
  lemma HoldThenReleaseRestores(tools: ToolState, picked: ToolKind)
    ensures var f1 := EyedropperHoldShortcut(false, PressI, tools, None);
      var f2 := EyedropperHoldShortcut(false, ReleaseI, f1.tools.(tool := picked), f1.saved);
      && f1.tools.tool == Eyedropper
      && f2.saved.None?
      && f2.tools.tool == (if picked == Eyedropper then tools.tool else picked)
  {
  }

  /** Holding I twice in a row without a release keeps the first saved tool. */
  lemma RepressKeepsFirstTool(tools: ToolState)
    ensures var f1 := EyedropperHoldShortcut(false, PressI, tools, None);
      var f2 := EyedropperHoldShortcut(false, PressI, f1.tools, f1.saved);
      var f3 := EyedropperHoldShortcut(false, ReleaseI, f2.tools, f2.saved);
      f3.tools == tools && f3.saved.None?
  {
  }

  /** The library and selected tile that the eyedropper updates. */
  datatype PickFrame = PickFrame(selectedTile: nat, lib: Library)

  /** The click is ignored: another tool, the menu, Alt or Space held, no fresh left click, no map or no cursor cell. */
  predicate PickBlocked(tools: ToolState, menu: MenuState, k: Keys, mouse: Mouse, hasMap: bool, pos: Option<Point>)
  {
    tools.tool != Eyedropper || MenuBlocks(menu) || Held(k, Alt) || Held(k, Space)
    || !mouse.leftStart || !hasMap || pos.None?
  }

  /** The category a sampled tileset switches to: its entry's trimmed category, when there is an entry and it is not blank. */
  function CategoryAfterPick(lib: Library, id: string): (c: string)
    ensures var f := FindEntry(lib.entries, id);
      f.Some? && !IsBlank(lib.entries[f.value].category) ==> c == Trim(lib.entries[f.value].category)
    ensures var f := FindEntry(lib.entries, id);
      f.None? || IsBlank(lib.entries[f.value].category) ==> c == lib.activeCategory
    ensures c != lib.activeCategory ==> !IsBlank(c) && c == Trim(c)
  {
    match FindEntry(lib.entries, id)
    case Some(i) =>
      var cat := Trim(lib.entries[i].category);
      TrimByIdempotent(lib.entries[i].category, IsWhitespace);
      if cat != [] then cat else lib.activeCategory
    case None => lib.activeCategory
  }

  /**
   * One frame of `eyedropper_with_mouse`. Window and camera are taken as
   * present; `pos` is the cursor cell. The map is only read.
   */
  function EyedropperWithMouse(tools: ToolState, menu: MenuState, k: Keys, mouse: Mouse, hasMap: bool,
                               pos: Option<Point>, m: TileMap, selectedTile: nat, lib: Library): (r: PickFrame)
    requires CursorOnMap(pos, m)
    ensures PickBlocked(tools, menu, k, mouse, hasMap, pos) ==> r == PickFrame(selectedTile, lib)
    ensures !PickBlocked(tools, menu, k, mouse, hasMap, pos) ==>
      var p := pos.value;
      match TopmostLayerAt(m, p.x, p.y)
      case None => r == PickFrame(selectedTile, lib)
      case Some(l) =>
        var t := CellAt(m, l, p.x, p.y).value;
        && (forall l' :: l < l' < m.layers ==> CellAt(m, l', p.x, p.y).None?)
        && r.selectedTile == t.index
        && r.lib.activeId == Some(t.tilesetId)
        && r.lib.entries == lib.entries
        && r.lib.activeCategory == CategoryAfterPick(lib, t.tilesetId)
  {
    if PickBlocked(tools, menu, k, mouse, hasMap, pos) then PickFrame(selectedTile, lib)
    else
      var p := pos.value;
      match TopmostIdxAt(m, p.x, p.y)
      case None => PickFrame(selectedTile, lib)
      case Some(idx) =>
        match Get(m.tiles, idx)
        case None => PickFrame(selectedTile, lib)
        case Some(t) =>
          PickFrame(t.index, lib.(activeId := Some(t.tilesetId), activeCategory := CategoryAfterPick(lib, t.tilesetId)))
  }

  /**
   * Sampling a tile and then painting with the Pencil writes the same tile
   * back, orientation aside: the eyedropper picks exactly what the Pencil
   * paints.
   */
  lemma PickThenPencil(tools: ToolState, menu: MenuState, k: Keys, mouse: Mouse, pos: Option<Point>,
                       m: TileMap, selectedTile: nat, lib: Library)
    requires CursorOnMap(pos, m) && !PickBlocked(tools, menu, k, mouse, true, pos)
    requires TopmostLayerAt(m, pos.value.x, pos.value.y).Some?
    ensures var r := EyedropperWithMouse(tools, menu, k, mouse, true, pos, m, selectedTile, lib);
      var t := CellAt(m, TopmostLayerAt(m, pos.value.x, pos.value.y).value, pos.value.x, pos.value.y).value;
      Paint.Desired(Pencil, r.lib.activeId, r.selectedTile) == Some(t.(rot := 0, flipX := false, flipY := false))
  {
  }

  /**
   * Sampling never touches the library's entries. The active id afterwards
   * names a library entry exactly when the sampled tile's tileset is in the
   * library: a tile from an unknown tileset makes an unknown id active.
   */
  lemma PickActiveKnown(tools: ToolState, menu: MenuState, k: Keys, mouse: Mouse, hasMap: bool,
                        pos: Option<Point>, m: TileMap, selectedTile: nat, lib: Library)
    requires CursorOnMap(pos, m)
    ensures var r := EyedropperWithMouse(tools, menu, k, mouse, hasMap, pos, m, selectedTile, lib);
      && r.lib.entries == lib.entries
      && (PickBlocked(tools, menu, k, mouse, hasMap, pos) || TopmostLayerAt(m, pos.value.x, pos.value.y).None? ==>
            (ActiveKnown(r.lib) <==> ActiveKnown(lib)))
      && (!PickBlocked(tools, menu, k, mouse, hasMap, pos) && TopmostLayerAt(m, pos.value.x, pos.value.y).Some? ==>
            var p := pos.value;
            var t := CellAt(m, TopmostLayerAt(m, p.x, p.y).value, p.x, p.y).value;
            (ActiveKnown(r.lib) <==> FindEntry(lib.entries, t.tilesetId).Some?))
  {
  }
}
