/**
 * The rotate/mirror keys (Q, E, H, V) and the matching context-menu
 * entries. In the Paste tool they change the paste transform; otherwise
 * they act on the selection, then on the tile under the cursor, and only
 * as a last resort on the preset paste transform.
 */
module PasteTransform {
  import opened Base
  import opened TileMapCore
  import opened Input
  import opened Selection
  import opened Undo
  import opened Editor
  import opened SelectionTransform
  import SingleTile

  /** The four orientation actions the keys and menu entries name. */
  predicate Orienting(a: ContextMenuAction)
  {
    a == PasteRotateCcw || a == PasteRotateCw || a == PasteFlipX || a == PasteFlipY
  }

  /** The key pressed this frame, by priority Q, E, H, V: at most one action per frame. */
  function ShortcutAction(k: Keys): (r: Option<ContextMenuAction>)
    ensures r.Some? <==> Tapped(k, KeyQ) || Tapped(k, KeyE) || Tapped(k, KeyH) || Tapped(k, KeyV)
    ensures r.Some? ==> Orienting(r.value)
    ensures Tapped(k, KeyQ) ==> r == Some(PasteRotateCcw)
    ensures !Tapped(k, KeyQ) && Tapped(k, KeyE) ==> r == Some(PasteRotateCw)
    ensures !Tapped(k, KeyQ) && !Tapped(k, KeyE) && Tapped(k, KeyH) ==> r == Some(PasteFlipX)
    ensures !Tapped(k, KeyQ) && !Tapped(k, KeyE) && !Tapped(k, KeyH) && Tapped(k, KeyV) ==> r == Some(PasteFlipY)
  {
    if Tapped(k, KeyQ) then Some(PasteRotateCcw)
    else if Tapped(k, KeyE) then Some(PasteRotateCw)
    else if Tapped(k, KeyH) then Some(PasteFlipX)
    else if Tapped(k, KeyV) then Some(PasteFlipY)
    else None
  }

  /**
   * The paste transform after an orientation action: a quarter turn either
   * way (modulo 4, which agrees with the `u8` arithmetic because 256 is a
   * multiple of 4) or one mirror toggled.
   */
  function Adjusted(p: PasteState, a: ContextMenuAction): (q: PasteState)
    ensures p.rot < 4 ==> q.rot < 4
    ensures a == PasteRotateCcw ==> q == p.(rot := (p.rot + 3) % 4)
    ensures a == PasteRotateCw ==> q == p.(rot := (p.rot + 1) % 4)
    ensures a == PasteFlipX ==> q == p.(flipX := !p.flipX)
    ensures a == PasteFlipY ==> q == p.(flipY := !p.flipY)
    ensures !Orienting(a) ==> q == p
  {
    match a
    case PasteRotateCcw => p.(rot := (p.rot + 3) % 4)
    case PasteRotateCw => p.(rot := (p.rot + 1) % 4)
    case PasteFlipX => p.(flipX := !p.flipX)
    case PasteFlipY => p.(flipY := !p.flipY)
    case _ => p
  }

  /**
   * On a normalised paste transform, the two quarter turns undo each other,
   * four clockwise turns are the identity, and each mirror is an involution.
   */
  lemma AdjustedInverses(p: PasteState)
    requires p.rot < 4
    ensures Adjusted(Adjusted(p, PasteRotateCw), PasteRotateCcw) == p
    ensures Adjusted(Adjusted(p, PasteRotateCcw), PasteRotateCw) == p
    ensures Adjusted(Adjusted(Adjusted(Adjusted(p, PasteRotateCw), PasteRotateCw), PasteRotateCw), PasteRotateCw) == p
    ensures Adjusted(Adjusted(p, PasteFlipX), PasteFlipX) == p
    ensures Adjusted(Adjusted(p, PasteFlipY), PasteFlipY) == p
  {
  }

  /** The single-tile edit an orientation action performs. */
  function TileEditOf(a: ContextMenuAction): SingleTile.TileEdit
    requires Orienting(a)
  {
    match a
    case PasteRotateCcw => SingleTile.RotateCcw
    case PasteRotateCw => SingleTile.RotateCw
    case PasteFlipX => SingleTile.MirrorX
    case PasteFlipY => SingleTile.MirrorY
  }

  /** The editor state a paste-transform frame leaves: selection, cells, undo stack and paste transform. */
  datatype TransformOutcome = TransformOutcome(selection: SelectionState, tiles: TileMap, undo: UndoStack, paste: PasteState)

  /** The selection transform is tried: Select tool, a selection and a map. */
  predicate TriesSelection(tools: ToolState, sel: SelectionState, hasMap: bool)
  {
    tools.tool == Select && sel.rect.Some? && hasMap
  }

  /**
   * The selection transform is tried, fits, and reads a stale selection's
   * block past the tiles: the source panics.
   */
  predicate TransformPanics(a: ContextMenuAction, tools: ToolState, activeLayer: nat, sel: SelectionState, hasMap: bool, m: TileMap)
  {
    && TriesSelection(tools, sel, hasMap) && Fits(a, sel.rect.value, m)
    && !Indexable(m, EditLayer(activeLayer, m), ReadBlock(sel.rect.value))
  }

  /** Steps 2 to 4 outside the Paste tool: the selection, then the tile under the cursor, then the preset. */
  function ActOutsidePaste(
    a: ContextMenuAction, tools: ToolState, activeLayer: nat, clip: Clipboard, sel: SelectionState,
    hasMap: bool, m: TileMap, undo: UndoStack, paste: PasteState, pos: Option<Point>)
    : (r: Result<TransformOutcome>)
    requires Valid(m) && CursorOnMap(pos, m) && Orienting(a)
    ensures r.Err? <==> TransformPanics(a, tools, activeLayer, sel, hasMap, m)
    ensures r.Err? ==> r.error == IndexPanic
  {
    var o := if TriesSelection(tools, sel, hasMap)
      then ApplySelectionTransform(a, sel, m, EditLayer(activeLayer, m), undo)
      else Ok(Outcome(false, sel, m, undo));
    if o.Err? then Err(IndexPanic)
    else if o.value.handled then Ok(TransformOutcome(o.value.selection, o.value.tiles, o.value.undo, paste))
    else
      var t := if pos.Some? then SingleTile.TryEditSingleTile(pos, hasMap, m, undo, TileEditOf(a)) else (m, undo, false);
      if t.2 then Ok(TransformOutcome(sel, t.0, t.1, paste))
      else if !HasContent(clip) then Ok(TransformOutcome(sel, m, undo, paste))
      else Ok(TransformOutcome(sel, m, undo, Adjusted(paste, a)))
  }

  /** `paste_transform_shortcuts`: one frame of the Q/E/H/V keys. */
  function PasteTransformShortcuts(
    k: Keys, tools: ToolState, activeLayer: nat, clip: Clipboard, sel: SelectionState,
    hasMap: bool, m: TileMap, undo: UndoStack, paste: PasteState, pos: Option<Point>)
    : (r: Result<TransformOutcome>)
    requires Valid(m) && CursorOnMap(pos, m)
    ensures r.Err? <==>
      && !Held(k, Ctrl) && ShortcutAction(k).Some? && tools.tool != Paste
      && TransformPanics(ShortcutAction(k).value, tools, activeLayer, sel, hasMap, m)
    ensures r.Err? ==> r.error == IndexPanic
    ensures sel.rect.Some? && RectInMap(sel.rect.value, m.width, m.height) ==> r.Ok?
    ensures Held(k, Ctrl) || ShortcutAction(k).None? ==> r == Ok(TransformOutcome(sel, m, undo, paste))
    ensures !Held(k, Ctrl) && ShortcutAction(k).Some? && tools.tool == Paste ==>
      r == Ok(TransformOutcome(sel, m, undo, Adjusted(paste, ShortcutAction(k).value)))
    ensures r.Ok? ==> UndoableEdit(m, undo, r.value.tiles, r.value.undo)
    ensures r.Ok? && paste.rot < 4 ==> r.value.paste.rot < 4
    ensures r.Ok? && r.value.paste != paste ==>
      tools.tool == Paste || (HasContent(clip) && r.value.tiles == m && r.value.selection == sel)
  {
    if Held(k, Ctrl) || ShortcutAction(k).None? then Ok(TransformOutcome(sel, m, undo, paste))
    else
      var a := ShortcutAction(k).value;
      if tools.tool == Paste then Ok(TransformOutcome(sel, m, undo, Adjusted(paste, a)))
      else
        ActOutsideEffect(a, tools, activeLayer, clip, sel, hasMap, m, undo, paste, pos);
        ActOutsidePaste(a, tools, activeLayer, clip, sel, hasMap, m, undo, paste, pos)
  }

  /**
   * Outside the Paste tool the first step that applies wins: a selection
   * transform that fits (in the Select tool with a selection) ends the
   * frame even when no cell changed, and panics when a stale selection's
   * block reaches past the tiles; otherwise a change to the tile under the
   * cursor; otherwise the preset, and only with a non-empty clipboard.
   * Every frame that does not panic is an undoable edit, and a selection
   * on the map never panics.
   */
  lemma ActOutsideEffect(
    a: ContextMenuAction, tools: ToolState, activeLayer: nat, clip: Clipboard, sel: SelectionState,
    hasMap: bool, m: TileMap, undo: UndoStack, paste: PasteState, pos: Option<Point>)
    requires Valid(m) && CursorOnMap(pos, m) && Orienting(a)
    ensures var r := ActOutsidePaste(a, tools, activeLayer, clip, sel, hasMap, m, undo, paste, pos);
      var selected := TriesSelection(tools, sel, hasMap) && Fits(a, sel.rect.value, m);
      var tiled := pos.Some? && SingleTile.Changes(pos, hasMap, m, TileEditOf(a));
      && (sel.rect.Some? && RectInMap(sel.rect.value, m.width, m.height) ==> r.Ok?)
      && (r.Ok? ==> UndoableEdit(m, undo, r.value.tiles, r.value.undo))
      && (selected && r.Ok? ==>
            var o := ApplySelectionTransform(a, sel, m, EditLayer(activeLayer, m), undo);
            o.Ok? && r.value == TransformOutcome(o.value.selection, o.value.tiles, o.value.undo, paste))
      && (!selected && tiled ==>
            var t := SingleTile.TryEditSingleTile(pos, hasMap, m, undo, TileEditOf(a));
            r == Ok(TransformOutcome(sel, t.0, t.1, paste)))
      && (!selected && !tiled ==>
            r == Ok(TransformOutcome(sel, m, undo, if HasContent(clip) then Adjusted(paste, a) else paste)))
  {
    if pos.Some? {
      SingleTile.TryEditSingleTileEffect(pos, hasMap, m, undo, TileEditOf(a));
    }
  }

  /** The result of a context-menu paste action. */
  datatype MenuOutcome = MenuOutcome(tools: ToolState, paste: PasteState, tiles: TileMap, undo: UndoStack)

  /** `return_after_paste.take().unwrap_or(Select)`. */
  function ExitPasteTools(tools: ToolState): (r: ToolState)
    ensures r.returnAfterPaste.None?
    ensures r.tool == (if tools.returnAfterPaste.Some? then tools.returnAfterPaste.value else Select)
  {
    ToolState(if tools.returnAfterPaste.Some? then tools.returnAfterPaste.value else Select, None)
  }

  /**
   * `apply_context_menu_paste_action`: the menu entries act on the paste
   * transform in the Paste tool, otherwise on the tile the menu was opened
   * over, falling back to the preset. The reset falls back to the default
   * transform even with an empty clipboard; exiting paste returns to the
   * remembered tool.
   */
  function ApplyContextMenuPasteAction(
    a: ContextMenuAction, tools: ToolState, paste: PasteState, clip: Clipboard, menuPos: Option<Point>,
    hasMap: bool, m: TileMap, undo: UndoStack)
    : (r: MenuOutcome)
    requires Valid(m) && CursorOnMap(menuPos, m)
    ensures UndoableEdit(m, undo, r.tiles, r.undo)
    ensures a != ExitPaste ==> r.tools == tools
    ensures a == ExitPaste ==> r == MenuOutcome(ExitPasteTools(tools), paste, m, undo)
    ensures tools.tool == Paste && a != ExitPaste ==>
      r == MenuOutcome(tools, if a == PasteReset then DefaultPaste else Adjusted(paste, a), m, undo)
    ensures !Orienting(a) && a != PasteReset && a != ExitPaste ==> r == MenuOutcome(tools, paste, m, undo)
    ensures paste.rot < 4 ==> r.paste.rot < 4
  {
    if a == ExitPaste then MenuOutcome(ExitPasteTools(tools), paste, m, undo)
    else if !Orienting(a) && a != PasteReset then MenuOutcome(tools, paste, m, undo)
    else if tools.tool == Paste then
      MenuOutcome(tools, if a == PasteReset then DefaultPaste else Adjusted(paste, a), m, undo)
    else
      var e := if a == PasteReset then SingleTile.ResetOrientation else TileEditOf(a);
      SingleTile.TryEditSingleTileEffect(menuPos, hasMap, m, undo, e);
      var t := SingleTile.TryEditSingleTile(menuPos, hasMap, m, undo, e);
      if t.2 then MenuOutcome(tools, paste, t.0, t.1)
      else if a == PasteReset then MenuOutcome(tools, DefaultPaste, m, undo)
      else if HasContent(clip) then MenuOutcome(tools, Adjusted(paste, a), m, undo)
      else MenuOutcome(tools, paste, m, undo)
  }

  /**
   * Outside the Paste tool, a reset that finds no tile to reset restores the
   * default paste transform whatever the clipboard holds, while the other
   * entries fall back to the preset only with a non-empty clipboard.
   */
  lemma ContextMenuFallback(
    a: ContextMenuAction, tools: ToolState, paste: PasteState, clip: Clipboard, menuPos: Option<Point>,
    hasMap: bool, m: TileMap, undo: UndoStack)
    requires Valid(m) && CursorOnMap(menuPos, m)
    requires tools.tool != Paste && (Orienting(a) || a == PasteReset)
    ensures var e := if a == PasteReset then SingleTile.ResetOrientation else TileEditOf(a);
      var r := ApplyContextMenuPasteAction(a, tools, paste, clip, menuPos, hasMap, m, undo);
      !SingleTile.Changes(menuPos, hasMap, m, e) ==>
        && r.tiles == m && r.undo == undo
        && r.paste == (if a == PasteReset then DefaultPaste else if HasContent(clip) then Adjusted(paste, a) else paste)
    ensures var e := if a == PasteReset then SingleTile.ResetOrientation else TileEditOf(a);
      var r := ApplyContextMenuPasteAction(a, tools, paste, clip, menuPos, hasMap, m, undo);
      SingleTile.Changes(menuPos, hasMap, m, e) ==>
        r.paste == paste && r.tiles != m
  {
    var e := if a == PasteReset then SingleTile.ResetOrientation else TileEditOf(a);
    SingleTile.TryEditSingleTileEffect(menuPos, hasMap, m, undo, e);
    if SingleTile.Changes(menuPos, hasMap, m, e) {
      var k := TopmostIdxAt(m, menuPos.value.x, menuPos.value.y).value;
      var t := SingleTile.TryEditSingleTile(menuPos, hasMap, m, undo, e);
      assert t.0.tiles[k] != m.tiles[k];
    }
  }
}
