# Tilemap editor core, modelled in Dafny

This project models the tile-grid engine of a layered 2D tilemap editor. It covers:

- The map itself: a `width` x `height` grid on several layers, stored flat with layer 0 first and each layer row-major. This includes its index arithmetic, layer growth and topmost-tile lookup.
- Its versioned file format, at the record level.
- The undo/redo stack and its edit commands.
- Every editing tool that writes cells:
  - pencil and eraser strokes;
  - the rectangle tool;
  - the breadth-first flood fill;
  - pasting the clipboard under a rotation and mirroring;
  - selecting a box and dragging the selected block;
  - the selection's rotate, mirror and reset transform;
  - Alt+arrow block moves;
  - cut, clear, copy, select-all and deselect, from the keyboard and from the context menu;
  - Ctrl+arrow map shifts in blank and wrap mode;
  - clearing the whole map;
  - re-orienting the single tile under the cursor;
  - the eyedropper.
- The editor's bookkeeping:
  - active layer and the layer buttons;
  - layer names, visibility and lock;
  - the map-size fields and resizing the map;
  - the tileset library merge;
  - the tileset menu's category cycle;
  - the palette search filter;
  - keyboard tool selection;
  - asset path joining.

Each frame of an input system is a pure function. It takes this frame's `Input.Keys` and `Input.Mouse` and the editor state, and returns the new state. Window, camera and sprite refreshes are left out. The cursor position arrives already converted to a map cell.

Cells are written in one of two ways, and the model keeps both:

- **Blind writes** (`Edits.BlindApply`) check each write against the current cell and record it when it differs.
- **First-write-wins writes** (`Edits.TouchedApply`) ignore every later write to a cell already written.

The undo stack replays a command's changes in recorded order. The central contract `Undo.Records` says that a command faithfully records an edit: distinct, in-range indices, each with the cell's old and new value, and nothing else changed. The editing tools are proved to produce an `Undo.UndoableEdit`, so one undo restores the map and one redo re-applies it, with two exceptions found in the source and listed under Findings. The Pencil and Eraser are undoable for each stroke begun by a press on the map, but also paint while the button is held with no stroke begun, and those cells are never pushed. The Alt+arrow selection move as written is not undoable when its two rectangles overlap.

## Model

| member | source | states |
|---|---|---|
| TileMapCore.NewWithLayers | crates/tilemap_core/src/lib.rs:51-60 | The new map is valid, has the given size, at least one layer, one default entry per layer and only empty cells |
| TileMapCore.New | crates/tilemap_core/src/lib.rs:42-50 | A new map has the default two layers, all cells empty |
| TileMapCore.IdxLayer | crates/tilemap_core/src/lib.rs:65-69 | An in-bounds cell's index lies in its layer's block of `width * height` cells |
| TileMapCore.Idx | crates/tilemap_core/src/lib.rs:70-74 | The index on layer 0 is the row-major offset |
| TileMapCore.IdxLayerInRange | crates/tilemap_core/src/lib.rs:65-69 | Every in-bounds (layer, x, y) indexes inside the tiles of a valid map |
| TileMapCore.IdxLayerInjective | crates/tilemap_core/src/lib.rs:65-69 | Distinct in-bounds coordinates never share an index |
| TileMapCore.CoordsOfIdx | crates/tilemap_core/src/lib.rs:65-69 | Every index of a valid map decodes uniquely back to its (layer, x, y): `Coords` inverts `IdxLayer` |
| TileMapCore.EnsureLayers | crates/tilemap_core/src/lib.rs:75-84 | The map grows to at least the requested layer count, extending the tiles with empty cells |
| TileMapCore.EnsureLayersValid | crates/tilemap_core/src/lib.rs:75-84 | Growing a valid map keeps it valid and keeps every existing cell |
| TileMapCore.TopmostLayerAt | crates/tilemap_core/src/lib.rs:85-97 | The result holds a tile at (x, y) and every higher layer is empty there; none exactly when no layer has a tile there |
| TileMapCore.TopmostIdxAt | crates/tilemap_core/src/lib.rs:98-101 | The index of the topmost tile, consistent with `TopmostLayerAt` |
| TileMapFormat.Encode | crates/tilemap_format/src/lib.rs:36-50 | The saved record carries the map's size, at least one layer, its layer data, tiles and tilesets |
| TileMapFormat.DecodeV3 | crates/tilemap_format/src/lib.rs:57-76 | At least the default layer count; stored layer data padded to the layer count; tiles copied up to the shorter length, rest empty |
| TileMapFormat.DecodeV2 | crates/tilemap_format/src/lib.rs:79-85 | Single-layer tiles land in layer 0 of a two-layer map; the other layer is empty |
| TileMapFormat.DecodeV1 | crates/tilemap_format/src/lib.rs:88-109 | Bare indices become tiles with no tileset and no orientation; no tilesets are returned |
| TileMapFormat.Decode | crates/tilemap_format/src/lib.rs:52-110 | The newest version that parses wins; decoding fails only when even version 1 does not parse |
| TileMapFormat.EncodeDecodeRoundTrip | crates/tilemap_format/src/lib.rs:36-76 | Saving and loading a map with at least two layers and one layer entry per layer gives back the same map and tilesets |
| Undo.Clear | crates/tilemap_editor/src/editor/types/undo.rs:25-29 | Both stacks are empty afterwards |
| Undo.Push | crates/tilemap_editor/src/editor/types/undo.rs:30-41 | An empty command changes nothing; otherwise redo is dropped, the command is on top, and at most the capacity (200 for 0) is kept, oldest dropped first |
| Undo.ReplayDistinct | crates/tilemap_editor/src/editor/world/undo.rs:38-42 | Replaying distinct in-range changes sets exactly their cells |
| Undo.UndoRestores | crates/tilemap_editor/src/editor/world/undo.rs:34-46 | Replaying the befores of a faithful record restores the earlier map |
| Undo.RedoRestores | crates/tilemap_editor/src/editor/world/undo.rs:48-60 | Replaying the afters of a faithful record restores the later map |
| Undo.UndoStep | crates/tilemap_editor/src/editor/world/undo.rs:34-46 | Pops the newest command, writes its befores and moves it to the redo stack; an empty stack changes nothing |
| Undo.RedoStep | crates/tilemap_editor/src/editor/world/undo.rs:48-60 | Pops the newest redo command, writes its afters and moves it back; an empty redo stack changes nothing |
| Undo.UndoRedoShortcuts | crates/tilemap_editor/src/editor/world/undo.rs:7-61 | Without Ctrl or a map nothing happens; Ctrl+Z without Shift undoes, and otherwise Ctrl+Y or Ctrl+Shift+Z redoes |
| Undo.PushUndoRedo | crates/tilemap_editor/src/editor/types/undo.rs:30-41 | A faithful edit pushed and then undone gives back the earlier map, and redoing gives back the later one |
| Undo.RecordsEmpty | crates/tilemap_editor/src/editor/types/undo.rs:31-33 | With effective entries, a faithful record is empty exactly when the edit changed nothing |
| Undo.Commit | crates/tilemap_editor/src/editor/world/tools/rect.rs:182-211 | The map takes the new cells; with a faithful record of effective changes the step is an undoable edit |
| Undo.UndoableEditRoundTrip | crates/tilemap_editor/src/editor/world/undo.rs:34-60 | An undoable edit that changed something is reverted by undo and re-applied by redo |
| Edits.BlindApplyDistinct | crates/tilemap_editor/src/editor/world/tools/rect.rs:184-209 | Distinct blind writes are all performed and faithfully recorded |
| Edits.BlindApplyConcat | crates/tilemap_editor/src/editor/world/tools/rect.rs:184-209 | Blind-writing two lists in turn leaves what writing them one after the other leaves: later writes win |
| Edits.BlindApplyUniform | crates/tilemap_editor/src/editor/world/tools/rect.rs:184-201 | Blind-writing one value throughout records faithfully even when targets repeat, and every targeted in-range cell ends up holding the value |
| Edits.BlindApplyQuiet | crates/tilemap_editor/src/editor/world/tools/rect.rs:191-193 | A blind write that records nothing leaves the cells unchanged |
| Edits.TouchedApplyFaithful | crates/tilemap_editor/src/editor/world/selection_move.rs:284-300 | First-write-wins writing always records faithfully, and every targeted cell ends with its first write's value |
| Edits.FirstWriteToIs | crates/tilemap_editor/src/editor/world/selection_move.rs:289-293 | The first write to a cell is the earliest write that targets it |
| Edits.DiffRecords | crates/tilemap_editor/src/editor/world/shift_map.rs:88-95 | The whole-map diff records the edit between two maps, and is empty exactly when they are equal |
| Editor.EditLayer | crates/tilemap_editor/src/editor/world/tools/paint.rs:109 | At most the active layer, below the layer count whenever the map has a layer, and the active layer itself when it exists |
| Editor.RectCellsOf | crates/tilemap_editor/src/editor/world/context_menu.rs:83-87 | One value per rectangle cell, each the cell at that row-major position on the layer |
| Editor.IndexableRaw | crates/tilemap_core/src/lib.rs:65-69 | A rectangle is indexable exactly when every row-major cell's raw index, wrapped rows and layers included, lies inside the tiles; one on the map always is |
| Editor.RectIndicesOnMap | crates/tilemap_core/src/lib.rs:65-69 | On the map, the loops over a rectangle visit a cell exactly when it lies in the rectangle on the layer: no wrapped cell of another row or layer |
| Editor.RectWritesTargets | crates/tilemap_editor/src/editor/world/tools/rect.rs:184-186 | Rectangle writes hit distinct cells, and a cell is hit exactly when it lies in the rectangle on the layer |
| Editor.RectIdxInjective | crates/tilemap_editor/src/editor/world/context_menu.rs:105-108 | Different row-major offsets of a rectangle name different map cells |
| Editor.RectBlindWrite | crates/tilemap_editor/src/editor/world/tools/rect.rs:182-211 | Blind-writing a rectangle records the edit faithfully; every cell of the rectangle takes its value and the rest of the map is unchanged |
| BlockMove.MoveWritesTargets | crates/tilemap_editor/src/editor/world/selection_move.rs:308-334 | The write-back hits exactly the edit-layer cells of the new rectangle, and of the old one in move mode, each with what the block lays there |
| BlockMove.MoveWrites | crates/tilemap_editor/src/editor/world/selection_move.rs:308-334 | Even for rectangles off the map, the writes stay inside the tiles and hit exactly the indices of the new rectangle, and of the old one in move mode |
| BlockMove.MoveWritesFrame | crates/tilemap_editor/src/editor/world/selection_move.rs:284-353 | On any indexable rectangles the first-write-wins write-back is recorded faithfully and leaves every index outside both rectangles alone |
| BlockMove.MoveWritesEffect | crates/tilemap_editor/src/editor/world/selection_move.rs:284-353 | The first-write-wins write-back is recorded faithfully and leaves every cell as `Placed` says |
| Selection.Width | crates/tilemap_editor/src/editor/types/selection.rs:13-16 | `max - min + 1` for ordered corners and 1 for reversed ones (saturating), so never below 1 |
| Selection.Height | crates/tilemap_editor/src/editor/types/selection.rs:17-19 | `max - min + 1` for ordered corners and 1 for reversed ones (saturating), so never below 1 |
| Selection.RectFromTwo | crates/tilemap_editor/src/editor/world.rs:309-314 | The rectangle is ordered, holds both points, and takes each corner coordinate from one of them |
| Selection.RectFromTwoSmallest | crates/tilemap_editor/src/editor/world.rs:309-314 | The bounding box does not depend on the order of the points and lies inside every ordered rectangle holding both |
| Selection.ClampI32 | crates/tilemap_editor/src/editor/world/selection_move.rs:60-62 | Inside `lo..=hi` when that range is not empty, `v` itself when `v` already is, and otherwise one of the bounds |
| Selection.RectShift | crates/tilemap_editor/src/editor/world/selection_move.rs:64-73 | When the shifted corners stay in `u32` range, the result is ordered, its corner moved by the offset and its size kept |
| Selection.RowMajorBijection | crates/tilemap_editor/src/editor/world/context_menu.rs:83-87 | Row-major offsets and rectangle cells correspond one to one |
| SelectionBox.SelectWithMouse | crates/tilemap_editor/src/editor/world/selection_box.rs:9-89 | A blocked frame changes nothing; a press starts a one-cell box at the cursor; a release leaves the box spanned by the start and current cells; the tool switches to Select only when Alt starts a drag |
| SelectionBox.SelectWithMouseOnMap | crates/tilemap_editor/src/editor/world/selection_box.rs:9-89 | With the cursor on the map, box selection keeps the selection on the map |
| SelectionBox.BoxDragSelects | crates/tilemap_editor/src/editor/world/selection_box.rs:9-89 | Press at `a`, drag to `b`, release: the selection is the smallest rectangle holding both |
| SelectionMove.ClampedOffset | crates/tilemap_editor/src/editor/world/selection_move.rs:199-230 | The offset keeps the picked-up block on the map and equals the cursor offset when that already does |
| SelectionMove.AxisLanding | crates/tilemap_editor/src/editor/world/selection_move.rs:216-225 | On one axis, a block that fits lands inside the map with its length kept; a longer block on a non-empty axis ends at the map's edge with its start wrapped past its end |
| SelectionMove.Landed | crates/tilemap_editor/src/editor/world/selection_move.rs:216-225 | When the block fits the map, the picked-up rectangle shifted by the clamped offset, on the map and the same size; a block wider or taller than a non-empty map lands with its corners out of order and its maximum corner on the map |
| SelectionMove.SelectionMoveWithMouse | crates/tilemap_editor/src/editor/world/selection_move.rs:79-362 | Panics only when the press reads or the release writes past the tiles; a press panics exactly when its block read does, and a release of an active drag exactly when its drop does; with the selection and any drag on the map it never panics and keeps both there; otherwise an undoable edit that keeps the drag buffer matched to its block; a blocked frame drops any drag and changes nothing else; the map changes only on a release, which ends the drag; copy mode is fixed by Ctrl at the press |
| SelectionMove.PickUp | crates/tilemap_editor/src/editor/world/selection_move.rs:171-198 | Panics exactly when a cell of the selection indexes past the tiles; otherwise an active drag from the press cell, in copy mode exactly when Ctrl is held, buffering every cell of the block |
| SelectionMove.Follow | crates/tilemap_editor/src/editor/world/selection_move.rs:204-276 | While the button is held the drag follows the cursor and nothing else changes; a release commits, panicking exactly when the drop reaches past the tiles; on the map it never panics |
| SelectionMove.CommitDrag | crates/tilemap_editor/src/editor/world/selection_move.rs:272-353 | Panics exactly when the old block (move mode) or the landed rectangle indexes past the tiles; otherwise an undoable edit that ends the drag, selects the landed rectangle and changes no index outside the two rectangles; a landing out of order only empties the old block; on the map every cell ends as `Placed` says |
| SelectionMove.DropEffect | crates/tilemap_editor/src/editor/world/selection_move.rs:284-335 | The drop's write-back is recorded faithfully even off the map; a landing rectangle out of order writes nothing, so only the old block is emptied, in move mode |
| SelectionMove.DropOnMap | crates/tilemap_editor/src/editor/world/selection_move.rs:284-335 | A block on the map lands on the map, never panics, and its writes are the block move's, leaving every cell as `Placed` says |
| SelectionMove.PickedBlockTranslates | crates/tilemap_editor/src/editor/world/selection_move.rs:188-198 | A landed cell receives the old cell the same distance from the old corner |
| SelectionMove.PlacedPickedBlock | crates/tilemap_editor/src/editor/world/selection_move.rs:284-353 | After the drop the landed rectangle holds the translated block, the rest of the old block is empty in move mode, and all else is unchanged |
| SelectionMove.DragUndoRestores | crates/tilemap_editor/src/editor/world/selection_move.rs:284-353 | A drag that changed the map is taken back by one undo and re-applied by redo |
| Orientation.RotMatCw | crates/tilemap_editor/src/editor/world/selection_transform.rs:19-26 | The rotation matrix has entries -1, 0 or 1; `QuarterTurnAdvances` says which turn it is |
| Orientation.FlipMat | crates/tilemap_editor/src/editor/world/selection_transform.rs:28-32 | The mirror matrix has entries -1, 0 or 1; `OrientationIsProduct` says how it combines with the rotation |
| Orientation.OrientationIsProduct | crates/tilemap_editor/src/editor/world/selection_transform.rs:34-38 | The closed-form orientation matrix is the product of the rotation and the mirror matrix |
| Orientation.QuarterTurnAdvances | crates/tilemap_editor/src/editor/world/selection_transform.rs:19-26 | For `k < 4`, one clockwise quarter turn after `k` turns is `k + 1` turns |
| Orientation.MatToTileOrientationCanonical | crates/tilemap_editor/src/editor/world/selection_transform.rs:40-51 | The search finds every orientation matrix and returns exactly its canonical (rot, flip_x, flip_y) |
| Orientation.CanonicalSameMatrix | crates/tilemap_editor/src/editor/world/selection_transform.rs:40-51 | The canonical representative denotes the same matrix and is a fixed point |
| Orientation.NotFoundIsNoOrientation | crates/tilemap_editor/src/editor/world/selection_transform.rs:40-51 | A matrix the search rejects is no tile orientation |
| Orientation.ActMatrix | crates/tilemap_editor/src/editor/world/selection_transform.rs:53-61 | Multiplying an orientation matrix by a group element on the left is the orientation `Act` gives, so orientations are closed |
| Orientation.ApplyGroupTransformExact | crates/tilemap_editor/src/editor/world/selection_transform.rs:53-61 | The tile takes the canonical form of the acted-on orientation; tileset and index are kept |
| Orientation.ApplyGroupTransformMatrix | crates/tilemap_editor/src/editor/world/selection_transform.rs:53-61 | The new orientation matrix is the group matrix times the old one |
| Orientation.TurnBackRestores | crates/tilemap_editor/src/editor/world/selection_transform.rs:53-61 | A clockwise then a counter-clockwise turn leaves every tile with its orientation matrix, in canonical form |
| Orientation.MirrorTwiceRestores | crates/tilemap_editor/src/editor/world/selection_transform.rs:53-61 | Mirroring the same axis twice leaves every tile with its orientation matrix, in canonical form |
| SelectionTransform.MappingBijection | crates/tilemap_editor/src/editor/world/selection_transform.rs:63-79 | Each mapping is a bijection from the block onto the transformed block, undone by `Unmapping` |
| SelectionTransform.MappingInverses | crates/tilemap_editor/src/editor/world/selection_transform.rs:63-79 | The clockwise and counter-clockwise mappings undo each other, and each mirror mapping is an involution |
| SelectionTransform.SourceDest | crates/tilemap_editor/src/editor/world/selection_transform.rs:137-160 | Source and destination cells correspond one to one between the old and new rectangle |
| SelectionTransform.DstScatter | crates/tilemap_editor/src/editor/world/selection_transform.rs:137-160 | The `dst` buffer is the scatter of the transformed source tiles to their images |
| SelectionTransform.DstCovered | crates/tilemap_editor/src/editor/world/selection_transform.rs:137-160 | Every slot of `dst` is filled by one source cell |
| SelectionTransform.ReadBlock | crates/tilemap_editor/src/editor/world/selection_transform.rs:91-124 | The block the source reads is ordered, starts at the selection's minimum corner with its saturating size, and is the selection itself when its corners are in order |
| SelectionTransform.TransformWrites | crates/tilemap_editor/src/editor/world/selection_transform.rs:162-201 | The writes stay inside the tiles and hit exactly the new rectangle's indices, and the old one's when its corners are in order |
| SelectionTransform.ApplySelectionTransform | crates/tilemap_editor/src/editor/world/selection_transform.rs:81-229 | Panics exactly when the transform fits but the block read reaches past the tiles, never for a selection on the map; otherwise handled exactly when there is a selection, the transformed block fits and the action is a transform; unhandled changes nothing; handled moves the selection onto the turned block and changes no index outside the two rectangles; always an undoable edit |
| SelectionTransform.ApplySelectionTransformCells | crates/tilemap_editor/src/editor/world/selection_transform.rs:164-221 | Every new-rectangle cell holds its source tile transformed; old cells outside are emptied; nothing else changes |
| SelectionTransform.ResetClearsOrientation | crates/tilemap_editor/src/editor/world/selection_transform.rs:81-229 | The reset keeps every tile in place and clears its orientation |
| SelectionTransform.TurnMovesTile | crates/tilemap_editor/src/editor/world/selection_transform.rs:81-229 | A quarter turn moves each tile to its image and turns its matrix the same way |
| PasteHelpers.CheckedSub | crates/tilemap_editor/src/editor/world/paste_helpers.rs:22-65 | The difference when it is not negative, else none |
| PasteHelpers.PasteDims | crates/tilemap_editor/src/editor/world/paste_helpers.rs:6-17 | The pasted block has as many cells as the clipboard; it is (0, 0) for an empty clipboard and has both sides positive otherwise |
| PasteHelpers.PasteDst | crates/tilemap_editor/src/editor/world/paste_helpers.rs:22-65 | A landing offset exists exactly for a cell of a non-empty clipboard, and lies inside the pasted block |
| PasteHelpers.PasteBijection | crates/tilemap_editor/src/editor/world/paste_helpers.rs:22-65 | Distinct clipboard cells land on distinct offsets, and every offset of the block is hit |
| PasteHelpers.PasteSrcDst | crates/tilemap_editor/src/editor/world/paste_helpers.rs:22-65 | `PasteSrc` undoes `PasteDst` on every clipboard cell |
| PasteHelpers.PasteDstOrientation | crates/tilemap_editor/src/editor/world/paste_helpers.rs:22-65 | Only `rot % 4` matters, and the untransformed paste is the identity |
| PasteApply.HitSourceOf | crates/tilemap_editor/src/editor/world/paste_apply.rs:113-130 | A clipboard cell lands on a map index exactly when that index is its landing cell on the edit layer |
| PasteApply.PasteWrites | crates/tilemap_editor/src/editor/world/paste_apply.rs:113-160 | The clipped writes hit distinct cells, exactly the edit-layer cells some clipboard cell lands on, each with that cell |
| PasteApply.PasteWritesEffect | crates/tilemap_editor/src/editor/world/paste_apply.rs:104-210 | The stamp is recorded faithfully; covered cells hold their clipboard cell and the rest of the map is unchanged |
| PasteApply.PasteStep | crates/tilemap_editor/src/editor/world/paste_apply.rs:33-218 | Only the tiles change; a frame failing a guard changes nothing; the tool stays or returns to the remembered one |
| PasteApply.PasteStepEffect | crates/tilemap_editor/src/editor/world/paste_apply.rs:162-218 | Every click is an undoable edit; the tool returns to the remembered one exactly when the map changed |
| PasteTransform.ShortcutAction | crates/tilemap_editor/src/editor/world/paste_transform.rs:35-44 | Q, E, H, V in that priority, at most one per frame |
| PasteTransform.AdjustedInverses | crates/tilemap_editor/src/editor/world/paste_transform.rs:15-162 | The two quarter turns undo each other, four turns are the identity, and each mirror is an involution |
| PasteTransform.PasteTransformShortcuts | crates/tilemap_editor/src/editor/world/paste_transform.rs:15-162 | Panics exactly when a key outside Paste reaches a selection transform that panics, never with the selection on the map; with Ctrl or no key nothing happens; in Paste the key adjusts the paste transform; every other frame is an undoable edit; outside Paste the preset changes only with a clipboard and no edit |
| PasteTransform.ActOutsidePaste | crates/tilemap_editor/src/editor/world/paste_transform.rs:60-160 | Panics exactly when the selection transform is tried, fits and reads a stale block past the tiles |
| PasteTransform.ActOutsideEffect | crates/tilemap_editor/src/editor/world/paste_transform.rs:60-160 | Outside Paste the first step that applies wins; with the selection on the map it never panics, and the map changes only by an undoable edit |
| PasteTransform.ApplyContextMenuPasteAction | crates/tilemap_editor/src/editor/world/paste_transform.rs:164-257 | Always an undoable edit; in Paste the entries adjust the transform and Reset restores the default; Exit Paste only restores the tool; other entries change nothing |
| PasteTransform.ContextMenuFallback | crates/tilemap_editor/src/editor/world/paste_transform.rs:164-257 | A reset with no tile to reset restores the default transform whatever the clipboard holds; the other entries fall back only with a clipboard |
| SingleTile.EditAlgebra | crates/tilemap_editor/src/editor/world.rs:154-261 | The two rotations undo each other, four clockwise turns are the identity, mirrors are involutions and reset is idempotent |
| SingleTile.TryEditSingleTile | crates/tilemap_editor/src/editor/world.rs:100-152 | A failed edit changes neither the map nor the undo stack; `TryEditSingleTileEffect` says when it succeeds |
| SingleTile.TryEditSingleTileEffect | crates/tilemap_editor/src/editor/world.rs:100-152 | Succeeds exactly when the cursor cell has a tile the edit changes; then only that tile changes, recorded as one change |
| Paint.RecordChange | crates/tilemap_editor/src/editor/world/tools/paint.rs:172-178 | A new index gets (before, after); a known one keeps its first before and takes the new after; other entries are kept |
| Paint.Begin | crates/tilemap_editor/src/editor/world/tools/paint.rs:166-171 | The stroke is active with no changes |
| Paint.TakeCommand | crates/tilemap_editor/src/editor/world/tools/paint.rs:179-188 | The effective changes sorted by index, as a permutation; the accumulator empties |
| Paint.TakeCommandRecords | crates/tilemap_editor/src/editor/world/tools/paint.rs:179-188 | A stroke that faithfully recorded its edit yields a faithful command |
| Paint.PaintStep | crates/tilemap_editor/src/editor/world/tools/paint.rs:15-147 | A disabled frame changes nothing; a release pushes the stroke's command and ends the stroke; otherwise only the cursor cell on the edit layer may change, to the tool's tile while the button is down |
| Paint.StrayPaintNotUndoable | crates/tilemap_editor/src/editor/world/tools/paint.rs:69-141 | With no stroke begun, holding the button over a 1 x 1 map holding a tile erases it; the release pushes nothing, so undo leaves the cell empty |
| Paint.PaintStepCorrected | crates/tilemap_editor/src/editor/world/tools/paint.rs:95-141 | A frame with no stroke active, and none begun by its press, changes nothing; otherwise it is the source's step |
| Paint.PaintStepCorrectedUndoable | crates/tilemap_editor/src/editor/world/tools/paint.rs:69-141 | With the corrected step the stroke invariant holds in every frame: between strokes nothing is pending, undo changes only on a release, and a release is an undoable edit of the whole stroke |
| Paint.PaintStepKeepsStroke | crates/tilemap_editor/src/editor/world/tools/paint.rs:15-147 | The stroke's changes always faithfully record the edit since the stroke began, and a release is an undoable edit |
| RectTool.RectStep | crates/tilemap_editor/src/editor/world/tools/rect.rs:51-213 | Any drag, including one left over from before a resize, is accepted; a drag on the map stays there; a cancelling guard drops it; the map changes only on a release, after which no drag is active |
| RectTool.RectStepEffect | crates/tilemap_editor/src/editor/world/tools/rect.rs:51-213 | Every frame is an undoable edit; a release sets every in-range index the box's loops visit, wrapped or not, to the desired value and leaves every other index alone, skipping indices past the tiles; with the drag on the map that is exactly the box on the edit layer |
| RectTool.StaleDragWrapsToNextLayer | crates/tilemap_editor/src/editor/world/tools/rect.rs:182-209 | A drag at (3, 0) kept across a resize to 2 x 1 with two layers: released on layer 0 it fills cell (1, 0) of layer 1; on layer 1 its index lies past the tiles and nothing changes |
| Fill.FloodFill | crates/tilemap_editor/src/editor/world/tools/fill.rs:102-186 | The result records the edit faithfully, and exactly the cells of the start cell's 4-connected region on the layer hold the new value |
| Fill.FilledIsRegion | crates/tilemap_editor/src/editor/world/tools/fill.rs:102-166 | The cells the search fills are exactly the region |
| Fill.FillStep | crates/tilemap_editor/src/editor/world/tools/fill.rs:18-187 | A firing click replaces the region and pushes one command; every other frame changes nothing |
| Eyedropper.EyedropperHoldShortcut | crates/tilemap_editor/src/editor/world/eyedropper.rs:9-34 | A focused field blocks it; pressing I saves the current tool unless one is saved and selects the Eyedropper; releasing forgets the saved tool and restores it only if the Eyedropper is still active |
| Eyedropper.HoldThenReleaseRestores | crates/tilemap_editor/src/editor/world/eyedropper.rs:9-34 | Hold and release gives back the earlier tool; a tool picked by hand meanwhile is kept |
| Eyedropper.RepressKeepsFirstTool | crates/tilemap_editor/src/editor/world/eyedropper.rs:19-24 | A second press without a release keeps the first saved tool |
| Eyedropper.EyedropperWithMouse | crates/tilemap_editor/src/editor/world/eyedropper.rs:37-105 | A blocked click or an empty cell changes nothing; otherwise the topmost tile's index becomes the selected tile, its tileset the active one and its entry's category the shown one; entries are kept |
| Eyedropper.PickThenPencil | crates/tilemap_editor/src/editor/world/eyedropper.rs:90-104 | The eyedropper picks exactly the tile the Pencil then paints, orientation aside |
| Eyedropper.PickActiveKnown | crates/tilemap_editor/src/editor/world/eyedropper.rs:97-104 | The library's entries are kept; the active id names an entry exactly when the sampled tileset is known |
| ShiftMap.ShiftDelta | crates/tilemap_editor/src/editor/world/shift_map.rs:32-44 | No step exactly when no arrow is tapped; otherwise a unit step along one axis, and left wins over the other arrows |
| ShiftMap.DestSource | crates/tilemap_editor/src/editor/world/shift_map.rs:62-85 | A cell moves to `d` exactly when it is the source of `d`, so no destination is written twice |
| ShiftMap.ShiftBlankCells | crates/tilemap_editor/src/editor/world/shift_map.rs:65-73 | Blank mode: each cell takes the old value one step back, or empty off the map |
| ShiftMap.ShiftWrapCells | crates/tilemap_editor/src/editor/world/shift_map.rs:74-78 | Wrap mode: each cell takes the wrapped old value one step back |
| ShiftMap.ShiftMoves | crates/tilemap_editor/src/editor/world/shift_map.rs:59-85 | Each old cell is copied to its destination, and cells nothing moves to are empty |
| ShiftMap.WrapInverse | crates/tilemap_editor/src/editor/world/shift_map.rs:74-78 | The opposite wrap shift undoes a wrap shift |
| ShiftMap.ShiftStep | crates/tilemap_editor/src/editor/world/shift_map.rs:11-104 | Always an undoable edit; a firing frame sets the tiles to the shifted tiles; other frames change nothing |
| Shortcuts.TileCount | crates/tilemap_editor/src/editor/world/shortcuts.rs:23-36 | Columns times rows of the loaded atlas, saturating, 1 when nothing is loaded; never 0 |
| Shortcuts.StepTile | crates/tilemap_editor/src/editor/world/shortcuts.rs:23-36 | `[` steps one tile back, stopping at 0; `]` one forward, stopping at the last tile |
| Shortcuts.StepTileInverse | crates/tilemap_editor/src/editor/world/shortcuts.rs:23-36 | `]` then `[` and `[` then `]` come back away from the ends |
| Shortcuts.ClearChangesIsDiff | crates/tilemap_editor/src/editor/world/shortcuts.rs:39-53 | The changes R records are the diff between the map and an empty map |
| Shortcuts.ClearMap | crates/tilemap_editor/src/editor/world/shortcuts.rs:39-53 | Every cell becomes empty, recorded as one command |
| Shortcuts.KeyboardShortcuts | crates/tilemap_editor/src/editor/world/shortcuts.rs:12-57 | Always an undoable edit; nothing happens while a field has focus; otherwise `[` and `]` step the tile, and R with a map empties every cell |
| Shortcuts.KeyboardShortcutsAsWritten | crates/tilemap_editor/src/editor/world/shortcuts.rs:12-57 | Always an undoable edit; `[` and `]` step the tile and R with a map empties every cell, whether or not a text field has focus |
| Shortcuts.ClearUndoRestores | crates/tilemap_editor/src/editor/world/shortcuts.rs:39-53 | Clearing a map with a tile is taken back by one undo |
| Shortcuts.TypingRClearsMap | crates/tilemap_editor/src/editor/world/shortcuts.rs:12-57 | R typed into the focused layer-name field clears the map as written, and does nothing with the focus check |
| Shortcuts.DigitToolInjective | crates/tilemap_editor/src/editor/world/shortcuts.rs:85-97 | Different digits select different tools |
| Shortcuts.ToolShortcuts | crates/tilemap_editor/src/editor/world/shortcuts.rs:60-98 | A focused field blocks the keys; Shift with 1 to 3 sets the brush size; otherwise the lowest digit 1 to 6 selects a tool |
| Shortcuts.SingleDigitSelects | crates/tilemap_editor/src/editor/world/shortcuts.rs:85-97 | A single digit without Shift selects exactly its tool |
| Layers.LayerShortcuts | crates/tilemap_editor/src/editor/world/layers.rs:6-38 | Nothing while typing or without layers; otherwise a layer of the map: the clamped active layer, one down with PageDown, one up with PageUp, 0 or 1 with L |
| Layers.PageUpDownInverse | crates/tilemap_editor/src/editor/world/layers.rs:29-34 | PageUp then PageDown, and PageDown then PageUp, come back away from the ends |
| Layers.ToggleTwice | crates/tilemap_editor/src/editor/world/layers.rs:35-37 | L twice switches between layers 0 and 1 and back |
| Layers.LayerPrev | crates/tilemap_editor/src/editor/ui/layers.rs:56-64 | One layer down, stopping at 0 |
| Layers.LayerNext | crates/tilemap_editor/src/editor/ui/layers.rs:77-83 | One layer up, stopping at the top layer |
| Layers.NextThenPrev | crates/tilemap_editor/src/editor/ui/layers.rs:56-83 | Next then previous is the identity below the top layer |
| Layers.ToggleVisible | crates/tilemap_editor/src/editor/ui/layers.rs:99-109 | Without a map nothing; otherwise the active layer is clamped, the tiles only grow to one layer, and only the active entry changes, its visibility flipped |
| Layers.ToggleLocked | crates/tilemap_editor/src/editor/ui/layers.rs:136-145 | Without a map nothing; otherwise the active layer is clamped, the tiles only grow to one layer, and only the active entry changes, its lock flipped |
| Layers.ToggleTwiceRestores | crates/tilemap_editor/src/editor/ui/layers.rs:99-145 | Pressing a toggle twice restores the map |
| Layers.LabelClamp | crates/tilemap_editor/src/editor/ui/layers.rs:216-219 | An active layer past the top becomes the top layer; others are kept |
| Layers.NameFromBuffer | crates/tilemap_editor/src/editor/ui/layers.rs:474-496 | The trimmed text, or "Layer n" when blank; never empty and never starting or ending in whitespace |
| Layers.ApplyLayerNameChange | crates/tilemap_editor/src/editor/ui/layers.rs:469-497 | The request is consumed; with a map only the active layer's name changes |
| Layers.SyncLayerNameInput | crates/tilemap_editor/src/editor/ui/layers.rs:421-448 | While focused nothing changes; otherwise the field shows the clamped active layer's name, "Layer" without an entry, and nothing without a map |
| Layers.ApplyThenSync | crates/tilemap_editor/src/editor/ui/layers.rs:421-497 | Applying then syncing shows the stored name: the typed text trimmed, or "Layer n" when blank |
| Layers.SyncThenApplyStable | crates/tilemap_editor/src/editor/ui/layers.rs:421-497 | Applying the mirrored, already trimmed name changes nothing |
| Resize.ResizedMapCopy | crates/tilemap_editor/src/editor/ui/util.rs:10-53 | A valid map of the new size with the default layer count and default layer data |
| Resize.ResizedCells | crates/tilemap_editor/src/editor/ui/util.rs:10-53 | Without an old map it is a new map; otherwise a cell of a copied layer inside both sizes keeps its old value and every other cell is empty |
| MapSize.WidgetPressed | crates/tilemap_editor/src/editor/ui/map_size.rs:15-105 | A press focuses its field or requests an apply; nothing else changes |
| MapSize.TextInput | crates/tilemap_editor/src/editor/ui/map_size.rs:107-163 | Without focus nothing happens; otherwise digits and Backspace edit the focused buffer, Escape drops focus, Enter requests an apply |
| MapSize.TypingKeepsBuffersShort | crates/tilemap_editor/src/editor/ui/map_size.rs:143-149 | However long the typing, each buffer holds at most five digits |
| MapSize.TypeOneDigit | crates/tilemap_editor/src/editor/ui/map_size.rs:143-149 | Typing a digit into a short focused buffer appends it |
| MapSize.TypeThenBackspace | crates/tilemap_editor/src/editor/ui/map_size.rs:143-162 | Backspace right after a digit takes it back |
| MapSize.SyncFromConfig | crates/tilemap_editor/src/editor/ui/map_size.rs:165-179 | Without focus both buffers show the configured size |
| MapSize.RequestedSize | crates/tilemap_editor/src/editor/ui/map_size.rs:215-228 | Both buffers parse as `u32` and neither is zero |
| MapSize.ApplyMapSize | crates/tilemap_editor/src/editor/ui/map_size.rs:205-247 | The request is consumed; a valid size resizes the map, records the size and clears undo; an invalid one changes nothing else |
| MapSize.ShortBufferParses | crates/tilemap_editor/src/editor/ui/map_size.rs:215-228 | A non-empty buffer of at most five digits always parses |
| MapSize.ApplySyncedKeepsSize | crates/tilemap_editor/src/editor/ui/map_size.rs:165-247 | Applying right after a sync keeps the configured size |
| MapSize.EnterAppliesTypedWidth | crates/tilemap_editor/src/editor/ui/map_size.rs:107-247 | A typed non-zero width applied with Enter becomes the configured width, next to the height buffer's value; the focus is dropped and the request consumed |
| MapSize.EscapeDiscards | crates/tilemap_editor/src/editor/ui/map_size.rs:151-179 | Escape drops focus without applying, and the next sync restores the configured size |
| StaleSelection.ShrinkThenDeletePanics | crates/tilemap_editor/src/editor/ui/map_size.rs:205-247 | A 4 x 1 map with cells 2..3 selected, resized to 2 x 1: the selection survives, no longer fits, and deleting it on layer 1 panics |
| StaleSelection.ApplyMapSizeKeepingSelection | crates/tilemap_editor/src/editor/ui/map_size.rs:205-247 | The apply as written, keeping the selection when it still fits and dropping it otherwise, so the selection always lies inside the map |
| StaleSelection.KeepingSelectionNeverPanics | crates/tilemap_editor/src/editor/ui/map_size.rs:205-247 | After the corrected apply, copying, cutting or deleting the selection on any layer never panics |
| ContextMenu.CopySelectionToClipboard | crates/tilemap_editor/src/editor/world/context_menu.rs:74-92 | Panics exactly when an ordered rectangle has a cell indexing past the tiles; otherwise the clipboard takes the rectangle's size and its cells on the layer row-major, and nothing for corners out of order |
| ContextMenu.ClearSelectionToNone | crates/tilemap_editor/src/editor/world/context_menu.rs:94-137 | Panics exactly when an ordered rectangle has a cell indexing past the tiles; otherwise an undoable edit that empties exactly the rectangle's indices, and on the map exactly its cells on the layer |
| ContextMenu.ClearRecordsNonEmptyCells | crates/tilemap_editor/src/editor/world/context_menu.rs:94-137 | The map changes exactly when a cell held a tile, and the command holds exactly those cells |
| ContextMenu.EnterPasteTools | crates/tilemap_editor/src/editor/world/context_menu.rs:199-214 | An empty clipboard is ignored; otherwise Paste becomes the tool and the earlier tool is remembered unless it was Paste |
| ContextMenu.EnterThenExitPaste | crates/tilemap_editor/src/editor/world/context_menu.rs:199-214 | Entering paste and leaving again returns to the earlier tool |
| ContextMenu.SelectionEntry | crates/tilemap_editor/src/editor/world/context_menu.rs:215-275 | Panics exactly when the selection's loops reach past the tiles; otherwise an undoable edit that keeps the selection and selects the Select tool; Copy and Cut put the rectangle's cells in the clipboard, Cut and Delete empty them, Copy leaves the map and Delete the clipboard alone |
| ContextMenu.EditorEntry | crates/tilemap_editor/src/editor/world/context_menu.rs:158-299 | Panics exactly when Copy, Cut or Delete reaches past the tiles; Undo and Redo are the undo and redo steps; Enter Paste, Deselect and Select All set the tools and selection; the selection entries are `SelectionEntry` on the edit layer |
| ContextMenu.ApplyContextMenuCommand | crates/tilemap_editor/src/editor/world/context_menu.rs:139-321 | Panics exactly when a selection entry reaches past the tiles; no entry: nothing; Undo and Redo are the undo and redo steps; Deselect drops the selection and selects the Select tool; Select All selects the whole map; Copy never edits; the paste entries are `apply_context_menu_paste_action`; otherwise the map changes only by an undoable edit, an undo or a redo |
| ContextMenu.MenuUndoMatchesKeys | crates/tilemap_editor/src/editor/world/context_menu.rs:159-198 | The Undo and Redo entries do what Ctrl+Z and Ctrl+Y do |
| ContextMenu.CutMovesToClipboard | crates/tilemap_editor/src/editor/world/context_menu.rs:227-251 | Cut leaves the old cells in the clipboard, empties them, keeps every other cell, and one undo brings them back |
| ContextMenu.ContextMenuOpenClose | crates/tilemap_editor/src/editor/world/context_menu.rs:14-72 | Escape closes an open menu and swallows the next click; otherwise a right press over the canvas opens a fresh menu at the cursor cell; any other change is one of these two |
| ContextMenu.ClearConsumption | crates/tilemap_editor/src/editor/world/context_menu.rs:323-330 | The swallowed click ends once the left button is up |
| ContextMenu.EscapeSwallowsOneClick | crates/tilemap_editor/src/editor/world/context_menu.rs:14-72 | Closing with Escape blocks the tools until the left button is up, and no longer after |
| SelectionShortcuts.CopyPasteShortcuts | crates/tilemap_editor/src/editor/world/selection_shortcuts.rs:12-74 | A focused field or no key: nothing; Escape leaves Paste; Ctrl+C copies the selection's cells when there are a map and a selection, and panics exactly when that copy does; Ctrl+V then enters paste |
| SelectionShortcuts.CopyPasteThenEscape | crates/tilemap_editor/src/editor/world/selection_shortcuts.rs:12-74 | Ctrl+C+V copies and enters paste; a later Escape returns to the earlier tool |
| SelectionShortcuts.CutDeleteShortcuts | crates/tilemap_editor/src/editor/world/selection_shortcuts.rs:77-169 | Panics exactly when the clear reaches past the tiles; otherwise always an undoable edit; when active the selection's indices on the edit layer become empty and Ctrl+X also copies them to the clipboard; otherwise nothing changes |
| SelectionShortcuts.CutDeleteMatchesMenu | crates/tilemap_editor/src/editor/world/selection_shortcuts.rs:77-169 | Ctrl+X and Delete panic exactly when the menu's Cut and Delete do, and otherwise do what they do |
| SelectionShortcuts.SelectAllCancelShortcuts | crates/tilemap_editor/src/editor/world/selection_shortcuts.rs:172-214 | Ctrl+D drops the selection and turns Paste into Select; Ctrl+A selects exactly the map's cells and switches to Select; otherwise nothing |
| SelectionShortcuts.SelectAllCancelMatchesMenu | crates/tilemap_editor/src/editor/world/selection_shortcuts.rs:172-214 | Ctrl+A matches the Select All entry, and Ctrl+D leaves the Deselect entry's selection |
| SelectionShortcuts.AltTarget | crates/tilemap_editor/src/editor/world/selection_shortcuts.rs:266-282 | The shifted selection exactly when every corner, read as `i32` and shifted, stays on the map; for an ordered selection in `i32` range it lies on the map with the same size |
| SelectionShortcuts.AltDest | crates/tilemap_editor/src/editor/world/selection_shortcuts.rs:298-328 | The block the write pass covers: ordered, at the target's minimum corner with the selection's size, and the target itself when both are ordered with the same size |
| SelectionShortcuts.AltMoveOnMap | crates/tilemap_editor/src/editor/world/selection_shortcuts.rs:266-328 | For a selection on the map the target lies on the map, the write pass covers exactly the target and the move never panics |
| SelectionShortcuts.MoveSelectionShortcutsAsWritten | crates/tilemap_editor/src/editor/world/selection_shortcuts.rs:217-355 | Panics exactly where the source does: a selection out of order, or a read or write past the tiles; otherwise no index outside the two rectangles changes, on the map the cells end as the block move places them, and the selection follows a change; the cells and the pushed command are those of blind-writing the clear pass and then the block pass, all changes in one command |
| SelectionShortcuts.AsWrittenCells | crates/tilemap_editor/src/editor/world/selection_shortcuts.rs:298-328 | The cells the source leaves are the right ones: those the block move places |
| SelectionShortcuts.AsWrittenUndoLosesTile | crates/tilemap_editor/src/editor/world/selection_shortcuts.rs:298-328 | Shifting [T, T, _] right records cell 1 twice, and undoing it leaves cell 1 empty |
| SelectionShortcuts.MoveSelectionShortcuts | crates/tilemap_editor/src/editor/world/selection_shortcuts.rs:217-355 | Panics exactly where the source's move does; otherwise the block moves one cell as one faithfully recorded command, no index outside the two rectangles changes, and the selection follows a change |
| SelectionShortcuts.MoveSelectionShortcutsCorrects | crates/tilemap_editor/src/editor/world/selection_shortcuts.rs:298-328 | The corrected move leaves the same map as the source's, and one undo restores it |
| TilesetLibrary.FillBlanks | crates/tilemap_editor/src/editor/tileset/library.rs:65-79 | Keeps the id and every non-blank field, leaves nothing `x` could still fill, and takes each field from one of the two entries |
| TilesetLibrary.FillBlanksIdempotent | crates/tilemap_editor/src/editor/tileset/library.rs:65-79 | Filling twice from the same entry changes nothing the second time |
| TilesetLibrary.MergeTilesets | crates/tilemap_editor/src/editor/tileset/library.rs:54-94 | Known ids only fill blanks, new ids are appended in order, blank ids are skipped, ids stay unique, and the first accepted id becomes active only when none is |
| TilesetLibrary.MergeSaturates | crates/tilemap_editor/src/editor/tileset/library.rs:54-94 | Every accepted incoming entry is settled in the result |
| TilesetLibrary.MergeIdempotent | crates/tilemap_editor/src/editor/tileset/library.rs:54-94 | Merging the same tilesets twice: the second merge changes nothing |
| TilesetLibrary.MergeKeepsActiveKnown | crates/tilemap_editor/src/editor/tileset/library.rs:82-84 | The active id keeps naming a library entry |
| TilesetLibrary.DefaultActive | crates/tilemap_editor/src/editor/tileset/library.rs:40-42 | Without an active tileset the first entry becomes active; an empty library stays without |
| TilesetMenu.Categories | crates/tilemap_editor/src/editor/ui/tileset_menu.rs:107-114 | Strictly sorted, and holding exactly the non-blank trimmed categories |
| TilesetMenu.SortedUnique | crates/tilemap_editor/src/editor/ui/tileset_menu.rs:107-114 | Two strictly sorted lists with the same elements are equal |
| TilesetMenu.NextCategory | crates/tilemap_editor/src/editor/ui/tileset_menu.rs:116-128 | The first category from "", the next from a listed one, "" after the last or from an unlisted one |
| TilesetMenu.CycleVisitsEach | crates/tilemap_editor/src/editor/ui/tileset_menu.rs:116-128 | Clicks from "" visit each category once in sorted order |
| TilesetMenu.CycleReturnsToAll | crates/tilemap_editor/src/editor/ui/tileset_menu.rs:116-128 | One click after the last category shows all tilesets again |
| TilesetMenu.CycleCategoryOrder | crates/tilemap_editor/src/editor/ui/tileset_menu.rs:79-131 | From "", the button cycles through the library's categories in sorted order, then back to "" |
| TilesetMenu.CycleCategory | crates/tilemap_editor/src/editor/ui/tileset_menu.rs:79-131 | Only the active category changes, to "" or one of the library's categories, and to "" when there are none |
| TilesetMenu.ShownEntries | crates/tilemap_editor/src/editor/ui/tileset_menu.rs:184-189 | All entries for "", else exactly those of that category, in order |
| TilesetMenu.CycledCategoryNotEmpty | crates/tilemap_editor/src/editor/ui/tileset_menu.rs:79-189 | After a click the menu lists some entry, unless the library is empty |
| TilesetMenu.EntryLabel | crates/tilemap_editor/src/editor/ui/tileset_menu.rs:201-210 | The name, else the asset path, else the id, followed by the category in brackets when there is one |
| TilesetMenu.PickTileset | crates/tilemap_editor/src/editor/ui/tileset_menu.rs:246-285 | The clicked tileset is active and the menu closed; the selected tile is clamped to a loaded atlas |
| TilesetMenu.PickTwice | crates/tilemap_editor/src/editor/ui/tileset_menu.rs:246-285 | Picking the same entry twice is picking it once |
| Palette.ParseU32 | crates/tilemap_editor/src/editor/ui/palette.rs:43-52 | Some value exactly when the trimmed text is non-empty, all digits and at most `u32::MAX` |
| Palette.ParseU32OfString | crates/tilemap_editor/src/editor/ui/palette.rs:43-52 | Every `u32` printed in decimal parses back |
| Palette.ParseU32RejectsPlus | crates/tilemap_editor/src/editor/ui/palette.rs:43-52 | A leading '+' is refused, unlike `str::parse` |
| Palette.Matches | crates/tilemap_editor/src/editor/ui/palette.rs:54-84 | A blank query matches every index; the range, number and text cases are the three lemmas below |
| Palette.MatchesRange | crates/tilemap_editor/src/editor/ui/palette.rs:61-66 | A range query matches exactly the indices between its two numbers, either order |
| Palette.MatchesNumber | crates/tilemap_editor/src/editor/ui/palette.rs:69-71 | A number matches exactly that index |
| Palette.MatchesText | crates/tilemap_editor/src/editor/ui/palette.rs:74-83 | Any other non-blank query matches as a substring of the index or its coordinates |
| Palette.RangeQuery | crates/tilemap_editor/src/editor/ui/palette.rs:61-66 | "a-b" matches exactly the indices from min(a, b) to max(a, b) |
| Palette.OwnCoordinatesMatch | crates/tilemap_editor/src/editor/ui/palette.rs:54-84 | Every index is found by its own "x,y" coordinates |
| Palette.FilteredIndices | crates/tilemap_editor/src/editor/ui/palette.rs:534-546 | Exactly the matching indices below the tile count, ascending |
| Palette.BlankFilterShowsAll | crates/tilemap_editor/src/editor/ui/palette.rs:55-58 | A blank filter shows every tile |
| Paths.PathJoinAsset | crates/tilemap_editor/src/editor/paths.rs:16-24 | Never starts with a slash; the trimmed file alone when the trimmed directory is empty; otherwise directory, one '/', file |
| Paths.PathJoinAssetTrimmed | crates/tilemap_editor/src/editor/paths.rs:16-24 | Joining already trimmed parts gives the same path |
| Paths.PathJoinAssetOneSeparator | crates/tilemap_editor/src/editor/paths.rs:16-24 | The separator is the only slash at the join |
| Text.TrimBy | crates/tilemap_editor/src/editor/paths.rs:16-24 | An infix of the input with no trimmed character at either end and only trimmed characters around it |
| Text.TrimByIdempotent | crates/tilemap_editor/src/editor/paths.rs:16-24 | Trimming twice is trimming once |
| Text.NatToStringOfValue | crates/tilemap_editor/src/editor/ui/map_size.rs:165-179 | Every canonical digit string is the rendering of its value |
| Text.ParseU32StdOfString | crates/tilemap_editor/src/editor/ui/map_size.rs:215-228 | A decimal rendering of a `u32` parses back to it |

## Left out

- Rendering is left out: sprites, previews, the HUD, fonts, colours and visibility of entities. The editing systems' calls to refresh sprites after an edit have no effect on the model.
- File I/O, persistence, opening and saving maps and tileset libraries, and texture loading are left out. The map file's RON text is not modelled: decoding receives the outcome of parsing the text as each record version.
- Window, camera and cursor lookups are taken as present. `cursor_tile_pos` (crates/tilemap_editor/src/editor/world.rs:271-307) becomes an abstract map cell, because it works on floating-point world coordinates. The cursor is assumed to lie on the map, and the tile entities are assumed to match the map's size.
- The height of the top bar is a parameter of the context menu's open check, because it comes from the UI layout.
- Bevy's system ordering within a frame is not modelled. Each system is a separate step function, composed explicitly where a property needs two of them.
- The layer-name field's key handling (crates/tilemap_editor/src/editor/ui/layers.rs:339-418) is left out, because it maps keys to characters through Bevy's key codes. Its buffer is an input to the apply and sync steps.
- The map-size field's text rendering (`update_map_size_field_text`) is left out, because it is display only.
- The palette's scrolling, zoom and tile rectangles (`rect_for_tile_index`) are left out, because they are floating-point layout.
- The tileset menu's rebuild cache, visibility and `save_tileset_library` are left out, because they are UI and I/O.
- Texture loading in the library merge is left out. The tileset runtime is a parameter mapping loaded tileset ids to columns and rows.
- Numpad digits are the same keys as the digit row.
- Integers are unbounded. Map sizes, indices and palette numbers are naturals, and 32-bit products are assumed not to wrap. The orientation's `u8` rotation is taken modulo 4, which agrees with the wrap-around because 256 is a multiple of 4.
- Selection.I32Size: the drag-offset arithmetic requires map sides that fit in `i32`, because the source casts `u32` to `i32` there.
- A panic of the source (an index past the tiles) is the error result `Editor.IndexPanic`. The model does not say what state a panicking frame leaves, because the program stops.
- RectTool.RectStep: the tile entity grid is taken to have the map's shape, as it does once respawned after a resize, so the `entity_idx` bound at crates/tilemap_editor/src/editor/world/tools/rect.rs:188 skips the same indices as the tiles' bound.
- SelectionMove.SelectionMoveWithMouse: requires the selection's maximum corner to read the same as `i32`, and an active drag's block to match its buffer. Every frame on a map with cells keeps both (`SelectionMove.FrameKeeps`). On a map with no cells the cursor is never on the map, so no drag starts.
- SelectionShortcuts.MoveSelectionShortcutsCorrects: is proved only for a selection on the map. Off the map, wrapped indices of the two rectangles can coincide where the cells do not overlap, and the two write orders can then leave different maps.
- SelectionShortcuts.MoveSelectionShortcuts: the Alt+arrow corners are `u32` values (`Selection.U32Rect`), as in the source.
- ContextMenu.CutMovesToClipboard, ContextMenu.ClearRecordsNonEmptyCells, SelectionShortcuts.CopyPasteThenEscape: their cell-by-cell statements are made for a selection on the map. Off the map the indices wrap, and the members they are about state the effect index by index instead.
- TileMapCore.NewWithLayers: `layer_data` is not a field of `TileMapData` in crates/tilemap_core/src/lib.rs:33-60, but crates/tilemap_format/src/lib.rs:5,30,59-70 and crates/tilemap_editor/src/editor/ui/layers.rs:100-153 read and write it. The model follows those uses: one entry "Layer i+1", visible and unlocked, per layer.
- Palette.Matches: its own contract covers only the blank query; the range, number and text cases are Palette.MatchesRange, Palette.MatchesNumber and Palette.MatchesText.
- Orientation.MatMul: is stated for a left factor with entries -1, 0 or 1, the only matrices the source multiplies. General `i32` matrices and their overflow are not covered.
- Orientation.RotMatCw: its own contract only bounds the entries to -1, 0 and 1; which rotation it is follows from Orientation.QuarterTurnAdvances.
- Orientation.FlipMat: its own contract only bounds the entries to -1, 0 and 1; how it combines with the rotation is Orientation.OrientationIsProduct.
- ContextMenu.ApplyContextMenuCommand: the menu's Deselect always switches to the Select tool, while Ctrl+D switches only from Paste. Both are modelled as written.
- TileMapCore.EnsureLayers: does not grow the layer data alongside the tiles, as the source does not.
- Text.Trim: whitespace is the Unicode `White_Space` list Rust's `str::trim` uses, given as an explicit character set.
- Eyedropper.EyedropperHoldShortcut: ignores I only while a map-size field has focus, as the source checks only that field.
- `load_tileset_library_startup`'s file reading is left out. Only its choice of the active tileset is modelled, as TilesetLibrary.DefaultActive.

## Findings

| source | as written | input that shows it | evidently intended | confidence | as-written member | corrected member |
|---|---|---|---|---|---|---|
| crates/tilemap_editor/src/editor/world/selection_shortcuts.rs:298-328 | The Alt+arrow move blind-writes the cleared old rectangle and then the shifted block into one command. A cell in both rectangles is recorded twice, and undo replays the befores in recorded order | Cells [T, T, _] selected as cells 0..1; Alt+Right; then Ctrl+Z leaves [T, _, _] | Undo restores [T, T, _], as the mouse drag's first-write-wins command does | not executed | SelectionShortcuts.AsWrittenUndoLosesTile | SelectionShortcuts.MoveSelectionShortcutsCorrects |
| crates/tilemap_editor/src/editor/world/shortcuts.rs:12-57 | `keyboard_shortcuts` reads [, ] and R with no text-focus check, unlike `tool_shortcuts` (lines 69-71) | The layer-name field has focus; typing the letter R into it also clears the whole map | Keys typed into a focused text field do not act as editor shortcuts | not executed | Shortcuts.TypingRClearsMap | Shortcuts.KeyboardShortcuts |
| crates/tilemap_editor/src/editor/ui/map_size.rs:205-247 | `apply_custom_map_size` replaces the map but keeps the selection, so after shrinking the map the selection can reach past its edge. Cut and Delete then walk the smaller map's row-major indices: past the last layer they panic, on a lower layer they empty cells of the next row or layer | A 4 x 1 map with two layers and cells 2..3 selected; set the width to 2 and apply; Delete on layer 1 indexes 4 of 4 tiles | A resize drops, or clips, a selection that no longer fits the map | not executed | StaleSelection.ShrinkThenDeletePanics | StaleSelection.ApplyMapSizeKeepingSelection |
| crates/tilemap_editor/src/editor/world/tools/paint.rs:88-146 | `paint_with_mouse` writes the cursor cell whenever the left button is held, even when no stroke is active. The change goes into the inactive stroke, the release pushes nothing (lines 70-78 need an active stroke), and the next `begin` discards it | Eraser; press the left button off the map, or with Alt held, then drag onto a tile and release: the tile is gone and Ctrl+Z does not bring it back | A frame paints only into a stroke begun by a press on the map, so every edit is undoable | not executed | Paint.StrayPaintNotUndoable | Paint.PaintStepCorrected |
