/**
 * The active layer and per-layer data: the PageUp/PageDown/L shortcuts
 * (`layer_shortcuts`), the previous/next buttons, the visibility and lock
 * toggles, the label's clamp, and the layer name field's apply and sync.
 * `typing` says whether a map-size input field has keyboard focus.
 */
module Layers {
  import opened Base
  import opened Text
  import opened TileMapCore
  import opened Input

  /** One frame of `layer_shortcuts` on a map with `layers` layers (`hasMap` says whether there is a map). */
  function LayerShortcuts(typing: bool, k: Keys, hasMap: bool, layers: nat, active: nat): (r: nat)
    ensures typing || !hasMap || layers == 0 ==> r == active
    ensures !typing && hasMap && layers >= 1 ==> r < layers
    ensures !typing && hasMap && layers >= 1 && !Tapped(k, PageDown) && !Tapped(k, PageUp) && !Tapped(k, KeyL) ==>
      r == Min(active, layers - 1)
    ensures !typing && hasMap && layers >= 1 && Tapped(k, PageDown) && !Tapped(k, PageUp) && !Tapped(k, KeyL) ==>
      r == SatSub(Min(active, layers - 1), 1)
    ensures !typing && hasMap && layers >= 1 && Tapped(k, PageUp) && !Tapped(k, PageDown) && !Tapped(k, KeyL) ==>
      r == Min(active + 1, layers - 1)
    ensures !typing && hasMap && layers >= 2 && Tapped(k, KeyL) ==> r <= 1
    ensures !typing && hasMap && layers == 1 ==> r == 0
  {
    if typing || !hasMap || layers == 0 then active
    else
      var a0 := Min(active, layers - 1);
      var a1 := if Tapped(k, PageDown) then SatSub(a0, 1) else a0;
      var a2 := if Tapped(k, PageUp) then Min(a1 + 1, layers - 1) else a1;
      if Tapped(k, KeyL) && layers >= 2 then (if a2 == 0 then 1 else 0) else a2
  }

  /** PageUp then PageDown returns to the layer below the top; PageDown then PageUp returns to a layer above the bottom. */
  lemma PageUpDownInverse(layers: nat, active: nat)
    requires 1 <= layers && active < layers
    ensures var up := Keys({PageUp}, {PageUp}, {});
      var down := Keys({PageDown}, {PageDown}, {});
      && (active + 1 < layers ==> LayerShortcuts(false, down, true, layers, LayerShortcuts(false, up, true, layers, active)) == active)
      && (active > 0 ==> LayerShortcuts(false, up, true, layers, LayerShortcuts(false, down, true, layers, active)) == active)
  {
  }

  /** L twice switches between layers 0 and 1 and back. */
  lemma ToggleTwice(layers: nat, active: nat)
    requires layers >= 2 && active <= 1
    ensures var l := Keys({KeyL}, {KeyL}, {});
      var once := LayerShortcuts(false, l, true, layers, active);
      once == 1 - active && LayerShortcuts(false, l, true, layers, once) == active
  {
  }

  /** The layer count the buttons work with: at least 1, and 1 without a map. */
  function TotalLayers(hasMap: bool, layers: nat): (t: nat)
    ensures t >= 1
    ensures hasMap && layers >= 1 ==> t == layers
  {
    if hasMap then Max(layers, 1) else 1
  }

  /** The previous-layer button: one layer down, stopping at 0. */
  function LayerPrev(active: nat): (r: nat)
    ensures active > 0 ==> r + 1 == active
    ensures active == 0 ==> r == 0
  {
    SatSub(active, 1)
  }

  /** The next-layer button: one layer up, stopping at the top layer. */
  function LayerNext(hasMap: bool, layers: nat, active: nat): (r: nat)
    ensures r < TotalLayers(hasMap, layers)
    ensures active + 1 < TotalLayers(hasMap, layers) ==> r == active + 1
    ensures active + 1 >= TotalLayers(hasMap, layers) ==> r == TotalLayers(hasMap, layers) - 1
  {
    Min(active + 1, TotalLayers(hasMap, layers) - 1)
  }

  /** Next then previous is the identity below the top layer. */
  lemma NextThenPrev(hasMap: bool, layers: nat, active: nat)
    requires active + 1 < TotalLayers(hasMap, layers)
    ensures LayerPrev(LayerNext(hasMap, layers, active)) == active
  {
  }

  /** `active.min(layers.saturating_sub(1))` with `layers = max(m.layers, 1)`: the layer the toggles and the name act on. */
  function ClampedActive(m: TileMap, active: nat): (a: nat)
    ensures a < Max(m.layers, 1)
    ensures active < m.layers ==> a == active
    ensures a <= active
  {
    Min(active, Max(m.layers, 1) - 1)
  }

  /** `after` is `before` with entry `i`, when there is one, replaced by `d`; every other entry is kept. */
  predicate UpdatedAt(before: seq<LayerData>, after: seq<LayerData>, i: nat, d: LayerData)
  {
    && |after| == |before|
    && (i < |before| ==> after[i] == d)
    && (forall j :: 0 <= j < |before| && j != i ==> after[j] == before[j])
  }

  /** The result of a toggle: the active layer, clamped, and the map. */
  datatype ToggleFrame = ToggleFrame(active: nat, tiles: TileMap)

  /**
   * The visibility button: clamp the active layer, grow the map to at least
   * one layer, and flip the active layer's `visible` flag. Nothing happens
   * without a map.
   */
  function ToggleVisible(hasMap: bool, m: TileMap, active: nat): (r: ToggleFrame)
    ensures !hasMap ==> r == ToggleFrame(active, m)
    ensures hasMap ==>
      && r.active == ClampedActive(m, active)
      && r.tiles == EnsureLayers(m, 1).(layerData := r.tiles.layerData)
      && var a := r.active;
         UpdatedAt(m.layerData, r.tiles.layerData, a,
           if a < |m.layerData| then m.layerData[a].(visible := !m.layerData[a].visible) else LayerData([], true, false))
  {
    if !hasMap then ToggleFrame(active, m)
    else
      var m1 := EnsureLayers(m, Max(m.layers, 1));
      var a := ClampedActive(m, active);
      var data := if a < |m1.layerData| then m1.layerData[a := m1.layerData[a].(visible := !m1.layerData[a].visible)]
                  else m1.layerData;
      ToggleFrame(a, m1.(layerData := data))
  }

  /** The lock button: as the visibility button, flipping `locked`. */
  function ToggleLocked(hasMap: bool, m: TileMap, active: nat): (r: ToggleFrame)
    ensures !hasMap ==> r == ToggleFrame(active, m)
    ensures hasMap ==>
      && r.active == ClampedActive(m, active)
      && r.tiles == EnsureLayers(m, 1).(layerData := r.tiles.layerData)
      && var a := r.active;
         UpdatedAt(m.layerData, r.tiles.layerData, a,
           if a < |m.layerData| then m.layerData[a].(locked := !m.layerData[a].locked) else LayerData([], true, false))
  {
    if !hasMap then ToggleFrame(active, m)
    else
      var m1 := EnsureLayers(m, Max(m.layers, 1));
      var a := ClampedActive(m, active);
      var data := if a < |m1.layerData| then m1.layerData[a := m1.layerData[a].(locked := !m1.layerData[a].locked)]
                  else m1.layerData;
      ToggleFrame(a, m1.(layerData := data))
  }

  /** Pressing a toggle twice restores the map; the flags of other layers are never touched. */
  lemma ToggleTwiceRestores(m: TileMap, active: nat)
    requires Valid(m)
    ensures var v := ToggleVisible(true, m, active);
      ToggleVisible(true, v.tiles, v.active).tiles == m
    ensures var l := ToggleLocked(true, m, active);
      ToggleLocked(true, l.tiles, l.active).tiles == m
  {
    var v := ToggleVisible(true, m, active);
    var v2 := ToggleVisible(true, v.tiles, v.active);
    assert v2.tiles.layerData == m.layerData;
    var l := ToggleLocked(true, m, active);
    var l2 := ToggleLocked(true, l.tiles, l.active);
    assert l2.tiles.layerData == m.layerData;
  }

  /** `update_layer_topbar_label`'s clamp: with a map, an active layer past the top becomes the top layer. */
  function LabelClamp(hasMap: bool, layers: nat, active: nat): (r: nat)
    ensures !hasMap ==> r == active
    ensures hasMap ==> r < Max(layers, 1)
    ensures hasMap && active < Max(layers, 1) ==> r == active
  {
    if hasMap && active >= Max(layers, 1) then Max(layers, 1) - 1 else active
  }

  /** The layer name field: its text, whether it has focus, and whether Enter asked for the name to be applied. */
  datatype NameInput = NameInput(buf: string, focused: bool, applyRequested: bool)

  /** The name a layer gets from the field: the trimmed text, or "Layer n" (1-based) when it is blank. */
  function NameFromBuffer(buf: string, a: nat): (name: string)
    ensures !IsBlank(buf) ==> name == Trim(buf)
    ensures IsBlank(buf) ==> name == DefaultLayer(a).name
    ensures name != [] && !IsWhitespace(name[0]) && !IsWhitespace(name[|name| - 1])
  {
    var t := Trim(buf);
    if t == [] then DefaultLayer(a).name else t
  }

  /** The result of `apply_layer_name_change`: the field and the map. */
  datatype NameFrame = NameFrame(input: NameInput, tiles: TileMap)

  /**
   * `apply_layer_name_change`: a pending request is consumed; with a map,
   * the clamped active layer's entry takes the name from the field.
   */
  function ApplyLayerNameChange(input: NameInput, hasMap: bool, m: TileMap, active: nat): (r: NameFrame)
    ensures !input.applyRequested ==> r == NameFrame(input, m)
    ensures input.applyRequested ==> r.input == input.(applyRequested := false)
    ensures input.applyRequested && !hasMap ==> r.tiles == m
    ensures input.applyRequested && hasMap ==>
      var a := ClampedActive(m, active);
      && r.tiles == EnsureLayers(m, 1).(layerData := r.tiles.layerData)
      && UpdatedAt(m.layerData, r.tiles.layerData, a,
           if a < |m.layerData| then m.layerData[a].(name := NameFromBuffer(input.buf, a)) else LayerData([], true, false))
  {
    if !input.applyRequested then NameFrame(input, m)
    else
      var input' := input.(applyRequested := false);
      if !hasMap then NameFrame(input', m)
      else
        var m1 := EnsureLayers(m, Max(m.layers, 1));
        var a := ClampedActive(m, active);
        var data := if a < |m1.layerData| then m1.layerData[a := m1.layerData[a].(name := NameFromBuffer(input.buf, a))]
                    else m1.layerData;
        NameFrame(input', m1.(layerData := data))
  }

  /**
   * `sync_layer_name_input_from_map`: while the field has no focus it shows
   * the clamped active layer's name, "Layer" when that layer has no entry,
   * and nothing without a map.
   */
  function SyncLayerNameInput(input: NameInput, hasMap: bool, m: TileMap, active: nat): (r: NameInput)
    ensures r.focused == input.focused && r.applyRequested == input.applyRequested
    ensures input.focused ==> r == input
    ensures !input.focused && !hasMap ==> r.buf == []
    ensures !input.focused && hasMap ==>
      var a := ClampedActive(m, active);
      r.buf == if a < |m.layerData| then m.layerData[a].name else "Layer"
  {
    if input.focused then input
    else if !hasMap then input.(buf := [])
    else
      var a := ClampedActive(m, active);
      input.(buf := if a < |m.layerData| then m.layerData[a].name else "Layer")
  }

  /**
   * Typing a name and pressing Enter, then losing focus: the field shows the
   * name as stored, which is the typed text trimmed (or "Layer n" when it
   * was blank), on a layer that has an entry.
   */
  lemma ApplyThenSync(buf: string, m: TileMap, active: nat)
    requires ClampedActive(m, active) < |m.layerData|
    ensures var applied := ApplyLayerNameChange(NameInput(buf, false, true), true, m, active);
      var shown := SyncLayerNameInput(applied.input, true, applied.tiles, active);
      && !shown.applyRequested
      && shown.buf == NameFromBuffer(buf, ClampedActive(m, active))
  {
    var applied := ApplyLayerNameChange(NameInput(buf, false, true), true, m, active);
    assert ClampedActive(applied.tiles, active) == ClampedActive(m, active);
  }

  /** Applying the name the field already mirrors changes nothing when that name is already trimmed and not blank. */
  lemma SyncThenApplyStable(m: TileMap, active: nat)
    requires Valid(m)
    requires var a := ClampedActive(m, active);
      a < |m.layerData| && !IsBlank(m.layerData[a].name) && Trim(m.layerData[a].name) == m.layerData[a].name
    ensures var shown := SyncLayerNameInput(NameInput([], false, false), true, m, active);
      ApplyLayerNameChange(shown.(applyRequested := true), true, m, active).tiles == m
  {
    var a := ClampedActive(m, active);
    var shown := SyncLayerNameInput(NameInput([], false, false), true, m, active);
    var r := ApplyLayerNameChange(shown.(applyRequested := true), true, m, active);
    assert r.tiles.layerData == m.layerData;
  }
}
