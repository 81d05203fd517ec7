/**
 * `resized_map_copy`: the map that replaces the current one when its size
 * is changed. It always has the default layer count; the top-left block the
 * old and new sizes share is copied layer by layer, and everything else is
 * empty.
 */
module Resize {
  import opened Base
  import opened TileMapCore

  /**
   * How many layers are copied: the smallest of the two layer counts and
   * the number of whole layers each tile vector holds, but at least one.
   */
  function LayersToCopy(prev: TileMap, next: TileMap): (n: nat)
    requires LayerLen(prev) > 0 && LayerLen(next) > 0
    ensures 1 <= n
    ensures n == 1 || (n <= prev.layers && n <= next.layers
                       && n * LayerLen(prev) <= |prev.tiles| && n * LayerLen(next) <= |next.tiles|)
  {
    var byOld := |prev.tiles| / LayerLen(prev);
    var byNew := |next.tiles| / LayerLen(next);
    WholeLayers(|prev.tiles|, LayerLen(prev));
    WholeLayers(|next.tiles|, LayerLen(next));
    var n := Max(Min(Min(Min(prev.layers, next.layers), byOld), byNew), 1);
    if n == 1 then n
    else
      MulMono(n, byOld, LayerLen(prev));
      MulMono(n, byNew, LayerLen(next));
      n
  }

  /** `len / ll` whole layers fit in `len` cells. */
  lemma WholeLayers(len: nat, ll: nat)
    requires ll > 0
    ensures (len / ll) * ll <= len
  {
    assert len == (len / ll) * ll + len % ll;
  }

  /** The copied value of cell (l, x, y) of the new map. */
  function Copied(prev: TileMap, next: TileMap, layers: nat, cw: nat, ch: nat, l: nat, x: nat, y: nat): Cell
  {
    if l < layers && x < cw && y < ch then CellAt(prev, l, x, y) else None
  }

  /**
   * The number of layers whose cells are copied: none when the shared block
   * is empty or either map has empty layers, else `LayersToCopy`.
   */
  function CopiedLayers(prev: TileMap, width: nat, height: nat): (n: nat)
    ensures n > 0 ==> LayerLen(prev) > 0 && Min(prev.width, width) > 0 && Min(prev.height, height) > 0
    ensures Valid(prev) ==> n <= Min(prev.layers, DEFAULT_LAYER_COUNT)
  {
    var next := New(width, height);
    if Min(prev.width, width) == 0 || Min(prev.height, height) == 0 then 0
    else if LayerLen(prev) == 0 || LayerLen(next) == 0 then 0
    else LayersToCopy(prev, next)
  }

  /**
   * `resized_map_copy(old, width, height)`. The old tile vector must hold at
   * least one whole layer, or the original's slice of layer 0 panics.
   */
  function ResizedMapCopy(prev: Option<TileMap>, width: nat, height: nat): (r: TileMap)
    requires prev.Some? ==> |prev.value.tiles| >= LayerLen(prev.value)
    ensures Valid(r) && r.width == width && r.height == height && r.layers == DEFAULT_LAYER_COUNT
    ensures r.layerData == New(width, height).layerData
  {
    var next := New(width, height);
    if prev.None? then next
    else
      var o := prev.value;
      var cw, ch := Min(o.width, width), Min(o.height, height);
      if cw == 0 || ch == 0 then next
      else if LayerLen(o) == 0 || LayerLen(next) == 0 then next
      else
        var layers := LayersToCopy(o, next);
        next.(tiles := seq(|next.tiles|, k requires 0 <= k < |next.tiles| =>
          var c := Coords(next, k);
          Copied(o, next, layers, cw, ch, c.0, c.1, c.2)))
  }

  /**
   * The resized map: without an old map it is the new empty map; otherwise
   * a cell on one of the first `CopiedLayers` layers that lies inside both
   * the old and the new size holds the old cell at the same (layer, x, y),
   * read from inside the old tile vector, and every other cell is empty.
   */
  lemma ResizedCells(prev: Option<TileMap>, width: nat, height: nat)
    requires prev.Some? ==> |prev.value.tiles| >= LayerLen(prev.value)
    ensures prev.None? ==> ResizedMapCopy(prev, width, height) == New(width, height)
    ensures prev.Some? ==> var o := prev.value; var r := ResizedMapCopy(prev, width, height);
      forall l: nat, x: nat, y: nat :: l < r.layers && InBounds(r, x, y) ==>
        var copied := l < CopiedLayers(o, width, height) && x < o.width && y < o.height;
        && IdxLayer(r, l, x, y) < |r.tiles|
        && (copied ==> IdxLayer(o, l, x, y) < |o.tiles|)
        && r.tiles[IdxLayer(r, l, x, y)] == if copied then o.tiles[IdxLayer(o, l, x, y)] else None
  {
    if prev.Some? {
      var o := prev.value;
      var r := ResizedMapCopy(prev, width, height);
      var layers := CopiedLayers(o, width, height);
      forall l: nat, x: nat, y: nat | l < r.layers && InBounds(r, x, y)
        ensures IdxLayer(r, l, x, y) < |r.tiles|
        ensures l < layers && x < o.width && y < o.height ==> IdxLayer(o, l, x, y) < |o.tiles|
        ensures r.tiles[IdxLayer(r, l, x, y)] ==
          if l < layers && x < o.width && y < o.height then o.tiles[IdxLayer(o, l, x, y)] else None
      {
        CoordsOfIdx(r, l, x, y);
        if l < layers && x < o.width && y < o.height {
          CopyInRange(o, l, x, y, layers);
        }
      }
    }
  }

  /** A copied cell of a copied layer lies inside the old tile vector. */
  lemma CopyInRange(o: TileMap, l: nat, x: nat, y: nat, layers: nat)
    requires InBounds(o, x, y) && l < layers && |o.tiles| >= LayerLen(o)
    requires layers == 1 || layers * LayerLen(o) <= |o.tiles|
    ensures IdxLayer(o, l, x, y) < |o.tiles|
  {
    MulMono(l + 1, layers, LayerLen(o));
  }
}
