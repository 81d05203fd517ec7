/**
 * The tile grid: a map is `width` x `height` cells on `layers` layers,
 * stored as one flat sequence, layer 0 first, each layer row-major.
 * Integers are unbounded here; the 32-bit products of the original are
 * assumed not to wrap.
 */
module TileMapCore {
  import opened Base
  import Text

  /** A reference to one tile of one tileset, with its orientation. */
  datatype TileRef = TileRef(tilesetId: string, index: nat, rot: nat, flipX: bool, flipY: bool)

  /** A grid cell: empty or holding a tile. */
  type Cell = Option<TileRef>

  /** Per-layer display data: a name and two flags. */
  datatype LayerData = LayerData(name: string, visible: bool, locked: bool)

  const DEFAULT_LAYER_COUNT: nat := 2

  datatype TileMap = TileMap(
    width: nat,
    height: nat,
    layers: nat,
    tiles: seq<Cell>,
    layerData: seq<LayerData>)

  /** Number of cells in one layer. */
  function LayerLen(m: TileMap): nat
  {
    m.width * m.height
  }

  /** The shape every constructor and editing operation keeps. */
  predicate Valid(m: TileMap)
  {
    m.layers >= 1 && |m.tiles| == LayerLen(m) * m.layers
  }

  /** A coordinate inside the map's bounds. */
  predicate InBounds(m: TileMap, x: nat, y: nat)
  {
    x < m.width && y < m.height
  }

  /** The default entry of layer `i`: "Layer i+1", visible and unlocked. */
  function DefaultLayer(i: nat): LayerData
  {
    LayerData("Layer " + Text.NatToString(i + 1), true, false)
  }

  /** `n` empty cells. */
  function Empty(n: nat): (s: seq<Cell>)
    ensures |s| == n
    ensures forall i :: 0 <= i < n ==> s[i].None?
  {
    seq(n, _ => None)
  }

  /** Default layer data for `n` layers. */
  function DefaultLayers(n: nat): (s: seq<LayerData>)
    ensures |s| == n
    ensures forall i :: 0 <= i < n ==> s[i] == DefaultLayer(i)
  {
    seq(n, i requires 0 <= i => DefaultLayer(i))
  }

  /** `new_with_layers`: an empty map with at least one layer. */
  function NewWithLayers(width: nat, height: nat, layers: nat): (m: TileMap)
    ensures Valid(m)
    ensures m.width == width && m.height == height
    ensures m.layers == Max(layers, 1)
    ensures |m.tiles| == width * height * Max(layers, 1)
    ensures forall i :: 0 <= i < |m.tiles| ==> m.tiles[i].None?
    ensures |m.layerData| == m.layers
  {
    var l := Max(layers, 1);
    TileMap(width, height, l, Empty(width * height * l), DefaultLayers(l))
  }

  /** `new`: an empty map with the default two layers. */
  function New(width: nat, height: nat): (m: TileMap)
    ensures Valid(m) && m.layers == DEFAULT_LAYER_COUNT
    ensures m.width == width && m.height == height
    ensures forall i :: 0 <= i < |m.tiles| ==> m.tiles[i].None?
  {
    NewWithLayers(width, height, DEFAULT_LAYER_COUNT)
  }

  /** Flat index of cell (x, y) on `layer`. */
  function IdxLayer(m: TileMap, layer: nat, x: nat, y: nat): (i: nat)
    ensures InBounds(m, x, y) ==> LayerLen(m) * layer <= i < LayerLen(m) * (layer + 1)
  {
    RowMajorBound(x, y, m.width, m.height);
    layer * LayerLen(m) + (y * m.width + x)
  }

  /** Flat index of cell (x, y) on layer 0. */
  function Idx(m: TileMap, x: nat, y: nat): (i: nat)
    ensures InBounds(m, x, y) ==> i < LayerLen(m)
    ensures i == IdxLayer(m, 0, x, y)
  {
    RowMajorBound(x, y, m.width, m.height);
    y * m.width + x
  }

  /** Every in-range (layer, x, y) gets an index inside the tiles of a valid map. */
  lemma IdxLayerInRange(m: TileMap, layer: nat, x: nat, y: nat)
    requires Valid(m) && layer < m.layers && InBounds(m, x, y)
    ensures IdxLayer(m, layer, x, y) < |m.tiles|
  {
    var i := IdxLayer(m, layer, x, y);
    assert i < LayerLen(m) * (layer + 1);
    assert LayerLen(m) * (layer + 1) <= LayerLen(m) * m.layers;
  }

  /** The index decomposes back into its layer, row and column. */
  lemma IdxLayerDecompose(m: TileMap, layer: nat, x: nat, y: nat)
    requires InBounds(m, x, y)
    ensures var i := IdxLayer(m, layer, x, y);
      i / LayerLen(m) == layer && (i % LayerLen(m)) / m.width == y && (i % LayerLen(m)) % m.width == x
  {
    var i := IdxLayer(m, layer, x, y);
    RowMajorBound(x, y, m.width, m.height);
    DivModUnique(i, LayerLen(m), layer, y * m.width + x);
    DivModUnique(y * m.width + x, m.width, y, x);
  }

  /** Distinct in-bounds coordinates have distinct indices. */
  lemma IdxLayerInjective(m: TileMap, l1: nat, x1: nat, y1: nat, l2: nat, x2: nat, y2: nat)
    requires InBounds(m, x1, y1) && InBounds(m, x2, y2)
    requires IdxLayer(m, l1, x1, y1) == IdxLayer(m, l2, x2, y2)
    ensures l1 == l2 && x1 == x2 && y1 == y2
  {
    IdxLayerDecompose(m, l1, x1, y1);
    IdxLayerDecompose(m, l2, x2, y2);
  }

  /** The (layer, x, y) a flat index of a valid map stands for. */
  function Coords(m: TileMap, k: nat): (c: (nat, nat, nat))
    requires Valid(m) && k < |m.tiles|
    ensures c.0 < m.layers && InBounds(m, c.1, c.2)
    ensures IdxLayer(m, c.0, c.1, c.2) == k
  {
    var ll := LayerLen(m);
    DivBound(k, ll, m.layers);
    var r := k % ll;
    assert k == (k / ll) * ll + r;
    assert r < m.width * m.height;
    DivBound(r, m.width, m.height);
    assert r == (r / m.width) * m.width + r % m.width;
    (k / ll, r % m.width, r / m.width)
  }

  /** Every index of a valid map decomposes uniquely: `Coords` inverts `IdxLayer`. */
  lemma CoordsOfIdx(m: TileMap, l: nat, x: nat, y: nat)
    requires Valid(m) && l < m.layers && InBounds(m, x, y)
    ensures IdxLayer(m, l, x, y) < |m.tiles| && Coords(m, IdxLayer(m, l, x, y)) == (l, x, y)
  {
    IdxLayerInRange(m, l, x, y);
    var c := Coords(m, IdxLayer(m, l, x, y));
    IdxLayerInjective(m, c.0, c.1, c.2, l, x, y);
  }

  /** `Vec::resize(n, fill)`: truncate or extend with `fill`. */
  function Resize<T>(s: seq<T>, n: nat, fill: T): (r: seq<T>)
    ensures |r| == n
    ensures forall i :: 0 <= i < n ==> r[i] == if i < |s| then s[i] else fill
  {
    seq(n, i requires 0 <= i < n => if i < |s| then s[i] else fill)
  }

  /** `ensure_layers`: grow the map to at least `layers` layers. */
  function EnsureLayers(m: TileMap, layers: nat): (r: TileMap)
    ensures r.layers == Max(m.layers, Max(layers, 1))
    ensures m.layers >= Max(layers, 1) ==> r == m
    ensures m.layers < Max(layers, 1) ==>
      && |r.tiles| == LayerLen(m) * r.layers
      && (forall i :: 0 <= i < |r.tiles| ==> r.tiles[i] == if i < |m.tiles| then m.tiles[i] else None)
    ensures r.width == m.width && r.height == m.height && r.layerData == m.layerData
  {
    var l := Max(layers, 1);
    if m.layers >= l then m
    else m.(tiles := Resize(m.tiles, LayerLen(m) * l, None), layers := l)
  }

  /** Growing a valid map keeps it valid and keeps every existing cell. */
  lemma EnsureLayersValid(m: TileMap, layers: nat)
    requires Valid(m)
    ensures var r := EnsureLayers(m, layers);
      Valid(r) && |r.tiles| >= |m.tiles| && r.tiles[..|m.tiles|] == m.tiles
  {
    var r := EnsureLayers(m, layers);
    if m.layers < Max(layers, 1) {
      assert LayerLen(m) * m.layers <= LayerLen(m) * r.layers;
    }
  }

  /** `tiles.get(i)` flattened: out-of-range reads as empty. */
  function Get(tiles: seq<Cell>, i: nat): (c: Cell)
    ensures i < |tiles| ==> c == tiles[i]
    ensures i >= |tiles| ==> c.None?
  {
    if i < |tiles| then tiles[i] else None
  }

  /** The cell at (x, y) on `layer`, empty when out of range. */
  function CellAt(m: TileMap, layer: nat, x: nat, y: nat): Cell
  {
    Get(m.tiles, IdxLayer(m, layer, x, y))
  }

  /** Highest layer below `k` with a tile at (x, y). */
  function TopmostBelow(m: TileMap, x: nat, y: nat, k: nat): (r: Option<nat>)
    ensures r.Some? ==> r.value < k && CellAt(m, r.value, x, y).Some?
    ensures r.Some? ==> forall l :: r.value < l < k ==> CellAt(m, l, x, y).None?
    ensures r.None? <==> forall l :: 0 <= l < k ==> CellAt(m, l, x, y).None?
  {
    if k == 0 then None
    else if CellAt(m, k - 1, x, y).Some? then Some(k - 1)
    else TopmostBelow(m, x, y, k - 1)
  }

  /** `topmost_layer_at`: the highest layer with a tile at (x, y). */
  function TopmostLayerAt(m: TileMap, x: nat, y: nat): (r: Option<nat>)
    ensures r.Some? ==> r.value < m.layers && CellAt(m, r.value, x, y).Some?
    ensures r.Some? ==> forall l :: r.value < l < m.layers ==> CellAt(m, l, x, y).None?
    ensures r.None? <==> forall l :: 0 <= l < m.layers ==> CellAt(m, l, x, y).None?
  {
    if m.layers == 0 then None else TopmostBelow(m, x, y, m.layers)
  }

  /** `topmost_idx_at`: the flat index of the topmost tile at (x, y). */
  function TopmostIdxAt(m: TileMap, x: nat, y: nat): (r: Option<nat>)
    ensures r.Some? ==> r.value < |m.tiles| && m.tiles[r.value].Some?
    ensures r.Some? ==> exists l: nat :: (l < m.layers && r.value == IdxLayer(m, l, x, y)
      && forall l' :: l < l' < m.layers ==> CellAt(m, l', x, y).None?)
    ensures r.None? <==> forall l :: 0 <= l < m.layers ==> CellAt(m, l, x, y).None?
  {
    match TopmostLayerAt(m, x, y)
    case None => None
    case Some(l) => Some(IdxLayer(m, l, x, y))
  }
}
