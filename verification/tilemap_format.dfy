/**
 * Versioned map files at the record level. The text encoding itself is not
 * modelled: decoding receives the outcome of parsing the text as each of
 * the three record versions.
 */
module TileMapFormat {
  import opened Base
  import opened TileMapCore

  /** Version 1: bare tile indices, no tilesets, one layer. */
  datatype MapFileV1 = MapFileV1(width: nat, height: nat, tiles: seq<Option<nat>>)

  /** Version 2: tile references and the tilesets they need, one layer. */
  datatype MapFileV2<T> = MapFileV2(width: nat, height: nat, tilesets: seq<T>, tiles: seq<Cell>)

  /** Version 3: layered maps with per-layer data. */
  datatype MapFileV3<T> = MapFileV3(
    width: nat,
    height: nat,
    layers: nat,
    layerData: seq<LayerData>,
    tilesets: seq<T>,
    tiles: seq<Cell>)

  /** `encode_map_ron_v3` at the record level. */
  function Encode<T>(m: TileMap, tilesets: seq<T>): (f: MapFileV3<T>)
    ensures f.layers == Max(m.layers, 1) && f.layers >= 1
    ensures f.width == m.width && f.height == m.height
    ensures f.layerData == m.layerData && f.tiles == m.tiles && f.tilesets == tilesets
  {
    MapFileV3(m.width, m.height, Max(m.layers, 1), m.layerData, tilesets, m.tiles)
  }

  /** `dst` with its first `|src|` cells (at most `|dst|`) replaced by `src`. */
  function CopyPrefix(dst: seq<Cell>, src: seq<Cell>): (r: seq<Cell>)
    ensures |r| == |dst|
    ensures forall i :: 0 <= i < |r| ==> r[i] == if i < |src| then src[i] else dst[i]
  {
    seq(|dst|, i requires 0 <= i < |dst| => if i < |src| then src[i] else dst[i])
  }

  /** Layer data padded with default entries up to `n` layers (never truncated). */
  function PadLayers(data: seq<LayerData>, n: nat): (r: seq<LayerData>)
    ensures |r| == Max(|data|, n)
    ensures r[..|data|] == data
    ensures forall i :: |data| <= i < |r| ==> r[i] == DefaultLayer(i)
  {
    if |data| >= n then data
    else data + seq(n - |data|, k requires 0 <= k => DefaultLayer(|data| + k))
  }

  /** Decoding a version 3 record. */
  function DecodeV3<T>(f: MapFileV3<T>): (r: (TileMap, seq<T>))
    ensures var m := r.0;
      && Valid(m) && m.width == f.width && m.height == f.height
      && m.layers == Max(f.layers, DEFAULT_LAYER_COUNT)
      && (forall i :: 0 <= i < |m.tiles| ==> m.tiles[i] == if i < |f.tiles| then f.tiles[i] else None)
      && (|f.layerData| > 0 ==> m.layerData == PadLayers(f.layerData, m.layers))
      && (|f.layerData| == 0 ==> m.layerData == DefaultLayers(m.layers))
    ensures r.1 == f.tilesets
  {
    var m := NewWithLayers(f.width, f.height, Max(f.layers, DEFAULT_LAYER_COUNT));
    var data := if |f.layerData| > 0 then PadLayers(f.layerData, m.layers) else m.layerData;
    (m.(layerData := data, tiles := CopyPrefix(m.tiles, f.tiles)), f.tilesets)
  }

  /** A single-layer tile list placed into layer 0 of a fresh two-layer map. */
  function SingleLayerMap(width: nat, height: nat, tiles: seq<Cell>): (m: TileMap)
    ensures Valid(m) && m.width == width && m.height == height
    ensures m.layers == DEFAULT_LAYER_COUNT && m.layerData == DefaultLayers(DEFAULT_LAYER_COUNT)
    ensures forall i :: 0 <= i < |m.tiles| ==>
      m.tiles[i] == if i < LayerLen(m) && i < |tiles| then tiles[i] else None
  {
    var m := NewWithLayers(width, height, DEFAULT_LAYER_COUNT);
    var n := Min(LayerLen(m), |tiles|);
    m.(tiles := CopyPrefix(m.tiles, tiles[..n]))
  }

  /** Decoding a version 2 record. */
  function DecodeV2<T>(f: MapFileV2<T>): (r: (TileMap, seq<T>))
    ensures r.0 == SingleLayerMap(f.width, f.height, f.tiles)
    ensures r.1 == f.tilesets
  {
    (SingleLayerMap(f.width, f.height, f.tiles), f.tilesets)
  }

  /** A version 1 bare index as a tile reference: no tileset, no rotation, no flips. */
  function UpgradeV1Cell(c: Option<nat>): (r: Cell)
    ensures r.None? <==> c.None?
    ensures c.Some? ==> r.value == TileRef("", c.value, 0, false, false)
  {
    match c
    case None => None
    case Some(i) => Some(TileRef("", i, 0, false, false))
  }

  /** Decoding a version 1 record; no tilesets come with it. */
  function DecodeV1<T>(f: MapFileV1): (r: (TileMap, seq<T>))
    ensures var m := r.0;
      && Valid(m) && m.width == f.width && m.height == f.height
      && m.layers == DEFAULT_LAYER_COUNT
      && (forall i :: 0 <= i < |m.tiles| ==>
            m.tiles[i] == if i < LayerLen(m) && i < |f.tiles| then UpgradeV1Cell(f.tiles[i]) else None)
    ensures r.1 == []
  {
    var tiles := seq(|f.tiles|, i requires 0 <= i < |f.tiles| => UpgradeV1Cell(f.tiles[i]));
    (SingleLayerMap(f.width, f.height, tiles), [])
  }

  /**
   * `decode_map_ron`: the newest version that parses wins; the decode fails
   * only when the text is not a version 1 record either.
   */
  function Decode<T>(asV3: Option<MapFileV3<T>>, asV2: Option<MapFileV2<T>>, asV1: Result<MapFileV1>)
    : (r: Result<(TileMap, seq<T>)>)
    ensures asV3.Some? ==> r == Ok(DecodeV3(asV3.value))
    ensures asV3.None? && asV2.Some? ==> r == Ok(DecodeV2(asV2.value))
    ensures asV3.None? && asV2.None? && asV1.Ok? ==> r == Ok(DecodeV1(asV1.value))
    ensures r.Err? <==> asV3.None? && asV2.None? && asV1.Err?
    ensures r.Err? ==> r.error == asV1.error
  {
    if asV3.Some? then Ok(DecodeV3(asV3.value))
    else if asV2.Some? then Ok(DecodeV2(asV2.value))
    else match asV1
      case Ok(f) => Ok(DecodeV1(f))
      case Err(e) => Err(e)
  }

  /**
   * Saving and loading a map with at least the default number of layers and
   * one data entry per layer gives back the same map and tilesets.
   */
  lemma EncodeDecodeRoundTrip<T>(m: TileMap, tilesets: seq<T>)
    requires Valid(m) && m.layers >= DEFAULT_LAYER_COUNT && |m.layerData| == m.layers
    ensures DecodeV3(Encode(m, tilesets)) == (m, tilesets)
  {
    var r := DecodeV3(Encode(m, tilesets)).0;
    assert r.tiles == m.tiles;
    assert r.layerData == m.layerData;
  }
}
