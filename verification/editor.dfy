/** Editor-wide state shared by the tool systems. */
module Editor {
  import opened Base
  import opened TileMapCore
  import opened Selection
  import opened Undo
  import opened Edits

  datatype ToolKind = Pencil | Eraser | Rectangle | Fill | Select | Paste | Eyedropper

  /** The current tool and the tool to return to after a paste. */
  datatype ToolState = ToolState(tool: ToolKind, returnAfterPaste: Option<ToolKind>)

  /** Copied cells: `width` x `height`, row-major. */
  datatype Clipboard = Clipboard(width: nat, height: nat, tiles: seq<Cell>)

  /** The orientation applied to the clipboard when pasting. */
  datatype PasteState = PasteState(rot: nat, flipX: bool, flipY: bool)

  const DefaultPaste: PasteState := PasteState(0, false, false)

  /** The right-click menu: whether it is open, the cell it was opened over, and the click-swallow flag. */
  datatype MenuState = MenuState(open: bool, mapPos: Option<Point>, consumeLeftClick: bool, signature: nat)

  datatype ContextMenuAction =
    | MenuUndo | MenuRedo | EnterPaste
    | SelectionCopy | SelectionCut | SelectionDelete | SelectionSelectAll | SelectionDeselect
    | PasteRotateCcw | PasteRotateCw | PasteFlipX | PasteFlipY | PasteReset | ExitPaste

  /** A clipboard that can be pasted: non-zero size and some cells. */
  predicate HasContent(c: Clipboard)
  {
    c.width > 0 && c.height > 0 && |c.tiles| > 0
  }

  /** The menu is open or still swallowing the click that closed it. */
  predicate MenuBlocks(menu: MenuState)
  {
    menu.open || menu.consumeLeftClick
  }

  /** `active.min(layers.saturating_sub(1))`: the layer the tools edit. */
  function EditLayer(active: nat, m: TileMap): (l: nat)
    ensures l <= active
    ensures m.layers >= 1 ==> l < m.layers
    ensures active < m.layers ==> l == active
  {
    Min(active, SatSub(m.layers, 1))
  }

  /** The cursor, when present, lies on the map. */
  predicate CursorOnMap(pos: Option<Point>, m: TileMap)
  {
    pos.Some? ==> InBounds(m, pos.value.x, pos.value.y)
  }

  /** Flat index of a point on a layer. */
  function PointIdx(m: TileMap, layer: nat, p: Point): (k: nat)
    ensures Valid(m) && layer < m.layers && InBounds(m, p.x, p.y) ==> k < |m.tiles|
  {
    if Valid(m) && layer < m.layers && InBounds(m, p.x, p.y) then
      IdxLayerInRange(m, layer, p.x, p.y);
      IdxLayer(m, layer, p.x, p.y)
    else IdxLayer(m, layer, p.x, p.y)
  }

  /** The message of the panic an out-of-range `map.tiles[idx]` raises, ending the application. */
  const IndexPanic: string := "index out of bounds"

  /**
   * Every row-major cell of `r` on `layer` has its `idx_layer` index inside
   * the tiles, so the source's loops over `r` index without panicking. A
   * rectangle on the map always qualifies (`IndexableRaw`); a stale one
   * reaching past the map's edge, left by a resize or a load, may qualify
   * too, and then names wrapped cells: those of the next row or layer.
   */
  predicate Indexable(m: TileMap, layer: nat, r: Rect)
  {
    || (Valid(m) && layer < m.layers && RectInMap(r, m.width, m.height))
    || forall i :: 0 <= i < Area(r) ==> PointIdx(m, layer, CellOf(r, i)) < |m.tiles|
  }

  /**
   * The source's `min..=max` loops over `r` reach an index past the tiles
   * and panic. Loops over a rectangle with its corners out of order visit
   * no cell at all, so they never panic.
   */
  predicate Panics(m: TileMap, layer: nat, r: Rect)
  {
    Ordered(r) && !Indexable(m, layer, r)
  }

  /** Indexability is exactly "every row-major index is in range"; a rectangle on the map has it. */
  lemma IndexableRaw(m: TileMap, layer: nat, r: Rect)
    ensures Indexable(m, layer, r) <==> forall i :: 0 <= i < Area(r) ==> PointIdx(m, layer, CellOf(r, i)) < |m.tiles|
  {
    if Valid(m) && layer < m.layers && RectInMap(r, m.width, m.height) {
      forall i | 0 <= i < Area(r) ensures PointIdx(m, layer, CellOf(r, i)) < |m.tiles| {
        CellOfInRect(r, i);
        IdxLayerInRange(m, layer, CellOf(r, i).x, CellOf(r, i).y);
      }
    }
  }

  /** In an indexable rectangle every cell, not only the enumerated offsets, indexes inside the tiles. */
  lemma IndexableAt(m: TileMap, layer: nat, r: Rect, p: Point)
    requires Indexable(m, layer, r) && PointInRect(p, r)
    ensures PointIdx(m, layer, p) < |m.tiles|
  {
    IndexableRaw(m, layer, r);
    OffsetOfInRange(r, p);
  }

  /** Index of the `i`-th row-major cell of `r` on `layer`; it lies inside the tiles. */
  function RectIdx(m: TileMap, layer: nat, r: Rect, i: nat): (k: nat)
    requires Indexable(m, layer, r) && i < Area(r)
    ensures k < |m.tiles|
    ensures k == PointIdx(m, layer, CellOf(r, i))
  {
    IndexableRaw(m, layer, r);
    PointIdx(m, layer, CellOf(r, i))
  }

  /** The flat indices the source's loops over `r` on `layer` visit, wrapped or not. */
  function RectIndices(m: TileMap, layer: nat, r: Rect): set<nat>
  {
    set i | 0 <= i < Area(r) :: PointIdx(m, layer, CellOf(r, i))
  }

  /**
   * On the map, the loops over `r` visit the cell (l, p) exactly when it is
   * on `layer` inside `r`: no wrapped cell of another row or layer.
   */
  lemma RectIndicesOnMap(m: TileMap, layer: nat, r: Rect)
    requires Valid(m) && layer < m.layers && RectInMap(r, m.width, m.height)
    ensures forall l: nat, p: Point :: l < m.layers && InBounds(m, p.x, p.y) ==>
      (PointIdx(m, l, p) in RectIndices(m, layer, r) <==> l == layer && PointInRect(p, r))
  {
    RowMajorBijection(r);
    forall l: nat, p: Point | l < m.layers && InBounds(m, p.x, p.y)
      ensures PointIdx(m, l, p) in RectIndices(m, layer, r) <==> l == layer && PointInRect(p, r)
    {
      if PointIdx(m, l, p) in RectIndices(m, layer, r) {
        var i :| 0 <= i < Area(r) && PointIdx(m, layer, CellOf(r, i)) == PointIdx(m, l, p);
        var a := CellOf(r, i);
        IdxLayerInjective(m, layer, a.x, a.y, l, p.x, p.y);
      }
      if l == layer && PointInRect(p, r) {
        assert PointIdx(m, layer, CellOf(r, OffsetOf(r, p))) == PointIdx(m, l, p);
      }
    }
  }

  /** The cells of `r` on `layer`, row-major. */
  function RectCellsOf(m: TileMap, layer: nat, r: Rect): (cells: seq<Cell>)
    requires Indexable(m, layer, r)
    ensures |cells| == Area(r)
    ensures forall i :: 0 <= i < Area(r) ==> cells[i] == m.tiles[RectIdx(m, layer, r, i)]
  {
    seq(Area(r), i requires 0 <= i < Area(r) => m.tiles[RectIdx(m, layer, r, i)])
  }

  /** Write `vals[i]` to the `i`-th row-major cell of `r` on `layer`. */
  function RectWrites(m: TileMap, layer: nat, r: Rect, vals: seq<Cell>): (ws: seq<Write>)
    requires Indexable(m, layer, r) && |vals| == Area(r)
    ensures |ws| == Area(r)
    ensures forall i :: 0 <= i < Area(r) ==> ws[i] == Write(RectIdx(m, layer, r, i), vals[i])
    ensures WritesInRange(ws, |m.tiles|)
    ensures WriteIndices(ws) == RectIndices(m, layer, r)
  {
    var ws := seq(Area(r), i requires 0 <= i < Area(r) => Write(RectIdx(m, layer, r, i), vals[i]));
    assert WriteIndices(ws) == RectIndices(m, layer, r) by {
      forall k | k in RectIndices(m, layer, r) ensures k in WriteIndices(ws) {
        var i :| 0 <= i < Area(r) && PointIdx(m, layer, CellOf(r, i)) == k;
        assert ws[i].idx == k;
      }
    }
    ws
  }

  /** The same value for every cell of `r`. */
  function Uniform(r: Rect, v: Cell): (vals: seq<Cell>)
    ensures |vals| == Area(r) && forall i :: 0 <= i < Area(r) ==> vals[i] == v
  {
    seq(Area(r), _ => v)
  }

  /**
   * Rectangle writes target distinct cells, and a cell (l, p) of the map is
   * targeted exactly when it is on `layer` inside `r`, by the write at the
   * cell's row-major offset.
   */
  lemma RectWritesTargets(m: TileMap, layer: nat, r: Rect, vals: seq<Cell>)
    requires Valid(m) && layer < m.layers && RectInMap(r, m.width, m.height) && |vals| == Area(r)
    ensures DistinctWrites(RectWrites(m, layer, r, vals))
    ensures forall l: nat, p: Point :: l < m.layers && InBounds(m, p.x, p.y) ==>
      (PointIdx(m, l, p) in WriteIndices(RectWrites(m, layer, r, vals)) <==> l == layer && PointInRect(p, r))
    ensures forall p :: PointInRect(p, r) ==>
      OffsetOf(r, p) < Area(r) && RectWrites(m, layer, r, vals)[OffsetOf(r, p)].idx == PointIdx(m, layer, p)
  {
    var ws := RectWrites(m, layer, r, vals);
    RowMajorBijection(r);
    forall i, j | 0 <= i < j < |ws| ensures ws[i].idx != ws[j].idx {
      RectIdxInjective(m, layer, r, i, j);
    }
    forall l: nat, p: Point | l < m.layers && InBounds(m, p.x, p.y)
      ensures PointIdx(m, l, p) in WriteIndices(ws) <==> l == layer && PointInRect(p, r)
    {
      if PointIdx(m, l, p) in WriteIndices(ws) {
        var i :| 0 <= i < |ws| && ws[i].idx == PointIdx(m, l, p);
        var a := CellOf(r, i);
        IdxLayerInjective(m, layer, a.x, a.y, l, p.x, p.y);
      }
      if l == layer && PointInRect(p, r) {
        assert ws[OffsetOf(r, p)].idx == PointIdx(m, l, p);
      }
    }
  }

  /** Two cell sequences of a map's shape that agree on every (layer, point) are equal. */
  lemma SameCellsEqual(m: TileMap, a: seq<Cell>, b: seq<Cell>)
    requires Valid(m) && |a| == |m.tiles| && |b| == |m.tiles|
    requires forall l: nat, p: Point :: l < m.layers && InBounds(m, p.x, p.y) ==> a[PointIdx(m, l, p)] == b[PointIdx(m, l, p)]
    ensures a == b
  {
    forall i | 0 <= i < |a| ensures a[i] == b[i] {
      var c := Coords(m, i);
      assert i == PointIdx(m, c.0, Point(c.1, c.2));
    }
  }

  /** Different row-major offsets of a rectangle name different cells. */
  lemma RectIdxInjective(m: TileMap, layer: nat, r: Rect, i: nat, j: nat)
    requires Valid(m) && layer < m.layers && RectInMap(r, m.width, m.height)
    requires i < Area(r) && j < Area(r)
    ensures RectIdx(m, layer, r, i) == RectIdx(m, layer, r, j) ==> i == j
  {
    RowMajorBijection(r);
    var a, b := CellOf(r, i), CellOf(r, j);
    if RectIdx(m, layer, r, i) == RectIdx(m, layer, r, j) {
      IdxLayerInjective(m, layer, a.x, a.y, layer, b.x, b.y);
      assert OffsetOf(r, a) == i && OffsetOf(r, b) == j;
    }
  }

  /**
   * Blind-writing `vals` over `r` on `layer`: the change list records the
   * edit, every cell of `r` on `layer` takes its value, and every other cell
   * of the map is unchanged.
   */
  lemma RectBlindWrite(m: TileMap, layer: nat, r: Rect, vals: seq<Cell>)
    requires Valid(m) && layer < m.layers && RectInMap(r, m.width, m.height) && |vals| == Area(r)
    ensures var res := BlindApply(m.tiles, RectWrites(m, layer, r, vals));
      && Records(m.tiles, res.0, EditCommand(res.1))
      && forall l: nat, p: Point :: l < m.layers && InBounds(m, p.x, p.y) ==>
           PointIdx(m, l, p) < |m.tiles|
           && res.0[PointIdx(m, l, p)] ==
                if l == layer && PointInRect(p, r) then vals[OffsetOf(r, p)] else m.tiles[PointIdx(m, l, p)]
  {
    var ws := RectWrites(m, layer, r, vals);
    RectWritesTargets(m, layer, r, vals);
    BlindApplyDistinct(m.tiles, ws);
    var res := BlindApply(m.tiles, ws);
    forall l: nat, p: Point | l < m.layers && InBounds(m, p.x, p.y)
      ensures PointIdx(m, l, p) < |m.tiles|
      ensures res.0[PointIdx(m, l, p)] ==
        if l == layer && PointInRect(p, r) then vals[OffsetOf(r, p)] else m.tiles[PointIdx(m, l, p)]
    {
      IdxLayerInRange(m, l, p.x, p.y);
      if l == layer && PointInRect(p, r) {
        var i := OffsetOf(r, p);
        assert ws[i] == Write(PointIdx(m, l, p), vals[i]);
      } else {
        assert PointIdx(m, l, p) !in WriteIndices(ws);
      }
    }
  }
}
