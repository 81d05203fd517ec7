/**
 * The first-write-wins block write-back shared by the selection drag
 * (`selection_move_with_mouse`), the selection transform and the corrected
 * Alt+arrow move: a buffer `dst` laid row-major over the destination
 * rectangle `n`. In move mode the old rectangle `r` is written first (the
 * buffer value where it overlaps `n`, empty elsewhere), then `n`; in copy
 * mode only `n` is written.
 */
module BlockMove {
  import opened Base
  import opened TileMapCore
  import opened Selection
  import opened Undo
  import opened Edits
  import opened Editor

  /** What the block laid on `n` puts at `p`: its buffer value inside `n`, nothing outside. */
  function Landing(n: Rect, dst: seq<Cell>, p: Point): Cell
    requires |dst| == Area(n)
  {
    if PointInRect(p, n) then dst[OffsetOf(n, p)] else None
  }

  /** The old-rectangle pass: each cell of `r` gets what the block lays on it. */
  function VacateValues(r: Rect, n: Rect, dst: seq<Cell>): (vals: seq<Cell>)
    requires |dst| == Area(n)
    ensures |vals| == Area(r)
    ensures forall i :: 0 <= i < Area(r) ==> vals[i] == Landing(n, dst, CellOf(r, i))
  {
    seq(Area(r), i requires 0 <= i < Area(r) => Landing(n, dst, CellOf(r, i)))
  }

  /**
   * The write list: the old rectangle (move mode only), then the new one.
   * Either rectangle may lie off the map (a stale selection) as long as
   * its row-major indices stay inside the tiles.
   */
  function MoveWrites(m: TileMap, layer: nat, r: Rect, n: Rect, dst: seq<Cell>, copy: bool): (ws: seq<Write>)
    requires (copy || Indexable(m, layer, r)) && Indexable(m, layer, n) && |dst| == Area(n)
    ensures WritesInRange(ws, |m.tiles|)
    ensures WriteIndices(ws) == (if copy then {} else RectIndices(m, layer, r)) + RectIndices(m, layer, n)
  {
    var olds := if copy then [] else RectWrites(m, layer, r, VacateValues(r, n, dst));
    WriteIndicesConcat(olds, RectWrites(m, layer, n, dst));
    olds + RectWrites(m, layer, n, dst)
  }

  /**
   * On any indexable rectangles the write-back records a command that undoes
   * and redoes it, and leaves every cell outside both rectangles' indices
   * alone.
   */
  lemma MoveWritesFrame(m: TileMap, layer: nat, r: Rect, n: Rect, dst: seq<Cell>, copy: bool)
    requires (copy || Indexable(m, layer, r)) && Indexable(m, layer, n) && |dst| == Area(n)
    ensures var res := TouchedApply(m.tiles, MoveWrites(m, layer, r, n, dst, copy));
      && |res.0| == |m.tiles|
      && Records(m.tiles, res.0, EditCommand(res.1))
      && forall k :: 0 <= k < |m.tiles| && k !in RectIndices(m, layer, n) && (copy || k !in RectIndices(m, layer, r)) ==>
           res.0[k] == m.tiles[k]
  {
    TouchedApplyFaithful(m.tiles, MoveWrites(m, layer, r, n, dst, copy));
  }

  /**
   * The cell (l, p) after the block is placed: the buffer inside `n` on the
   * edit layer; empty in the rest of `r` when moving; unchanged otherwise.
   */
  function Placed(m: TileMap, layer: nat, r: Rect, n: Rect, dst: seq<Cell>, copy: bool, l: nat, p: Point): Cell
    requires Valid(m) && l < m.layers && InBounds(m, p.x, p.y) && |dst| == Area(n)
  {
    if l == layer && PointInRect(p, n) then dst[OffsetOf(n, p)]
    else if l == layer && PointInRect(p, r) && !copy then None
    else m.tiles[PointIdx(m, l, p)]
  }

  /**
   * Every write targets the edit layer and carries what the block lays on
   * its cell; a map cell is targeted exactly when it is on the edit layer
   * inside `n`, or inside `r` in move mode.
   */
  lemma MoveWritesTargets(m: TileMap, layer: nat, r: Rect, n: Rect, dst: seq<Cell>, copy: bool)
    requires Valid(m) && layer < m.layers
    requires RectInMap(r, m.width, m.height) && RectInMap(n, m.width, m.height) && |dst| == Area(n)
    ensures var ws := MoveWrites(m, layer, r, n, dst, copy);
      forall f, l: nat, p: Point :: 0 <= f < |ws| && l < m.layers && InBounds(m, p.x, p.y) && ws[f].idx == PointIdx(m, l, p) ==>
        l == layer && ws[f].value == Landing(n, dst, p)
    ensures var ws := MoveWrites(m, layer, r, n, dst, copy);
      forall l: nat, p: Point :: l < m.layers && InBounds(m, p.x, p.y) ==>
        (PointIdx(m, l, p) in WriteIndices(ws) <==> l == layer && (PointInRect(p, n) || (!copy && PointInRect(p, r))))
  {
    MoveWritesValues(m, layer, r, n, dst, copy);
    RectWritesTargets(m, layer, r, VacateValues(r, n, dst));
    RectWritesTargets(m, layer, n, dst);
  }

  /** Each write carries what the block lays on the cell it targets, and targets the edit layer. */
  lemma MoveWritesValues(m: TileMap, layer: nat, r: Rect, n: Rect, dst: seq<Cell>, copy: bool)
    requires Valid(m) && layer < m.layers
    requires RectInMap(r, m.width, m.height) && RectInMap(n, m.width, m.height) && |dst| == Area(n)
    ensures var ws := MoveWrites(m, layer, r, n, dst, copy);
      forall f, l: nat, p: Point :: 0 <= f < |ws| && l < m.layers && InBounds(m, p.x, p.y) && ws[f].idx == PointIdx(m, l, p) ==>
        l == layer && ws[f].value == Landing(n, dst, p)
  {
    var olds := if copy then [] else RectWrites(m, layer, r, VacateValues(r, n, dst));
    var news := RectWrites(m, layer, n, dst);
    var ws := olds + news;
    assert ws == MoveWrites(m, layer, r, n, dst, copy);
    forall f, l: nat, p: Point | 0 <= f < |ws| && l < m.layers && InBounds(m, p.x, p.y) && ws[f].idx == PointIdx(m, l, p)
      ensures l == layer && ws[f].value == Landing(n, dst, p)
    {
      if f < |olds| {
        CellOfInRect(r, f);
        var c := CellOf(r, f);
        IdxLayerInjective(m, layer, c.x, c.y, l, p.x, p.y);
      } else {
        var j := f - |olds|;
        CellOfInRect(n, j);
        var c := CellOf(n, j);
        assert ws[f] == news[j];
        IdxLayerInjective(m, layer, c.x, c.y, l, p.x, p.y);
      }
    }
  }

  /**
   * First-write-wins application of the write list: the recorded changes
   * undo and redo the edit exactly, and every cell of the map ends up as
   * `Placed` says.
   */
  lemma MoveWritesEffect(m: TileMap, layer: nat, r: Rect, n: Rect, dst: seq<Cell>, copy: bool)
    requires Valid(m) && layer < m.layers
    requires RectInMap(r, m.width, m.height) && RectInMap(n, m.width, m.height) && |dst| == Area(n)
    ensures var res := TouchedApply(m.tiles, MoveWrites(m, layer, r, n, dst, copy));
      && |res.0| == |m.tiles|
      && Records(m.tiles, res.0, EditCommand(res.1))
      && forall l: nat, p: Point :: l < m.layers && InBounds(m, p.x, p.y) ==>
           && PointIdx(m, l, p) < |res.0|
           && res.0[PointIdx(m, l, p)] == Placed(m, layer, r, n, dst, copy, l, p)
  {
    var ws := MoveWrites(m, layer, r, n, dst, copy);
    var res := TouchedApply(m.tiles, ws);
    TouchedApplyFaithful(m.tiles, ws);
    MoveWritesTargets(m, layer, r, n, dst, copy);
    forall l: nat, p: Point | l < m.layers && InBounds(m, p.x, p.y)
      ensures PointIdx(m, l, p) < |res.0|
      ensures res.0[PointIdx(m, l, p)] == Placed(m, layer, r, n, dst, copy, l, p)
    {
      var k := PointIdx(m, l, p);
      if k in WriteIndices(ws) {
        var f := FirstWriteTo(ws, k).value;
        assert ws[f].idx == PointIdx(m, l, p);
      }
    }
  }
}
