/**
 * Orientation edits of the single tile under the cursor: rotate, mirror or
 * reset the topmost tile at a cell, as one undoable change.
 */
module SingleTile {
  import opened Base
  import opened TileMapCore
  import opened Selection
  import opened Undo
  import opened Editor

  /** The closures passed to `try_edit_single_map_tile`. */
  datatype TileEdit = RotateCcw | RotateCw | MirrorX | MirrorY | ResetOrientation

  /**
   * The edit applied to one tile. Rotations are taken modulo 4 on an
   * unbounded integer, which agrees with the `u8` arithmetic after its
   * wrap-around because 256 is a multiple of 4.
   */
  function ApplyEdit(e: TileEdit, t: TileRef): (r: TileRef)
    ensures r.tilesetId == t.tilesetId && r.index == t.index
    ensures e == RotateCw ==> r.rot == (t.rot + 1) % 4 && r.flipX == t.flipX && r.flipY == t.flipY
    ensures e == RotateCcw ==> r.rot == (t.rot + 3) % 4 && r.flipX == t.flipX && r.flipY == t.flipY
    ensures e == MirrorX ==> r.rot == t.rot && r.flipX == !t.flipX && r.flipY == t.flipY
    ensures e == MirrorY ==> r.rot == t.rot && r.flipX == t.flipX && r.flipY == !t.flipY
    ensures e == ResetOrientation ==> r.rot == 0 && !r.flipX && !r.flipY
  {
    match e
    case RotateCcw => t.(rot := (t.rot + 3) % 4)
    case RotateCw => t.(rot := (t.rot + 1) % 4)
    case MirrorX => t.(flipX := !t.flipX)
    case MirrorY => t.(flipY := !t.flipY)
    case ResetOrientation => t.(rot := 0, flipX := false, flipY := false)
  }

  /** The edited tile with its rotation normalised to 0..3. */
  function Edited(e: TileEdit, t: TileRef): (r: TileRef)
    ensures r.rot < 4 && r.tilesetId == t.tilesetId && r.index == t.index
  {
    var u := ApplyEdit(e, t);
    u.(rot := u.rot % 4)
  }

  /**
   * For tiles with rotation in 0..3: clockwise and counter-clockwise
   * rotation undo each other, four clockwise turns are the identity, each
   * mirror is an involution, and reset is idempotent.
   */
  lemma EditAlgebra(t: TileRef)
    requires t.rot < 4
    ensures Edited(RotateCcw, Edited(RotateCw, t)) == t
    ensures Edited(RotateCw, Edited(RotateCcw, t)) == t
    ensures Edited(RotateCw, Edited(RotateCw, Edited(RotateCw, Edited(RotateCw, t)))) == t
    ensures Edited(MirrorX, Edited(MirrorX, t)) == t
    ensures Edited(MirrorY, Edited(MirrorY, t)) == t
    ensures Edited(ResetOrientation, Edited(ResetOrientation, t)) == Edited(ResetOrientation, t)
  {
    RotationsCancel(t);
    FourTurns(t);
  }

  /** A turn changes only the rotation: clockwise to the next of 0..3, counter-clockwise to the previous. */
  lemma TurnRot(t: TileRef)
    requires t.rot < 4
    ensures Edited(RotateCw, t) == t.(rot := Edited(RotateCw, t).rot)
    ensures Edited(RotateCcw, t) == t.(rot := Edited(RotateCcw, t).rot)
    ensures Edited(RotateCw, t).rot == if t.rot == 3 then 0 else t.rot + 1
    ensures Edited(RotateCcw, t).rot == if t.rot == 0 then 3 else t.rot - 1
  {
    var u, v := ApplyEdit(RotateCw, t), ApplyEdit(RotateCcw, t);
    assert u == t.(rot := (t.rot + 1) % 4);
    assert v == t.(rot := (t.rot + 3) % 4);
  }

  /** Clockwise and counter-clockwise turns undo each other. */
  lemma RotationsCancel(t: TileRef)
    requires t.rot < 4
    ensures Edited(RotateCcw, Edited(RotateCw, t)) == t
    ensures Edited(RotateCw, Edited(RotateCcw, t)) == t
  {
    TurnRot(t);
    TurnRot(Edited(RotateCw, t));
    TurnRot(Edited(RotateCcw, t));
  }

  /** Four clockwise turns are the identity. */
  lemma FourTurns(t: TileRef)
    requires t.rot < 4
    ensures Edited(RotateCw, Edited(RotateCw, Edited(RotateCw, Edited(RotateCw, t)))) == t
  {
    var t1 := Edited(RotateCw, t);
    var t2 := Edited(RotateCw, t1);
    var t3 := Edited(RotateCw, t2);
    TurnRot(t);
    TurnRot(t1);
    TurnRot(t2);
    TurnRot(t3);
  }

  /**
   * `try_edit_single_map_tile`: edit the topmost tile at `pos`. Returns the
   * new map and undo stack and whether anything changed.
   */
  function TryEditSingleTile(pos: Option<Point>, hasMap: bool, m: TileMap, undo: UndoStack, e: TileEdit)
    : (r: (TileMap, UndoStack, bool))
    requires Valid(m) && CursorOnMap(pos, m)
    ensures !r.2 ==> r.0 == m && r.1 == undo
  {
    if pos.None? || !hasMap then (m, undo, false)
    else
      var p := pos.value;
      match TopmostLayerAt(m, p.x, p.y)
      case None => (m, undo, false)
      case Some(layer) =>
        var idx := IdxLayer(m, layer, p.x, p.y);
        if idx >= |m.tiles| then (m, undo, false)
        else
          match m.tiles[idx]
          case None => (m, undo, false)
          case Some(t) =>
            var after := Some(Edited(e, t));
            if m.tiles[idx] == after then (m, undo, false)
            else
              var m' := m.(tiles := m.tiles[idx := after]);
              (m', Push(undo, EditCommand([CellChange(idx, m.tiles[idx], after)])), true)
  }

  /** The cursor is over a map cell holding a tile that the edit changes. */
  predicate Changes(pos: Option<Point>, hasMap: bool, m: TileMap, e: TileEdit)
    requires Valid(m)
  {
    && pos.Some? && hasMap && TopmostIdxAt(m, pos.value.x, pos.value.y).Some?
    && var k := TopmostIdxAt(m, pos.value.x, pos.value.y).value;
       Edited(e, m.tiles[k].value) != m.tiles[k].value
  }

  /**
   * The edit succeeds exactly when `Changes` holds. It then rewrites only
   * the topmost tile there and pushes one single-change command; either way
   * the step is an undoable edit.
   */
  lemma TryEditSingleTileEffect(pos: Option<Point>, hasMap: bool, m: TileMap, undo: UndoStack, e: TileEdit)
    requires Valid(m) && CursorOnMap(pos, m)
    ensures var r := TryEditSingleTile(pos, hasMap, m, undo, e);
      (r.2 <==> Changes(pos, hasMap, m, e)) && UndoableEdit(m, undo, r.0, r.1)
    ensures var r := TryEditSingleTile(pos, hasMap, m, undo, e);
      r.2 ==> var k := TopmostIdxAt(m, pos.value.x, pos.value.y).value;
        && r.0.tiles == m.tiles[k := Some(Edited(e, m.tiles[k].value))]
        && r.1 == Push(undo, EditCommand([CellChange(k, m.tiles[k], r.0.tiles[k])]))
  {
    var r := TryEditSingleTile(pos, hasMap, m, undo, e);
    if pos.Some? && hasMap && TopmostLayerAt(m, pos.value.x, pos.value.y).Some? {
      var p := pos.value;
      var layer := TopmostLayerAt(m, p.x, p.y).value;
      var k := IdxLayer(m, layer, p.x, p.y);
      IdxLayerInRange(m, layer, p.x, p.y);
      assert TopmostIdxAt(m, p.x, p.y) == Some(k);
      if r.2 {
        SingleChangeRecords(m.tiles, k, Some(Edited(e, m.tiles[k].value)));
      }
    }
  }

  /** Writing one changed cell is recorded by the single change it makes. */
  lemma SingleChangeRecords(cells: seq<Cell>, k: nat, v: Cell)
    requires k < |cells| && cells[k] != v
    ensures Records(cells, cells[k := v], EditCommand([CellChange(k, cells[k], v)]))
  {
    var ch := [CellChange(k, cells[k], v)];
    assert ch[0].idx == k;
    assert k in Indices(ch);
  }
}
