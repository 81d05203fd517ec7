/**
 * Ctrl+arrow map shift: every layer moves one cell left, right, up or down.
 * In blank mode cells pushed off the map are dropped and vacated cells
 * become empty; in wrap mode the layer rotates. The edit is recorded as the
 * whole-map diff.
 */
module ShiftMap {
  import opened Base
  import opened TileMapCore
  import opened Input
  import opened Selection
  import opened Undo
  import opened Edits
  import opened Editor

  datatype ShiftMode = Blank | Wrap

  /**
   * The step a Ctrl+arrow press asks for, checked in the order left, right,
   * up, down. Up is +1 on the y axis.
   */
  function ShiftDelta(keys: Keys): (d: Option<(int, int)>)
    ensures d.None? <==> !Tapped(keys, ArrowLeft) && !Tapped(keys, ArrowRight) && !Tapped(keys, ArrowUp) && !Tapped(keys, ArrowDown)
    ensures d.Some? ==> d.value in {(-1, 0), (1, 0), (0, 1), (0, -1)}
    ensures Tapped(keys, ArrowLeft) ==> d == Some((-1, 0))
  {
    if Tapped(keys, ArrowLeft) then Some((-1, 0))
    else if Tapped(keys, ArrowRight) then Some((1, 0))
    else if Tapped(keys, ArrowUp) then Some((0, 1))
    else if Tapped(keys, ArrowDown) then Some((0, -1))
    else None
  }

  /** Where the cell at (x, y) of a `w` x `h` layer moves to, if it stays on the map. */
  function Dest(mode: ShiftMode, w: nat, h: nat, dx: int, dy: int, x: nat, y: nat): (r: Option<Point>)
    requires w > 0 && h > 0
    ensures r.Some? ==> r.value.x < w && r.value.y < h
    ensures mode == Wrap ==> r.Some?
  {
    match mode
    case Blank =>
      var nx, ny := x + dx, y + dy;
      if nx < 0 || ny < 0 || nx >= w || ny >= h then None else Some(Point(nx, ny))
    case Wrap => Some(Point((x + dx) % w, (y + dy) % h))
  }

  /** The cell of the old layer that lands on (x, y): the move in the opposite direction. */
  function Source(mode: ShiftMode, w: nat, h: nat, dx: int, dy: int, x: nat, y: nat): Option<Point>
    requires w > 0 && h > 0
  {
    Dest(mode, w, h, -dx, -dy, x, y)
  }

  /**
   * `Source` inverts `Dest`: the cell at `s` moves to `d` exactly when `s` is
   * the source of `d`. So every destination is written at most once and the
   * cells no source moves to stay empty.
   */
  lemma DestSource(mode: ShiftMode, w: nat, h: nat, dx: int, dy: int, s: Point, d: Point)
    requires w > 0 && h > 0 && s.x < w && s.y < h && d.x < w && d.y < h
    ensures Dest(mode, w, h, dx, dy, s.x, s.y) == Some(d) <==> Source(mode, w, h, dx, dy, d.x, d.y) == Some(s)
  {
    if mode == Wrap {
      ModShift(s.x, dx, d.x, w);
      ModShift(s.y, dy, d.y, h);
    }
  }

  /** `(a + k) mod n == b` exactly when `(b - k) mod n == a`, for `a`, `b` in `0..n`. */
  lemma ModShift(a: nat, k: int, b: nat, n: nat)
    requires 0 < n && a < n && b < n
    ensures (a + k) % n == b <==> (b - k) % n == a
  {
    var q := (a + k) / n;
    assert a + k == q * n + (a + k) % n;
    if (a + k) % n == b {
      DivModUnique(b - k, n, -q, a);
    }
    if (b - k) % n == a {
      var q' := (b - k) / n;
      assert b - k == q' * n + a;
      DivModUnique(a + k, n, -q', b);
    }
  }

  /** The new value of cell (x, y) on layer `l`: the old value at its source, or empty. */
  function Shifted(m: TileMap, mode: ShiftMode, dx: int, dy: int, l: nat, x: nat, y: nat): Cell
    requires m.width > 0 && m.height > 0
  {
    match Source(mode, m.width, m.height, dx, dy, x, y)
    case None => None
    case Some(s) => CellAt(m, l, s.x, s.y)
  }

  /** The shifted tiles of every layer. */
  function ShiftTiles(m: TileMap, mode: ShiftMode, dx: int, dy: int): (r: seq<Cell>)
    requires Valid(m) && m.width > 0 && m.height > 0
    ensures |r| == |m.tiles|
  {
    seq(|m.tiles|, k requires 0 <= k < |m.tiles| =>
      var c := Coords(m, k);
      Shifted(m, mode, dx, dy, c.0, c.1, c.2))
  }

  /** The shifted tiles at a cell are `Shifted` at that cell. */
  lemma ShiftAt(m: TileMap, mode: ShiftMode, dx: int, dy: int, l: nat, p: Point)
    requires Valid(m) && m.width > 0 && m.height > 0 && l < m.layers && InBounds(m, p.x, p.y)
    ensures PointIdx(m, l, p) < |m.tiles|
    ensures ShiftTiles(m, mode, dx, dy)[PointIdx(m, l, p)] == Shifted(m, mode, dx, dy, l, p.x, p.y)
  {
    CoordsOfIdx(m, l, p.x, p.y);
  }

  /**
   * Blank mode: each layer shifts on its own; the cell at (x, y) takes the
   * old value at (x - dx, y - dy), or becomes empty when that is off the map.
   */
  lemma ShiftBlankCells(m: TileMap, dx: int, dy: int)
    requires Valid(m) && m.width > 0 && m.height > 0
    ensures var r := ShiftTiles(m, Blank, dx, dy);
      forall l: nat, p: Point :: l < m.layers && InBounds(m, p.x, p.y) ==>
        r[PointIdx(m, l, p)] ==
          (if 0 <= p.x - dx < m.width && 0 <= p.y - dy < m.height
           then m.tiles[IdxLayer(m, l, p.x - dx, p.y - dy)] else None)
  {
    forall l: nat, p: Point | l < m.layers && InBounds(m, p.x, p.y)
      ensures PointIdx(m, l, p) < |m.tiles|
      ensures 0 <= p.x - dx < m.width && 0 <= p.y - dy < m.height ==> IdxLayer(m, l, p.x - dx, p.y - dy) < |m.tiles|
      ensures ShiftTiles(m, Blank, dx, dy)[PointIdx(m, l, p)] == Shifted(m, Blank, dx, dy, l, p.x, p.y)
    {
      ShiftAt(m, Blank, dx, dy, l, p);
      if 0 <= p.x - dx < m.width && 0 <= p.y - dy < m.height {
        IdxLayerInRange(m, l, p.x - dx, p.y - dy);
      }
    }
  }

  /** Wrap mode: each layer rotates on its own; the cell at (x, y) takes the old value at the wrapped (x - dx, y - dy). */
  lemma ShiftWrapCells(m: TileMap, dx: int, dy: int)
    requires Valid(m) && m.width > 0 && m.height > 0
    ensures var r := ShiftTiles(m, Wrap, dx, dy);
      forall l: nat, p: Point :: l < m.layers && InBounds(m, p.x, p.y) ==>
        r[PointIdx(m, l, p)] == m.tiles[IdxLayer(m, l, (p.x - dx) % m.width, (p.y - dy) % m.height)]
  {
    forall l: nat, p: Point | l < m.layers && InBounds(m, p.x, p.y)
      ensures PointIdx(m, l, p) < |m.tiles|
      ensures IdxLayer(m, l, (p.x - dx) % m.width, (p.y - dy) % m.height) < |m.tiles|
      ensures ShiftTiles(m, Wrap, dx, dy)[PointIdx(m, l, p)] == Shifted(m, Wrap, dx, dy, l, p.x, p.y)
    {
      ShiftAt(m, Wrap, dx, dy, l, p);
      IdxLayerInRange(m, l, (p.x - dx) % m.width, (p.y - dy) % m.height);
    }
  }

  /**
   * The shift as the original performs it: the old cell at `s` is copied to
   * its destination, and a cell that no old cell moves to is empty.
   */
  lemma ShiftMoves(m: TileMap, mode: ShiftMode, dx: int, dy: int)
    requires Valid(m) && m.width > 0 && m.height > 0
    ensures var r := ShiftTiles(m, mode, dx, dy);
      forall l: nat, s: Point :: l < m.layers && InBounds(m, s.x, s.y) ==>
        match Dest(mode, m.width, m.height, dx, dy, s.x, s.y)
        case None => true
        case Some(d) => r[PointIdx(m, l, d)] == m.tiles[PointIdx(m, l, s)]
    ensures var r := ShiftTiles(m, mode, dx, dy);
      forall l: nat, d: Point :: l < m.layers && InBounds(m, d.x, d.y)
        && (forall s: Point :: InBounds(m, s.x, s.y) ==> Dest(mode, m.width, m.height, dx, dy, s.x, s.y) != Some(d))
        ==> r[PointIdx(m, l, d)].None?
  {
    var r := ShiftTiles(m, mode, dx, dy);
    forall l: nat, s: Point | l < m.layers && InBounds(m, s.x, s.y)
      ensures match Dest(mode, m.width, m.height, dx, dy, s.x, s.y)
        case None => true
        case Some(d) => r[PointIdx(m, l, d)] == m.tiles[PointIdx(m, l, s)]
    {
      match Dest(mode, m.width, m.height, dx, dy, s.x, s.y)
      case None =>
      case Some(d) =>
        DestSource(mode, m.width, m.height, dx, dy, s, d);
        CoordsOfIdx(m, l, d.x, d.y);
        IdxLayerInRange(m, l, s.x, s.y);
    }
    forall l: nat, d: Point | l < m.layers && InBounds(m, d.x, d.y)
        && (forall s: Point :: InBounds(m, s.x, s.y) ==> Dest(mode, m.width, m.height, dx, dy, s.x, s.y) != Some(d))
      ensures r[PointIdx(m, l, d)].None?
    {
      CoordsOfIdx(m, l, d.x, d.y);
      match Source(mode, m.width, m.height, dx, dy, d.x, d.y)
      case None =>
      case Some(s) =>
        DestSource(mode, m.width, m.height, dx, dy, s, d);
    }
  }

  /** A wrap shift is undone by the opposite wrap shift, so it permutes each layer. */
  lemma WrapInverse(m: TileMap, dx: int, dy: int)
    requires Valid(m) && m.width > 0 && m.height > 0
    ensures ShiftTiles(m.(tiles := ShiftTiles(m, Wrap, dx, dy)), Wrap, -dx, -dy) == m.tiles
  {
    var m1 := m.(tiles := ShiftTiles(m, Wrap, dx, dy));
    var r := ShiftTiles(m1, Wrap, -dx, -dy);
    forall k | 0 <= k < |m.tiles| ensures r[k] == m.tiles[k] {
      var c := Coords(m, k);
      var s := Source(Wrap, m.width, m.height, -dx, -dy, c.1, c.2).value;
      assert r[k] == CellAt(m1, c.0, s.x, s.y);
      CoordsOfIdx(m, c.0, s.x, s.y);
      var s2 := Source(Wrap, m.width, m.height, dx, dy, s.x, s.y).value;
      DestSource(Wrap, m.width, m.height, dx, dy, Point(c.1, c.2), s);
      assert s2 == Point(c.1, c.2);
    }
  }

  // ---------------------------------------------------------------------
  // shift_map_shortcuts
  // ---------------------------------------------------------------------

  /** The frame shifts the map: the map-size field has no focus, Ctrl and an arrow are pressed, and the map is non-empty. */
  predicate Fires(keys: Keys, inputFocused: bool, hasMap: bool, m: TileMap)
  {
    !inputFocused && Held(keys, Ctrl) && ShiftDelta(keys).Some? && hasMap && m.width > 0 && m.height > 0
  }

  /** One frame of `shift_map_shortcuts`. */
  function ShiftStep(keys: Keys, inputFocused: bool, mode: ShiftMode, hasMap: bool, m: TileMap, undo: UndoStack)
    : (r: (TileMap, UndoStack))
    requires Valid(m)
    ensures UndoableEdit(m, undo, r.0, r.1)
    ensures !Fires(keys, inputFocused, hasMap, m) ==> r == (m, undo)
    ensures Fires(keys, inputFocused, hasMap, m) ==>
      r.0.tiles == ShiftTiles(m, mode, ShiftDelta(keys).value.0, ShiftDelta(keys).value.1)
  {
    if !Fires(keys, inputFocused, hasMap, m) then (m, undo)
    else
      var (dx, dy) := ShiftDelta(keys).value;
      var shifted := ShiftTiles(m, mode, dx, dy);
      var changes := Diff(m.tiles, shifted, |m.tiles|);
      DiffRecords(m.tiles, shifted);
      if changes == [] then (m, undo)
      else Commit(m, undo, shifted, changes)
  }
}
