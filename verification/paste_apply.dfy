/**
 * `paste_with_mouse`: a left click in the Paste tool stamps the clipboard,
 * rotated and mirrored, with its top-left corner at the clicked cell, on the
 * edit layer. Cells falling off the map are clipped; cells already holding
 * the pasted value are skipped.
 */
module PasteApply {
  import opened Base
  import opened TileMapCore
  import opened Input
  import opened Selection
  import opened Undo
  import opened Edits
  import opened Editor
  import opened PasteHelpers

  /** The clipboard cell at row-major offset `i` (`sy * width + sx`). */
  function SrcPoint(c: Clipboard, i: nat): (s: Point)
    requires c.width > 0
    ensures i < c.width * c.height ==> InClip(s, c) && ClipIdx(c, s) == i
  {
    if i < c.width * c.height then
      DivBound(i, c.width, c.height);
      Point(i % c.width, i / c.width)
    else Point(i % c.width, i / c.width)
  }

  /** The row-major offset of clipboard cell `s`. */
  function ClipIdx(c: Clipboard, s: Point): (i: nat)
    ensures InClip(s, c) ==> i < c.width * c.height
  {
    RowMajorBound(s.x, s.y, c.width, c.height);
    s.y * c.width + s.x
  }

  /** `clipboard.tiles.get(idx).cloned().unwrap_or(None)`. */
  function ClipCell(c: Clipboard, s: Point): Cell
  {
    Get(c.tiles, ClipIdx(c, s))
  }

  /** The map cell where clipboard cell `i` lands, unless it falls off the map. */
  function Landing(m: TileMap, c: Clipboard, p: PasteState, pos: Point, i: nat): (q: Option<Point>)
    requires c.width > 0
    ensures q.Some? ==> InBounds(m, q.value.x, q.value.y)
  {
    match PasteDst(SrcPoint(c, i), c, p)
    case None => None
    case Some(d) =>
      if pos.x + d.x < m.width && pos.y + d.y < m.height then Some(Point(pos.x + d.x, pos.y + d.y)) else None
  }

  /** Map cell `q` lies under the pasted block placed at `pos`. */
  predicate Covered(c: Clipboard, p: PasteState, pos: Point, q: Point)
  {
    pos.x <= q.x && pos.y <= q.y && InBlock(Point(q.x - pos.x, q.y - pos.y), c, p)
  }

  /** The clipboard cell pasted onto covered map cell `q`. */
  function PastedFrom(c: Clipboard, p: PasteState, pos: Point, q: Point): (s: Point)
    requires Covered(c, p, pos, q)
    ensures InClip(s, c)
  {
    PasteSrc(Point(q.x - pos.x, q.y - pos.y), c, p)
  }

  /** The row-major clipboard offset pasted onto map index `k`, if any. */
  function HitSource(m: TileMap, layer: nat, c: Clipboard, p: PasteState, pos: Point, k: nat): (r: Option<nat>)
    requires Valid(m)
    ensures r.Some? ==> r.value < c.width * c.height
  {
    if k < |m.tiles| then
      var co := Coords(m, k);
      var q := Point(co.1, co.2);
      if co.0 == layer && Covered(c, p, pos, q) then Some(ClipIdx(c, PastedFrom(c, p, pos, q))) else None
    else None
  }

  /**
   * Clipboard cell `i` lands on map index `k` exactly when `k` is the cell
   * of `Landing(i)` on the edit layer.
   */
  lemma HitSourceOf(m: TileMap, layer: nat, c: Clipboard, p: PasteState, pos: Point, i: nat)
    requires Valid(m) && layer < m.layers && c.width > 0 && c.height > 0 && i < c.width * c.height
    ensures forall k :: HitSource(m, layer, c, p, pos, k) == Some(i) <==>
      Landing(m, c, p, pos, i).Some? && k == PointIdx(m, layer, Landing(m, c, p, pos, i).value)
  {
    forall k ensures HitSource(m, layer, c, p, pos, k) == Some(i) <==>
      Landing(m, c, p, pos, i).Some? && k == PointIdx(m, layer, Landing(m, c, p, pos, i).value)
    {
      HitImpliesLanding(m, layer, c, p, pos, i, k);
      LandingImpliesHit(m, layer, c, p, pos, i);
    }
  }

  /** A map index hit by clipboard cell `i` is where `i` lands. */
  lemma HitImpliesLanding(m: TileMap, layer: nat, c: Clipboard, p: PasteState, pos: Point, i: nat, k: nat)
    requires Valid(m) && layer < m.layers && c.width > 0 && c.height > 0 && i < c.width * c.height
    ensures HitSource(m, layer, c, p, pos, k) == Some(i) ==>
      Landing(m, c, p, pos, i).Some? && k == PointIdx(m, layer, Landing(m, c, p, pos, i).value)
  {
    if HitSource(m, layer, c, p, pos, k) == Some(i) {
      var co := Coords(m, k);
      var q := Point(co.1, co.2);
      var d := Point(q.x - pos.x, q.y - pos.y);
      var t := PastedFrom(c, p, pos, q);
      DivModUnique(i, c.width, t.y, t.x);
      assert SrcPoint(c, i) == t;
      PasteDstSrc(d, c, p);
      assert PasteDst(t, c, p) == Some(d);
      assert Landing(m, c, p, pos, i) == Some(q);
    }
  }

  /** Where clipboard cell `i` lands, it is the hit source. */
  lemma LandingImpliesHit(m: TileMap, layer: nat, c: Clipboard, p: PasteState, pos: Point, i: nat)
    requires Valid(m) && layer < m.layers && c.width > 0 && c.height > 0 && i < c.width * c.height
    ensures Landing(m, c, p, pos, i).Some? ==>
      HitSource(m, layer, c, p, pos, PointIdx(m, layer, Landing(m, c, p, pos, i).value)) == Some(i)
  {
    if Landing(m, c, p, pos, i).Some? {
      var q := Landing(m, c, p, pos, i).value;
      var s := SrcPoint(c, i);
      PasteSrcDst(s, c, p);
      var d := PasteDst(s, c, p).value;
      assert q == Point(pos.x + d.x, pos.y + d.y);
      assert PastedFrom(c, p, pos, q) == s;
      CoordsOfIdx(m, layer, q.x, q.y);
    }
  }

  /**
   * The writes of the first `n` clipboard cells in source order (rows, then
   * columns), clipped to the map: they target distinct cells, exactly the
   * edit-layer cells some of those clipboard cells land on, each with the
   * clipboard value that lands there.
   */
  function PasteWrites(m: TileMap, layer: nat, c: Clipboard, p: PasteState, pos: Point, n: nat): (ws: seq<Write>)
    requires Valid(m) && layer < m.layers && c.width > 0 && c.height > 0 && n <= c.width * c.height
    ensures WritesInRange(ws, |m.tiles|) && DistinctWrites(ws)
    ensures forall k :: k in WriteIndices(ws) <==>
      HitSource(m, layer, c, p, pos, k).Some? && HitSource(m, layer, c, p, pos, k).value < n
    ensures forall j :: 0 <= j < |ws| ==>
      HitSource(m, layer, c, p, pos, ws[j].idx).Some? &&
      ws[j].value == Get(c.tiles, HitSource(m, layer, c, p, pos, ws[j].idx).value)
    decreases n
  {
    if n == 0 then []
    else
      var prev := PasteWrites(m, layer, c, p, pos, n - 1);
      HitSourceOf(m, layer, c, p, pos, n - 1);
      match Landing(m, c, p, pos, n - 1)
      case None => prev
      case Some(q) =>
        var w := Write(PointIdx(m, layer, q), Get(c.tiles, n - 1));
        WriteIndicesSnoc(prev + [w]);
        assert (prev + [w])[..|prev|] == prev;
        prev + [w]
  }

  /**
   * Stamping the whole clipboard: the change list records the edit, every
   * covered cell of the edit layer holds the clipboard cell that lands on
   * it, and every other cell of the map is unchanged.
   */
  lemma PasteWritesEffect(m: TileMap, layer: nat, c: Clipboard, p: PasteState, pos: Point)
    requires Valid(m) && layer < m.layers && c.width > 0 && c.height > 0
    ensures var res := BlindApply(m.tiles, PasteWrites(m, layer, c, p, pos, c.width * c.height));
      && Records(m.tiles, res.0, EditCommand(res.1))
      && forall l: nat, q: Point :: l < m.layers && InBounds(m, q.x, q.y) ==>
           PointIdx(m, l, q) < |m.tiles|
           && res.0[PointIdx(m, l, q)] ==
                if l == layer && Covered(c, p, pos, q) then ClipCell(c, PastedFrom(c, p, pos, q))
                else m.tiles[PointIdx(m, l, q)]
  {
    var ws := PasteWrites(m, layer, c, p, pos, c.width * c.height);
    BlindApplyDistinct(m.tiles, ws);
    var res := BlindApply(m.tiles, ws);
    forall l: nat, q: Point | l < m.layers && InBounds(m, q.x, q.y)
      ensures PointIdx(m, l, q) < |m.tiles|
      ensures res.0[PointIdx(m, l, q)] ==
        if l == layer && Covered(c, p, pos, q) then ClipCell(c, PastedFrom(c, p, pos, q))
        else m.tiles[PointIdx(m, l, q)]
    {
      var k := PointIdx(m, l, q);
      CoordsOfIdx(m, l, q.x, q.y);
      if k in WriteIndices(ws) {
        var j :| 0 <= j < |ws| && ws[j].idx == k;
      }
    }
  }

  /** The guards of `paste_with_mouse`: all must hold for a click to paste. */
  predicate Fires(tools: ToolState, keys: Keys, mouse: Mouse, menu: MenuState, c: Clipboard,
                  hasMap: bool, pos: Option<Point>)
  {
    && tools.tool == Paste
    && !MenuBlocks(menu)
    && !Held(keys, Space)
    && HasContent(c)
    && mouse.leftStart
    && hasMap
    && pos.Some?
  }

  /** After a paste that changed the map: return to the remembered tool and forget it. */
  function ReturnAfterPaste(tools: ToolState): (r: ToolState)
    ensures r.returnAfterPaste.None?
    ensures tools.returnAfterPaste.None? ==> r == tools
    ensures tools.returnAfterPaste.Some? ==> r.tool == tools.returnAfterPaste.value
  {
    if tools.returnAfterPaste.Some? then ToolState(tools.returnAfterPaste.value, None) else tools
  }

  /** One frame of `paste_with_mouse`. */
  function PasteStep(
    tools: ToolState, keys: Keys, mouse: Mouse, menu: MenuState, c: Clipboard, p: PasteState,
    activeLayer: nat, hasMap: bool, pos: Option<Point>, m: TileMap, undo: UndoStack)
    : (r: (TileMap, UndoStack, ToolState))
    requires Valid(m) && CursorOnMap(pos, m)
    ensures r.0 == m.(tiles := r.0.tiles) && |r.0.tiles| == |m.tiles|
    ensures !Fires(tools, keys, mouse, menu, c, hasMap, pos) ==> r == (m, undo, tools)
    ensures r.2 == tools || r.2 == ReturnAfterPaste(tools)
  {
    if !Fires(tools, keys, mouse, menu, c, hasMap, pos) then (m, undo, tools)
    else
      var layer := EditLayer(activeLayer, m);
      var (cells, changes) := BlindApply(m.tiles, PasteWrites(m, layer, c, p, pos.value, c.width * c.height));
      if changes == [] then (m, undo, tools)
      else
        var (m', undo') := Commit(m, undo, cells, changes);
        (m', undo', ReturnAfterPaste(tools))
  }

  /**
   * Every paste click is an undoable edit; the tool returns to the
   * remembered one exactly when the map changed; and a firing click leaves
   * each covered edit-layer cell holding the clipboard cell that lands on it
   * and every other cell unchanged.
   */
  lemma PasteStepEffect(
    tools: ToolState, keys: Keys, mouse: Mouse, menu: MenuState, c: Clipboard, p: PasteState,
    activeLayer: nat, hasMap: bool, pos: Option<Point>, m: TileMap, undo: UndoStack)
    requires Valid(m) && CursorOnMap(pos, m)
    ensures var r := PasteStep(tools, keys, mouse, menu, c, p, activeLayer, hasMap, pos, m, undo);
      && UndoableEdit(m, undo, r.0, r.1)
      && r.2 == (if r.0.tiles == m.tiles then tools else ReturnAfterPaste(tools))
    ensures var r := PasteStep(tools, keys, mouse, menu, c, p, activeLayer, hasMap, pos, m, undo);
      Fires(tools, keys, mouse, menu, c, hasMap, pos) ==>
        forall l: nat, q: Point :: l < m.layers && InBounds(m, q.x, q.y) ==>
          r.0.tiles[PointIdx(m, l, q)] ==
            if l == EditLayer(activeLayer, m) && Covered(c, p, pos.value, q)
            then ClipCell(c, PastedFrom(c, p, pos.value, q))
            else m.tiles[PointIdx(m, l, q)]
  {
    if Fires(tools, keys, mouse, menu, c, hasMap, pos) {
      var layer := EditLayer(activeLayer, m);
      var (cells, changes) := BlindApply(m.tiles, PasteWrites(m, layer, c, p, pos.value, c.width * c.height));
      PasteWritesEffect(m, layer, c, p, pos.value);
      RecordsEmpty(m.tiles, cells, EditCommand(changes));
    }
  }
}
