/**
 * Pencil and eraser strokes. Each frame with the left button down over the
 * map writes the active-layer cell under the cursor directly; the stroke
 * accumulates one change per cell and, when the button is released, its
 * net changes are recorded as a single command.
 */
module Paint {
  import opened Base
  import opened TileMapCore
  import opened Selection
  import opened Undo
  import opened Editor
  import opened Input

  /**
   * An active flag and the accumulated changes, keyed by index. The key map
   * is an association list with distinct keys, in insertion order.
   */
  datatype StrokeState = StrokeState(active: bool, changes: seq<CellChange>)

  const DefaultStroke: StrokeState := StrokeState(false, [])

  /** The entry for index `k`, if any. */
  function Lookup(changes: seq<CellChange>, k: nat): (r: Option<CellChange>)
    ensures r.Some? ==> r.value in changes && r.value.idx == k
    ensures r.None? <==> k !in Indices(changes)
  {
    if changes == [] then None
    else if changes[0].idx == k then Some(changes[0])
    else
      assert Indices(changes) == {changes[0].idx} + Indices(changes[1..]) by {
        assert forall i :: 0 <= i < |changes| - 1 ==> changes[1..][i] == changes[i + 1];
      }
      Lookup(changes[1..], k)
  }

  /** Position of the entry for index `k`, if any. */
  function Position(changes: seq<CellChange>, k: nat): (r: Option<nat>)
    ensures r.Some? ==> r.value < |changes| && changes[r.value].idx == k
    ensures r.None? <==> k !in Indices(changes)
  {
    if changes == [] then None
    else if changes[0].idx == k then Some(0)
    else
      assert Indices(changes) == {changes[0].idx} + Indices(changes[1..]) by {
        assert forall i :: 0 <= i < |changes| - 1 ==> changes[1..][i] == changes[i + 1];
      }
      match Position(changes[1..], k)
      case None => None
      case Some(p) => Some(p + 1)
  }

  /** `StrokeState::begin`: activate and forget earlier changes. */
  function Begin(s: StrokeState): (r: StrokeState)
    ensures r.active && r.changes == []
  {
    StrokeState(true, [])
  }

  /**
   * `StrokeState::record_change`: a new index gets (before, after); an index
   * already present keeps its first `before` and takes the new `after`.
   */
  function RecordChange(s: StrokeState, idx: nat, before: Cell, after: Cell): (r: StrokeState)
    requires DistinctIndices(s.changes)
    ensures r.active == s.active
    ensures DistinctIndices(r.changes)
    ensures Indices(r.changes) == Indices(s.changes) + {idx}
    ensures Lookup(s.changes, idx).Some? ==> Lookup(r.changes, idx) == Some(Lookup(s.changes, idx).value.(after := after))
    ensures Lookup(s.changes, idx).None? ==> Lookup(r.changes, idx) == Some(CellChange(idx, before, after))
    ensures forall k :: k != idx ==> Lookup(r.changes, k) == Lookup(s.changes, k)
  {
    match Position(s.changes, idx)
    case Some(p) =>
      var ch := s.changes[p := s.changes[p].(after := after)];
      LookupUpdate(s.changes, p, after);
      s.(changes := ch)
    case None =>
      var ch := s.changes + [CellChange(idx, before, after)];
      LookupAppend(s.changes, CellChange(idx, before, after));
      s.(changes := ch)
  }

  /** Updating the `after` of the entry at `p` updates only that key. */
  lemma {:induction false} LookupUpdate(changes: seq<CellChange>, p: nat, after: Cell)
    requires DistinctIndices(changes) && p < |changes|
    ensures var ch := changes[p := changes[p].(after := after)];
      && DistinctIndices(ch)
      && Indices(ch) == Indices(changes)
      && Lookup(ch, changes[p].idx) == Some(changes[p].(after := after))
      && Lookup(changes, changes[p].idx) == Some(changes[p])
      && forall k :: k != changes[p].idx ==> Lookup(ch, k) == Lookup(changes, k)
    decreases |changes|
  {
    var ch := changes[p := changes[p].(after := after)];
    assert forall i :: 0 <= i < |ch| ==> ch[i].idx == changes[i].idx;
    assert Indices(ch) == Indices(changes);
    if p > 0 {
      assert DistinctIndices(changes[1..]);
      LookupUpdate(changes[1..], p - 1, after);
      assert ch[1..] == changes[1..][p - 1 := changes[p].(after := after)];
    }
  }

  /** Appending an entry for a fresh key adds exactly that key. */
  lemma {:induction false} LookupAppend(changes: seq<CellChange>, c: CellChange)
    requires DistinctIndices(changes) && c.idx !in Indices(changes)
    ensures var ch := changes + [c];
      && DistinctIndices(ch)
      && Indices(ch) == Indices(changes) + {c.idx}
      && Lookup(ch, c.idx) == Some(c)
      && forall k :: k != c.idx ==> Lookup(ch, k) == Lookup(changes, k)
    decreases |changes|
  {
    var ch := changes + [c];
    assert forall i :: 0 <= i < |changes| ==> ch[i] == changes[i];
    assert Indices(ch) == Indices(changes) + {c.idx} by {
      assert ch[|changes|] == c;
    }
    if changes != [] {
      assert DistinctIndices(changes[1..]);
      LookupAppend(changes[1..], c);
      assert ch[1..] == changes[1..] + [c];
    }
  }

  // ---------------------------------------------------------------------
  // take_command: drop no-op entries and sort by index
  // ---------------------------------------------------------------------

  predicate StrictlySorted(changes: seq<CellChange>)
  {
    forall i, j :: 0 <= i < j < |changes| ==> changes[i].idx < changes[j].idx
  }

  /** Prepending an entry below every index keeps a list strictly sorted. */
  lemma ConsSorted(h: CellChange, rest: seq<CellChange>)
    requires StrictlySorted(rest)
    requires forall i :: 0 <= i < |rest| ==> h.idx < rest[i].idx
    ensures StrictlySorted([h] + rest)
  {
    var r := [h] + rest;
    assert forall i :: 1 <= i < |r| ==> r[i] == rest[i - 1];
  }

  /** Insert `c` into a list strictly sorted by index. */
  function InsertByIdx(sorted: seq<CellChange>, c: CellChange): (r: seq<CellChange>)
    requires StrictlySorted(sorted) && c.idx !in Indices(sorted)
    ensures StrictlySorted(r)
    ensures multiset(r) == multiset(sorted) + multiset{c}
    ensures forall i :: 0 <= i < |r| ==> r[i] == c || r[i] in sorted
    decreases |sorted|
  {
    if sorted == [] || c.idx < sorted[0].idx then
      ConsSorted(c, sorted);
      [c] + sorted
    else
      var tail := sorted[1..];
      assert sorted == [sorted[0]] + tail;
      assert c.idx !in Indices(tail);
      var rest := InsertByIdx(tail, c);
      InsertAbove(sorted, rest, c);
      ConsSorted(sorted[0], rest);
      [sorted[0]] + rest
  }

  /** Inserting into the tail of a sorted list keeps every entry above its head. */
  lemma InsertAbove(sorted: seq<CellChange>, rest: seq<CellChange>, c: CellChange)
    requires StrictlySorted(sorted) && |sorted| > 0 && sorted[0].idx < c.idx
    requires forall i :: 0 <= i < |rest| ==> rest[i] == c || rest[i] in sorted[1..]
    ensures forall i :: 0 <= i < |rest| ==> sorted[0].idx < rest[i].idx
  {
    forall i | 0 <= i < |rest| ensures sorted[0].idx < rest[i].idx {
      if rest[i] != c {
        var j :| 0 <= j < |sorted| - 1 && sorted[1..][j] == rest[i];
        assert sorted[j + 1] == rest[i];
      }
    }
  }

  /** The entries whose before and after differ, in order. */
  function Effective(changes: seq<CellChange>): (r: seq<CellChange>)
    ensures AllEffective(r)
    ensures forall c :: c in r <==> c in changes && c.before != c.after
    ensures |r| <= |changes|
  {
    if changes == [] then []
    else
      var rest := Effective(changes[..|changes| - 1]);
      var c := changes[|changes| - 1];
      assert changes == changes[..|changes| - 1] + [c];
      if c.before != c.after then rest + [c] else rest
  }

  /** Sort distinct-keyed entries by index. */
  function SortByIdx(changes: seq<CellChange>): (r: seq<CellChange>)
    requires DistinctIndices(changes)
    ensures StrictlySorted(r)
    ensures multiset(r) == multiset(changes)
    ensures Indices(r) == Indices(changes)
    decreases |changes|
  {
    if changes == [] then []
    else
      var init := changes[..|changes| - 1];
      var c := changes[|changes| - 1];
      assert forall i :: 0 <= i < |init| ==> init[i] == changes[i];
      assert changes == init + [c];
      assert Indices(changes) == Indices(init) + {c.idx};
      assert c.idx !in Indices(init);
      var r := InsertByIdx(SortByIdx(init), c);
      MultisetIndices(r, init + [c]);
      r
  }

  /** A listed entry's index is among the list's indices. */
  lemma MemberIndex(changes: seq<CellChange>, e: CellChange)
    ensures e in changes ==> e.idx in Indices(changes)
  {
    if e in changes {
      var p :| 0 <= p < |changes| && changes[p] == e;
    }
  }

  /** Lists with the same entries mention the same indices. */
  lemma MultisetIndices(a: seq<CellChange>, b: seq<CellChange>)
    requires multiset(a) == multiset(b)
    ensures Indices(a) == Indices(b)
  {
    forall k | k in Indices(a) ensures k in Indices(b) {
      var i :| 0 <= i < |a| && a[i].idx == k;
      assert a[i] in multiset(b);
      var j :| 0 <= j < |b| && b[j] == a[i];
    }
    forall k | k in Indices(b) ensures k in Indices(a) {
      var i :| 0 <= i < |b| && b[i].idx == k;
      assert b[i] in multiset(a);
      var j :| 0 <= j < |a| && a[j] == b[i];
    }
  }

  /** `StrokeState::take_command`: the effective changes sorted by index; the accumulator empties. */
  function TakeCommand(s: StrokeState): (r: (EditCommand, StrokeState))
    requires DistinctIndices(s.changes)
    ensures r.1 == s.(changes := [])
    ensures StrictlySorted(r.0.changes) && DistinctIndices(r.0.changes)
    ensures AllEffective(r.0.changes)
    ensures forall c :: c in r.0.changes <==> c in s.changes && c.before != c.after
  {
    var eff := Effective(s.changes);
    assert DistinctIndices(eff) by {
      DistinctSubset(s.changes, eff);
    }
    var sorted := SortByIdx(eff);
    SameEntries(sorted, eff);
    (EditCommand(sorted), s.(changes := []))
  }

  /** Lists with the same multiset hold the same entries. */
  lemma SameEntries(a: seq<CellChange>, b: seq<CellChange>)
    requires multiset(a) == multiset(b)
    ensures forall c :: c in a <==> c in b
  {
    forall c ensures c in a <==> c in b {
      assert c in a <==> c in multiset(a);
      assert c in b <==> c in multiset(b);
    }
  }

  /**
   * A list whose entries all come from a distinct-keyed list, and which
   * itself has no repeated entry, is distinct-keyed.
   */
  lemma DistinctSubset(changes: seq<CellChange>, sub: seq<CellChange>)
    requires DistinctIndices(changes)
    requires sub == Effective(changes)
    ensures DistinctIndices(sub)
    decreases |changes|
  {
    if changes != [] {
      var init := changes[..|changes| - 1];
      assert DistinctIndices(init);
      DistinctSubset(init, Effective(init));
      var c := changes[|changes| - 1];
      forall e | e in Effective(init)
        ensures e.idx != c.idx
      {
        var i :| 0 <= i < |init| && init[i] == e;
        assert changes[i] == e;
      }
    }
  }

  /** Entries with equal keys in a distinct-keyed list are the same entry. */
  lemma SameKeySameEntry(changes: seq<CellChange>, a: CellChange, b: CellChange)
    requires DistinctIndices(changes) && a in changes && b in changes && a.idx == b.idx
    ensures a == b
  {
  }

  /**
   * A stroke's accumulated changes that faithfully record the edit since the
   * stroke began also give a faithful command once taken.
   */
  lemma TakeCommandRecords(start: seq<Cell>, cur: seq<Cell>, s: StrokeState)
    requires Records(start, cur, EditCommand(s.changes))
    ensures Records(start, cur, TakeCommand(s).0)
  {
    var cmd := TakeCommand(s).0;
    forall i | 0 <= i < |cmd.changes|
      ensures cmd.changes[i].idx < |start|
      ensures cmd.changes[i].before == start[cmd.changes[i].idx] && cmd.changes[i].after == cur[cmd.changes[i].idx]
    {
      assert cmd.changes[i] in s.changes;
    }
    forall k | 0 <= k < |start| && k !in Indices(cmd.changes)
      ensures start[k] == cur[k]
    {
      if k in Indices(s.changes) {
        var j :| 0 <= j < |s.changes| && s.changes[j].idx == k;
        var e := s.changes[j];
        assert e in cmd.changes <==> e.before != e.after;
        MemberIndex(cmd.changes, e);
      }
    }
  }

  // ---------------------------------------------------------------------
  // paint_with_mouse
  // ---------------------------------------------------------------------

  /** What the tool writes: the selected tile of the active tileset, or nothing for the eraser. */
  function Desired(tool: ToolKind, activeId: Option<string>, selectedTile: nat): (c: Cell)
    requires tool == Eraser || activeId.Some?
    ensures tool == Eraser ==> c.None?
    ensures tool != Eraser ==> c == Some(TileRef(activeId.value, selectedTile, 0, false, false))
  {
    if tool == Eraser then None else Some(TileRef(activeId.value, selectedTile, 0, false, false))
  }

  /** The frame-independent conditions under which the stroke system runs at all. */
  predicate Enabled(tool: ToolKind, keys: Keys, menu: MenuState, activeId: Option<string>, hasMap: bool)
  {
    && (tool == Pencil || tool == Eraser)
    && !MenuBlocks(menu)
    && !Held(keys, Alt) && !Held(keys, Space)
    && (tool == Pencil ==> activeId.Some?)
    && hasMap
  }

  /** The frame ends an active stroke. */
  predicate Ends(mouse: Mouse, stroke: StrokeState)
  {
    stroke.active && (mouse.leftEnd || !mouse.leftDown)
  }

  /** The frame begins a new stroke. */
  predicate Begins(mouse: Mouse, pos: Option<Point>, stroke: StrokeState)
  {
    !stroke.active && pos.Some? && mouse.leftStart
  }

  /** One frame of `paint_with_mouse`. */
  function PaintStep(
    tool: ToolKind, keys: Keys, mouse: Mouse, menu: MenuState, activeId: Option<string>,
    selectedTile: nat, activeLayer: nat, hasMap: bool, pos: Option<Point>,
    m: TileMap, undo: UndoStack, stroke: StrokeState)
    : (r: (TileMap, UndoStack, StrokeState))
    requires DistinctIndices(stroke.changes)
    ensures DistinctIndices(r.2.changes)
    ensures r.0 == m.(tiles := r.0.tiles) && |r.0.tiles| == |m.tiles|
    ensures !Enabled(tool, keys, menu, activeId, hasMap) ==> r == (m, undo, stroke)
    ensures Enabled(tool, keys, menu, activeId, hasMap) && Ends(mouse, stroke) ==>
      r == (m, Push(undo, TakeCommand(stroke).0), StrokeState(false, []))
    ensures Enabled(tool, keys, menu, activeId, hasMap) && !Ends(mouse, stroke) ==>
      && r.1 == undo
      && r.2.active == (stroke.active || Begins(mouse, pos, stroke))
      && (forall k :: 0 <= k < |m.tiles| && (pos.None? || k != PointIdx(m, EditLayer(activeLayer, m), pos.value))
            ==> r.0.tiles[k] == m.tiles[k])
      && (pos.Some? && mouse.leftDown && PointIdx(m, EditLayer(activeLayer, m), pos.value) < |m.tiles| ==>
            r.0.tiles[PointIdx(m, EditLayer(activeLayer, m), pos.value)] == Desired(tool, activeId, selectedTile))
  {
    if !Enabled(tool, keys, menu, activeId, hasMap) then (m, undo, stroke)
    else if Ends(mouse, stroke) then
      var (cmd, s) := TakeCommand(stroke);
      (m, Push(undo, cmd), s.(active := false))
    else
      var s1 := if Begins(mouse, pos, stroke) then Begin(stroke) else stroke;
      if pos.None? then (m, undo, s1)
      else
        var idx := PointIdx(m, EditLayer(activeLayer, m), pos.value);
        if idx >= |m.tiles| || !mouse.leftDown then (m, undo, s1)
        else
          var desired := Desired(tool, activeId, selectedTile);
          if m.tiles[idx] == desired then (m, undo, s1)
          else (m.(tiles := m.tiles[idx := desired]), undo, RecordChange(s1, idx, m.tiles[idx], desired))
  }

  /**
   * The stroke invariant: the accumulated changes faithfully record the edit
   * from the map as it was when the stroke (re)started. Painting keeps it,
   * a new stroke restarts it from the current map, and on release the pushed
   * command records the whole stroke, so one undo reverts it.
   */
  lemma PaintStepKeepsStroke(
    tool: ToolKind, keys: Keys, mouse: Mouse, menu: MenuState, activeId: Option<string>,
    selectedTile: nat, activeLayer: nat, hasMap: bool, pos: Option<Point>,
    m: TileMap, undo: UndoStack, stroke: StrokeState, start: seq<Cell>)
    requires Records(start, m.tiles, EditCommand(stroke.changes))
    ensures var r := PaintStep(tool, keys, mouse, menu, activeId, selectedTile, activeLayer, hasMap, pos, m, undo, stroke);
      var start' := if Enabled(tool, keys, menu, activeId, hasMap) && !Ends(mouse, stroke) && Begins(mouse, pos, stroke)
        then m.tiles else start;
      && (!Ends(mouse, stroke) || !Enabled(tool, keys, menu, activeId, hasMap) ==>
            Records(start', r.0.tiles, EditCommand(r.2.changes)))
      && (Ends(mouse, stroke) && Enabled(tool, keys, menu, activeId, hasMap) ==>
            && r.0 == m && r.2.changes == []
            && r.1 == Push(undo, TakeCommand(stroke).0)
            && Records(start, m.tiles, TakeCommand(stroke).0))
  {
    var r := PaintStep(tool, keys, mouse, menu, activeId, selectedTile, activeLayer, hasMap, pos, m, undo, stroke);
    if Enabled(tool, keys, menu, activeId, hasMap) {
      if Ends(mouse, stroke) {
        TakeCommandRecords(start, m.tiles, stroke);
      } else {
        var began := Begins(mouse, pos, stroke);
        var s1 := if began then Begin(stroke) else stroke;
        var st := if began then m.tiles else start;
        assert Records(st, m.tiles, EditCommand(s1.changes));
        if pos.Some? {
          var idx := PointIdx(m, EditLayer(activeLayer, m), pos.value);
          if idx < |m.tiles| && mouse.leftDown {
            var desired := Desired(tool, activeId, selectedTile);
            if m.tiles[idx] != desired {
              RecordStepKeeps(st, m.tiles, s1, idx, desired);
            }
          }
        }
      }
    }
  }

  /** Writing one cell and recording it keeps the stroke invariant. */
  lemma RecordStepKeeps(start: seq<Cell>, cur: seq<Cell>, s: StrokeState, idx: nat, v: Cell)
    requires Records(start, cur, EditCommand(s.changes)) && idx < |cur|
    ensures Records(start, cur[idx := v], EditCommand(RecordChange(s, idx, cur[idx], v).changes))
  {
    var r := RecordChange(s, idx, cur[idx], v);
    var cur' := cur[idx := v];
    forall i | 0 <= i < |r.changes|
      ensures r.changes[i].idx < |start|
      ensures r.changes[i].before == start[r.changes[i].idx] && r.changes[i].after == cur'[r.changes[i].idx]
    {
      var c := r.changes[i];
      assert c.idx in Indices(r.changes);
      var l := Lookup(r.changes, c.idx);
      SameKeySameEntry(r.changes, l.value, c);
      if c.idx != idx {
        var o := Lookup(s.changes, c.idx).value;
        assert o in s.changes;
      } else {
        if Lookup(s.changes, idx).Some? {
          var o := Lookup(s.changes, idx).value;
          assert o in s.changes;
        }
      }
    }
  }

  /**
   * As written: the Eraser paints whenever the button is held over a cell,
   * even with no stroke begun (the press came off the map, or with Alt or
   * Space held). On a 1 x 1 map holding `t`, such a frame erases the cell
   * and records it only into the inactive stroke; the release frame then
   * pushes nothing, so the erase is on the map with the undo stack empty.
   */
  lemma StrayPaintNotUndoable(t: TileRef)
    ensures var m := TileMap(1, 1, 1, [Some(t)], []);
      var menu := MenuState(false, None, false, 0);
      var r1 := PaintStep(Eraser, Keys({}, {}, {}), Mouse(false, true, false, false), menu, None, 0, 0, true,
                          Some(Point(0, 0)), m, EmptyStack, DefaultStroke);
      var r2 := PaintStep(Eraser, Keys({}, {}, {}), Mouse(false, false, true, false), menu, None, 0, 0, true,
                          Some(Point(0, 0)), r1.0, r1.1, r1.2);
      && r1.0.tiles == [None] && r1.1 == EmptyStack && !r1.2.active
      && r2.0.tiles == [None] && r2.1 == EmptyStack
      && UndoStep(r2.0, r2.1).0.tiles == [None]
  {
  }

  /**
   * Corrected: a frame paints only into a stroke, active already or begun by
   * this frame's press on the map; with neither, it changes nothing.
   */
  function PaintStepCorrected(
    tool: ToolKind, keys: Keys, mouse: Mouse, menu: MenuState, activeId: Option<string>,
    selectedTile: nat, activeLayer: nat, hasMap: bool, pos: Option<Point>,
    m: TileMap, undo: UndoStack, stroke: StrokeState)
    : (r: (TileMap, UndoStack, StrokeState))
    requires DistinctIndices(stroke.changes)
    ensures DistinctIndices(r.2.changes)
    ensures !stroke.active && !r.2.active ==> r == (m, undo, stroke)
    ensures stroke.active || r.2.active ==>
      r == PaintStep(tool, keys, mouse, menu, activeId, selectedTile, activeLayer, hasMap, pos, m, undo, stroke)
  {
    if Enabled(tool, keys, menu, activeId, hasMap) && !stroke.active && !Begins(mouse, pos, stroke) then (m, undo, stroke)
    else PaintStep(tool, keys, mouse, menu, activeId, selectedTile, activeLayer, hasMap, pos, m, undo, stroke)
  }

  /**
   * Between strokes nothing is pending and the map is where the last stroke
   * left it; during a stroke its changes faithfully record the edit since
   * the stroke began at `start`.
   */
  predicate StrokeKeeps(start: seq<Cell>, m: TileMap, stroke: StrokeState)
  {
    && Records(start, m.tiles, EditCommand(stroke.changes))
    && (!stroke.active ==> stroke.changes == [] && start == m.tiles)
  }

  /**
   * With the corrected step every edit of the map is undoable: each frame
   * keeps the stroke invariant, and a release pushes one command that
   * reverts the whole stroke from the map it began on.
   */
  lemma PaintStepCorrectedUndoable(
    tool: ToolKind, keys: Keys, mouse: Mouse, menu: MenuState, activeId: Option<string>,
    selectedTile: nat, activeLayer: nat, hasMap: bool, pos: Option<Point>,
    m: TileMap, undo: UndoStack, stroke: StrokeState, start: seq<Cell>)
    requires StrokeKeeps(start, m, stroke)
    ensures var r := PaintStepCorrected(tool, keys, mouse, menu, activeId, selectedTile, activeLayer, hasMap, pos, m, undo, stroke);
      && (stroke.active && !r.2.active ==> UndoableEdit(m.(tiles := start), undo, r.0, r.1))
      && (!stroke.active || r.2.active ==> r.1 == undo)
      && StrokeKeeps(if stroke.active && r.2.active then start else if r.2.active then m.tiles else r.0.tiles, r.0, r.2)
  {
    var r := PaintStepCorrected(tool, keys, mouse, menu, activeId, selectedTile, activeLayer, hasMap, pos, m, undo, stroke);
    PaintStepKeepsStroke(tool, keys, mouse, menu, activeId, selectedTile, activeLayer, hasMap, pos, m, undo, stroke, start);
    if stroke.active && !r.2.active {
      if Enabled(tool, keys, menu, activeId, hasMap) && Ends(mouse, stroke) {
        var cmd := TakeCommand(stroke).0;
        var _ := Commit(m.(tiles := start), undo, m.tiles, cmd.changes);
      }
    }
  }
}
