/**
 * The flood-fill tool: a click replaces the 4-connected region of cells
 * holding the clicked cell's value, on the edit layer, by the desired
 * value, as one undoable command. The region is found breadth-first with a
 * visited flag per cell, as in the original.
 */
module Fill {
  import opened Base
  import opened TileMapCore
  import opened Input
  import opened Selection
  import opened Undo
  import opened Edits
  import opened Editor

  // ---------------------------------------------------------------------
  // The region
  // ---------------------------------------------------------------------

  /** 4-adjacency of grid cells. */
  predicate Adjacent(a: Point, b: Point)
  {
    || (a.y == b.y && (a.x + 1 == b.x || b.x + 1 == a.x))
    || (a.x == b.x && (a.y + 1 == b.y || b.y + 1 == a.y))
  }

  /** The value of cell `p` on `layer`. */
  function ValueAt(m: TileMap, layer: nat, p: Point): Cell
  {
    CellAt(m, layer, p.x, p.y)
  }

  /**
   * A walk on the map from `start`: consecutive cells are adjacent, all lie
   * on the map, and every cell but possibly the last holds `target`.
   */
  ghost predicate IsWalk(m: TileMap, layer: nat, target: Cell, start: Point, path: seq<Point>)
  {
    && |path| > 0 && path[0] == start
    && (forall i :: 0 <= i < |path| ==> InBounds(m, path[i].x, path[i].y))
    && (forall i :: 0 <= i < |path| - 1 ==> Adjacent(path[i], path[i + 1]) && ValueAt(m, layer, path[i]) == target)
  }

  /** `p` ends some walk from `start` through `target` cells. */
  ghost predicate Reaches(m: TileMap, layer: nat, target: Cell, start: Point, p: Point)
  {
    exists path :: IsWalk(m, layer, target, start, path) && path[|path| - 1] == p
  }

  /** `p` is in the 4-connected region of cells holding the start cell's value. */
  ghost predicate InRegion(m: TileMap, layer: nat, start: Point, p: Point)
  {
    && InBounds(m, p.x, p.y)
    && ValueAt(m, layer, p) == ValueAt(m, layer, start)
    && Reaches(m, layer, ValueAt(m, layer, start), start, p)
  }

  /** The start cell is in its own region. */
  lemma StartInRegion(m: TileMap, layer: nat, start: Point)
    requires InBounds(m, start.x, start.y)
    ensures InRegion(m, layer, start, start)
  {
    assert IsWalk(m, layer, ValueAt(m, layer, start), start, [start]);
  }

  /** A walk to a `target` cell extends to any neighbour on the map. */
  lemma WalkExtend(m: TileMap, layer: nat, target: Cell, start: Point, p: Point, n: Point)
    requires Reaches(m, layer, target, start, p) && ValueAt(m, layer, p) == target
    requires Adjacent(p, n) && InBounds(m, n.x, n.y)
    ensures Reaches(m, layer, target, start, n)
  {
    var path :| IsWalk(m, layer, target, start, path) && path[|path| - 1] == p;
    var path' := path + [n];
    assert IsWalk(m, layer, target, start, path');
  }

  // ---------------------------------------------------------------------
  // The breadth-first search state
  // ---------------------------------------------------------------------

  /** Number of unvisited cells. */
  function CountFalse(s: seq<bool>): (n: nat)
    ensures n <= |s|
  {
    if s == [] then 0 else (if s[0] then 0 else 1) + CountFalse(s[1..])
  }

  /** Visiting an unvisited cell leaves one fewer. */
  lemma {:induction false} CountFalseMark(s: seq<bool>, k: nat)
    requires k < |s| && !s[k]
    ensures CountFalse(s[k := true]) == CountFalse(s) - 1
  {
    if k > 0 {
      assert s[k := true][1..] == s[1..][k - 1 := true];
      CountFalseMark(s[1..], k - 1);
    } else {
      assert s[k := true][1..] == s[1..];
    }
  }

  /**
   * The `push` closure: queue (nx, ny) and mark it visited, unless it is off
   * the map or already visited.
   */
  function Enqueue(m: TileMap, visited: seq<bool>, q: seq<Point>, nx: int, ny: int): (r: (seq<bool>, seq<Point>))
    requires |visited| == LayerLen(m)
    ensures |r.0| == |visited|
    ensures r == (visited, q) || (
      && 0 <= nx < m.width && 0 <= ny < m.height
      && !visited[Idx(m, nx, ny)]
      && r == (visited[Idx(m, nx, ny) := true], q + [Point(nx, ny)])
      && CountFalse(r.0) < CountFalse(visited))
    ensures 0 <= nx < m.width && 0 <= ny < m.height ==> r.0[Idx(m, nx, ny)]
    ensures forall k :: 0 <= k < |visited| && visited[k] ==> r.0[k]
  {
    if nx < 0 || ny < 0 then (visited, q)
    else if nx >= m.width || ny >= m.height then (visited, q)
    else
      var k := Idx(m, nx, ny);
      if visited[k] then (visited, q)
      else
        CountFalseMark(visited, k);
        (visited[k := true], q + [Point(nx, ny)])
  }

  /**
   * The search invariant. `pts` are the cells filled so far, in order, each
   * recorded by the change at the same position; `rejected` are the dequeued
   * cells that did not hold the target. Every visited cell is filled, queued
   * or rejected (and in exactly one of them); the neighbours of every filled
   * cell have been visited; and everything filled or queued is reachable.
   */
  ghost predicate Bookkeeping(
    m: TileMap, layer: nat, target: Cell, desired: Cell,
    cells: seq<Cell>, changes: seq<CellChange>, pts: seq<Point>)
    requires Valid(m) && layer < m.layers
  {
    && Records(m.tiles, cells, EditCommand(changes))
    && |pts| == |changes|
    && (forall i :: 0 <= i < |pts| ==>
          InBounds(m, pts[i].x, pts[i].y) && changes[i] == CellChange(PointIdx(m, layer, pts[i]), target, desired))
  }

  ghost predicate Frontier(
    m: TileMap, visited: seq<bool>, q: seq<Point>, pts: seq<Point>, rejected: set<Point>)
    requires |visited| == LayerLen(m)
  {
    && (forall p :: p in q ==> InBounds(m, p.x, p.y))
    && (forall p :: p in q ==> p !in pts && p !in rejected)
    && (forall i, j :: 0 <= i < j < |q| ==> q[i] != q[j])
    && (forall p: Point :: InBounds(m, p.x, p.y) ==>
          (visited[Idx(m, p.x, p.y)] <==> p in pts || p in q || p in rejected))
  }

  ghost predicate Closed(m: TileMap, visited: seq<bool>, pts: seq<Point>)
    requires |visited| == LayerLen(m)
  {
    forall i, n: Point :: 0 <= i < |pts| && InBounds(m, n.x, n.y) && Adjacent(pts[i], n) ==> visited[Idx(m, n.x, n.y)]
  }

  ghost predicate Sound(m: TileMap, layer: nat, target: Cell, start: Point, q: seq<Point>, pts: seq<Point>, rejected: set<Point>)
  {
    && (forall p :: p in q ==> Reaches(m, layer, target, start, p))
    && (forall i :: 0 <= i < |pts| ==> Reaches(m, layer, target, start, pts[i]))
    && (forall p :: p in rejected ==> InBounds(m, p.x, p.y) && ValueAt(m, layer, p) != target)
  }

  /** Distinct cells of the map have distinct visited flags. */
  lemma IdxInjective(m: TileMap, a: Point, b: Point)
    requires InBounds(m, a.x, a.y) && InBounds(m, b.x, b.y)
    ensures Idx(m, a.x, a.y) == Idx(m, b.x, b.y) ==> a == b
  {
    if Idx(m, a.x, a.y) == Idx(m, b.x, b.y) {
      IdxLayerInjective(m, 0, a.x, a.y, 0, b.x, b.y);
    }
  }

  /** A cell not yet filled has no change recorded and still holds its original value. */
  lemma Unfilled(m: TileMap, layer: nat, target: Cell, desired: Cell,
                 cells: seq<Cell>, changes: seq<CellChange>, pts: seq<Point>, p: Point)
    requires Valid(m) && layer < m.layers && InBounds(m, p.x, p.y)
    requires Bookkeeping(m, layer, target, desired, cells, changes, pts)
    ensures p !in pts ==> PointIdx(m, layer, p) !in Indices(changes) && cells[PointIdx(m, layer, p)] == m.tiles[PointIdx(m, layer, p)]
  {
    if PointIdx(m, layer, p) in Indices(changes) {
      var i :| 0 <= i < |changes| && changes[i].idx == PointIdx(m, layer, p);
      IdxLayerInjective(m, layer, pts[i].x, pts[i].y, layer, p.x, p.y);
    }
  }

  /** Queueing a neighbour of a newly filled reachable cell keeps the frontier and soundness invariants. */
  lemma EnqueueKeeps(
    m: TileMap, layer: nat, target: Cell, start: Point,
    visited: seq<bool>, q: seq<Point>, pts: seq<Point>, rejected: set<Point>, p: Point, nx: int, ny: int)
    requires Valid(m) && layer < m.layers && |visited| == LayerLen(m)
    requires Frontier(m, visited, q, pts, rejected) && Sound(m, layer, target, start, q, pts, rejected)
    requires Reaches(m, layer, target, start, p) && ValueAt(m, layer, p) == target
    requires 0 <= nx && 0 <= ny ==> Adjacent(p, Point(nx, ny))
    ensures var r := Enqueue(m, visited, q, nx, ny);
      Frontier(m, r.0, r.1, pts, rejected) && Sound(m, layer, target, start, r.1, pts, rejected)
      && (forall k :: 0 <= k < |visited| && visited[k] ==> r.0[k])
  {
    var r := Enqueue(m, visited, q, nx, ny);
    if r != (visited, q) {
      var n := Point(nx, ny);
      forall p': Point | InBounds(m, p'.x, p'.y)
        ensures r.0[Idx(m, p'.x, p'.y)] <==> p' in pts || p' in r.1 || p' in rejected
      {
        IdxInjective(m, p', n);
      }
      WalkExtend(m, layer, target, start, p, n);
      assert forall i :: 0 <= i < |q| ==> r.1[i] == q[i];
    }
  }

  /** The cells the search tries from `p`, in order: left, right, up, down. */
  function Neighbours(p: Point): (ns: seq<(int, int)>)
    ensures forall j :: 0 <= j < |ns| && 0 <= ns[j].0 && 0 <= ns[j].1 ==> Adjacent(p, Point(ns[j].0, ns[j].1))
    ensures forall n: Point :: Adjacent(p, n) ==> (n.x, n.y) in ns
  {
    [(p.x - 1, p.y), (p.x + 1, p.y), (p.x, p.y - 1), (p.x, p.y + 1)]
  }

  /** Queue each candidate in order. */
  function EnqueueAll(m: TileMap, visited: seq<bool>, q: seq<Point>, ns: seq<(int, int)>): (r: (seq<bool>, seq<Point>))
    requires |visited| == LayerLen(m)
    ensures |r.0| == |visited|
    ensures r == (visited, q) || CountFalse(r.0) < CountFalse(visited)
    ensures forall k :: 0 <= k < |visited| && visited[k] ==> r.0[k]
    ensures forall j :: 0 <= j < |ns| && 0 <= ns[j].0 < m.width && 0 <= ns[j].1 < m.height ==> r.0[Idx(m, ns[j].0, ns[j].1)]
    decreases |ns|
  {
    if ns == [] then (visited, q)
    else
      var r := Enqueue(m, visited, q, ns[0].0, ns[0].1);
      EnqueueAll(m, r.0, r.1, ns[1..])
  }

  /** Queue the neighbours of `p`. */
  function Expand(m: TileMap, visited: seq<bool>, q: seq<Point>, p: Point): (r: (seq<bool>, seq<Point>))
    requires |visited| == LayerLen(m)
    ensures |r.0| == |visited|
    ensures r == (visited, q) || CountFalse(r.0) < CountFalse(visited)
    ensures forall k :: 0 <= k < |visited| && visited[k] ==> r.0[k]
    ensures forall n: Point :: InBounds(m, n.x, n.y) && Adjacent(p, n) ==> r.0[Idx(m, n.x, n.y)]
  {
    EnqueueAll(m, visited, q, Neighbours(p))
  }

  /** Queueing neighbours of a filled reachable cell keeps the frontier and soundness invariants. */
  lemma {:induction false} EnqueueAllKeeps(
    m: TileMap, layer: nat, target: Cell, start: Point,
    visited: seq<bool>, q: seq<Point>, pts: seq<Point>, rejected: set<Point>, p: Point, ns: seq<(int, int)>)
    requires Valid(m) && layer < m.layers && |visited| == LayerLen(m)
    requires Frontier(m, visited, q, pts, rejected) && Sound(m, layer, target, start, q, pts, rejected)
    requires Reaches(m, layer, target, start, p) && ValueAt(m, layer, p) == target
    requires forall j :: 0 <= j < |ns| && 0 <= ns[j].0 && 0 <= ns[j].1 ==> Adjacent(p, Point(ns[j].0, ns[j].1))
    ensures var r := EnqueueAll(m, visited, q, ns);
      Frontier(m, r.0, r.1, pts, rejected) && Sound(m, layer, target, start, r.1, pts, rejected)
    decreases |ns|
  {
    if ns != [] {
      var r := Enqueue(m, visited, q, ns[0].0, ns[0].1);
      EnqueueKeeps(m, layer, target, start, visited, q, pts, rejected, p, ns[0].0, ns[0].1);
      EnqueueAllKeeps(m, layer, target, start, r.0, r.1, pts, rejected, p, ns[1..]);
    }
  }

  /** After expanding the last filled cell, every filled cell has its neighbours visited. */
  lemma ExpandCloses(m: TileMap, visited: seq<bool>, q: seq<Point>, pts: seq<Point>)
    requires |visited| == LayerLen(m) && |pts| > 0
    requires Closed(m, visited, pts[..|pts| - 1])
    ensures Closed(m, Expand(m, visited, q, pts[|pts| - 1]).0, pts)
  {
    var r := Expand(m, visited, q, pts[|pts| - 1]);
    forall i, n: Point | 0 <= i < |pts| - 1 && InBounds(m, n.x, n.y) && Adjacent(pts[i], n)
      ensures r.0[Idx(m, n.x, n.y)]
    {
      assert pts[..|pts| - 1][i] == pts[i];
    }
  }

  /**
   * When the queue is empty, every cell of the region has been filled: walk
   * along a path of the region, each step lands on a visited cell that cannot
   * have been rejected.
   */
  lemma {:induction false} WalkFilled(
    m: TileMap, layer: nat, target: Cell, start: Point,
    visited: seq<bool>, pts: seq<Point>, rejected: set<Point>, path: seq<Point>, j: nat)
    requires Valid(m) && layer < m.layers && |visited| == LayerLen(m)
    requires Frontier(m, visited, [], pts, rejected) && Closed(m, visited, pts)
    requires Sound(m, layer, target, start, [], pts, rejected)
    requires InBounds(m, start.x, start.y) && visited[Idx(m, start.x, start.y)]
    requires IsWalk(m, layer, target, start, path) && j < |path|
    requires forall i :: 0 <= i <= j ==> ValueAt(m, layer, path[i]) == target
    ensures path[j] in pts
    decreases j
  {
    if j > 0 {
      WalkFilled(m, layer, target, start, visited, pts, rejected, path, j - 1);
      var i :| 0 <= i < |pts| && pts[i] == path[j - 1];
      assert Adjacent(pts[i], path[j]);
    }
    assert path[j] !in rejected;
  }

  /** The filled cells are exactly the region. */
  lemma FilledIsRegion(
    m: TileMap, layer: nat, desired: Cell, start: Point,
    cells: seq<Cell>, changes: seq<CellChange>, visited: seq<bool>, pts: seq<Point>, rejected: set<Point>)
    requires Valid(m) && layer < m.layers && |visited| == LayerLen(m) && InBounds(m, start.x, start.y)
    requires Bookkeeping(m, layer, ValueAt(m, layer, start), desired, cells, changes, pts)
    requires Frontier(m, visited, [], pts, rejected) && Closed(m, visited, pts)
    requires Sound(m, layer, ValueAt(m, layer, start), start, [], pts, rejected)
    requires visited[Idx(m, start.x, start.y)]
    ensures forall p: Point :: InBounds(m, p.x, p.y) ==> (p in pts <==> InRegion(m, layer, start, p))
  {
    var target := ValueAt(m, layer, start);
    forall p: Point | InBounds(m, p.x, p.y)
      ensures p in pts <==> InRegion(m, layer, start, p)
    {
      if InRegion(m, layer, start, p) {
        var path :| IsWalk(m, layer, target, start, path) && path[|path| - 1] == p;
        WalkFilled(m, layer, target, start, visited, pts, rejected, path, |path| - 1);
      }
      if p in pts {
        var i :| 0 <= i < |pts| && pts[i] == p;
        IdxLayerInRange(m, layer, p.x, p.y);
        assert changes[i].before == m.tiles[PointIdx(m, layer, p)];
      }
    }
  }

  /** The final map: region cells on the layer hold `desired`, every other cell is unchanged. */
  lemma FinalCells(
    m: TileMap, layer: nat, desired: Cell, start: Point,
    cells: seq<Cell>, changes: seq<CellChange>, pts: seq<Point>)
    requires Valid(m) && layer < m.layers && InBounds(m, start.x, start.y)
    requires Bookkeeping(m, layer, ValueAt(m, layer, start), desired, cells, changes, pts)
    requires forall p: Point :: InBounds(m, p.x, p.y) ==> (p in pts <==> InRegion(m, layer, start, p))
    ensures forall l: nat, p: Point :: l < m.layers && InBounds(m, p.x, p.y) ==>
      cells[PointIdx(m, l, p)] == if l == layer && InRegion(m, layer, start, p) then desired else m.tiles[PointIdx(m, l, p)]
  {
    forall l: nat, p: Point | l < m.layers && InBounds(m, p.x, p.y)
      ensures cells[PointIdx(m, l, p)] ==
        if l == layer && InRegion(m, layer, start, p) then desired else m.tiles[PointIdx(m, l, p)]
    {
      var k := PointIdx(m, l, p);
      if l == layer && p in pts {
        var i :| 0 <= i < |pts| && pts[i] == p;
        assert changes[i].after == cells[k];
      } else if k in Indices(changes) {
        var i :| 0 <= i < |changes| && changes[i].idx == k;
        IdxLayerInjective(m, layer, pts[i].x, pts[i].y, l, p.x, p.y);
        assert false;
      }
    }
  }

  /** The loop invariant of the search. */
  ghost predicate Inv(
    m: TileMap, layer: nat, start: Point, target: Cell, desired: Cell,
    cells: seq<Cell>, changes: seq<CellChange>, visited: seq<bool>, q: seq<Point>, pts: seq<Point>, rejected: set<Point>)
  {
    && Valid(m) && layer < m.layers && InBounds(m, start.x, start.y) && |visited| == LayerLen(m)
    && target == ValueAt(m, layer, start) && target != desired
    && Bookkeeping(m, layer, target, desired, cells, changes, pts)
    && Frontier(m, visited, q, pts, rejected) && Closed(m, visited, pts)
    && Sound(m, layer, target, start, q, pts, rejected)
    && visited[Idx(m, start.x, start.y)]
    && (|pts| > 0 || q == [start])
  }

  /** Dequeuing a cell that no longer holds the target rejects it. */
  lemma RejectKeeps(
    m: TileMap, layer: nat, start: Point, target: Cell, desired: Cell,
    cells: seq<Cell>, changes: seq<CellChange>, visited: seq<bool>, q: seq<Point>, pts: seq<Point>, rejected: set<Point>)
    requires Inv(m, layer, start, target, desired, cells, changes, visited, q, pts, rejected) && |q| > 0
    requires cells[PointIdx(m, layer, q[0])] != target
    ensures Inv(m, layer, start, target, desired, cells, changes, visited, q[1..], pts, rejected + {q[0]})
  {
    var p := q[0];
    Unfilled(m, layer, target, desired, cells, changes, pts, p);
    assert q == [p] + q[1..];
  }

  /** Dequeuing a cell that still holds the target fills it, records it and queues its neighbours. */
  lemma FillKeeps(
    m: TileMap, layer: nat, start: Point, target: Cell, desired: Cell,
    cells: seq<Cell>, changes: seq<CellChange>, visited: seq<bool>, q: seq<Point>, pts: seq<Point>, rejected: set<Point>)
    requires Inv(m, layer, start, target, desired, cells, changes, visited, q, pts, rejected) && |q| > 0
    requires cells[PointIdx(m, layer, q[0])] == target
    ensures var p := q[0];
      var idx := PointIdx(m, layer, p);
      var r := Expand(m, visited, q[1..], p);
      Inv(m, layer, start, target, desired, cells[idx := desired], changes + [CellChange(idx, target, desired)],
          r.0, r.1, pts + [p], rejected)
  {
    var p, q' := q[0], q[1..];
    var idx := PointIdx(m, layer, p);
    var pts' := pts + [p];
    assert q == [p] + q';
    assert pts'[..|pts'| - 1] == pts;
    BookkeepingFill(m, layer, target, desired, cells, changes, pts, p);
    assert ValueAt(m, layer, p) == target by {
      Unfilled(m, layer, target, desired, cells, changes, pts, p);
    }
    assert Frontier(m, visited, q', pts', rejected);
    assert Sound(m, layer, target, start, q', pts', rejected) by {
      assert forall i :: 0 <= i < |pts| ==> pts'[i] == pts[i];
    }
    EnqueueAllKeeps(m, layer, target, start, visited, q', pts', rejected, p, Neighbours(p));
    ExpandCloses(m, visited, q', pts');
    var r := Expand(m, visited, q', p);
    assert r.0[Idx(m, start.x, start.y)];
    assert Bookkeeping(m, layer, target, desired, cells[idx := desired], changes + [CellChange(idx, target, desired)], pts');
  }

  /** Filling an unfilled cell that holds the target records it as the next change. */
  lemma BookkeepingFill(m: TileMap, layer: nat, target: Cell, desired: Cell,
                        cells: seq<Cell>, changes: seq<CellChange>, pts: seq<Point>, p: Point)
    requires Valid(m) && layer < m.layers && InBounds(m, p.x, p.y) && p !in pts
    requires Bookkeeping(m, layer, target, desired, cells, changes, pts)
    requires cells[PointIdx(m, layer, p)] == target
    ensures var idx := PointIdx(m, layer, p);
      Bookkeeping(m, layer, target, desired, cells[idx := desired], changes + [CellChange(idx, target, desired)], pts + [p])
  {
    var idx := PointIdx(m, layer, p);
    Unfilled(m, layer, target, desired, cells, changes, pts, p);
    RecordFresh(m.tiles, cells, changes, idx, desired);
  }

  // ---------------------------------------------------------------------
  // The search
  // ---------------------------------------------------------------------

  /**
   * Breadth-first flood fill from `start` on `layer`. The result records the
   * edit, and exactly the cells of the start cell's region on `layer` now
   * hold `desired`.
   */
  method FloodFill(m: TileMap, layer: nat, start: Point, desired: Cell) returns (cells: seq<Cell>, changes: seq<CellChange>)
    requires Valid(m) && layer < m.layers && InBounds(m, start.x, start.y)
    requires ValueAt(m, layer, start) != desired
    ensures Records(m.tiles, cells, EditCommand(changes)) && AllEffective(changes) && |changes| > 0
    ensures forall l: nat, p: Point :: l < m.layers && InBounds(m, p.x, p.y) ==>
      cells[PointIdx(m, l, p)] == if l == layer && InRegion(m, layer, start, p) then desired else m.tiles[PointIdx(m, l, p)]
  {
    IdxLayerInRange(m, layer, start.x, start.y);
    var target := m.tiles[PointIdx(m, layer, start)];
    assert target == ValueAt(m, layer, start);
    var visited := seq(LayerLen(m), _ => false);
    visited := visited[Idx(m, start.x, start.y) := true];
    var q := [start];
    cells, changes := m.tiles, [];
    ghost var pts: seq<Point> := [];
    ghost var rejected: set<Point> := {};
    forall p: Point | InBounds(m, p.x, p.y) && visited[Idx(m, p.x, p.y)] ensures p == start {
      IdxInjective(m, p, start);
    }
    StartInRegion(m, layer, start);
    while |q| > 0
      invariant Inv(m, layer, start, target, desired, cells, changes, visited, q, pts, rejected)
      decreases CountFalse(visited), |q|
    {
      var p := q[0];
      var idx := PointIdx(m, layer, p);
      if cells[idx] != target {
        RejectKeeps(m, layer, start, target, desired, cells, changes, visited, q, pts, rejected);
        q := q[1..];
        rejected := rejected + {p};
      } else {
        FillKeeps(m, layer, start, target, desired, cells, changes, visited, q, pts, rejected);
        cells := cells[idx := desired];
        changes := changes + [CellChange(idx, target, desired)];
        pts := pts + [p];
        var r := Expand(m, visited, q[1..], p);
        visited, q := r.0, r.1;
      }
    }
    FilledIsRegion(m, layer, desired, start, cells, changes, visited, pts, rejected);
    FinalCells(m, layer, desired, start, cells, changes, pts);
  }

  // ---------------------------------------------------------------------
  // fill_with_mouse
  // ---------------------------------------------------------------------

  /** `layer_data.get(layer).map(|d| d.locked).unwrap_or(false)`. */
  predicate LayerLocked(m: TileMap, layer: nat)
  {
    layer < |m.layerData| && m.layerData[layer].locked
  }

  /** The conditions under which a frame fills: every guard passes and the clicked cell differs from the desired value. */
  predicate Fires(
    tool: ToolKind, keys: Keys, mouse: Mouse, menu: MenuState, activeId: Option<string>,
    activeLayer: nat, hasMap: bool, pos: Option<Point>, m: TileMap, desired: Cell)
    requires Valid(m)
  {
    && tool == Fill && !MenuBlocks(menu) && !Held(keys, Alt) && !Held(keys, Space)
    && hasMap && !LayerLocked(m, EditLayer(activeLayer, m))
    && mouse.leftStart && pos.Some?
    && (Held(keys, Shift) || activeId.Some?)
    && ValueAt(m, EditLayer(activeLayer, m), pos.value) != desired
  }

  /** What a click fills with: nothing with Shift held, otherwise the selected tile. */
  function FillValue(keys: Keys, activeId: Option<string>, selectedTile: nat): Cell
  {
    if Held(keys, Shift) || activeId.None? then None
    else Some(TileRef(activeId.value, selectedTile, 0, false, false))
  }

  /**
   * One frame of `fill_with_mouse`. When it fires, the clicked cell's region
   * on the edit layer is replaced and the edit is pushed as one command;
   * otherwise nothing changes.
   */
  method FillStep(
    tool: ToolKind, keys: Keys, mouse: Mouse, menu: MenuState, activeId: Option<string>,
    selectedTile: nat, activeLayer: nat, hasMap: bool, pos: Option<Point>,
    m: TileMap, undo: UndoStack)
    returns (m': TileMap, undo': UndoStack)
    requires Valid(m) && CursorOnMap(pos, m)
    ensures UndoableEdit(m, undo, m', undo')
    ensures var desired := FillValue(keys, activeId, selectedTile);
      !Fires(tool, keys, mouse, menu, activeId, activeLayer, hasMap, pos, m, desired) ==> m' == m && undo' == undo
    ensures var desired := FillValue(keys, activeId, selectedTile);
      var layer := EditLayer(activeLayer, m);
      Fires(tool, keys, mouse, menu, activeId, activeLayer, hasMap, pos, m, desired) ==>
        && m'.tiles != m.tiles
        && forall l: nat, p: Point :: l < m.layers && InBounds(m, p.x, p.y) ==>
             m'.tiles[PointIdx(m, l, p)] ==
               if l == layer && InRegion(m, layer, pos.value, p) then desired else m.tiles[PointIdx(m, l, p)]
  {
    var desired := FillValue(keys, activeId, selectedTile);
    if !Fires(tool, keys, mouse, menu, activeId, activeLayer, hasMap, pos, m, desired) {
      return m, undo;
    }
    var layer := EditLayer(activeLayer, m);
    var start := pos.value;
    var cells, changes := FloodFill(m, layer, start, desired);
    var r := Commit(m, undo, cells, changes);
    m', undo' := r.0, r.1;
    StartInRegion(m, layer, start);
    assert cells[PointIdx(m, layer, start)] != m.tiles[PointIdx(m, layer, start)];
  }
}
