/**
 * The two ways the editing tools write a batch of cells and record the
 * command. "Blind" writing (rectangle, paste, clear, Alt+arrow move) checks
 * each write against the current cell and records it if it differs.
 * "Touched" writing (selection drag and selection transform) also lets only
 * the first write to a cell take effect.
 */
module Edits {
  import opened Base
  import opened TileMapCore
  import opened Undo

  /** One intended write: put `value` at flat index `idx`. */
  datatype Write = Write(idx: nat, value: Cell)

  /** The indices a write list targets. */
  function WriteIndices(ws: seq<Write>): set<nat>
  {
    set i | 0 <= i < |ws| :: ws[i].idx
  }

  predicate DistinctWrites(ws: seq<Write>)
  {
    forall i, j :: 0 <= i < j < |ws| ==> ws[i].idx != ws[j].idx
  }

  predicate WritesInRange(ws: seq<Write>, n: nat)
  {
    forall i :: 0 <= i < |ws| ==> ws[i].idx < n
  }

  /** The cell and change list after one blind write. */
  function BlindStep(cells: seq<Cell>, changes: seq<CellChange>, w: Write): (r: (seq<Cell>, seq<CellChange>))
    ensures |r.0| == |cells|
  {
    if w.idx < |cells| && cells[w.idx] != w.value then
      (cells[w.idx := w.value], changes + [CellChange(w.idx, cells[w.idx], w.value)])
    else (cells, changes)
  }

  /**
   * Apply writes in order; each in-range write whose value differs from the
   * current cell is performed and recorded. Duplicate indices are not
   * detected.
   */
  function BlindApply(cells: seq<Cell>, ws: seq<Write>): (r: (seq<Cell>, seq<CellChange>))
    ensures |r.0| == |cells|
    ensures AllEffective(r.1)
    ensures forall i :: 0 <= i < |r.1| ==> r.1[i].idx < |cells|
    ensures Indices(r.1) <= WriteIndices(ws)
    ensures forall k :: 0 <= k < |cells| && k !in WriteIndices(ws) ==> r.0[k] == cells[k]
    decreases |ws|
  {
    if ws == [] then (cells, [])
    else
      var init := ws[..|ws| - 1];
      var w := ws[|ws| - 1];
      var (c, ch) := BlindApply(cells, init);
      WriteIndicesSnoc(ws);
      BlindStep(c, ch, w)
  }

  /** The indices of a write list are those of its prefix plus the last one. */
  lemma WriteIndicesSnoc(ws: seq<Write>)
    requires |ws| > 0
    ensures WriteIndices(ws) == WriteIndices(ws[..|ws| - 1]) + {ws[|ws| - 1].idx}
    ensures forall i :: 0 <= i < |ws| - 1 ==> ws[..|ws| - 1][i] == ws[i]
  {
    var init := ws[..|ws| - 1];
    assert forall i :: 0 <= i < |init| ==> init[i] == ws[i];
  }

  /** Extending a faithful record with a write to a cell not yet recorded keeps it faithful. */
  lemma RecordFresh(cells: seq<Cell>, c: seq<Cell>, ch: seq<CellChange>, idx: nat, v: Cell)
    requires Records(cells, c, EditCommand(ch))
    requires idx < |c| && idx !in Indices(ch) && c[idx] == cells[idx]
    ensures Records(cells, c[idx := v], EditCommand(ch + [CellChange(idx, c[idx], v)]))
  {
    var ch' := ch + [CellChange(idx, c[idx], v)];
    assert Indices(ch') == Indices(ch) + {idx} by {
      assert forall i :: 0 <= i < |ch| ==> ch'[i] == ch[i];
      assert ch'[|ch|].idx == idx;
    }
    assert forall i :: 0 <= i < |ch| ==> ch[i].idx != idx;
  }

  /** With distinct targets, blind writing records faithfully and performs every write. */
  lemma {:induction false} BlindApplyDistinct(cells: seq<Cell>, ws: seq<Write>)
    requires DistinctWrites(ws)
    ensures var r := BlindApply(cells, ws);
      && Records(cells, r.0, EditCommand(r.1))
      && forall i :: 0 <= i < |ws| && ws[i].idx < |cells| ==> r.0[ws[i].idx] == ws[i].value
    decreases |ws|
  {
    if ws != [] {
      var init := ws[..|ws| - 1];
      var w := ws[|ws| - 1];
      WriteIndicesSnoc(ws);
      assert DistinctWrites(init);
      BlindApplyDistinct(cells, init);
      var (c, ch) := BlindApply(cells, init);
      assert w.idx !in WriteIndices(init);
      var r := BlindApply(cells, ws);
      assert r == BlindStep(c, ch, w);
      if w.idx < |cells| && c[w.idx] != w.value {
        RecordFresh(cells, c, ch, w.idx, w.value);
      }
      forall i | 0 <= i < |ws| - 1 && ws[i].idx < |cells|
        ensures r.0[ws[i].idx] == ws[i].value
      {
        assert ws[i] == init[i];
      }
    }
  }

  /**
   * Blind-writing one value throughout records faithfully even when targets
   * repeat: every targeted in-range cell ends up holding the value, and a
   * repeated target finds it already there and records nothing more.
   */
  lemma {:induction false} BlindApplyUniform(cells: seq<Cell>, ws: seq<Write>, v: Cell)
    requires forall i :: 0 <= i < |ws| ==> ws[i].value == v
    ensures var r := BlindApply(cells, ws);
      && Records(cells, r.0, EditCommand(r.1))
      && forall k :: 0 <= k < |cells| && k in WriteIndices(ws) ==> r.0[k] == v
    decreases |ws|
  {
    if ws != [] {
      var init := ws[..|ws| - 1];
      var w := ws[|ws| - 1];
      WriteIndicesSnoc(ws);
      BlindApplyUniform(cells, init, v);
      var (c, ch) := BlindApply(cells, init);
      var r := BlindApply(cells, ws);
      assert r == BlindStep(c, ch, w);
      if w.idx < |cells| && c[w.idx] != w.value {
        assert w.idx !in WriteIndices(init);
        RecordFresh(cells, c, ch, w.idx, w.value);
      }
    }
  }

  /** A blind write that records nothing leaves the cells as they were. */
  lemma {:induction false} BlindApplyQuiet(cells: seq<Cell>, ws: seq<Write>)
    ensures BlindApply(cells, ws).1 == [] ==> BlindApply(cells, ws).0 == cells
    decreases |ws|
  {
    if ws != [] {
      BlindApplyQuiet(cells, ws[..|ws| - 1]);
    }
  }

  /** Blind-writing `a + b` leaves the cells as blind-writing `a` and then `b` does: later writes win. */
  lemma {:induction false} BlindApplyConcat(cells: seq<Cell>, a: seq<Write>, b: seq<Write>)
    ensures BlindApply(cells, a + b).0 == BlindApply(BlindApply(cells, a).0, b).0
    decreases |b|
  {
    if b == [] {
      assert a + b == a;
    } else {
      var init, w := b[..|b| - 1], b[|b| - 1];
      assert a + b == (a + init) + [w];
      assert b == init + [w];
      BlindApplyConcat(cells, a, init);
      BlindApplySnoc(cells, a + init, w);
      BlindApplySnoc(BlindApply(cells, a).0, init, w);
    }
  }

  /** Blind-writing one more write is one more blind step; the cells it leaves do not depend on the change list. */
  lemma BlindApplySnoc(cells: seq<Cell>, ws: seq<Write>, w: Write)
    ensures BlindApply(cells, ws + [w]).0 == BlindStep(BlindApply(cells, ws).0, [], w).0
  {
    assert (ws + [w])[..|ws|] == ws;
  }

  /** The first write in `ws` targeting `idx`, if any. */
  function FirstWriteTo(ws: seq<Write>, idx: nat): (r: Option<nat>)
    ensures r.Some? ==> r.value < |ws| && ws[r.value].idx == idx
    ensures r.Some? ==> forall j :: 0 <= j < r.value ==> ws[j].idx != idx
    ensures r.None? <==> idx !in WriteIndices(ws)
  {
    if ws == [] then None
    else if ws[0].idx == idx then Some(0)
    else
      var rest := FirstWriteTo(ws[1..], idx);
      assert forall j :: 0 <= j < |ws| - 1 ==> ws[1..][j] == ws[j + 1];
      assert WriteIndices(ws) == {ws[0].idx} + WriteIndices(ws[1..]);
      match rest
      case None => None
      case Some(j) => Some(j + 1)
  }

  /** The cell, change list and touched set after one first-write-wins write. */
  function TouchedStep(cells: seq<Cell>, changes: seq<CellChange>, touched: set<nat>, w: Write)
    : (r: (seq<Cell>, seq<CellChange>, set<nat>))
    requires w.idx < |cells|
    ensures |r.0| == |cells| && r.2 == touched + {w.idx}
  {
    if w.idx in touched then (cells, changes, touched)
    else if cells[w.idx] != w.value then
      (cells[w.idx := w.value], changes + [CellChange(w.idx, cells[w.idx], w.value)], touched + {w.idx})
    else (cells, changes, touched + {w.idx})
  }

  /**
   * Apply writes in order, ignoring every write to an index already
   * targeted; only writes that change their cell are recorded.
   */
  function TouchedApply(cells: seq<Cell>, ws: seq<Write>): (r: (seq<Cell>, seq<CellChange>, set<nat>))
    requires WritesInRange(ws, |cells|)
    ensures |r.0| == |cells|
    ensures r.2 == WriteIndices(ws)
    ensures AllEffective(r.1)
    ensures Indices(r.1) <= WriteIndices(ws)
    ensures forall i :: 0 <= i < |r.1| ==> r.1[i].idx < |cells|
    ensures forall k :: 0 <= k < |cells| && k !in WriteIndices(ws) ==> r.0[k] == cells[k]
    decreases |ws|
  {
    if ws == [] then (cells, [], {})
    else
      var init := ws[..|ws| - 1];
      var w := ws[|ws| - 1];
      WriteIndicesSnoc(ws);
      var (c, ch, t) := TouchedApply(cells, init);
      TouchedStep(c, ch, t, w)
  }

  /**
   * First-write-wins writing always records faithfully, and every targeted
   * cell ends with the value of the first write to it.
   */
  lemma {:induction false} TouchedApplyFaithful(cells: seq<Cell>, ws: seq<Write>)
    requires WritesInRange(ws, |cells|)
    ensures var r := TouchedApply(cells, ws);
      && Records(cells, r.0, EditCommand(r.1))
      && forall k :: 0 <= k < |cells| && k in WriteIndices(ws) ==> r.0[k] == ws[FirstWriteTo(ws, k).value].value
    decreases |ws|
  {
    if ws != [] {
      var init := ws[..|ws| - 1];
      var w := ws[|ws| - 1];
      WriteIndicesSnoc(ws);
      TouchedApplyFaithful(cells, init);
      FirstWriteToPrefix(ws, init);
      var (c, ch, t) := TouchedApply(cells, init);
      var r := TouchedApply(cells, ws);
      assert r == TouchedStep(c, ch, t, w);
      if w.idx !in t && c[w.idx] != w.value {
        RecordFresh(cells, c, ch, w.idx, w.value);
      }
    }
  }

  /** The first write to `k` is the earliest index targeting it. */
  lemma FirstWriteToIs(ws: seq<Write>, k: nat, a: nat)
    requires a < |ws| && ws[a].idx == k
    requires forall j :: 0 <= j < a ==> ws[j].idx != k
    ensures FirstWriteTo(ws, k) == Some(a)
  {
    var r := FirstWriteTo(ws, k);
    assert r.Some? by {
      assert k in WriteIndices(ws);
    }
    assert !(r.value < a);
    assert !(a < r.value);
  }

  /** Appending a write does not change the first write to an index already targeted. */
  lemma FirstWriteToPrefix(ws: seq<Write>, init: seq<Write>)
    requires |ws| > 0 && init == ws[..|ws| - 1]
    ensures forall k :: k in WriteIndices(init) ==> FirstWriteTo(ws, k) == FirstWriteTo(init, k)
    ensures FirstWriteTo(init, ws[|ws| - 1].idx).None? ==> FirstWriteTo(ws, ws[|ws| - 1].idx) == Some(|ws| - 1)
  {
    assert forall j :: 0 <= j < |init| ==> init[j] == ws[j];
    forall k | k in WriteIndices(init)
      ensures FirstWriteTo(ws, k) == FirstWriteTo(init, k)
    {
      var b := FirstWriteTo(init, k).value;
      FirstWriteToIs(ws, k, b);
    }
    var k := ws[|ws| - 1].idx;
    if FirstWriteTo(init, k).None? {
      assert forall j :: 0 <= j < |init| ==> init[j].idx != k;
      FirstWriteToIs(ws, k, |ws| - 1);
    }
  }

  /** The cells a concatenation writes are those either part writes. */
  lemma WriteIndicesConcat(a: seq<Write>, b: seq<Write>)
    ensures WriteIndices(a + b) == WriteIndices(a) + WriteIndices(b)
  {
    var ab := a + b;
    forall k | k in WriteIndices(a) + WriteIndices(b) ensures k in WriteIndices(ab) {
      if k in WriteIndices(a) {
        var i :| 0 <= i < |a| && a[i].idx == k;
        assert ab[i] == a[i];
      } else {
        var i :| 0 <= i < |b| && b[i].idx == k;
        assert ab[|a| + i] == b[i];
      }
    }
  }

  // ---------------------------------------------------------------------
  // Whole-map diff
  // ---------------------------------------------------------------------

  /**
   * The changes between two equally long cell sequences among the first `n`
   * positions, in index order: one per position whose value differs.
   */
  function Diff(before: seq<Cell>, after: seq<Cell>, n: nat): (ch: seq<CellChange>)
    requires |before| == |after| && n <= |before|
    ensures AllEffective(ch)
    ensures forall i :: 0 <= i < |ch| ==>
      ch[i].idx < n && ch[i].before == before[ch[i].idx] && ch[i].after == after[ch[i].idx]
    ensures forall i, j :: 0 <= i < j < |ch| ==> ch[i].idx < ch[j].idx
    ensures forall k :: 0 <= k < n ==> (k in Indices(ch) <==> before[k] != after[k])
  {
    if n == 0 then []
    else
      var prefix := Diff(before, after, n - 1);
      var last := if before[n - 1] != after[n - 1] then [CellChange(n - 1, before[n - 1], after[n - 1])] else [];
      IndicesConcat(prefix, last);
      IndicesSingle(CellChange(n - 1, before[n - 1], after[n - 1]));
      prefix + last
  }

  /** The whole-map diff records the edit from `before` to `after`, and is empty exactly when nothing differs. */
  lemma DiffRecords(before: seq<Cell>, after: seq<Cell>)
    requires |before| == |after|
    ensures var ch := Diff(before, after, |before|);
      Records(before, after, EditCommand(ch)) && (ch == [] <==> before == after)
  {
    var ch := Diff(before, after, |before|);
    RecordsEmpty(before, after, EditCommand(ch));
  }

  /** The indices of a concatenation are those of its parts. */
  lemma IndicesConcat(a: seq<CellChange>, b: seq<CellChange>)
    ensures Indices(a + b) == Indices(a) + Indices(b)
  {
    var ab := a + b;
    forall k | k in Indices(ab) ensures k in Indices(a) + Indices(b) {
      var i :| 0 <= i < |ab| && ab[i].idx == k;
      if i < |a| { assert a[i] == ab[i]; } else { assert b[i - |a|] == ab[i]; }
    }
    forall k | k in Indices(a) + Indices(b) ensures k in Indices(ab) {
      if k in Indices(a) {
        var i :| 0 <= i < |a| && a[i].idx == k;
        assert ab[i] == a[i];
      } else {
        var i :| 0 <= i < |b| && b[i].idx == k;
        assert ab[|a| + i] == b[i];
      }
    }
  }

  lemma IndicesSingle(c: CellChange)
    ensures Indices([c]) == {c.idx}
  {
    assert [c][0] == c;
  }
}
