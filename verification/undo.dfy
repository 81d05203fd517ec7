/**
 * Edit commands and the undo/redo stacks. A command lists the cells an edit
 * changed with their old and new contents; callers write the map first and
 * then record the command, and undo/redo replay the list in recorded order.
 */
module Undo {
  import opened Base
  import opened TileMapCore
  import opened Input

  datatype CellChange = CellChange(idx: nat, before: Cell, after: Cell)

  datatype EditCommand = EditCommand(changes: seq<CellChange>)

  datatype UndoStack = UndoStack(undo: seq<EditCommand>, redo: seq<EditCommand>, maxLen: nat)

  /** Undo depth used when `maxLen` is left at zero. */
  const DEFAULT_MAX_UNDO: nat := 200

  /** The empty stack with the default depth. */
  const EmptyStack: UndoStack := UndoStack([], [], 0)

  /** Effective capacity of the undo list; never zero. */
  function Capacity(s: UndoStack): (c: nat)
    ensures c >= 1
    ensures s.maxLen > 0 ==> c == s.maxLen
  {
    if s.maxLen == 0 then DEFAULT_MAX_UNDO else s.maxLen
  }

  /** `UndoStack::clear`. */
  function Clear(s: UndoStack): (r: UndoStack)
    ensures r.undo == [] && r.redo == [] && r.maxLen == s.maxLen
  {
    s.(undo := [], redo := [])
  }

  /**
   * `UndoStack::push`: an empty command is ignored; otherwise redo is
   * dropped and the command appended, discarding the oldest entries beyond
   * the capacity.
   */
  function Push(s: UndoStack, cmd: EditCommand): (r: UndoStack)
    ensures cmd.changes == [] ==> r == s
    ensures cmd.changes != [] ==>
      && r.redo == []
      && r.maxLen == s.maxLen
      && |r.undo| == Min(|s.undo| + 1, Capacity(s))
      && r.undo[|r.undo| - 1] == cmd
      && r.undo == (s.undo + [cmd])[|s.undo| + 1 - |r.undo|..]
  {
    if cmd.changes == [] then s
    else
      var u := s.undo + [cmd];
      var cap := Capacity(s);
      var kept := if |u| > cap then u[|u| - cap..] else u;
      s.(undo := kept, redo := [])
  }

  /** `cells` with the change's before (or after) value written, when its index is in range. */
  function WriteChange(cells: seq<Cell>, ch: CellChange, useAfter: bool): (r: seq<Cell>)
    ensures |r| == |cells|
    ensures forall k :: 0 <= k < |r| ==>
      r[k] == if k == ch.idx then (if useAfter then ch.after else ch.before) else cells[k]
  {
    if ch.idx < |cells| then cells[ch.idx := if useAfter then ch.after else ch.before] else cells
  }

  /** Replay a change list in recorded order, skipping out-of-range indices. */
  function Replay(cells: seq<Cell>, changes: seq<CellChange>, useAfter: bool): (r: seq<Cell>)
    ensures |r| == |cells|
    decreases |changes|
  {
    if changes == [] then cells
    else Replay(WriteChange(cells, changes[0], useAfter), changes[1..], useAfter)
  }

  /** The set of indices a change list mentions. */
  function Indices(changes: seq<CellChange>): set<nat>
  {
    set i | 0 <= i < |changes| :: changes[i].idx
  }

  /** No index is mentioned twice. */
  predicate DistinctIndices(changes: seq<CellChange>)
  {
    forall i, j :: 0 <= i < j < |changes| ==> changes[i].idx != changes[j].idx
  }

  /**
   * `cmd` faithfully records the edit from `before` to `after`: distinct,
   * in-range indices whose old and new values match the two maps, and every
   * other cell unchanged.
   */
  predicate Records(before: seq<Cell>, after: seq<Cell>, cmd: EditCommand)
  {
    && |before| == |after|
    && DistinctIndices(cmd.changes)
    && (forall i :: 0 <= i < |cmd.changes| ==> cmd.changes[i].idx < |before|)
    && (forall i :: 0 <= i < |cmd.changes| ==>
          cmd.changes[i].before == before[cmd.changes[i].idx] && cmd.changes[i].after == after[cmd.changes[i].idx])
    && (forall k :: 0 <= k < |before| && k !in Indices(cmd.changes) ==> before[k] == after[k])
  }

  /** Replaying distinct in-range changes sets exactly their cells. */
  lemma {:induction false} ReplayDistinct(cells: seq<Cell>, changes: seq<CellChange>, useAfter: bool)
    requires DistinctIndices(changes)
    requires forall i :: 0 <= i < |changes| ==> changes[i].idx < |cells|
    ensures var r := Replay(cells, changes, useAfter);
      && (forall i :: 0 <= i < |changes| ==>
            r[changes[i].idx] == if useAfter then changes[i].after else changes[i].before)
      && (forall k :: 0 <= k < |cells| && k !in Indices(changes) ==> r[k] == cells[k])
    decreases |changes|
  {
    if changes != [] {
      var c0 := changes[0];
      var w := WriteChange(cells, c0, useAfter);
      var rest := changes[1..];
      ReplayDistinct(w, rest, useAfter);
      var r := Replay(cells, changes, useAfter);
      assert r == Replay(w, rest, useAfter);
      assert forall j :: 0 <= j < |rest| ==> rest[j] == changes[j + 1];
      assert c0.idx !in Indices(rest);
      forall k | 0 <= k < |cells| && k !in Indices(changes)
        ensures r[k] == cells[k]
      {
        assert k != c0.idx;
        assert k !in Indices(rest);
      }
      forall i | 0 <= i < |changes|
        ensures r[changes[i].idx] == if useAfter then changes[i].after else changes[i].before
      {
        if i > 0 {
          assert changes[i] == rest[i - 1];
        }
      }
    }
  }

  /** Replaying the befores of a faithful record restores the earlier map. */
  lemma UndoRestores(before: seq<Cell>, after: seq<Cell>, cmd: EditCommand)
    requires Records(before, after, cmd)
    ensures Replay(after, cmd.changes, false) == before
  {
    var r := Replay(after, cmd.changes, false);
    ReplayDistinct(after, cmd.changes, false);
    forall k | 0 <= k < |before|
      ensures r[k] == before[k]
    {
      if k in Indices(cmd.changes) {
        var i :| 0 <= i < |cmd.changes| && cmd.changes[i].idx == k;
      }
    }
  }

  /** Replaying the afters of a faithful record restores the later map. */
  lemma RedoRestores(before: seq<Cell>, after: seq<Cell>, cmd: EditCommand)
    requires Records(before, after, cmd)
    ensures Replay(before, cmd.changes, true) == after
  {
    var r := Replay(before, cmd.changes, true);
    ReplayDistinct(before, cmd.changes, true);
    forall k | 0 <= k < |before|
      ensures r[k] == after[k]
    {
      if k in Indices(cmd.changes) {
        var i :| 0 <= i < |cmd.changes| && cmd.changes[i].idx == k;
      }
    }
  }

  /** Undo one command: replay its befores and move it to the redo list. */
  function UndoStep(m: TileMap, s: UndoStack): (r: (TileMap, UndoStack))
    ensures s.undo == [] ==> r == (m, s)
    ensures s.undo != [] ==>
      && r.0 == m.(tiles := Replay(m.tiles, s.undo[|s.undo| - 1].changes, false))
      && r.1 == s.(undo := s.undo[..|s.undo| - 1], redo := s.redo + [s.undo[|s.undo| - 1]])
  {
    if s.undo == [] then (m, s)
    else
      var cmd := s.undo[|s.undo| - 1];
      (m.(tiles := Replay(m.tiles, cmd.changes, false)),
       s.(undo := s.undo[..|s.undo| - 1], redo := s.redo + [cmd]))
  }

  /** Redo one command: replay its afters and move it back to the undo list. */
  function RedoStep(m: TileMap, s: UndoStack): (r: (TileMap, UndoStack))
    ensures s.redo == [] ==> r == (m, s)
    ensures s.redo != [] ==>
      && r.0 == m.(tiles := Replay(m.tiles, s.redo[|s.redo| - 1].changes, true))
      && r.1 == s.(undo := s.undo + [s.redo[|s.redo| - 1]], redo := s.redo[..|s.redo| - 1])
  {
    if s.redo == [] then (m, s)
    else
      var cmd := s.redo[|s.redo| - 1];
      (m.(tiles := Replay(m.tiles, cmd.changes, true)),
       s.(undo := s.undo + [cmd], redo := s.redo[..|s.redo| - 1]))
  }

  /** Ctrl+Z without Shift. */
  predicate WantsUndo(k: Keys)
  {
    Tapped(k, KeyZ) && !Held(k, Shift)
  }

  /** Ctrl+Y or Ctrl+Shift+Z. */
  predicate WantsRedo(k: Keys)
  {
    Tapped(k, KeyY) || (Tapped(k, KeyZ) && Held(k, Shift))
  }

  /**
   * `undo_redo_shortcuts`: with Ctrl held and a map present, undo takes
   * priority over redo. `hasMap` says whether the map and its tile entities exist.
   */
  function UndoRedoShortcuts(k: Keys, hasMap: bool, m: TileMap, s: UndoStack): (r: (TileMap, UndoStack))
    ensures !Held(k, Ctrl) || !hasMap ==> r == (m, s)
    ensures Held(k, Ctrl) && hasMap && WantsUndo(k) ==> r == UndoStep(m, s)
    ensures Held(k, Ctrl) && hasMap && !WantsUndo(k) && WantsRedo(k) ==> r == RedoStep(m, s)
    ensures !WantsUndo(k) && !WantsRedo(k) ==> r == (m, s)
  {
    if !Held(k, Ctrl) || !hasMap then (m, s)
    else if WantsUndo(k) then UndoStep(m, s)
    else if WantsRedo(k) then RedoStep(m, s)
    else (m, s)
  }

  /**
   * An edit recorded faithfully and pushed can be undone back to the earlier
   * map, and the undo redone back to the later map.
   */
  lemma PushUndoRedo(m0: TileMap, m1: TileMap, s: UndoStack, cmd: EditCommand)
    requires Records(m0.tiles, m1.tiles, cmd) && cmd.changes != []
    requires m1 == m0.(tiles := m1.tiles)
    ensures var (mu, su) := UndoStep(m1, Push(s, cmd));
      && mu == m0 && su.redo == [cmd]
      && RedoStep(mu, su).0 == m1
  {
    var (mu, su) := UndoStep(m1, Push(s, cmd));
    UndoRestores(m0.tiles, m1.tiles, cmd);
    RedoRestores(m0.tiles, m1.tiles, cmd);
  }

  /** Every recorded change really changes its cell. */
  predicate AllEffective(changes: seq<CellChange>)
  {
    forall i :: 0 <= i < |changes| ==> changes[i].before != changes[i].after
  }

  /** A faithful record is empty exactly when the edit changed nothing (given every entry is effective). */
  lemma RecordsEmpty(before: seq<Cell>, after: seq<Cell>, cmd: EditCommand)
    ensures Records(before, after, cmd) && AllEffective(cmd.changes) ==> (cmd.changes == [] <==> before == after)
  {
    if Records(before, after, cmd) && AllEffective(cmd.changes) && cmd.changes != [] {
      var c := cmd.changes[0];
      assert before[c.idx] != after[c.idx];
    }
  }

  /**
   * `m1`/`s1` is an undoable edit of `m0`/`s0`: only the tiles changed, and
   * either nothing changed and nothing was pushed, or the command pushed last
   * faithfully records the change.
   */
  predicate UndoableEdit(m0: TileMap, s0: UndoStack, m1: TileMap, s1: UndoStack)
  {
    && m1 == m0.(tiles := m1.tiles)
    && (m1.tiles == m0.tiles ==> s1 == s0)
    && (m1.tiles != m0.tiles ==>
          && |s1.undo| > 0
          && s1 == Push(s0, s1.undo[|s1.undo| - 1])
          && Records(m0.tiles, m1.tiles, s1.undo[|s1.undo| - 1]))
  }

  /** Write the edited cells into the map and record the changes as one command. */
  function Commit(m: TileMap, s: UndoStack, cells: seq<Cell>, changes: seq<CellChange>): (r: (TileMap, UndoStack))
    ensures r.0 == m.(tiles := cells)
    ensures Records(m.tiles, cells, EditCommand(changes)) && AllEffective(changes) ==> UndoableEdit(m, s, r.0, r.1)
  {
    var cmd := EditCommand(changes);
    RecordsEmpty(m.tiles, cells, cmd);
    (m.(tiles := cells), Push(s, cmd))
  }

  /** An undoable edit that changed something is reverted by undo and re-applied by redo. */
  lemma UndoableEditRoundTrip(m0: TileMap, s0: UndoStack, m1: TileMap, s1: UndoStack)
    requires UndoableEdit(m0, s0, m1, s1) && m1.tiles != m0.tiles
    ensures UndoStep(m1, s1).0 == m0
    ensures RedoStep(UndoStep(m1, s1).0, UndoStep(m1, s1).1).0 == m1
  {
    var cmd := s1.undo[|s1.undo| - 1];
    assert exists k :: 0 <= k < |m0.tiles| && m0.tiles[k] != m1.tiles[k];
    var k :| 0 <= k < |m0.tiles| && m0.tiles[k] != m1.tiles[k];
    assert k in Indices(cmd.changes);
    PushUndoRedo(m0, m1, s0, cmd);
  }
}
