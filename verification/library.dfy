/**
 * The tileset library: the known tilesets, the active one and the active
 * category filter. `merge_tilesets_from_map` folds the tilesets a map file
 * carries into the library; at startup a library without an active tileset
 * activates its first entry. Loading textures is left out.
 */
module TilesetLibrary {
  import opened Base
  import opened Text

  /** One tileset: its id, display name, category and asset path. */
  datatype TilesetEntry = TilesetEntry(id: string, name: string, category: string, assetPath: string)

  datatype Library = Library(entries: seq<TilesetEntry>, activeId: Option<string>, activeCategory: string)

  /** Position of the first entry with `id`, as `iter().find(|e| e.id == id)`. */
  function FindEntry(entries: seq<TilesetEntry>, id: string): (r: Option<nat>)
    ensures r.Some? ==> r.value < |entries| && entries[r.value].id == id
    ensures r.Some? ==> forall k :: 0 <= k < r.value ==> entries[k].id != id
    ensures r.None? <==> forall k :: 0 <= k < |entries| ==> entries[k].id != id
  {
    if |entries| == 0 then None
    else if entries[0].id == id then Some(0)
    else match FindEntry(entries[1..], id)
      case None => None
      case Some(k) => Some(k + 1)
  }

  /** No two entries share an id. */
  predicate UniqueIds(entries: seq<TilesetEntry>)
  {
    forall i, j :: 0 <= i < j < |entries| ==> entries[i].id != entries[j].id
  }

  /** `b` is `a` with at most its blank fields filled in: the id and every non-blank field are kept. */
  predicate Keeps(a: TilesetEntry, b: TilesetEntry)
  {
    && b.id == a.id
    && (a.assetPath != [] ==> b.assetPath == a.assetPath)
    && (!IsBlank(a.name) ==> b.name == a.name)
    && (!IsBlank(a.category) ==> b.category == a.category)
  }

  /** Every field that `x` could fill in `e` is already non-blank in `e`. */
  predicate Settled(e: TilesetEntry, x: TilesetEntry)
  {
    && (x.assetPath != [] ==> e.assetPath != [])
    && (!IsBlank(x.name) ==> !IsBlank(e.name))
    && (!IsBlank(x.category) ==> !IsBlank(e.category))
  }

  /**
   * An incoming entry with a known id fills the existing entry's empty
   * asset path, blank name and blank category, and nothing else.
   */
  function FillBlanks(e: TilesetEntry, x: TilesetEntry): (r: TilesetEntry)
    ensures Keeps(e, r) && Settled(r, x)
    ensures r.assetPath == e.assetPath || r.assetPath == x.assetPath
    ensures r.name == e.name || r.name == x.name
    ensures r.category == e.category || r.category == x.category
    ensures x.assetPath == [] ==> r.assetPath == e.assetPath
    ensures IsBlank(x.name) ==> r.name == e.name
    ensures IsBlank(x.category) ==> r.category == e.category
  {
    var path := if e.assetPath == [] && x.assetPath != [] then x.assetPath else e.assetPath;
    var name := if IsBlank(e.name) && !IsBlank(x.name) then x.name else e.name;
    var category := if IsBlank(e.category) && !IsBlank(x.category) then x.category else e.category;
    e.(assetPath := path, name := name, category := category)
  }

  /** An entry that already has everything `x` offers is left as it is. */
  lemma FillSettled(e: TilesetEntry, x: TilesetEntry)
    requires Settled(e, x)
    ensures FillBlanks(e, x) == e
  {
  }

  /** Filling twice from the same entry changes nothing the second time. */
  lemma FillBlanksIdempotent(e: TilesetEntry, x: TilesetEntry)
    ensures FillBlanks(FillBlanks(e, x), x) == FillBlanks(e, x)
  {
    FillSettled(FillBlanks(e, x), x);
  }

  /** `id` is the non-blank id of one of the incoming entries. */
  predicate Incoming(incoming: seq<TilesetEntry>, id: string)
  {
    !IsBlank(id) && exists j :: 0 <= j < |incoming| && incoming[j].id == id
  }

  /** The first incoming id that is not blank: the one that becomes active. */
  function FirstAccepted(incoming: seq<TilesetEntry>): (r: Option<string>)
    ensures r.Some? ==> Incoming(incoming, r.value)
    ensures r.None? <==> forall j :: 0 <= j < |incoming| ==> IsBlank(incoming[j].id)
  {
    if |incoming| == 0 then None
    else if !IsBlank(incoming[0].id) then Some(incoming[0].id)
    else
      var r := FirstAccepted(incoming[1..]);
      assert forall j :: 1 <= j < |incoming| ==> incoming[j] == incoming[1..][j - 1];
      r
  }

  /** One loop iteration of `merge_tilesets_from_map`. */
  function MergeOne(lib: Library, x: TilesetEntry): (r: Library)
    ensures IsBlank(x.id) ==> r == lib
    ensures |r.entries| == |lib.entries| + (if IsBlank(x.id) || FindEntry(lib.entries, x.id).Some? then 0 else 1)
    ensures forall i :: 0 <= i < |lib.entries| ==> Keeps(lib.entries[i], r.entries[i])
    ensures |r.entries| > |lib.entries| ==>
      r.entries[|lib.entries|] == x && FindEntry(lib.entries, x.id).None?
    ensures !IsBlank(x.id) ==>
      var f := FindEntry(r.entries, x.id);
      f.Some? && Settled(r.entries[f.value], x)
    ensures r.activeId == if lib.activeId.None? && !IsBlank(x.id) then Some(x.id) else lib.activeId
    ensures r.activeCategory == lib.activeCategory
    ensures UniqueIds(lib.entries) ==> UniqueIds(r.entries)
  {
    if IsBlank(x.id) then lib
    else
      var entries := match FindEntry(lib.entries, x.id)
        case Some(i) => FillAt(lib.entries, i, x)
        case None => AppendNew(lib.entries, x);
      lib.(entries := entries, activeId := if lib.activeId.None? then Some(x.id) else lib.activeId)
  }

  /** The known entry at `i`, the first with `x`'s id, with its blanks filled from `x`. */
  function FillAt(entries: seq<TilesetEntry>, i: nat, x: TilesetEntry): (r: seq<TilesetEntry>)
    requires FindEntry(entries, x.id) == Some(i)
    ensures |r| == |entries|
    ensures forall k :: 0 <= k < |entries| ==> Keeps(entries[k], r[k])
    ensures FindEntry(r, x.id) == Some(i) && Settled(r[i], x)
    ensures UniqueIds(entries) ==> UniqueIds(r)
  {
    var r := entries[i := FillBlanks(entries[i], x)];
    FindEntryKept(entries, r, x.id);
    r
  }

  /** `x` appended after the entries, none of which has its id. */
  function AppendNew(entries: seq<TilesetEntry>, x: TilesetEntry): (r: seq<TilesetEntry>)
    requires FindEntry(entries, x.id).None?
    ensures |r| == |entries| + 1 && r[|entries|] == x && r[..|entries|] == entries
    ensures forall k :: 0 <= k < |entries| ==> Keeps(entries[k], r[k])
    ensures FindEntry(r, x.id) == Some(|entries|)
    ensures UniqueIds(entries) ==> UniqueIds(r)
  {
    var r := entries + [x];
    assert r[|entries|].id == x.id;
    assert r[..|entries|] == entries;
    r
  }

  /**
   * `merge_tilesets_from_map`: the incoming entries in order. Ids the
   * library knows only fill blanks; unknown ids are appended; entries with
   * a blank id are skipped; the first accepted id becomes active only when
   * nothing was active.
   */
  function MergeTilesets(lib: Library, incoming: seq<TilesetEntry>): (r: Library)
    ensures |r.entries| >= |lib.entries|
    ensures forall i :: 0 <= i < |lib.entries| ==> Keeps(lib.entries[i], r.entries[i])
    ensures forall i :: |lib.entries| <= i < |r.entries| ==>
      && FindEntry(lib.entries, r.entries[i].id).None?
      && Incoming(incoming, r.entries[i].id)
    ensures forall j :: 0 <= j < |incoming| && !IsBlank(incoming[j].id) ==>
      FindEntry(r.entries, incoming[j].id).Some?
    ensures UniqueIds(lib.entries) ==> UniqueIds(r.entries)
    ensures r.activeId == if lib.activeId.Some? then lib.activeId else FirstAccepted(incoming)
    ensures r.activeCategory == lib.activeCategory
    decreases |incoming|
  {
    if |incoming| == 0 then lib
    else
      var lib1 := MergeOne(lib, incoming[0]);
      var r := MergeTilesets(lib1, incoming[1..]);
      assert forall j :: 1 <= j < |incoming| ==> incoming[j] == incoming[1..][j - 1];
      forall i | 0 <= i < |lib.entries|
        ensures Keeps(lib.entries[i], r.entries[i])
      {
        assert Keeps(lib1.entries[i], r.entries[i]);
      }
      MergeStepAppended(lib, incoming, lib1, r);
      MergeStepFound(lib, incoming, lib1, r);
      r
  }

  /** The ids a merge step appends are new to the library and come from accepted incoming entries. */
  lemma MergeStepAppended(lib: Library, incoming: seq<TilesetEntry>, lib1: Library, r: Library)
    requires |incoming| > 0 && lib1 == MergeOne(lib, incoming[0])
    requires |r.entries| >= |lib1.entries|
    requires forall i :: 0 <= i < |lib1.entries| ==> Keeps(lib1.entries[i], r.entries[i])
    requires forall i :: |lib1.entries| <= i < |r.entries| ==>
      && FindEntry(lib1.entries, r.entries[i].id).None?
      && Incoming(incoming[1..], r.entries[i].id)
    ensures forall i :: |lib.entries| <= i < |r.entries| ==>
      && FindEntry(lib.entries, r.entries[i].id).None?
      && Incoming(incoming, r.entries[i].id)
  {
    forall i | |lib.entries| <= i < |r.entries|
      ensures FindEntry(lib.entries, r.entries[i].id).None?
      ensures Incoming(incoming, r.entries[i].id)
    {
      if i < |lib1.entries| {
        assert Keeps(lib1.entries[i], r.entries[i]);
        FirstAppended(lib, incoming, lib1, i);
      } else {
        LaterAppended(lib, incoming, lib1, r.entries[i].id);
      }
    }
  }

  /** The entry the first step appends is new to the library and comes from the first incoming entry. */
  lemma FirstAppended(lib: Library, incoming: seq<TilesetEntry>, lib1: Library, i: nat)
    requires |incoming| > 0 && lib1 == MergeOne(lib, incoming[0])
    requires |lib.entries| <= i < |lib1.entries|
    ensures FindEntry(lib.entries, lib1.entries[i].id).None?
    ensures Incoming(incoming, lib1.entries[i].id)
  {
    assert lib1.entries[i] == incoming[0];
  }

  /** An id appended by a later step is new to the library before the step and is an accepted incoming id. */
  lemma LaterAppended(lib: Library, incoming: seq<TilesetEntry>, lib1: Library, id: string)
    requires |incoming| > 0 && lib1 == MergeOne(lib, incoming[0])
    requires FindEntry(lib1.entries, id).None?
    requires Incoming(incoming[1..], id)
    ensures FindEntry(lib.entries, id).None?
    ensures Incoming(incoming, id)
  {
    var j :| 0 <= j < |incoming[1..]| && incoming[1..][j].id == id;
    assert incoming[j + 1].id == id;
    NewToPrefix(lib.entries, lib1.entries, id);
  }

  /** An id missing from a library whose ids extend `a`'s is missing from `a`. */
  lemma NewToPrefix(a: seq<TilesetEntry>, b: seq<TilesetEntry>, id: string)
    requires |a| <= |b| && forall k :: 0 <= k < |a| ==> Keeps(a[k], b[k])
    requires FindEntry(b, id).None?
    ensures FindEntry(a, id).None?
  {
    forall k | 0 <= k < |a|
      ensures a[k].id != id
    {
      assert Keeps(a[k], b[k]);
    }
  }

  /** After a merge step every accepted incoming id, the first one included, is in the library. */
  lemma MergeStepFound(lib: Library, incoming: seq<TilesetEntry>, lib1: Library, r: Library)
    requires |incoming| > 0 && lib1 == MergeOne(lib, incoming[0])
    requires |r.entries| >= |lib1.entries|
    requires forall i :: 0 <= i < |lib1.entries| ==> Keeps(lib1.entries[i], r.entries[i])
    requires forall j :: 0 <= j < |incoming[1..]| && !IsBlank(incoming[1..][j].id) ==>
      FindEntry(r.entries, incoming[1..][j].id).Some?
    ensures forall j :: 0 <= j < |incoming| && !IsBlank(incoming[j].id) ==> FindEntry(r.entries, incoming[j].id).Some?
  {
    forall j | 0 <= j < |incoming| && !IsBlank(incoming[j].id)
      ensures FindEntry(r.entries, incoming[j].id).Some?
    {
      if j == 0 {
        var f := FindEntry(lib1.entries, incoming[0].id);
        assert Keeps(lib1.entries[f.value], r.entries[f.value]);
      } else {
        assert incoming[1..][j - 1] == incoming[j];
      }
    }
  }

  /** Every accepted incoming entry has nothing left to fill in the merged library. */
  predicate Saturated(entries: seq<TilesetEntry>, incoming: seq<TilesetEntry>)
  {
    forall j :: 0 <= j < |incoming| && !IsBlank(incoming[j].id) ==>
      var f := FindEntry(entries, incoming[j].id);
      f.Some? && Settled(entries[f.value], incoming[j])
  }

  /** Filling blanks elsewhere keeps the first match of every known id where it was. */
  lemma FindEntryKept(a: seq<TilesetEntry>, b: seq<TilesetEntry>, id: string)
    requires |a| <= |b| && forall i :: 0 <= i < |a| ==> Keeps(a[i], b[i])
    requires FindEntry(a, id).Some?
    ensures FindEntry(b, id) == FindEntry(a, id)
  {
    var f := FindEntry(a, id).value;
    assert b[f].id == id;
    forall k | 0 <= k < f
      ensures b[k].id != id
    {
      assert Keeps(a[k], b[k]);
    }
  }

  /** Merging leaves every accepted incoming entry settled in the result. */
  lemma {:induction false} MergeSaturates(lib: Library, incoming: seq<TilesetEntry>)
    ensures Saturated(MergeTilesets(lib, incoming).entries, incoming)
    decreases |incoming|
  {
    if |incoming| > 0 {
      var lib1 := MergeOne(lib, incoming[0]);
      var r := MergeTilesets(lib1, incoming[1..]);
      assert r == MergeTilesets(lib, incoming);
      MergeSaturates(lib1, incoming[1..]);
      forall j | 0 <= j < |incoming| && !IsBlank(incoming[j].id)
        ensures var f := FindEntry(r.entries, incoming[j].id);
          f.Some? && Settled(r.entries[f.value], incoming[j])
      {
        if j == 0 {
          var f := FindEntry(lib1.entries, incoming[0].id);
          FindEntryKept(lib1.entries, r.entries, incoming[0].id);
          assert Keeps(lib1.entries[f.value], r.entries[f.value]);
        } else {
          assert incoming[1..][j - 1] == incoming[j];
        }
      }
    }
  }

  /** Merging into a library that already holds everything the incoming entries offer changes nothing. */
  lemma {:induction false} MergeSettledIdentity(lib: Library, incoming: seq<TilesetEntry>)
    requires Saturated(lib.entries, incoming)
    requires lib.activeId.Some? || FirstAccepted(incoming).None?
    ensures MergeTilesets(lib, incoming) == lib
    decreases |incoming|
  {
    if |incoming| > 0 {
      var x := incoming[0];
      if !IsBlank(x.id) {
        var f := FindEntry(lib.entries, x.id).value;
        FillSettled(lib.entries[f], x);
        assert lib.entries[f := FillBlanks(lib.entries[f], x)] == lib.entries;
      }
      assert MergeOne(lib, x) == lib;
      assert forall j :: 1 <= j < |incoming| ==> incoming[j] == incoming[1..][j - 1];
      MergeSettledIdentity(lib, incoming[1..]);
    }
  }

  /** Loading the same map twice: the second merge changes nothing. */
  lemma MergeIdempotent(lib: Library, incoming: seq<TilesetEntry>)
    ensures var r := MergeTilesets(lib, incoming);
      MergeTilesets(r, incoming) == r
  {
    var r := MergeTilesets(lib, incoming);
    MergeSaturates(lib, incoming);
    MergeSettledIdentity(r, incoming);
  }

  /** The active id, when there is one, names an entry of the library. */
  predicate ActiveKnown(lib: Library)
  {
    lib.activeId.Some? ==> FindEntry(lib.entries, lib.activeId.value).Some?
  }

  /** Merging keeps the active id pointing at a library entry. */
  lemma MergeKeepsActiveKnown(lib: Library, incoming: seq<TilesetEntry>)
    requires ActiveKnown(lib)
    ensures ActiveKnown(MergeTilesets(lib, incoming))
  {
    var r := MergeTilesets(lib, incoming);
    if lib.activeId.Some? {
      FindEntryKept(lib.entries, r.entries, lib.activeId.value);
    } else if r.activeId.Some? {
      var j :| 0 <= j < |incoming| && incoming[j].id == r.activeId.value;
    }
  }

  /** Startup: without an active tileset the first entry becomes active; an empty library stays without one. */
  function DefaultActive(lib: Library): (r: Library)
    ensures r.entries == lib.entries && r.activeCategory == lib.activeCategory
    ensures lib.activeId.Some? ==> r.activeId == lib.activeId
    ensures lib.activeId.None? && |lib.entries| > 0 ==> r.activeId == Some(lib.entries[0].id)
    ensures r.activeId.None? <==> lib.activeId.None? && |lib.entries| == 0
    ensures ActiveKnown(lib) ==> ActiveKnown(r)
  {
    if lib.activeId.None? then
      lib.(activeId := if |lib.entries| > 0 then Some(lib.entries[0].id) else None)
    else lib
  }
}
