/**
 * The tileset menu: the category button cycles the library's active
 * category through the distinct non-blank categories in sorted order and
 * back to "" (all); the menu lists the entries of the active category
 * under a label that falls back from name to asset path to id; clicking
 * an entry makes it the active tileset and clamps the selected tile to
 * the tileset's tile count when the tileset is loaded.
 */
module TilesetMenu {
  import opened Base
  import opened Text
  import opened TilesetLibrary
  import opened Shortcuts

  // ---------------------------------------------------------------------
  // Category candidates: trimmed, non-empty, sorted, deduplicated
  // ---------------------------------------------------------------------

  /** Strictly ascending: sorted and without duplicates. */
  predicate StrictlySorted(s: seq<string>)
  {
    forall i, j :: 0 <= i < j < |s| ==> StrLess(s[i], s[j])
  }

  /** `c` is the trimmed, non-empty category of some entry. */
  predicate IsCategory(entries: seq<TilesetEntry>, c: string)
  {
    c != [] && exists e :: e in entries && Trim(e.category) == c
  }

  /** Putting `x` in front of a strictly sorted list of larger strings keeps it strictly sorted. */
  lemma SortedCons(x: string, s: seq<string>)
    requires StrictlySorted(s)
    requires forall y :: y in s ==> StrLess(x, y)
    ensures StrictlySorted([x] + s)
  {
    var r := [x] + s;
    forall i, j | 0 <= i < j < |r|
      ensures StrLess(r[i], r[j])
    {
      if i == 0 {
        assert r[j] == s[j - 1];
      } else {
        assert r[i] == s[i - 1] && r[j] == s[j - 1];
      }
    }
  }

  /** Every element after the head of a strictly sorted list is larger than the head. */
  lemma HeadIsLeast(s: seq<string>)
    requires StrictlySorted(s) && s != []
    ensures forall y :: y in s[1..] ==> StrLess(s[0], y)
  {
    forall y | y in s[1..]
      ensures StrLess(s[0], y)
    {
      var j :| 0 <= j < |s[1..]| && s[1..][j] == y;
      assert s[j + 1] == y;
    }
  }

  /** Sorted insertion that drops a duplicate: one step of `sort` followed by `dedup`. */
  function Insert(s: seq<string>, c: string): (r: seq<string>)
    requires StrictlySorted(s)
    ensures StrictlySorted(r)
    ensures forall x :: x in r <==> x in s || x == c
  {
    if s == [] then [c]
    else if c == s[0] then s
    else if StrLess(c, s[0]) then
      (HeadIsLeast(s); LessThanAll(c, s); SortedCons(c, s); [c] + s)
    else
      var rest := Insert(s[1..], c);
      (StrLessTotal(c, s[0]); HeadIsLeast(s); SortedCons(s[0], rest); assert s == [s[0]] + s[1..]; [s[0]] + rest)
  }

  /** A string below the head of a strictly sorted list is below all of it. */
  lemma LessThanAll(c: string, s: seq<string>)
    requires StrictlySorted(s) && s != [] && StrLess(c, s[0])
    requires forall y :: y in s[1..] ==> StrLess(s[0], y)
    ensures forall y :: y in s ==> StrLess(c, y)
  {
    forall y | y in s
      ensures StrLess(c, y)
    {
      if y != s[0] {
        assert y in s[1..] by {
          var j :| 0 <= j < |s| && s[j] == y;
          assert j > 0;
          assert s[1..][j - 1] == y;
        }
        StrLessTransitive(c, s[0], y);
      }
    }
  }

  /**
   * The category candidates of `tileset_menu_category_click`: each entry's
   * trimmed category, blanks dropped, sorted and deduplicated.
   */
  function Categories(entries: seq<TilesetEntry>): (r: seq<string>)
    ensures StrictlySorted(r)
    ensures forall c :: c in r <==> IsCategory(entries, c)
  {
    if entries == [] then []
    else
      var rest := Categories(entries[1..]);
      var c := Trim(entries[0].category);
      var r := if c == [] then rest else Insert(rest, c);
      CategoriesStep(entries, rest, r);
      r
  }

  /** Membership in the candidates of a non-empty list, given those of its tail. */
  lemma CategoriesStep(entries: seq<TilesetEntry>, rest: seq<string>, r: seq<string>)
    requires entries != []
    requires forall c :: c in rest <==> IsCategory(entries[1..], c)
    requires forall x :: x in r <==> x in rest || (x == Trim(entries[0].category) && x != [])
    ensures forall c :: c in r <==> IsCategory(entries, c)
  {
    forall c | IsCategory(entries, c)
      ensures c in r
    {
      var e :| e in entries && Trim(e.category) == c;
      if e != entries[0] {
        var j :| 0 <= j < |entries| && entries[j] == e;
        assert entries[1..][j - 1] == e;
      }
    }
    forall c | c in r
      ensures IsCategory(entries, c)
    {
      if c in rest {
        var e :| e in entries[1..] && Trim(e.category) == c;
        assert e in entries;
      } else {
        assert entries[0] in entries;
      }
    }
  }

  /** `a` and `b` are not each below the other. */
  lemma NotBoth(a: string, b: string)
    ensures !(StrLess(a, b) && StrLess(b, a))
  {
    if StrLess(a, b) {
      StrLessAsymmetric(a, b);
    }
  }

  /**
   * A strictly sorted list is determined by its elements: whatever order
   * the categories are gathered in, sorting and deduplicating gives
   * `Categories`.
   */
  lemma {:induction false} SortedUnique(a: seq<string>, b: seq<string>)
    requires StrictlySorted(a) && StrictlySorted(b)
    requires forall x :: x in a <==> x in b
    ensures a == b
    decreases |a|
  {
    if a == [] {
      assert forall x :: x !in b;
      EmptyIfNoElements(b);
    } else {
      assert a[0] in b;
      HeadIsLeast(a);
      HeadIsLeast(b);
      assert a[0] in b && b[0] in a;
      assert a == [a[0]] + a[1..] && b == [b[0]] + b[1..];
      assert a[0] == b[0] || StrLess(b[0], a[0]);
      assert a[0] == b[0] || StrLess(a[0], b[0]);
      NotBoth(a[0], b[0]);
      StrLessIrreflexive(a[0]);
      forall x
        ensures x in a[1..] <==> x in b[1..]
      {
        if x in a[1..] {
          assert x in b && x != b[0];
        }
        if x in b[1..] {
          assert x in a && x != a[0];
        }
      }
      SortedTail(a);
      SortedTail(b);
      SortedUnique(a[1..], b[1..]);
    }
  }

  /** A list with no elements is empty. */
  lemma EmptyIfNoElements(s: seq<string>)
    ensures (forall x :: x !in s) ==> s == []
  {
    if s != [] {
      assert s[0] in s;
    }
  }

  /** The tail of a strictly sorted list is strictly sorted. */
  lemma SortedTail(s: seq<string>)
    requires StrictlySorted(s) && s != []
    ensures StrictlySorted(s[1..])
  {
    forall i, j | 0 <= i < j < |s| - 1
      ensures StrLess(s[1..][i], s[1..][j])
    {
      assert s[1..][i] == s[i + 1] && s[1..][j] == s[j + 1];
    }
  }

  // ---------------------------------------------------------------------
  // The category cycle
  // ---------------------------------------------------------------------

  /** `cats.iter().position(|c| c == current)`. */
  function Position(cats: seq<string>, current: string): (r: Option<nat>)
    ensures r.Some? ==> r.value < |cats| && cats[r.value] == current
    ensures r.Some? ==> forall k :: 0 <= k < r.value ==> cats[k] != current
    ensures r.None? <==> current !in cats
  {
    if cats == [] then None
    else if cats[0] == current then Some(0)
    else match Position(cats[1..], current)
      case None => None
      case Some(i) => Some(i + 1)
  }

  /**
   * The category after `current` (already trimmed): the first one from "",
   * the next one from a listed category, and "" after the last or from a
   * category that is not listed.
   */
  function NextCategory(cats: seq<string>, current: string): (r: string)
    ensures cats == [] ==> r == []
    ensures cats != [] && current == [] ==> r == cats[0]
    ensures current != [] && current !in cats ==> r == []
    ensures r == [] || r in cats
  {
    if cats == [] then []
    else if current == [] then cats[0]
    else match Position(cats, current)
      case Some(i) => if i + 1 < |cats| then cats[i + 1] else []
      case None => []
  }

  /** No category is listed twice. */
  predicate Distinct(cats: seq<string>)
  {
    forall i, j :: 0 <= i < j < |cats| ==> cats[i] != cats[j]
  }

  /** Strictly sorted lists have no duplicates. */
  lemma SortedDistinct(cats: seq<string>)
    requires StrictlySorted(cats)
    ensures Distinct(cats)
  {
    forall i, j | 0 <= i < j < |cats|
      ensures cats[i] != cats[j]
    {
      StrLessIrreflexive(cats[i]);
    }
  }

  /** In a list without duplicates, a listed category is followed by the next one. */
  lemma NextOfListed(cats: seq<string>, i: nat)
    requires Distinct(cats) && i < |cats| && cats[i] != []
    ensures NextCategory(cats, cats[i]) == if i + 1 < |cats| then cats[i + 1] else []
  {
    var p := Position(cats, cats[i]);
    assert p.Some?;
    assert p.value == i;
  }

  /** The category after `k` clicks starting from "". */
  function Clicks(cats: seq<string>, k: nat): (r: string)
    ensures r == [] || r in cats
  {
    if k == 0 then [] else NextCategory(cats, Clicks(cats, k - 1))
  }

  /**
   * Clicking the category button repeatedly from "" visits every category
   * once, in sorted order, and then comes back to "".
   */
  lemma {:induction false} CycleVisitsEach(cats: seq<string>, k: nat)
    requires Distinct(cats)
    requires forall c :: c in cats ==> c != []
    requires 1 <= k <= |cats|
    ensures Clicks(cats, k) == cats[k - 1]
  {
    if k == 1 {
      assert Clicks(cats, 0) == [];
    } else {
      CycleVisitsEach(cats, k - 1);
      assert cats[k - 2] in cats;
      NextOfListed(cats, k - 2);
    }
  }

  /** After every category, one more click shows all tilesets again. */
  lemma CycleReturnsToAll(cats: seq<string>)
    requires Distinct(cats)
    requires forall c :: c in cats ==> c != []
    ensures Clicks(cats, |cats| + 1) == []
  {
    if cats != [] {
      CycleVisitsEach(cats, |cats|);
      assert cats[|cats| - 1] in cats;
      NextOfListed(cats, |cats| - 1);
    }
  }

  /**
   * `tileset_menu_category_click`: the active category becomes the one
   * after the current (trimmed) one among the library's categories.
   */
  function CycleCategory(lib: Library): (r: Library)
    ensures r.entries == lib.entries && r.activeId == lib.activeId
    ensures r.activeCategory == [] || IsCategory(lib.entries, r.activeCategory)
    ensures Categories(lib.entries) == [] ==> r.activeCategory == []
  {
    lib.(activeCategory := NextCategory(Categories(lib.entries), Trim(lib.activeCategory)))
  }

  /**
   * From "", the clicks of the category button go through every distinct
   * category of the library once, in sorted order, and then back to "".
   */
  lemma CycleCategoryOrder(lib: Library, k: nat)
    requires lib.activeCategory == []
    ensures var cats := Categories(lib.entries);
      && (1 <= k <= |cats| ==> Cycled(lib, k).activeCategory == cats[k - 1])
      && (k == |cats| + 1 ==> Cycled(lib, k).activeCategory == [])
  {
    var cats := Categories(lib.entries);
    CycledIsClicks(lib, k);
    CategoriesDistinctNonEmpty(lib.entries);
    if 1 <= k <= |cats| {
      CycleVisitsEach(cats, k);
    } else if k == |cats| + 1 {
      CycleReturnsToAll(cats);
      assert Clicks(cats, k) == [];
    }
  }

  /** The category list has no repeats and no empty name. */
  lemma CategoriesDistinctNonEmpty(entries: seq<TilesetEntry>)
    ensures var cats := Categories(entries);
      Distinct(cats) && forall c :: c in cats ==> c != []
  {
    SortedDistinct(Categories(entries));
  }

  /** The library after `k` clicks of the category button. */
  function Cycled(lib: Library, k: nat): (r: Library)
    ensures r.entries == lib.entries && r.activeId == lib.activeId
  {
    if k == 0 then lib else CycleCategory(Cycled(lib, k - 1))
  }

  /** Clicking the button follows `Clicks` on the library's categories, which are already trimmed. */
  lemma {:induction false} CycledIsClicks(lib: Library, k: nat)
    requires lib.activeCategory == []
    ensures Cycled(lib, k).activeCategory == Clicks(Categories(lib.entries), k)
  {
    if k == 0 {
      assert Cycled(lib, 0) == lib;
      assert Clicks(Categories(lib.entries), 0) == [];
    } else {
      CycledIsClicks(lib, k - 1);
      var prev := Cycled(lib, k - 1);
      var cats := Categories(lib.entries);
      assert prev.entries == lib.entries;
      TrimmedCategory(lib.entries, prev.activeCategory);
      assert Categories(prev.entries) == cats;
      assert Cycled(lib, k).activeCategory == NextCategory(cats, Trim(prev.activeCategory));
      assert Clicks(cats, k) == NextCategory(cats, Clicks(cats, k - 1));
    }
  }

  /** The active category is "" or a listed category, so trimming leaves it unchanged. */
  lemma TrimmedCategory(entries: seq<TilesetEntry>, c: string)
    requires c == [] || c in Categories(entries)
    ensures Trim(c) == c
  {
    if c != [] {
      var e :| e in entries && Trim(e.category) == c;
      TrimByIdempotent(e.category, IsWhitespace);
    }
  }

  // ---------------------------------------------------------------------
  // The entry list and its labels
  // ---------------------------------------------------------------------

  /** The entries the menu lists for a trimmed category: all of them for "", else those whose trimmed category is it. */
  function ShownEntries(entries: seq<TilesetEntry>, category: string): (r: seq<TilesetEntry>)
    ensures |r| <= |entries|
    ensures category == [] ==> r == entries
    ensures forall e :: e in r <==> e in entries && (category == [] || Trim(e.category) == category)
  {
    if entries == [] then []
    else
      var rest := ShownEntries(entries[1..], category);
      var e := entries[0];
      assert entries == [e] + entries[1..];
      if category == [] || Trim(e.category) == category then [e] + rest else rest
  }

  /** The entries listed for the library's active category. */
  function MenuEntries(lib: Library): (r: seq<TilesetEntry>)
    ensures forall e :: e in r <==> e in lib.entries && (IsBlank(lib.activeCategory) || Trim(e.category) == Trim(lib.activeCategory))
  {
    ShownEntries(lib.entries, Trim(lib.activeCategory))
  }

  /** A category the button can reach always lists at least one entry. */
  lemma CycledCategoryNotEmpty(lib: Library)
    ensures MenuEntries(CycleCategory(lib)) != []
            || (CycleCategory(lib).activeCategory == [] && lib.entries == [])
  {
    var r := CycleCategory(lib);
    var c := r.activeCategory;
    if c != [] {
      var e :| e in lib.entries && Trim(e.category) == c;
      TrimmedCategory(lib.entries, c);
      assert e in MenuEntries(r);
    } else if lib.entries != [] {
      assert lib.entries[0] in MenuEntries(r);
    }
  }

  /** The name of an entry's button: its name, else its asset path, else its id. */
  function BaseLabel(e: TilesetEntry): (r: string)
    ensures r == e.name || r == e.assetPath || r == e.id
    ensures !IsBlank(e.name) ==> r == e.name
    ensures IsBlank(r) ==> IsBlank(e.name) && IsBlank(e.assetPath)
    ensures IsBlank(e.name) && IsBlank(e.assetPath) ==> r == e.id
  {
    if !IsBlank(e.name) then e.name
    else if !IsBlank(e.assetPath) then e.assetPath
    else e.id
  }

  /** The full button text: the base label, followed by "  [category]" when the entry has a category. */
  function EntryLabel(e: TilesetEntry): (r: string)
    ensures var b := BaseLabel(e);
      |r| >= |b| && r[..|b|] == b
    ensures IsBlank(e.category) <==> r == BaseLabel(e)
    ensures !IsBlank(e.category) ==> r[|BaseLabel(e)|..] == "  [" + e.category + "]"
  {
    var b := BaseLabel(e);
    if !IsBlank(e.category) then
      var r := b + ("  [" + e.category + "]");
      assert r[..|b|] == b && r[|b|..] == "  [" + e.category + "]";
      assert |r| > |b|;
      r
    else b
  }

  // ---------------------------------------------------------------------
  // Picking an entry
  // ---------------------------------------------------------------------

  /** What a click on a menu entry updates. */
  datatype MenuPick = MenuPick(lib: Library, selectedTile: nat, menuOpen: bool)

  /**
   * `tileset_menu_item_click`: the clicked tileset becomes active and the
   * menu closes; when its atlas is loaded (`runtime` maps ids to columns
   * and rows) the selected tile is clamped to the last tile.
   */
  function PickTileset(lib: Library, runtime: map<string, (nat, nat)>, selectedTile: nat, id: string): (r: MenuPick)
    ensures r.lib == lib.(activeId := Some(id)) && !r.menuOpen
    ensures id !in runtime ==> r.selectedTile == selectedTile
    ensures id in runtime ==> r.selectedTile < TileCount(Some(id), runtime)
    ensures id in runtime && selectedTile < TileCount(Some(id), runtime) ==> r.selectedTile == selectedTile
    ensures id in runtime && selectedTile >= TileCount(Some(id), runtime) ==> r.selectedTile == TileCount(Some(id), runtime) - 1
  {
    var tile := if id in runtime then Min(selectedTile, TileCount(Some(id), runtime) - 1) else selectedTile;
    MenuPick(lib.(activeId := Some(id)), tile, false)
  }

  /** Clicking the same entry twice is the same as clicking it once. */
  lemma PickTwice(lib: Library, runtime: map<string, (nat, nat)>, selectedTile: nat, id: string)
    ensures var r1 := PickTileset(lib, runtime, selectedTile, id);
      PickTileset(r1.lib, runtime, r1.selectedTile, id) == r1
  {
  }

  /** Picking a listed entry leaves the active id naming a library entry. */
  lemma PickListedKnown(lib: Library, runtime: map<string, (nat, nat)>, selectedTile: nat, e: TilesetEntry)
    requires e in MenuEntries(lib)
    ensures ActiveKnown(PickTileset(lib, runtime, selectedTile, e.id).lib)
  {
    var j :| 0 <= j < |lib.entries| && lib.entries[j] == e;
    assert FindEntry(lib.entries, e.id).Some?;
  }
}
