/**
 * The palette's search filter: `parse_u32`, `palette_filter_matches` and
 * the list of tile indices the palette shows for a filter. Indices,
 * columns and parsed numbers are `u32` values in the original; here they
 * are naturals and the indices are taken to fit in 32 bits.
 */
module Palette {
  import opened Base
  import opened Text

  /** A string whose first and last characters are not whitespace is its own trim. */
  lemma TrimNoop(s: string)
    requires s != [] && !IsWhitespace(s[0]) && !IsWhitespace(s[|s| - 1])
    ensures Trim(s) == s
  {
    var r := Trim(s);
    var i :| TrimmedAt(s, r, IsWhitespace, i);
    var p := IsWhitespace;
    assert !p(s[0]) && !p(s[|s| - 1]);
    assert i == 0;
    assert i + |r| == |s|;
    assert s[0..|s|] == s;
  }

  /** `parse_u32`: the trimmed text when it is non-empty, all ASCII digits and at most `u32::MAX`. */
  function ParseU32(s: string): (r: Option<nat>)
    ensures r.Some? <==> (var t := Trim(s); t != [] && AllDigits(t) && DecimalValue(t) <= U32_MAX)
    ensures r.Some? ==> r.value == DecimalValue(Trim(s)) && r.value <= U32_MAX
    ensures r.Some? ==> forall k :: 0 <= k < |Trim(s)| ==> IsDigit(Trim(s)[k])
  {
    var t := Trim(s);
    if t == [] || !AllDigits(t) then None
    else if DecimalValue(t) <= U32_MAX then Some(DecimalValue(t))
    else None
  }

  /** Every `u32` prints as a string `parse_u32` reads back. */
  lemma ParseU32OfString(n: nat)
    requires n <= U32_MAX
    ensures ParseU32(NatToString(n)) == Some(n)
  {
    var s := NatToString(n);
    assert IsDigit(s[0]) && IsDigit(s[|s| - 1]);
    TrimNoop(s);
  }

  /** Unlike `str::parse`, `parse_u32` refuses a leading '+': the digit check comes first. */
  lemma ParseU32RejectsPlus(n: nat)
    requires n <= U32_MAX
    ensures ParseU32("+" + NatToString(n)) == None
    ensures ParseU32Std("+" + NatToString(n)) == Some(n)
  {
    var s := "+" + NatToString(n);
    var d := NatToString(n);
    assert IsDigit(d[|d| - 1]) && s[|s| - 1] == d[|d| - 1];
    TrimNoop(s);
    assert !IsDigit(s[0]);
    assert s[1..] == d;
    ParseU32StdOfString(n);
  }

  /** A range query "a-b": both sides around the first '-' parse as numbers. */
  function RangeOf(q: string): (r: Option<(nat, nat)>)
    ensures r.Some? ==> FindChar(q, '-').Some?
    ensures r.Some? ==> var i := FindChar(q, '-').value;
      ParseU32(q[..i]) == Some(r.value.0) && ParseU32(q[i + 1..]) == Some(r.value.1)
    ensures (FindChar(q, '-').Some? && ParseU32(q[..FindChar(q, '-').value]).Some?
             && ParseU32(q[FindChar(q, '-').value + 1..]).Some?) ==> r.Some?
  {
    match FindChar(q, '-')
    case None => None
    case Some(i) =>
      match (ParseU32(q[..i]), ParseU32(q[i + 1..]))
      case (Some(a), Some(b)) => Some((a, b))
      case _ => None
  }

  /** "x{sep}y": the column and row of `index` in a grid `max(columns, 1)` wide. */
  function CoordLabel(index: nat, columns: nat, sep: char): (s: string)
    ensures var c := Max(columns, 1);
      s == NatToString(index % c) + [sep] + NatToString(index / c)
  {
    var c := Max(columns, 1);
    NatToString(index % c) + [sep] + NatToString(index / c)
  }

  /**
   * `palette_filter_matches`. A blank query matches everything; "a-b" with
   * two numbers matches the inclusive range, in either order; a number
   * matches that index only; anything else is a substring of the decimal
   * index or of its coordinates written "x,y", "xxy" or "xXy". The four
   * cases are the lemmas below.
   */
  function Matches(index: nat, columns: nat, query: string): (r: bool)
    ensures IsBlank(query) ==> r
  {
    var q := Trim(query);
    if q == [] then true
    else match RangeOf(q)
      case Some((a, b)) =>
        var lo := if a <= b then a else b;
        var hi := if a <= b then b else a;
        lo <= index <= hi
      case None =>
        match ParseU32(q)
        case Some(n) => index == n
        case None => TextMatch(index, columns, q)
  }

  /** The query as text: a substring of the decimal index or of one of the three coordinate labels. */
  predicate TextMatch(index: nat, columns: nat, q: string)
  {
    || Contains(NatToString(index), q)
    || Contains(CoordLabel(index, columns, ','), q)
    || Contains(CoordLabel(index, columns, 'x'), q)
    || Contains(CoordLabel(index, columns, 'X'), q)
  }

  /** A query of digits only has no '-', so it is never read as a range. */
  lemma DigitsNoRange(q: string)
    ensures AllDigits(q) ==> RangeOf(q).None?
  {
    if AllDigits(q) {
      assert forall k :: 0 <= k < |q| ==> IsDigit(q[k]) && q[k] != '-';
    }
  }

  /** A range query matches the inclusive range between its two numbers, whichever is larger. */
  lemma MatchesRange(index: nat, columns: nat, query: string)
    requires RangeOf(Trim(query)).Some?
    ensures var (a, b) := RangeOf(Trim(query)).value;
      Matches(index, columns, query) <==> Min(a, b) <= index <= Max(a, b)
  {
    var q := Trim(query);
    var ab := RangeOf(q).value;
    assert q != [] by {
      assert FindChar(q, '-').value < |q|;
    }
    assert Matches(index, columns, query) == (Min(ab.0, ab.1) <= index <= Max(ab.0, ab.1));
  }

  /** A query that parses as a number matches exactly that index. */
  lemma MatchesNumber(index: nat, columns: nat, query: string)
    requires ParseU32(query).Some?
    ensures Matches(index, columns, query) <==> index == ParseU32(query).value
  {
    TrimByIdempotent(query, IsWhitespace);
    DigitsNoRange(Trim(query));
  }

  /** Any other non-blank query is searched for as text. */
  lemma MatchesText(index: nat, columns: nat, query: string)
    requires !IsBlank(query) && RangeOf(Trim(query)).None? && ParseU32(query).None?
    ensures Matches(index, columns, query) <==> TextMatch(index, columns, Trim(query))
  {
    TrimByIdempotent(query, IsWhitespace);
  }

  /** A number as the query matches exactly that index. */
  lemma NumberQueryExact(index: nat, columns: nat, n: nat)
    requires n <= U32_MAX
    ensures Matches(index, columns, NatToString(n)) <==> index == n
  {
    ParseU32OfString(n);
    MatchesNumber(index, columns, NatToString(n));
  }

  /** The first '-' of "a-b" with `a` a decimal number is the separator. */
  lemma FindDash(a: string, b: string)
    requires AllDigits(a)
    ensures FindChar(a + "-" + b, '-') == Some(|a|)
  {
    var s := a + "-" + b;
    var f := FindChar(s, '-');
    assert s[|a|] == '-';
    assert forall k :: 0 <= k < |a| ==> s[k] == a[k];
  }

  /** "a-b" with `a` all digits splits at the dash into its two numbers. */
  lemma RangeOfParts(sa: string, sb: string, a: nat, b: nat)
    requires AllDigits(sa) && ParseU32(sa) == Some(a) && ParseU32(sb) == Some(b)
    ensures RangeOf(sa + "-" + sb) == Some((a, b))
  {
    var q := sa + "-" + sb;
    FindDash(sa, sb);
    assert q[..|sa|] == sa && q[|sa| + 1..] == sb;
  }

  /** "a-b" written from two `u32` values reads back as the range (a, b). */
  lemma RangeOfJoin(a: nat, b: nat)
    requires a <= U32_MAX && b <= U32_MAX
    ensures var q := NatToString(a) + "-" + NatToString(b);
      Trim(q) == q && RangeOf(q) == Some((a, b))
  {
    var sa, sb := NatToString(a), NatToString(b);
    var q := sa + "-" + sb;
    assert q[0] == sa[0] && IsDigit(sa[0]);
    assert q[|q| - 1] == sb[|sb| - 1] && IsDigit(sb[|sb| - 1]);
    TrimNoop(q);
    ParseU32OfString(a);
    ParseU32OfString(b);
    RangeOfParts(sa, sb, a, b);
  }

  /** "a-b" matches the indices from the smaller to the larger number, both included, whichever comes first. */
  lemma RangeQuery(index: nat, columns: nat, a: nat, b: nat)
    requires a <= U32_MAX && b <= U32_MAX
    ensures Matches(index, columns, NatToString(a) + "-" + NatToString(b)) <==> Min(a, b) <= index <= Max(a, b)
  {
    RangeOfJoin(a, b);
    MatchesRange(index, columns, NatToString(a) + "-" + NatToString(b));
  }

  /** Two digit strings joined by a comma are already trimmed, hold no '-' and are not a number. */
  lemma CommaJoinShape(sx: string, sy: string)
    requires sx != [] && AllDigits(sx) && sy != [] && AllDigits(sy)
    ensures var q := sx + [','] + sy;
      Trim(q) == q && FindChar(q, '-').None? && ParseU32(q).None?
  {
    var q := sx + [','] + sy;
    assert q[0] == sx[0] && IsDigit(sx[0]);
    assert q[|q| - 1] == sy[|sy| - 1] && IsDigit(sy[|sy| - 1]);
    TrimNoop(q);
    assert q[|sx|] == ',';
    assert !AllDigits(q);
    forall k | 0 <= k < |q|
      ensures q[k] != '-'
    {
      if k < |sx| { assert q[k] == sx[k]; } else if k > |sx| { assert q[k] == sy[k - |sx| - 1]; }
    }
  }

  /** Every index is found by its own "x,y" coordinates. */
  lemma OwnCoordinatesMatch(index: nat, columns: nat)
    ensures Matches(index, columns, CoordLabel(index, columns, ','))
  {
    var c := Max(columns, 1);
    var sx, sy := NatToString(index % c), NatToString(index / c);
    var q := CoordLabel(index, columns, ',');
    assert q == sx + [','] + sy;
    CommaJoinShape(sx, sy);
    assert OccursAt(q, q, 0);
    MatchesText(index, columns, q);
  }

  /**
   * The indices below `n` that `keep` accepts, ascending (reference
   * definition of the palette's filtered list).
   */
  function Filtered(n: nat, keep: nat -> bool): (s: seq<nat>)
    ensures |s| <= n
    ensures forall i :: 0 <= i < |s| ==> s[i] < n && keep(s[i])
    ensures forall i, j :: 0 <= i < j < |s| ==> s[i] < s[j]
    ensures forall k :: 0 <= k < n && keep(k) ==> k in s
    ensures (forall k :: 0 <= k < n ==> keep(k)) ==> |s| == n
    decreases n
  {
    if n == 0 then [] else Filtered(n - 1, keep) + (if keep(n - 1) then [n - 1] else [])
  }

  /**
   * The palette's filtered index list for a tileset `columns` x `rows`:
   * every index below the saturated tile count that matches the filter,
   * in ascending order; its length is the filtered count shown.
   */
  method FilteredIndices(columns: nat, rows: nat, filter: string) returns (out: seq<nat>)
    ensures out == Filtered(SatMulU32(columns, rows), (k: nat) => Matches(k, Max(columns, 1), filter))
    ensures forall k: nat :: k in out <==> k < SatMulU32(columns, rows) && Matches(k, Max(columns, 1), filter)
    ensures forall i, j :: 0 <= i < j < |out| ==> out[i] < out[j]
  {
    var tileCount := SatMulU32(columns, rows);
    out := FilterBelow(tileCount, (k: nat) => Matches(k, Max(columns, 1), filter));
  }

  /** A blank filter shows every tile of the tileset. */
  lemma BlankFilterShowsAll(columns: nat, rows: nat, filter: string)
    requires IsBlank(filter)
    ensures |Filtered(SatMulU32(columns, rows), (k: nat) => Matches(k, Max(columns, 1), filter))| == SatMulU32(columns, rows)
  {
  }

  /** The loop behind the filtered list: scans the indices below `n` in order, keeping those `keep` accepts. */
  method FilterBelow(n: nat, keep: nat -> bool) returns (out: seq<nat>)
    ensures out == Filtered(n, keep)
  {
    out := [];
    var idx := 0;
    while idx < n
      invariant idx <= n
      invariant out == Filtered(idx, keep)
    {
      if keep(idx) {
        out := out + [idx];
      }
      idx := idx + 1;
    }
  }
}
