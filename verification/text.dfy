/**
 * String helpers the editor relies on: trimming, decimal rendering and
 * parsing, substring search and the lexicographic order of strings.
 */
module Text {
  import opened Base

  /** Unicode `White_Space`, the set Rust's `str::trim` removes. */
  predicate IsWhitespace(c: char)
  {
    ('\U{9}' <= c <= '\U{D}') || c == ' ' || c == '\U{85}' || c == '\U{A0}'
    || c == '\U{1680}' || ('\U{2000}' <= c <= '\U{200A}') || c == '\U{2028}'
    || c == '\U{2029}' || c == '\U{202F}' || c == '\U{205F}' || c == '\U{3000}'
  }

  /** The characters `trim_matches(&['/', '\\'])` removes. */
  predicate IsSlash(c: char)
  {
    c == '/' || c == '\\'
  }

  /** Number of leading characters of `s` satisfying `p`. */
  function LeadingCount(s: string, p: char -> bool): (n: nat)
    ensures n <= |s|
    ensures forall k :: 0 <= k < n ==> p(s[k])
    ensures n < |s| ==> !p(s[n])
  {
    if |s| > 0 && p(s[0]) then 1 + LeadingCount(s[1..], p) else 0
  }

  /** Number of trailing characters of `s` satisfying `p`. */
  function TrailingCount(s: string, p: char -> bool): (n: nat)
    ensures n <= |s|
    ensures forall k :: |s| - n <= k < |s| ==> p(s[k])
    ensures n < |s| ==> !p(s[|s| - n - 1])
  {
    if |s| > 0 && p(s[|s| - 1]) then 1 + TrailingCount(s[..|s| - 1], p) else 0
  }

  /**
   * `s` with every leading and trailing character satisfying `p` removed.
   * The result is the unique infix of `s` that neither starts nor ends with
   * such a character and outside of which all characters satisfy `p`.
   */
  function TrimBy(s: string, p: char -> bool): (r: string)
    ensures |r| <= |s|
    ensures r != [] ==> !p(r[0]) && !p(r[|r| - 1])
    ensures exists i :: TrimmedAt(s, r, p, i)
  {
    var a := LeadingCount(s, p);
    var rest := s[a..];
    var b := TrailingCount(rest, p);
    var r := rest[..|rest| - b];
    assert s[a..a + |r|] == r;
    assert forall k :: a + |r| <= k < |s| ==> s[k] == rest[k - a];
    assert TrimmedAt(s, r, p, a);
    r
  }

  /** `r` sits at offset `i` of `s` and everything around it satisfies `p`. */
  predicate TrimmedAt(s: string, r: string, p: char -> bool, i: int)
  {
    0 <= i <= |s| - |r| && s[i..i + |r|] == r
    && (forall k :: 0 <= k < i ==> p(s[k]))
    && (forall k :: i + |r| <= k < |s| ==> p(s[k]))
  }

  /** Rust's `str::trim`. */
  function Trim(s: string): (r: string)
    ensures |r| <= |s|
    ensures r != [] ==> !IsWhitespace(r[0]) && !IsWhitespace(r[|r| - 1])
    ensures (forall k :: 0 <= k < |s| ==> IsWhitespace(s[k])) <==> r == []
  {
    TrimBy(s, IsWhitespace)
  }

  /** Trimming is idempotent. */
  lemma TrimByIdempotent(s: string, p: char -> bool)
    ensures TrimBy(TrimBy(s, p), p) == TrimBy(s, p)
  {
    var r := TrimBy(s, p);
    var rr := TrimBy(r, p);
    if r != [] {
      var i :| TrimmedAt(r, rr, p, i);
      assert !p(r[0]) && !p(r[|r| - 1]);
      assert i == 0 && i + |rr| == |r|;
      assert rr == r[0..|r|];
    }
  }

  /** A string is blank when it trims to nothing. */
  predicate IsBlank(s: string)
  {
    Trim(s) == []
  }

  // ---------------------------------------------------------------------
  // Decimal numbers
  // ---------------------------------------------------------------------

  predicate IsDigit(c: char)
  {
    '0' <= c <= '9'
  }

  predicate AllDigits(s: string)
  {
    forall k :: 0 <= k < |s| ==> IsDigit(s[k])
  }

  function DigitChar(d: nat): (c: char)
    requires d < 10
    ensures IsDigit(c)
    ensures DigitValue(c) == d
  {
    ('0' as int + d) as char
  }

  function DigitValue(c: char): (d: nat)
    requires IsDigit(c)
    ensures d < 10
  {
    (c as int - '0' as int) as nat
  }

  /** The value of a string of decimal digits (`""` has value 0). */
  function DecimalValue(s: string): (v: nat)
    requires AllDigits(s)
    ensures |s| > 0 && s[0] != '0' ==> Pow10(|s| - 1) <= v
    ensures v < Pow10(|s|)
  {
    if |s| == 0 then 0
    else
      var v := DecimalValue(s[..|s| - 1]) * 10 + DigitValue(s[|s| - 1]);
      assert |s| > 1 && s[0] != '0' ==> s[..|s| - 1][0] == s[0];
      v
  }

  function Pow10(n: nat): (p: nat)
    ensures p >= 1
  {
    if n == 0 then 1 else 10 * Pow10(n - 1)
  }

  /** Rust's `n.to_string()` on an unsigned integer. */
  function NatToString(n: nat): (s: string)
    ensures |s| > 0 && AllDigits(s)
    ensures s[0] == '0' ==> s == "0"
    ensures DecimalValue(s) == n
    decreases n
  {
    if n < 10 then [DigitChar(n)]
    else
      var prefix := NatToString(n / 10);
      var s := prefix + [DigitChar(n % 10)];
      assert s[..|s| - 1] == prefix;
      s
  }

  /** Rendering and parsing decimals are inverse: every canonical digit string is some `NatToString`. */
  lemma {:induction false} NatToStringOfValue(s: string)
    requires |s| > 0 && AllDigits(s)
    requires s[0] == '0' ==> s == "0"
    ensures NatToString(DecimalValue(s)) == s
    decreases |s|
  {
    var v := DecimalValue(s);
    if |s| == 1 {
      assert v == DigitValue(s[0]);
      assert v < 10;
      assert NatToString(v) == [DigitChar(v)];
    } else {
      var prefix := s[..|s| - 1];
      assert prefix[0] == s[0];
      assert s[0] != '0';
      var pv := DecimalValue(prefix);
      var d := DigitValue(s[|s| - 1]);
      assert pv >= 1;
      assert v == pv * 10 + d;
      DivModTen(pv, d);
      assert v >= 10 && v / 10 == pv && v % 10 == d;
      NatToStringOfValue(prefix);
      assert NatToString(pv) == prefix;
      assert NatToString(v) == NatToString(v / 10) + [DigitChar(v % 10)];
      assert DigitChar(d) == s[|s| - 1];
      assert s == prefix + [s[|s| - 1]];
    }
  }

  lemma DivModTen(q: nat, d: nat)
    requires d < 10
    ensures (q * 10 + d) / 10 == q && (q * 10 + d) % 10 == d
    ensures q >= 1 ==> q * 10 + d >= 10
  {
  }

  const U32_MAX: nat := 0xFFFF_FFFF

  /** `u32::saturating_mul`. */
  function SatMulU32(a: nat, b: nat): (r: nat)
    ensures r <= U32_MAX
    ensures a * b <= U32_MAX ==> r == a * b
  {
    Min(a * b, U32_MAX)
  }

  /**
   * Rust's `u32::from_str`: an optional leading `+` followed by at least one
   * decimal digit, with a value that fits in 32 bits.
   */
  function ParseU32Std(s: string): (r: Option<nat>)
    ensures r.Some? ==> r.value <= U32_MAX
    ensures r.Some? <==> (
      var d := if |s| > 0 && s[0] == '+' then s[1..] else s;
      |d| > 0 && AllDigits(d) && DecimalValue(d) <= U32_MAX)
  {
    var d := if |s| > 0 && s[0] == '+' then s[1..] else s;
    if |d| == 0 || !AllDigits(d) then None
    else if DecimalValue(d) > U32_MAX then None
    else Some(DecimalValue(d))
  }

  /** A decimal rendering of a 32-bit value parses back to the value. */
  lemma ParseU32StdOfString(n: nat)
    requires n <= U32_MAX
    ensures ParseU32Std(NatToString(n)) == Some(n)
  {
    var s := NatToString(n);
    assert s[0] != '+' by { assert IsDigit(s[0]); }
  }

  // ---------------------------------------------------------------------
  // Substrings
  // ---------------------------------------------------------------------

  /** Rust's `haystack.contains(needle)`. */
  predicate Contains(haystack: string, needle: string)
  {
    exists i :: 0 <= i <= |haystack| - |needle| && OccursAt(haystack, needle, i)
  }

  /** `needle` occurs in `haystack` starting at index `i`. */
  predicate OccursAt(haystack: string, needle: string, i: int)
  {
    0 <= i <= |haystack| - |needle| && haystack[i..i + |needle|] == needle
  }

  /** Position of the first `c` in `s`, as `str::find(char)`. */
  function FindChar(s: string, c: char): (r: Option<nat>)
    ensures r.Some? ==> r.value < |s| && s[r.value] == c
    ensures r.Some? ==> forall k :: 0 <= k < r.value ==> s[k] != c
    ensures r.None? ==> forall k :: 0 <= k < |s| ==> s[k] != c
    ensures (forall k :: 0 <= k < |s| ==> s[k] != c) ==> r.None?
  {
    if |s| == 0 then None
    else if s[0] == c then Some(0)
    else match FindChar(s[1..], c)
      case None => None
      case Some(i) => Some(i + 1)
  }

  // ---------------------------------------------------------------------
  // Lexicographic order of strings (Rust's `Ord` on `String`)
  // ---------------------------------------------------------------------

  /** `a < b` in code-point lexicographic order. */
  predicate StrLess(a: string, b: string)
  {
    if |a| == 0 then |b| > 0
    else |b| > 0 && (a[0] < b[0] || (a[0] == b[0] && StrLess(a[1..], b[1..])))
  }

  lemma {:induction false} StrLessIrreflexive(a: string)
    ensures !StrLess(a, a)
  {
    if |a| > 0 {
      StrLessIrreflexive(a[1..]);
    }
  }

  lemma {:induction false} StrLessTransitive(a: string, b: string, c: string)
    requires StrLess(a, b) && StrLess(b, c)
    ensures StrLess(a, c)
  {
    if |a| > 0 && a[0] == b[0] && b[0] == c[0] {
      StrLessTransitive(a[1..], b[1..], c[1..]);
    }
  }

  lemma {:induction false} StrLessTotal(a: string, b: string)
    requires a != b
    ensures StrLess(a, b) || StrLess(b, a)
  {
    if |a| > 0 && |b| > 0 && a[0] == b[0] {
      assert a == [a[0]] + a[1..] && b == [b[0]] + b[1..];
      assert a[1..] != b[1..];
      StrLessTotal(a[1..], b[1..]);
    }
  }

  lemma StrLessAsymmetric(a: string, b: string)
    requires StrLess(a, b)
    ensures !StrLess(b, a)
  {
    if StrLess(b, a) {
      StrLessTransitive(a, b, a);
      StrLessIrreflexive(a);
    }
  }
}
