/**
 * `path_join_asset`: an asset path built from a directory and a file name,
 * both stripped of leading and trailing '/' and '\' and joined with one '/'.
 */
module Paths {
  import opened Text

  /** `dir` and `file` trimmed of slashes, joined by '/' unless the directory is empty. */
  function PathJoinAsset(dir: string, file: string): (r: string)
    ensures r != [] ==> !IsSlash(r[0])
    ensures TrimBy(dir, IsSlash) == [] ==> r == TrimBy(file, IsSlash)
    ensures var d, f := TrimBy(dir, IsSlash), TrimBy(file, IsSlash);
      d != [] ==>
        && |r| == |d| + 1 + |f|
        && r[..|d|] == d && r[|d|] == '/' && r[|d| + 1..] == f
  {
    var d := TrimBy(dir, IsSlash);
    var f := TrimBy(file, IsSlash);
    if d == [] then f else d + "/" + f
  }

  /** Joining parts that were already trimmed gives the same path: trimming is done once and for all. */
  lemma PathJoinAssetTrimmed(dir: string, file: string)
    ensures PathJoinAsset(TrimBy(dir, IsSlash), TrimBy(file, IsSlash)) == PathJoinAsset(dir, file)
  {
    TrimByIdempotent(dir, IsSlash);
    TrimByIdempotent(file, IsSlash);
  }

  /**
   * The separator is the only slash at the join: the character before it
   * ends the directory and the character after it starts the file, neither
   * a slash.
   */
  lemma PathJoinAssetOneSeparator(dir: string, file: string)
    requires TrimBy(dir, IsSlash) != []
    ensures var r, n := PathJoinAsset(dir, file), |TrimBy(dir, IsSlash)|;
      && n < |r| && r[n] == '/'
      && !IsSlash(r[n - 1])
      && (n + 1 < |r| ==> !IsSlash(r[n + 1]))
  {
    var r, d, f := PathJoinAsset(dir, file), TrimBy(dir, IsSlash), TrimBy(file, IsSlash);
    assert r[|d| - 1] == d[|d| - 1];
    if |d| + 1 < |r| {
      assert r[|d| + 1] == r[|d| + 1..][0] == f[0];
    }
  }
}
