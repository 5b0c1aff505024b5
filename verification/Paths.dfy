/** Paths as kernel/fs/vfs.c reads them. A C string is the sequence of characters before its NUL. */
module Paths {
  const MAX_PATH := 48

  /** vfs_path_valid. */
  predicate PathValid(path: string) {
    1 < |path| < MAX_PATH && path[0] == '/'
  }

  /** The last index holding a slash, or 0, as vfs_parent_exists computes it. */
  function LastSlash(path: string): (k: nat)
    ensures k <= |path|
    ensures 0 < k ==> k < |path| && path[k] == '/'
    ensures forall j :: k < j < |path| ==> path[j] != '/'
  {
    if path == "" then 0
    else if path[|path| - 1] == '/' then |path| - 1
    else LastSlash(path[..|path| - 1])
  }

  /** `path` names something inside the directory `dir`. */
  predicate Below(dir: string, path: string) {
    |dir| < |path| && path[..|dir|] == dir && path[|dir|] == '/'
  }

  /** vfs_disk_path: the SaturnFS path behind a path under /disk. */
  function DiskPath(path: string): (r: string)
    ensures r != "" ==> "/disk" + r == path && |r| > 1 && r[0] == '/'
    ensures r == "" <==> !(Below("/disk", path) && |path| > 6)
  {
    if Below("/disk", path) && |path| > 6 then path[5..] else ""
  }

  /** The scan for the last slash decides by the slash positions alone. */
  lemma LastSlashIs(path: string, k: nat)
    requires 0 < k < |path| && path[k] == '/'
    requires forall j :: k < j < |path| ==> path[j] != '/'
    ensures LastSlash(path) == k
  {
    var r := LastSlash(path);
    assert !(r < k) && !(k < r);
  }

  lemma LastSlashAtLeast(path: string, k: nat)
    requires k < |path| && path[k] == '/'
    ensures LastSlash(path) >= k
  {
  }

  /** The last slash of a path extended by a suffix that starts with a slash lies in the suffix. */
  lemma LastSlashOfSuffix(prefix: string, suffix: string)
    requires 0 < |prefix| && 0 < |suffix| && suffix[0] == '/'
    ensures LastSlash(prefix + suffix) == |prefix| + LastSlash(suffix)
    ensures (prefix + suffix)[..|prefix| + LastSlash(suffix)] == prefix + suffix[..LastSlash(suffix)]
  {
    var path, k := prefix + suffix, LastSlash(suffix);
    forall j | |prefix| + k < j < |path|
      ensures path[j] != '/'
    {
      assert path[j] == suffix[j - |prefix|];
    }
    assert path[|prefix| + k] == suffix[k] == '/';
    LastSlashIs(path, |prefix| + k);
  }

  // ---- the character loops ----

  /** The `matched` loops of vfs_remove and vfs_rename. */
  method MatchLength(path: string, prefix: string) returns (matched: nat)
    ensures matched <= |prefix| && matched <= |path| && path[..matched] == prefix[..matched]
    ensures matched == |prefix| <==> prefix <= path
  {
    matched := 0;
    while matched < |prefix| && matched < |path| && path[matched] == prefix[matched]
      invariant matched <= |prefix| && matched <= |path|
      invariant path[..matched] == prefix[..matched]
    {
      matched := matched + 1;
    }
  }

  /** The test that the loops of vfs_remove and vfs_rename make on every node. */
  method IsBelow(dir: string, path: string) returns (below: bool)
    ensures below == Below(dir, path)
  {
    var matched := MatchLength(path, dir);
    below := matched == |dir| && |path| > |dir| && path[|dir|] == '/';
  }

  /** vfs_path_equals. */
  method PathEquals(left: string, right: string) returns (same: bool)
    ensures same <==> left == right
  {
    var i := 0;
    while i < |left| && i < |right| && left[i] == right[i]
      invariant i <= |left| && i <= |right| && left[..i] == right[..i]
    {
      i := i + 1;
    }
    same := i == |left| && i == |right|;
    if same {
      assert left == left[..i] && right == right[..i];
    }
  }

  /** The scan of vfs_parent_exists. */
  method FindLastSlash(path: string) returns (lastSlash: nat)
    ensures lastSlash == LastSlash(path)
  {
    lastSlash := 0;
    for length := 0 to |path|
      invariant lastSlash == LastSlash(path[..length])
    {
      assert path[..length + 1][..length] == path[..length];
      if path[length] == '/' {
        lastSlash := length;
      }
    }
    assert path[..|path|] == path;
  }

  /** vfs_disk_path's loop over the fixed prefix. */
  method ResolveDiskPath(path: string) returns (r: string)
    ensures r == DiskPath(path)
  {
    var under := IsBelow("/disk", path);
    r := if under && |path| > 6 then path[5..] else "";
  }
}
