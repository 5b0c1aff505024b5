/** The flat table is a tree: the invariant every operation keeps, and what rename, the byte
    operations and the listing mean on it. */
module RamFsTree {
  import opened Paths
  import opened FileBytes
  import opened RamFs

  function Tally(nodes: seq<Node>, kind: Kind): (n: nat)
    ensures n <= |nodes|
  {
    if nodes == [] then 0
    else Tally(nodes[1..], kind) + if nodes[0].used && nodes[0].kind == kind then 1 else 0
  }

  /** `dir` is an existing directory. */
  ghost predicate IsDir(nodes: seq<Node>, dir: string) {
    exists i :: 0 <= i < |nodes| && nodes[i].used && nodes[i].path == dir && nodes[i].kind.Directory?
  }

  predicate Distinct(nodes: seq<Node>) {
    forall i, j :: 0 <= i < j < |nodes| && nodes[i].used && nodes[j].used ==> nodes[i].path != nodes[j].path
  }

  /** Every node's parent is the root or an existing directory. */
  ghost predicate Rooted(nodes: seq<Node>) {
    forall i :: 0 <= i < |nodes| && nodes[i].used && LastSlash(nodes[i].path) > 0 ==>
      IsDir(nodes, nodes[i].path[..LastSlash(nodes[i].path)])
  }

  predicate AllValid(nodes: seq<Node>) {
    forall i :: 0 <= i < |nodes| && nodes[i].used ==> PathValid(nodes[i].path)
  }

  ghost predicate Counted(fs: Fs) {
    && fs.files == Tally(fs.nodes, File) <= MAX_FILES
    && fs.dirs == Tally(fs.nodes, Directory) <= MAX_DIRS
  }

  ghost predicate Inv(fs: Fs) {
    Shaped(fs) && AllValid(fs.nodes) && Distinct(fs.nodes) && Rooted(fs.nodes) && Counted(fs)
  }

  // ---- counting ----

  lemma {:induction false} TallyUpdate(nodes: seq<Node>, i: nat, n: Node, kind: Kind)
    requires i < |nodes|
    ensures Tally(nodes[i := n], kind) ==
      Tally(nodes, kind) - (if nodes[i].used && nodes[i].kind == kind then 1 else 0) +
        (if n.used && n.kind == kind then 1 else 0)
    decreases |nodes|
  {
    if i == 0 {
      assert nodes[0 := n][1..] == nodes[1..];
    } else {
      assert nodes[i := n][1..] == nodes[1..][i - 1 := n];
      TallyUpdate(nodes[1..], i - 1, n, kind);
    }
  }

  lemma {:induction false} TallySame(nodes: seq<Node>, nodes': seq<Node>, kind: Kind)
    requires |nodes| == |nodes'|
    requires forall i :: 0 <= i < |nodes| ==> nodes'[i].used == nodes[i].used && nodes'[i].kind == nodes[i].kind
    ensures Tally(nodes', kind) == Tally(nodes, kind)
    decreases |nodes|
  {
    if nodes != [] { TallySame(nodes[1..], nodes'[1..], kind); }
  }

  lemma {:induction false} TallyNone(nodes: seq<Node>, kind: Kind)
    requires forall i :: 0 <= i < |nodes| ==> !nodes[i].used
    ensures Tally(nodes, kind) == 0
    decreases |nodes|
  {
    if nodes != [] { TallyNone(nodes[1..], kind); }
  }

  lemma {:induction false} TallyFull(nodes: seq<Node>)
    requires forall i :: 0 <= i < |nodes| ==> nodes[i].used
    ensures Tally(nodes, File) + Tally(nodes, Directory) == |nodes|
    decreases |nodes|
  {
    if nodes != [] { TallyFull(nodes[1..]); }
  }

  /** Node allocation cannot fail once the count check of either kind has passed. */
  lemma AllocationSucceeds(fs: Fs)
    requires Inv(fs) && (fs.files < MAX_FILES || fs.dirs < MAX_DIRS)
    ensures FreeFrom(fs.nodes, 0) < MAX_NODES
  {
    if FreeFrom(fs.nodes, 0) == MAX_NODES {
      TallyFull(fs.nodes);
      assert false;
    }
  }

  // ---- the tree ----

  /** Prefix closure: everything above an existing node is an existing directory. */
  lemma {:induction false} AncestorExists(nodes: seq<Node>, i: nat, dir: string)
    requires Rooted(nodes) && AllValid(nodes) && i < |nodes| && nodes[i].used
    requires 0 < |dir| && Below(dir, nodes[i].path)
    ensures IsDir(nodes, dir)
    decreases |nodes[i].path|
  {
    var path := nodes[i].path;
    var k := LastSlash(path);
    LastSlashAtLeast(path, |dir|);
    assert IsDir(nodes, path[..k]);
    if k == |dir| {
      assert path[..k] == dir;
    } else {
      var j :| 0 <= j < |nodes| && nodes[j].used && nodes[j].path == path[..k] && nodes[j].kind.Directory?;
      assert Below(dir, path[..k]) by { assert path[..k][..|dir|] == path[..|dir|]; }
      AncestorExists(nodes, j, dir);
    }
  }

  /** Nothing lies below a name that is not an existing directory. */
  lemma NothingBelow(fs: Fs, dir: string, i: nat)
    requires Inv(fs) && 0 < |dir| && i < MAX_NODES && fs.nodes[i].used
    requires Find(fs, dir) == MAX_NODES || fs.nodes[Find(fs, dir)].kind.File?
    ensures !Below(dir, fs.nodes[i].path)
  {
    if Below(dir, fs.nodes[i].path) {
      AncestorExists(fs.nodes, i, dir);
      assert false;
    }
  }

  lemma ParentIsDir(fs: Fs, path: string)
    requires Shaped(fs) && Distinct(fs.nodes) && LastSlash(path) > 0
    ensures ParentExists(fs, path) <==> IsDir(fs.nodes, path[..LastSlash(path)])
  {
  }

  /** A directory stays one when nodes are added or files change content. */
  lemma StillDir(nodes: seq<Node>, nodes': seq<Node>, dir: string)
    requires IsDir(nodes, dir) && |nodes'| == |nodes|
    requires forall i :: 0 <= i < |nodes| && nodes[i].used && nodes[i].path == dir && nodes[i].kind.Directory? ==>
      nodes'[i].used && nodes'[i].path == dir && nodes'[i].kind.Directory?
    ensures IsDir(nodes', dir)
  {
    var i :| 0 <= i < |nodes| && nodes[i].used && nodes[i].path == dir && nodes[i].kind.Directory?;
    assert nodes'[i].used;
  }

  lemma AddKeeps(fs: Fs, i: nat, n: Node)
    requires Inv(fs) && i < MAX_NODES && !fs.nodes[i].used
    requires NodeShaped(n) && n.used && PathValid(n.path) && Find(fs, n.path) == MAX_NODES && ParentExists(fs, n.path)
    ensures Shaped(fs.(nodes := fs.nodes[i := n]))
    ensures AllValid(fs.nodes[i := n]) && Distinct(fs.nodes[i := n]) && Rooted(fs.nodes[i := n])
  {
    var nodes' := fs.nodes[i := n];
    forall j | 0 <= j < MAX_NODES && nodes'[j].used && LastSlash(nodes'[j].path) > 0
      ensures IsDir(nodes', nodes'[j].path[..LastSlash(nodes'[j].path)])
    {
      if j == i { ParentIsDir(fs, n.path); }
      StillDir(fs.nodes, nodes', nodes'[j].path[..LastSlash(nodes'[j].path)]);
    }
  }

  lemma MkdirKeeps(fs: Fs, path: string)
    requires Inv(fs)
    ensures Inv(MakeDirectory(fs, path).0)
  {
    var (fs', ok) := MakeDirectory(fs, path);
    if ok {
      var i := FreeFrom(fs.nodes, 0);
      AddKeeps(fs, i, fs'.nodes[i]);
      TallyUpdate(fs.nodes, i, fs'.nodes[i], File);
      TallyUpdate(fs.nodes, i, fs'.nodes[i], Directory);
    }
  }

  lemma CreateKeeps(fs: Fs, path: string, data: Bytes)
    requires Inv(fs)
    ensures Inv(CreateFile(fs, path, data).0)
  {
    var (fs', ok) := CreateFile(fs, path, data);
    if ok {
      var i := FreeFrom(fs.nodes, 0);
      AddKeeps(fs, i, fs'.nodes[i]);
      TallyUpdate(fs.nodes, i, fs'.nodes[i], File);
      TallyUpdate(fs.nodes, i, fs'.nodes[i], Directory);
    }
  }

  lemma RemoveKeeps(fs: Fs, path: string)
    requires Inv(fs)
    ensures Inv(Remove(fs, path).0)
  {
    var (fs', ok) := Remove(fs, path);
    if ok {
      var i := Find(fs, path);
      TallyUpdate(fs.nodes, i, fs'.nodes[i], File);
      TallyUpdate(fs.nodes, i, fs'.nodes[i], Directory);
      forall j | 0 <= j < MAX_NODES && fs'.nodes[j].used && LastSlash(fs'.nodes[j].path) > 0
        ensures IsDir(fs'.nodes, fs'.nodes[j].path[..LastSlash(fs'.nodes[j].path)])
      {
        ParentIsAnother(fs, path, j);
        StillDir(fs.nodes, fs'.nodes, fs.nodes[j].path[..LastSlash(fs.nodes[j].path)]);
      }
    }
  }

  /** What can be removed is nobody's parent. */
  lemma ParentIsAnother(fs: Fs, path: string, j: nat)
    requires Inv(fs) && Remove(fs, path).1 && j < MAX_NODES && fs.nodes[j].used && j != Find(fs, path)
    ensures LastSlash(fs.nodes[j].path) > 0 ==> fs.nodes[j].path[..LastSlash(fs.nodes[j].path)] != path
  {
    var p := fs.nodes[j].path;
    if fs.nodes[Find(fs, path)].kind.Directory? {
      assert !Below(path, p);
    } else {
      NothingBelow(fs, path, j);
    }
  }

  /** A change of content or size only. */
  lemma BytesKeep(fs: Fs, i: nat, n: Node)
    requires Inv(fs) && i < MAX_NODES && NodeShaped(n)
    requires n.path == fs.nodes[i].path && n.used == fs.nodes[i].used && n.kind == fs.nodes[i].kind
    ensures Inv(fs.(nodes := fs.nodes[i := n]))
  {
    var nodes' := fs.nodes[i := n];
    TallySame(fs.nodes, nodes', File);
    TallySame(fs.nodes, nodes', Directory);
    forall j | 0 <= j < MAX_NODES && nodes'[j].used && LastSlash(nodes'[j].path) > 0
      ensures IsDir(nodes', nodes'[j].path[..LastSlash(nodes'[j].path)])
    {
      StillDir(fs.nodes, nodes', nodes'[j].path[..LastSlash(nodes'[j].path)]);
    }
  }

  // ---- rename ----

  lemma BelowExtends(dir: string, path: string, k: nat)
    requires k <= |path|
    ensures Below(dir, path[..k]) ==> Below(dir, path)
  {
    if |dir| <= k {
      assert path[..k][..|dir|] == path[..|dir|];
    }
  }

  lemma BelowHasSlash(dir: string, path: string)
    ensures Below(dir, path) ==> LastSlash(path) >= |dir|
  {
  }

  /** The substitution a rename performs on the namespace. */
  function Moved(oldPath: string, newPath: string, path: string): (r: string)
  {
    if path == oldPath then newPath
    else if Below(oldPath, path) then newPath + path[|oldPath|..]
    else path
  }

  /** In a distinct table, renaming substitutes the prefix in every used path and touches nothing else. */
  lemma RenameSubstitutes(fs: Fs, oldPath: string, newPath: string)
    requires Inv(fs) && Rename(fs, oldPath, newPath).1
    ensures var fs' := Rename(fs, oldPath, newPath).0;
      && fs'.files == fs.files && fs'.dirs == fs.dirs
      && forall i :: 0 <= i < MAX_NODES ==>
           fs'.nodes[i] == if fs.nodes[i].used then fs.nodes[i].(path := Moved(oldPath, newPath, fs.nodes[i].path))
             else fs.nodes[i]
  {
  }

  /** Two different names stay different under the substitution, as long as nothing lies at or below
      the new name; this is where tree closure rules out collisions. */
  lemma MovedInjective(oldPath: string, newPath: string, p: string, q: string)
    requires p != q
    requires p != newPath && q != newPath && !Below(newPath, p) && !Below(newPath, q)
    ensures Moved(oldPath, newPath, p) != Moved(oldPath, newPath, q)
  {
    MovedLandsBelow(oldPath, newPath, p);
    MovedLandsBelow(oldPath, newPath, q);
    if Below(oldPath, p) && Below(oldPath, q) {
      assert p == oldPath + p[|oldPath|..] && q == oldPath + q[|oldPath|..];
      assert p[|oldPath|..] == (newPath + p[|oldPath|..])[|newPath|..];
      assert q[|oldPath|..] == (newPath + q[|oldPath|..])[|newPath|..];
    }
  }

  lemma MovedLandsBelow(oldPath: string, newPath: string, p: string)
    ensures Below(oldPath, p) ==> Below(newPath, Moved(oldPath, newPath, p))
  {
    if Below(oldPath, p) {
      var r := newPath + p[|oldPath|..];
      assert r[..|newPath|] == newPath && r[|newPath|] == p[|oldPath|];
    }
  }

  /** The preconditions of a successful rename, as facts about every node. */
  lemma RenameClear(fs: Fs, oldPath: string, newPath: string, i: nat)
    requires Inv(fs) && Rename(fs, oldPath, newPath).1 && i < MAX_NODES && fs.nodes[i].used
    ensures fs.nodes[i].path != newPath && !Below(newPath, fs.nodes[i].path)
  {
    NothingBelow(fs, newPath, i);
  }

  lemma RenameKeepsDistinct(fs: Fs, oldPath: string, newPath: string)
    requires Inv(fs) && Rename(fs, oldPath, newPath).1
    ensures Distinct(Rename(fs, oldPath, newPath).0.nodes)
  {
    var nodes' := Rename(fs, oldPath, newPath).0.nodes;
    RenameSubstitutes(fs, oldPath, newPath);
    forall i, j | 0 <= i < j < MAX_NODES && nodes'[i].used && nodes'[j].used
      ensures nodes'[i].path != nodes'[j].path
    {
      RenameClear(fs, oldPath, newPath, i);
      RenameClear(fs, oldPath, newPath, j);
      MovedInjective(oldPath, newPath, fs.nodes[i].path, fs.nodes[j].path);
    }
  }

  /** A directory moves to its substituted name. */
  lemma DirMoves(fs: Fs, oldPath: string, newPath: string, dir: string)
    requires Inv(fs) && Rename(fs, oldPath, newPath).1 && IsDir(fs.nodes, dir)
    ensures IsDir(Rename(fs, oldPath, newPath).0.nodes, Moved(oldPath, newPath, dir))
  {
    RenameSubstitutes(fs, oldPath, newPath);
    var i :| 0 <= i < MAX_NODES && fs.nodes[i].used && fs.nodes[i].path == dir && fs.nodes[i].kind.Directory?;
    assert Rename(fs, oldPath, newPath).0.nodes[i].path == Moved(oldPath, newPath, dir);
  }

  /** The parent of a moved name is the moved parent, for every name but the renamed one itself. */
  lemma ParentMoves(oldPath: string, newPath: string, path: string)
    requires 0 < |oldPath| && 0 < |newPath| && path != oldPath && LastSlash(path) > 0
    ensures var p' := Moved(oldPath, newPath, path);
      && LastSlash(p') > 0
      && p'[..LastSlash(p')] == Moved(oldPath, newPath, path[..LastSlash(path)])
  {
    if Below(oldPath, path) {
      ParentOfMoved(oldPath, newPath, path[|oldPath|..]);
      assert path == oldPath + path[|oldPath|..];
    } else {
      assert path[..LastSlash(path)] != oldPath;
      BelowExtends(oldPath, path, LastSlash(path));
    }
  }

  lemma ParentOfMoved(oldPath: string, newPath: string, suffix: string)
    requires 0 < |oldPath| && 0 < |newPath| && 0 < |suffix| && suffix[0] == '/'
    ensures var p, p' := oldPath + suffix, newPath + suffix;
      LastSlash(p') > 0 && p'[..LastSlash(p')] == Moved(oldPath, newPath, p[..LastSlash(p)])
  {
    LastSlashOfSuffix(oldPath, suffix);
    LastSlashOfSuffix(newPath, suffix);
    MovedPrefix(oldPath, newPath, suffix[..LastSlash(suffix)]);
  }

  lemma MovedPrefix(oldPath: string, newPath: string, suffix: string)
    requires suffix == "" || suffix[0] == '/'
    ensures Moved(oldPath, newPath, oldPath + suffix) == newPath + suffix
  {
    var path := oldPath + suffix;
    if suffix == "" {
      assert path == oldPath && newPath + suffix == newPath;
    } else {
      assert path[..|oldPath|] == oldPath && path[|oldPath|..] == suffix;
    }
  }

  lemma RenameKeepsRooted(fs: Fs, oldPath: string, newPath: string)
    requires Inv(fs) && Rename(fs, oldPath, newPath).1
    ensures Rooted(Rename(fs, oldPath, newPath).0.nodes)
  {
    var nodes' := Rename(fs, oldPath, newPath).0.nodes;
    RenameSubstitutes(fs, oldPath, newPath);
    var k := Find(fs, oldPath);
    forall i | 0 <= i < MAX_NODES && nodes'[i].used && LastSlash(nodes'[i].path) > 0
      ensures IsDir(nodes', nodes'[i].path[..LastSlash(nodes'[i].path)])
    {
      var path := fs.nodes[i].path;
      if path == oldPath {
        var parent := newPath[..LastSlash(newPath)];
        ParentIsDir(fs, newPath);
        DirMoves(fs, oldPath, newPath, parent);
        assert Moved(oldPath, newPath, parent) == parent by { NewParentStays(fs, oldPath, newPath); }
      } else {
        BelowHasSlash(oldPath, path);
        ParentMoves(oldPath, newPath, path);
        DirMoves(fs, oldPath, newPath, path[..LastSlash(path)]);
      }
    }
  }

  /** The directory that receives the renamed node is not inside what moves. */
  lemma NewParentStays(fs: Fs, oldPath: string, newPath: string)
    requires Inv(fs) && Rename(fs, oldPath, newPath).1 && LastSlash(newPath) > 0
    ensures var parent := newPath[..LastSlash(newPath)]; parent != oldPath && !Below(oldPath, parent)
  {
    var parent := newPath[..LastSlash(newPath)];
    ParentIsDir(fs, newPath);
    var j :| 0 <= j < MAX_NODES && fs.nodes[j].used && fs.nodes[j].path == parent && fs.nodes[j].kind.Directory?;
    if fs.nodes[Find(fs, oldPath)].kind.File? {
      NothingBelow(fs, oldPath, j);
    } else {
      BelowExtends(oldPath, newPath, LastSlash(newPath));
    }
  }

  /** Main result on rename. It fails without any effect, or it substitutes the prefix on the node
      and all its descendants and nothing else, and the table is a tree again. */
  lemma RenameKeeps(fs: Fs, oldPath: string, newPath: string)
    requires Inv(fs)
    ensures Inv(Rename(fs, oldPath, newPath).0)
    ensures !Rename(fs, oldPath, newPath).1 ==> Rename(fs, oldPath, newPath).0 == fs
  {
    if Rename(fs, oldPath, newPath).1 {
      var nodes' := Rename(fs, oldPath, newPath).0.nodes;
      RenameSubstitutes(fs, oldPath, newPath);
      TallySame(fs.nodes, nodes', File);
      TallySame(fs.nodes, nodes', Directory);
      RenameKeepsDistinct(fs, oldPath, newPath);
      RenameKeepsRooted(fs, oldPath, newPath);
      forall i | 0 <= i < MAX_NODES && nodes'[i].used
        ensures PathValid(nodes'[i].path)
      {
        assert nodes'[i].path == Moved(oldPath, newPath, fs.nodes[i].path);
      }
    }
  }

  /** What the node table holds under a name. */
  datatype Found = Nothing | Something(kind: Kind, content: Bytes)

  function Lookup(fs: Fs, path: string): (r: Found)
    requires Shaped(fs)
  {
    var i := Find(fs, path);
    if i == MAX_NODES then Nothing else Something(fs.nodes[i].kind, Content(fs.nodes[i]))
  }

  lemma LookupAt(fs: Fs, i: nat)
    requires Shaped(fs) && Distinct(fs.nodes) && i < MAX_NODES && fs.nodes[i].used
    ensures Lookup(fs, fs.nodes[i].path) == Something(fs.nodes[i].kind, Content(fs.nodes[i]))
    ensures Find(fs, fs.nodes[i].path) == i
  {
  }

  /** Rename on the node table: each name is found under its substituted name with the same kind
      and content, and nothing else is found anywhere. */
  lemma RenameLookup(fs: Fs, oldPath: string, newPath: string)
    requires Inv(fs) && Rename(fs, oldPath, newPath).1
    ensures var fs' := Rename(fs, oldPath, newPath).0;
      && (forall p :: Lookup(fs, p) != Nothing ==> Lookup(fs', Moved(oldPath, newPath, p)) == Lookup(fs, p))
      && (forall q :: Lookup(fs', q) != Nothing ==>
        exists p :: Lookup(fs, p) != Nothing && Moved(oldPath, newPath, p) == q)
  {
    var fs' := Rename(fs, oldPath, newPath).0;
    RenameSubstitutes(fs, oldPath, newPath);
    RenameKeeps(fs, oldPath, newPath);
    forall p | Lookup(fs, p) != Nothing
      ensures Lookup(fs', Moved(oldPath, newPath, p)) == Lookup(fs, p)
    {
      LookupAt(fs', Find(fs, p));
    }
    forall q | Lookup(fs', q) != Nothing
      ensures exists p :: Lookup(fs, p) != Nothing && Moved(oldPath, newPath, p) == q
    {
      LookupAt(fs, Find(fs', q));
      assert Moved(oldPath, newPath, fs.nodes[Find(fs', q)].path) == q;
    }
  }

  /** The substitution back undoes the substitution. */
  lemma MovedBack(oldPath: string, newPath: string, p: string)
    requires p != newPath && !Below(newPath, p)
    ensures Moved(newPath, oldPath, Moved(oldPath, newPath, p)) == p
    ensures Below(newPath, Moved(oldPath, newPath, p)) ==> |Moved(oldPath, newPath, p)| - |newPath| == |p| - |oldPath|
  {
    if Below(oldPath, p) {
      MovedLandsBelow(oldPath, newPath, p);
      var q := Moved(oldPath, newPath, p);
      assert q[|newPath|..] == p[|oldPath|..];
      assert p == oldPath + p[|oldPath|..];
    }
  }

  /** After a rename the old name is free, its parent still stands, and every path would fit again. */
  lemma {:induction false} OldNameIsFree(fs: Fs, oldPath: string, newPath: string)
    requires Inv(fs) && Rename(fs, oldPath, newPath).1
    ensures Find(Rename(fs, oldPath, newPath).0, oldPath) == MAX_NODES && !Below(newPath, oldPath)
    ensures !RenameOverflows(Rename(fs, oldPath, newPath).0, newPath, oldPath)
  {
    var fs' := Rename(fs, oldPath, newPath).0;
    RenameSubstitutes(fs, oldPath, newPath);
    RenameClear(fs, oldPath, newPath, Find(fs, oldPath));
    forall i | 0 <= i < MAX_NODES && fs'.nodes[i].used
      ensures fs'.nodes[i].path != oldPath
      ensures Below(newPath, fs'.nodes[i].path) ==> |oldPath| + |fs'.nodes[i].path| - |newPath| < MAX_PATH
    {
      RenameClear(fs, oldPath, newPath, i);
      MovedLandsBelow(oldPath, newPath, fs.nodes[i].path);
      MovedBack(oldPath, newPath, fs.nodes[i].path);
    }
  }

  lemma {:induction false} OldParentStands(fs: Fs, oldPath: string, newPath: string)
    requires Inv(fs) && Rename(fs, oldPath, newPath).1
    ensures ParentExists(Rename(fs, oldPath, newPath).0, oldPath)
  {
    var fs', k := Rename(fs, oldPath, newPath).0, LastSlash(oldPath);
    if k > 0 {
      RenameKeeps(fs, oldPath, newPath);
      var parent := oldPath[..k];
      assert IsDir(fs.nodes, parent) by { assert fs.nodes[Find(fs, oldPath)].path == oldPath; }
      DirMoves(fs, oldPath, newPath, parent);
      var i :| 0 <= i < MAX_NODES && fs'.nodes[i].used && fs'.nodes[i].path == parent && fs'.nodes[i].kind.Directory?;
      LookupAt(fs', i);
    }
  }

  /** Round trip: after a successful rename, renaming back succeeds and restores the filesystem. */
  lemma {:induction false} RenameBack(fs: Fs, oldPath: string, newPath: string)
    requires Inv(fs) && Rename(fs, oldPath, newPath).1
    ensures Rename(Rename(fs, oldPath, newPath).0, newPath, oldPath) == (fs, true)
  {
    var fs', k := Rename(fs, oldPath, newPath).0, Find(fs, oldPath);
    RenameKeeps(fs, oldPath, newPath);
    RenameSubstitutes(fs, oldPath, newPath);
    LookupAt(fs', k);
    OldNameIsFree(fs, oldPath, newPath);
    OldParentStands(fs, oldPath, newPath);
    assert Rename(fs', newPath, oldPath).1;
    RenameSubstitutes(fs', newPath, oldPath);
    var back := Rename(fs', newPath, oldPath).0;
    forall i | 0 <= i < MAX_NODES
      ensures back.nodes[i] == fs.nodes[i]
    {
      if fs.nodes[i].used {
        RenameClear(fs, oldPath, newPath, i);
        MovedBack(oldPath, newPath, fs.nodes[i].path);
      }
    }
    assert back.nodes == fs.nodes;
  }

  /** A rename leaves every name alone that is neither at nor below its two names. */
  lemma {:induction false} RenameOthers(fs: Fs, oldPath: string, newPath: string, q: string)
    requires Inv(fs) && Rename(fs, oldPath, newPath).1
    requires q != oldPath && q != newPath && !Below(oldPath, q) && !Below(newPath, q)
    ensures Lookup(Rename(fs, oldPath, newPath).0, q) == Lookup(fs, q)
  {
    var fs' := Rename(fs, oldPath, newPath).0;
    RenameSubstitutes(fs, oldPath, newPath);
    RenameLookup(fs, oldPath, newPath);
    if Lookup(fs, q) == Nothing && Lookup(fs', q) != Nothing {
      var p :| Lookup(fs, p) != Nothing && Moved(oldPath, newPath, p) == q;
      MovedLandsBelow(oldPath, newPath, p);
    }
  }

  // ---- when the namespace calls succeed ----

  /** The name lies in the root or in an existing directory. */
  ghost predicate ParentStands(fs: Fs, path: string) {
    LastSlash(path) == 0 || IsDir(fs.nodes, path[..LastSlash(path)])
  }

  lemma ParentExistsIff(fs: Fs, path: string)
    requires Inv(fs)
    ensures ParentExists(fs, path) <==> ParentStands(fs, path)
  {
    if LastSlash(path) > 0 { ParentIsDir(fs, path); }
  }

  /** Everything below oldPath would still fit below newPath. */
  ghost predicate SubtreeFits(fs: Fs, oldPath: string, newPath: string)
    requires Shaped(fs)
  {
    forall x :: Lookup(fs, x) != Nothing && Below(oldPath, x) ==> |Moved(oldPath, newPath, x)| < 48
  }

  lemma {:induction false} OverflowIff(fs: Fs, oldPath: string, newPath: string)
    requires Inv(fs)
    ensures RenameOverflows(fs, oldPath, newPath) <==> !SubtreeFits(fs, oldPath, newPath)
  {
    if RenameOverflows(fs, oldPath, newPath) {
      var i :| 0 <= i < MAX_NODES && fs.nodes[i].used && Below(oldPath, fs.nodes[i].path) &&
               |newPath| + |fs.nodes[i].path| - |oldPath| >= MAX_PATH;
      LookupAt(fs, i);
      assert |Moved(oldPath, newPath, fs.nodes[i].path)| >= MAX_PATH;
    } else {
      forall x | Lookup(fs, x) != Nothing && Below(oldPath, x) ensures |Moved(oldPath, newPath, x)| < MAX_PATH {
        assert fs.nodes[Find(fs, x)].path == x;
      }
    }
  }

  /** vfs_rename succeeds, for files and directories alike, iff the old name exists, the new one is
      valid and free with a standing parent, a directory does not move below itself, and no path of
      its subtree becomes too long. */
  lemma {:induction false} RenameSucceedsIff(fs: Fs, oldPath: string, newPath: string)
    requires Inv(fs)
    ensures Rename(fs, oldPath, newPath).1 <==>
      && Lookup(fs, oldPath) != Nothing && PathValid(newPath) && Lookup(fs, newPath) == Nothing
      && ParentStands(fs, newPath)
      && !(Lookup(fs, oldPath).kind.Directory? && Below(oldPath, newPath))
      && SubtreeFits(fs, oldPath, newPath)
  {
    ParentExistsIff(fs, newPath);
    OverflowIff(fs, oldPath, newPath);
  }

  /** vfs_remove succeeds iff the name exists and nothing lies below it. */
  lemma {:induction false} RemoveSucceedsIff(fs: Fs, path: string)
    requires Inv(fs)
    ensures Remove(fs, path).1 <==>
      Lookup(fs, path) != Nothing && forall x :: Below(path, x) ==> Lookup(fs, x) == Nothing
  {
    var i := Find(fs, path);
    if i < MAX_NODES {
      forall x | Below(path, x) && Lookup(fs, x) != Nothing
        ensures HasEntries(fs, path) && fs.nodes[i].kind.Directory?
      {
        assert fs.nodes[Find(fs, x)].path == x;
        if fs.nodes[i].kind.File? { NothingBelow(fs, path, Find(fs, x)); }
      }
      if HasEntries(fs, path) {
        var j :| 0 <= j < MAX_NODES && fs.nodes[j].used && Below(path, fs.nodes[j].path);
        LookupAt(fs, j);
      }
    }
  }

  /** vfs_mkdir succeeds iff the path is valid and free, its parent stands, and there are fewer than
      eight directories. */
  lemma {:induction false} MkdirSucceedsIff(fs: Fs, path: string)
    requires Inv(fs)
    ensures MakeDirectory(fs, path).1 <==>
      PathValid(path) && Lookup(fs, path) == Nothing && ParentStands(fs, path) && fs.dirs < 8
  {
    ParentExistsIff(fs, path);
    if fs.dirs < MAX_DIRS { AllocationSucceeds(fs); }
  }

  // ---- the other namespace calls ----

  /** vfs_create: it succeeds iff the path is valid and free, the bytes fit, the parent exists and there
      are fewer than eight files; the new file then is the only change. */
  lemma {:induction false} CreateMeaning(fs: Fs, path: string, data: Bytes)
    requires Inv(fs)
    ensures var (fs', ok) := CreateFile(fs, path, data);
      && (ok <==> && PathValid(path) && |data| <= 4096 && Lookup(fs, path) == Nothing
                  && ParentStands(fs, path) && fs.files < 8)
      && (!ok ==> fs' == fs)
      && (ok ==> Inv(fs') && Lookup(fs', path) == Something(File, data))
      && (ok ==> forall q :: q != path ==> Lookup(fs', q) == Lookup(fs, q))
  {
    ParentExistsIff(fs, path);
    if fs.files < MAX_FILES { AllocationSucceeds(fs); }
    var (fs', ok) := CreateFile(fs, path, data);
    if ok {
      var i := FreeFrom(fs.nodes, 0);
      CreateKeeps(fs, path, data);
      LookupAt(fs', i);
      assert Content(fs'.nodes[i]) == data;
      forall q | q != path ensures Lookup(fs', q) == Lookup(fs, q) {
        AddedElsewhere(fs, fs', i, q);
      }
    }
  }

  /** A node put into an unused place is found under its own name only. */
  lemma {:induction false} AddedElsewhere(fs: Fs, fs': Fs, i: nat, q: string)
    requires Inv(fs) && Inv(fs') && i < MAX_NODES && !fs.nodes[i].used && fs'.nodes == fs.nodes[i := fs'.nodes[i]]
    requires q != fs'.nodes[i].path
    ensures Lookup(fs', q) == Lookup(fs, q)
  {
    var j, j' := Find(fs, q), Find(fs', q);
    if j < MAX_NODES { LookupAt(fs', j); }
    if j' < MAX_NODES { LookupAt(fs, j'); }
  }

  lemma {:induction false} MkdirLookup(fs: Fs, path: string, q: string)
    requires Inv(fs)
    ensures var (fs', ok) := MakeDirectory(fs, path);
      && (!ok ==> fs' == fs)
      && (ok ==> Lookup(fs, path) == Nothing)
      && Lookup(fs', q) == if ok && q == path then Something(Directory, []) else Lookup(fs, q)
  {
    var (fs', ok) := MakeDirectory(fs, path);
    if ok {
      var i := FreeFrom(fs.nodes, 0);
      MkdirKeeps(fs, path);
      LookupAt(fs', i);
      if q != path { AddedElsewhere(fs, fs', i, q); }
    }
  }

  lemma {:induction false} RemoveLookup(fs: Fs, path: string, q: string)
    requires Inv(fs)
    ensures var (fs', ok) := Remove(fs, path);
      && (!ok ==> fs' == fs)
      && Lookup(fs', q) == if ok && q == path then Nothing else Lookup(fs, q)
  {
    var (fs', ok) := Remove(fs, path);
    if ok {
      var i, j, j' := Find(fs, path), Find(fs, q), Find(fs', q);
      RemoveKeeps(fs, path);
      if q != path && j < MAX_NODES { LookupAt(fs', j); }
      if j' < MAX_NODES { LookupAt(fs, j'); }
    }
  }

  /** On an empty table a directory /disk and a file /f can be made, and /f renamed to /disk/f. */
  lemma {:induction false} DiskDirectory(fs: Fs, data: Bytes)
    requires Inv(fs) && (forall i :: 0 <= i < MAX_NODES ==> !fs.nodes[i].used) && |data| <= MAX_FILE_SIZE
    ensures var fs1 := MakeDirectory(fs, "/disk").0;
      var fs2 := CreateFile(fs1, "/f", data).0;
      MakeDirectory(fs, "/disk").1 && CreateFile(fs1, "/f", data).1 && Rename(fs2, "/f", "/disk/f").1
  {
    TallyNone(fs.nodes, File);
    TallyNone(fs.nodes, Directory);
    SlashesOfNames();
    var fs1 := MakeDirectory(fs, "/disk").0;
    MkdirLookup(fs, "/disk", "/f");
    MkdirLookup(fs, "/disk", "/disk/f");
    MkdirLookup(fs, "/disk", "/disk");
    MkdirKeeps(fs, "/disk");
    CreateMeaning(fs1, "/f", data);
    var fs2 := CreateFile(fs1, "/f", data).0;
    assert Lookup(fs2, "/disk") == Something(Directory, []) && Lookup(fs2, "/disk/f") == Nothing;
    assert "/disk/f"[..5] == "/disk";
    var k := Find(fs2, "/f");
    assert Lookup(fs2, "/f") == Something(File, data);
    forall i | 0 <= i < MAX_NODES && fs2.nodes[i].used ensures !Below("/f", fs2.nodes[i].path) {
      NothingBelow(fs2, "/f", i);
    }
  }

  lemma SlashesOfNames()
    ensures LastSlash("/disk") == 0 && LastSlash("/f") == 0 && LastSlash("/disk/f") == 5
  {
    LastSlashIs("/disk/f", 5);
    assert forall j :: 0 < j < 5 ==> "/disk"[j] != '/';
    assert forall j :: 0 < j < 2 ==> "/f"[j] != '/';
  }

  // ---- bytes ----

  /** The other nodes of a table in which one node's bytes changed look as before. */
  lemma OthersUnaffected(fs: Fs, i: nat, n: Node, q: string)
    requires Inv(fs) && i < MAX_NODES && fs.nodes[i].used && NodeShaped(n) && n.used
    requires n.path == fs.nodes[i].path && n.kind == fs.nodes[i].kind && q != n.path
    ensures Lookup(fs.(nodes := fs.nodes[i := n]), q) == Lookup(fs, q)
  {
    var fs' := fs.(nodes := fs.nodes[i := n]);
    var j, j' := Find(fs, q), Find(fs', q);
    assert j < MAX_NODES ==> fs'.nodes[j] == fs.nodes[j];
    assert j' < MAX_NODES ==> fs.nodes[j'] == fs'.nodes[j'];
  }

  /** The file behind a path together with its node's whole buffer. */
  function Storage(fs: Fs, path: string): (r: Bytes)
    requires Shaped(fs) && Find(fs, path) < MAX_NODES
    ensures |Content(fs.nodes[Find(fs, path)])| <= |r| == MAX_FILE_SIZE
  {
    fs.nodes[Find(fs, path)].data
  }

  /** vfs_write, for every offset: it succeeds iff the path is a file and the bytes fit, changes
      exactly that file, and leaves the node's old bytes in a gap beyond the end. */
  lemma WriteMeaning(fs: Fs, path: string, offset: nat, buffer: Bytes, q: string)
    requires Inv(fs)
    ensures var (fs', n) := Write(fs, path, offset, buffer); var found := Lookup(fs, path);
      && (n >= 0 <==> found.Something? && found.kind.File? && offset + |buffer| <= MAX_FILE_SIZE)
      && (n < 0 ==> n == -1 && fs' == fs)
      && (n >= 0 ==> n == |buffer| &&
                     Lookup(fs', path) == Something(File, Patched(found.content, Storage(fs, path), offset, buffer)))
      && (q != path ==> Lookup(fs', q) == Lookup(fs, q))
  {
    var (fs', n) := Write(fs, path, offset, buffer);
    if n >= 0 {
      var i := Find(fs, path);
      BytesKeep(fs, i, fs'.nodes[i]);
      LookupAt(fs', i);
      assert Content(fs'.nodes[i]) == Patched(Content(fs.nodes[i]), fs.nodes[i].data, offset, buffer);
      if q != path { OthersUnaffected(fs, i, fs'.nodes[i], q); }
    }
  }

  /** vfs_truncate cuts the tail or grows with zero bytes, whatever the buffer held before. */
  lemma TruncateMeaning(fs: Fs, path: string, size: nat, q: string)
    requires Inv(fs)
    ensures var (fs', ok) := Truncate(fs, path, size); var found := Lookup(fs, path);
      && (ok <==> found.Something? && found.kind.File? && size <= MAX_FILE_SIZE)
      && (!ok ==> fs' == fs)
      && (ok ==> Lookup(fs', path) == Something(File, Resize(found.content, size)))
      && (q != path ==> Lookup(fs', q) == Lookup(fs, q))
  {
    var (fs', ok) := Truncate(fs, path, size);
    if ok {
      var i := Find(fs, path);
      BytesKeep(fs, i, fs'.nodes[i]);
      LookupAt(fs', i);
      assert Content(fs'.nodes[i]) == Resize(Content(fs.nodes[i]), size);
      if q != path { OthersUnaffected(fs, i, fs'.nodes[i], q); }
    }
  }

  /** `fs'` differs from `fs` only in the content of the file `path`. */
  ghost predicate OnlyContentChanges(fs: Fs, fs': Fs, path: string, content: Bytes)
    requires Shaped(fs)
  {
    Inv(fs') && Lookup(fs', path) == Something(File, content) && forall q :: q != path ==>
      Lookup(fs', q) == Lookup(fs, q)
  }

  lemma {:induction false} WriteChangesOne(fs: Fs, path: string, offset: nat, buffer: Bytes)
    requires Inv(fs) && Lookup(fs, path).Something? && Write(fs, path, offset, buffer).1 >= 0
    ensures OnlyContentChanges(fs, Write(fs, path, offset, buffer).0, path,
                               Patched(Lookup(fs, path).content, Storage(fs, path), offset, buffer))
  {
    var fs' := Write(fs, path, offset, buffer).0;
    OpKeeps(fs, OpWrite(path, offset, buffer));
    WriteMeaning(fs, path, offset, buffer, path);
    forall q | q != path
      ensures Lookup(fs', q) == Lookup(fs, q)
    {
      WriteMeaning(fs, path, offset, buffer, q);
    }
  }

  lemma {:induction false} TruncateChangesOne(fs: Fs, path: string, size: nat)
    requires Inv(fs) && Truncate(fs, path, size).1
    ensures OnlyContentChanges(fs, Truncate(fs, path, size).0, path, Resize(Lookup(fs, path).content, size))
  {
    TruncateMeaning(fs, path, size, path);
    OpKeeps(fs, OpTruncate(path, size));
    forall q | q != path
      ensures Lookup(Truncate(fs, path, size).0, q) == Lookup(fs, q)
    {
      TruncateMeaning(fs, path, size, q);
    }
  }

  /** A write beyond the end exposes whatever bytes the buffer held in the gap. */
  lemma WriteBeyondEnd(fs: Fs, path: string, offset: nat, buffer: Bytes)
    requires Inv(fs) && Lookup(fs, path).Something? && Lookup(fs, path).kind.File?
    requires |Lookup(fs, path).content| < offset && offset + |buffer| <= MAX_FILE_SIZE
    ensures var found := Lookup(fs, path);
      Lookup(Write(fs, path, offset, buffer).0, path) ==
        Something(File, found.content + Storage(fs, path)[|found.content|..offset] + buffer)
  {
    WriteMeaning(fs, path, offset, buffer, path);
  }

  /** So the gap is guaranteed to read as zeros only for offsets within the file: for every size
      and every larger offset there is a run after which the gap starts with a byte written earlier. */
  lemma GapIsStale(fs: Fs, size: nat, offset: nat, buffer: Bytes)
    requires Inv(fs) && forall i :: 0 <= i < MAX_NODES ==> !fs.nodes[i].used
    requires size < offset && offset + |buffer| <= MAX_FILE_SIZE
    ensures var ones: Bytes := seq(offset, i => 1);
      var fs' := Run(fs, [OpCreate("/f", ones), OpTruncate("/f", size)]);
      && Inv(fs') && Lookup(fs', "/f") == Something(File, ones[..size])
      && Lookup(Write(fs', "/f", offset, buffer).0, "/f") == Something(File, ones + buffer)
  {
    var ones: Bytes := seq(offset, i => 1);
    var ops := [OpCreate("/f", ones), OpTruncate("/f", size)];
    TallyNone(fs.nodes, File);
    assert LastSlash("/f") == 0 by { assert "/f"[..1] == "/"; }
    var fs1 := Apply(fs, ops[0]);
    assert CreateFile(fs, "/f", ones).1;
    CreateKeeps(fs, "/f", ones);
    LookupAt(fs1, 0);
    var fs2 := Apply(fs1, ops[1]);
    assert ops[1..] == [ops[1]];
    assert ops[1..][1..] == [];
    assert Run(fs1, ops[1..]) == Run(fs2, []);
    assert Run(fs, ops) == fs2;
    OpKeeps(fs1, ops[1]);
    TruncateMeaning(fs1, "/f", size, "");
    WriteBeyondEnd(fs2, "/f", offset, buffer);
    assert fs2.nodes[0].data[size..offset] == ones[size..];
    assert ones[..size] + ones[size..] == ones;
  }

  // ---- listing ----

  /** The indices of the used nodes, in table order. */
  function UsedFrom(nodes: seq<Node>, i: nat): (r: seq<nat>)
    requires i <= |nodes|
    decreases |nodes| - i
  {
    if i == |nodes| then []
    else if nodes[i].used then [i] + UsedFrom(nodes, i + 1)
    else UsedFrom(nodes, i + 1)
  }

  /** They are exactly the used nodes, each once. */
  lemma {:induction false} UsedIsExact(nodes: seq<Node>, i: nat)
    requires i <= |nodes|
    ensures forall k :: 0 <= k < |UsedFrom(nodes, i)| ==>
      i <= UsedFrom(nodes, i)[k] < |nodes| && nodes[UsedFrom(nodes, i)[k]].used
    ensures forall k, l :: 0 <= k < l < |UsedFrom(nodes, i)| ==> UsedFrom(nodes, i)[k] < UsedFrom(nodes, i)[l]
    ensures forall j :: i <= j < |nodes| && nodes[j].used ==> j in UsedFrom(nodes, i)
    decreases |nodes| - i
  {
    if i < |nodes| {
      UsedIsExact(nodes, i + 1);
    }
  }

  lemma {:induction false} NthIsListed(nodes: seq<Node>, i: nat, index: nat)
    requires i <= |nodes|
    ensures NthUsedFrom(nodes, i, index) ==
      if index < |UsedFrom(nodes, i)| then UsedFrom(nodes, i)[index] else |nodes|
    decreases |nodes| - i
  {
    if i < |nodes| {
      if nodes[i].used {
        if index > 0 { NthIsListed(nodes, i + 1, index - 1); }
      } else {
        NthIsListed(nodes, i + 1, index);
      }
    }
  }

  lemma {:induction false} UsedSize(nodes: seq<Node>, i: nat)
    requires i <= |nodes|
    ensures |UsedFrom(nodes, i)| == Tally(nodes[i..], File) + Tally(nodes[i..], Directory)
    decreases |nodes| - i
  {
    if i < |nodes| {
      assert nodes[i..][1..] == nodes[i + 1..];
      UsedSize(nodes, i + 1);
    }
  }

  /** Listing 0, 1, 2, ... yields an entry exactly below file_count + dir_count; every existing
      name is listed at one index and at no other. */
  lemma ListEnumerates(fs: Fs, index: nat)
    requires Inv(fs)
    ensures List(fs, index).ListEntry? <==> index < fs.files + fs.dirs
    ensures List(fs, index).ListEntry? ==>
      Lookup(fs, List(fs, index).entry.path).Something? &&
      Lookup(fs, List(fs, index).entry.path).kind == List(fs, index).entry.kind &&
      |Lookup(fs, List(fs, index).entry.path).content| == List(fs, index).entry.size
    ensures forall other: nat :: List(fs, index).ListEntry? && List(fs, other).ListEntry? && other != index ==>
      List(fs, index).entry.path != List(fs, other).entry.path
  {
    var used := UsedFrom(fs.nodes, 0);
    assert fs.nodes[0..] == fs.nodes;
    UsedSize(fs.nodes, 0);
    UsedIsExact(fs.nodes, 0);
    NthIsListed(fs.nodes, 0, index);
    if List(fs, index).ListEntry? {
      LookupAt(fs, used[index]);
    }
    forall other: nat | List(fs, index).ListEntry? && List(fs, other).ListEntry? && other != index
      ensures List(fs, index).entry.path != List(fs, other).entry.path
    {
      NthIsListed(fs.nodes, 0, other);
      assert used[index] != used[other];
    }
  }

  lemma EveryNameListed(fs: Fs, path: string) returns (index: nat)
    requires Inv(fs) && Lookup(fs, path).Something?
    ensures List(fs, index).ListEntry? && List(fs, index).entry.path == path
  {
    var i := Find(fs, path);
    var used := UsedFrom(fs.nodes, 0);
    UsedIsExact(fs.nodes, 0);
    index :| index < |used| && used[index] == i;
    NthIsListed(fs.nodes, 0, index);
  }

  // ---- runs ----

  lemma EmptyInv(nodes: seq<Node>)
    requires |nodes| == MAX_NODES && forall i :: 0 <= i < MAX_NODES ==> |nodes[i].data| == MAX_FILE_SIZE
    ensures Inv(Fs(Emptied(nodes), 0, 0))
  {
    TallyNone(Emptied(nodes), File);
    TallyNone(Emptied(nodes), Directory);
  }

  lemma OpKeeps(fs: Fs, op: Op)
    requires Inv(fs)
    ensures Inv(Apply(fs, op))
  {
    match op
    case OpMkdir(path) => MkdirKeeps(fs, path);
    case OpCreate(path, data) => CreateKeeps(fs, path, data);
    case OpRemove(path) => RemoveKeeps(fs, path);
    case OpRename(path, newPath) => RenameKeeps(fs, path, newPath);
    case OpWrite(path, _, _) =>
      if Apply(fs, op) != fs { BytesKeep(fs, Find(fs, path), Apply(fs, op).nodes[Find(fs, path)]); }
    case OpTruncate(path, _) =>
      if Apply(fs, op) != fs { BytesKeep(fs, Find(fs, path), Apply(fs, op).nodes[Find(fs, path)]); }
  }

  function Run(fs: Fs, ops: seq<Op>): (r: Fs)
    requires Shaped(fs)
    ensures Shaped(r)
    decreases |ops|
  {
    if ops == [] then fs else Run(Apply(fs, ops[0]), ops[1..])
  }

  /** Every run keeps the tree: unique valid paths, existing parents, exact counts of at most eight each. */
  lemma {:induction false} RunKeeps(fs: Fs, ops: seq<Op>)
    requires Inv(fs)
    ensures Inv(Run(fs, ops)) && Run(fs, ops).files <= 8 && Run(fs, ops).dirs <= 8
    ensures forall i :: 0 <= i < MAX_NODES && Run(fs, ops).nodes[i].used ==>
      1 < |Run(fs, ops).nodes[i].path| < 48 && Run(fs, ops).nodes[i].path[0] == '/'
    decreases |ops|
  {
    if ops != [] {
      OpKeeps(fs, ops[0]);
      RunKeeps(Apply(fs, ops[0]), ops[1..]);
    }
  }
}
