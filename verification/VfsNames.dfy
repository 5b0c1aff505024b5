/** The namespace calls of kernel/fs/vfs.c beside its file calls: mkdir, remove and rename work on the
    node table alone, while every call on a file's bytes sends names under /disk to SaturnFS. */
module VfsNames {
  import opened FileBytes
  import Paths
  import RamFs
  import RamFsTree
  import SaturnFs
  import SaturnFsMap
  import SaturnFsRefines
  import opened Vfs

  // ---- the calls ----

  /** vfs_mkdir. */
  function Mkdir(v: State, path: string): (r: (State, bool))
    requires Shaped(v)
    ensures Shaped(r.0)
  {
    var (ram, ok) := RamFs.MakeDirectory(v.ram, path);
    (v.(ram := ram), ok)
  }

  /** vfs_remove. */
  function Remove(v: State, path: string): (r: (State, bool))
    requires Shaped(v)
    ensures Shaped(r.0)
  {
    var (ram, ok) := RamFs.Remove(v.ram, path);
    (v.(ram := ram), ok)
  }

  /** vfs_rename. */
  function Rename(v: State, oldPath: string, newPath: string): (r: (State, bool))
    requires Shaped(v)
    ensures Shaped(r.0)
  {
    var (ram, ok) := RamFs.Rename(v.ram, oldPath, newPath);
    (v.(ram := ram), ok)
  }

  datatype StatResult = NoEntry | EntryOf(kind: RamFs.Kind, size: nat)

  /** vfs_stat; under /disk it reads the file into the shared buffer. */
  function Stat(v: State, path: string): (r: (State, StatResult))
    requires Shaped(v)
    ensures Shaped(r.0)
  {
    if OnDisk(path) then
      match SaturnFs.ReadFile(v.disk, Paths.DiskPath(path), MAX_SIZE)
      case ReadFailed => (v, NoEntry)
      case ReadBytes(content) => (v.(buffer := Loaded(v.buffer, content)), EntryOf(RamFs.File, |content|))
    else
      match RamFsTree.Lookup(v.ram, path)
      case Nothing => (v, NoEntry)
      case Something(kind, content) => (v, EntryOf(kind, |content|))
  }

  /** Its answer on files is the size of what a read returns, and nothing but the buffer changes. */
  lemma {:induction false} StatMeaning(v: State, path: string)
    requires Inv(v)
    ensures var (v', r) := Stat(v, path);
      && Inv(v') && v'.ram == v.ram && v'.disk == v.disk
      && (match Lookup(v, path)
          case FileOf(bytes) => r == EntryOf(RamFs.File, |bytes|)
          case NoFile => r == NoEntry || (!OnDisk(path) && r == EntryOf(RamFs.Directory, r.size)))
  {
    if OnDisk(path) {
      var d := Paths.DiskPath(path);
      SaturnFsMap.ReadReturnsContent(v.disk, d, MAX_SIZE);
      if SaturnFsMap.Lookup(v.disk, d).Content? { ExistingAccepted(v.disk, d, []); }
    }
  }

  // ---- creating ----

  /** When vfs_create succeeds. An existing file under /disk is overwritten, an existing one elsewhere
      is refused. */
  ghost predicate Creates(v: State, path: string, data: Bytes)
    requires Inv(v)
  {
    if OnDisk(path) then SaturnFsRefines.Takes(SaturnFsRefines.Abs(v.disk), Paths.DiskPath(path), data)
    else
      && Paths.PathValid(path) && |data| <= MAX_SIZE && RamFsTree.Lookup(v.ram, path).Nothing?
      && RamFsTree.ParentStands(v.ram, path) && v.ram.files < RamFs.MAX_FILES
  }

  lemma {:induction false} DiskCreateMeaning(v: State, path: string, data: Bytes)
    requires Inv(v) && SaturnFs.IsCString(path) && OnDisk(path)
    ensures CreateResult(v, path, data, Create(v, path, data))
  {
    var d := Paths.DiskPath(path);
    DiskPathIsCString(path);
    SaturnFsRefines.WriteRefines(v.disk, d, data);
    if Creates(v, path, data) {
      SaturnFsRefines.TakesIff(v.disk, d, data);
      SaturnFsMap.WriteUpdatesOne(v.disk, d, data);
      var v' := Create(v, path, data).0;
      forall q | q != path ensures Lookup(v', q) == Lookup(v, q) {
        if OnDisk(q) { DiskPathsDiffer(q, path); }
      }
    }
  }

  lemma {:induction false} RamCreateMeaning(v: State, path: string, data: Bytes)
    requires Inv(v) && SaturnFs.IsCString(path) && !OnDisk(path)
    ensures CreateResult(v, path, data, Create(v, path, data))
  {
    RamFsTree.CreateMeaning(v.ram, path, data);
  }

  /** What a creation has to do: leave the bytes in one file and change no other, or fail and change
      nothing. */
  ghost predicate CreateResult(v: State, path: string, data: Bytes, r: (State, bool))
    requires Inv(v)
  {
    if Creates(v, path, data)
    then r.1 && OnlyChanges(v, r.0, path) && Lookup(r.0, path) == FileOf(data)
    else !r.1 && r.0 == v
  }

  /** Main result on creating, for every path and buffer on both backends. */
  lemma {:induction false} CreateMeaning(v: State, path: string, data: Bytes)
    requires Inv(v) && SaturnFs.IsCString(path)
    ensures CreateResult(v, path, data, Create(v, path, data))
  {
    if OnDisk(path) {
      DiskCreateMeaning(v, path, data);
    } else {
      RamCreateMeaning(v, path, data);
    }
  }

  // ---- directories and removal ----

  /** A new directory is made iff the name allows it and there is room; it is no file and hides none. */
  lemma {:induction false} MkdirMeaning(v: State, path: string)
    requires Inv(v)
    ensures var (v', ok) := Mkdir(v, path);
      && Inv(v') && (forall q :: Lookup(v', q) == Lookup(v, q))
      && (ok <==> Paths.PathValid(path) && RamFsTree.Lookup(v.ram, path).Nothing?
                  && RamFsTree.ParentStands(v.ram, path) && v.ram.dirs < RamFs.MAX_DIRS)
      && (ok ==> RamFsTree.Lookup(v'.ram, path) == RamFsTree.Something(RamFs.Directory, []))
  {
    var v' := Mkdir(v, path).0;
    RamFsTree.MkdirKeeps(v.ram, path);
    RamFsTree.MkdirSucceedsIff(v.ram, path);
    RamFsTree.MkdirLookup(v.ram, path, path);
    forall q ensures Lookup(v', q) == Lookup(v, q) {
      RamFsTree.MkdirLookup(v.ram, path, q);
    }
  }

  /** Removal takes away one RAM file. A name under /disk removes at most a node that nobody could
      read, and never a file of SaturnFS. */
  lemma {:induction false} RemoveMeaning(v: State, path: string)
    requires Inv(v)
    ensures var (v', ok) := Remove(v, path);
      && Inv(v') && (!ok ==> v' == v)
      && (ok <==> RamFsTree.Lookup(v.ram, path).Something?
                  && forall x :: Paths.Below(path, x) ==> RamFsTree.Lookup(v.ram, x).Nothing?)
      && forall q :: Lookup(v', q) == if ok && q == path && !OnDisk(path) then NoFile else Lookup(v, q)
  {
    var (v', ok) := Remove(v, path);
    RamFsTree.RemoveKeeps(v.ram, path);
    RamFsTree.RemoveSucceedsIff(v.ram, path);
    forall q ensures Lookup(v', q) == if ok && q == path && !OnDisk(path) then NoFile else Lookup(v, q) {
      RamFsTree.RemoveLookup(v.ram, path, q);
    }
  }

  // ---- renaming ----

  /** A file of the node table, whether or not its name is dispatched to SaturnFS. */
  ghost predicate IsNode(v: State, path: string, bytes: Bytes)
    requires Inv(v)
  {
    RamFsTree.Lookup(v.ram, path) == RamFsTree.Something(RamFs.File, bytes)
  }

  lemma {:induction false} RenameKeeps(v: State, oldPath: string, newPath: string)
    requires Inv(v)
    ensures Inv(Rename(v, oldPath, newPath).0)
    ensures !Rename(v, oldPath, newPath).1 ==> Rename(v, oldPath, newPath).0 == v
  {
    RamFsTree.RenameKeeps(v.ram, oldPath, newPath);
  }

  /** When vfs_rename succeeds, in terms of the node table alone. */
  lemma {:induction false} RenameSucceedsIff(v: State, oldPath: string, newPath: string)
    requires Inv(v)
    ensures Rename(v, oldPath, newPath).1 <==>
      && RamFsTree.Lookup(v.ram, oldPath).Something? && Paths.PathValid(newPath)
      && RamFsTree.Lookup(v.ram, newPath).Nothing? && RamFsTree.ParentStands(v.ram, newPath)
      && !(RamFsTree.Lookup(v.ram, oldPath).kind.Directory? && Paths.Below(oldPath, newPath))
      && RamFsTree.SubtreeFits(v.ram, oldPath, newPath)
  {
    RamFsTree.RenameSucceedsIff(v.ram, oldPath, newPath);
  }

  /** Main result on renaming: after a successful rename a file of the node table can be read under
      its substituted name iff that name is not under /disk, or SaturnFS happens to hold the same
      bytes there. */
  lemma {:induction false} RenameSeenIff(v: State, oldPath: string, newPath: string, p: string, bytes: Bytes)
    requires Inv(v) && Rename(v, oldPath, newPath).1 && IsNode(v, p, bytes)
    ensures var v', q := Rename(v, oldPath, newPath).0, RamFsTree.Moved(oldPath, newPath, p);
      && Inv(v') && IsNode(v', q, bytes)
      && (Lookup(v', q) == FileOf(bytes) <==> !OnDisk(q) || Lookup(v, q) == FileOf(bytes))
  {
    RenameKeeps(v, oldPath, newPath);
    RamFsTree.RenameLookup(v.ram, oldPath, newPath);
  }

  /** A file that is renamed to a name under /disk disappears: its old name is gone, and the new one
      shows what SaturnFS had there before. */
  lemma {:induction false} RenameHides(v: State, oldPath: string, newPath: string)
    requires Inv(v) && Rename(v, oldPath, newPath).1 && !OnDisk(oldPath) && OnDisk(newPath)
    ensures var v' := Rename(v, oldPath, newPath).0;
      && Inv(v') && Lookup(v', oldPath) == NoFile && Lookup(v', newPath) == Lookup(v, newPath)
      && Stat(v', oldPath).1 == NoEntry && Stat(v', newPath).1 == Stat(v, newPath).1
  {
    RenameKeeps(v, oldPath, newPath);
    RamFsTree.OldNameIsFree(v.ram, oldPath, newPath);
  }

  /** Names that the substitution neither takes away nor fills keep their file. */
  lemma {:induction false} RenameElsewhere(v: State, oldPath: string, newPath: string, q: string)
    requires Inv(v) && q != oldPath && q != newPath && !Paths.Below(oldPath, q) && !Paths.Below(newPath, q)
    ensures var v' := Rename(v, oldPath, newPath).0; Inv(v') && Lookup(v', q) == Lookup(v, q)
  {
    RenameKeeps(v, oldPath, newPath);
    if Rename(v, oldPath, newPath).1 {
      RamFsTree.RenameOthers(v.ram, oldPath, newPath, q);
    }
  }

  /** Such a run from an empty node table, over any disk: a directory /disk, a file /f, and the rename
      of /f to /disk/f all succeed, and the file cannot be read anywhere afterwards. */
  lemma {:induction false} RenameHidesWitness(v: State, data: Bytes)
    requires Inv(v) && (forall i :: 0 <= i < RamFs.MAX_NODES ==> !v.ram.nodes[i].used) && |data| <= MAX_SIZE
    ensures var v1 := Mkdir(v, "/disk").0;
      var v2 := Create(v1, "/f", data).0;
      var v3 := Rename(v2, "/f", "/disk/f").0;
      && Mkdir(v, "/disk").1 && Create(v1, "/f", data).1 && Rename(v2, "/f", "/disk/f").1
      && Inv(v2) && Lookup(v2, "/f") == FileOf(data)
      && Inv(v3) && Lookup(v3, "/f") == NoFile && Lookup(v3, "/disk/f") == Lookup(v, "/disk/f")
  {
    RamFsTree.DiskDirectory(v.ram, data);
    var v1 := Mkdir(v, "/disk").0;
    MkdirMeaning(v, "/disk");
    var v2 := Create(v1, "/f", data).0;
    CreateMeaning(v1, "/f", data);
    RenameHides(v2, "/f", "/disk/f");
  }

  // ---- runs ----

  datatype Op =
    | CreateOp(path: string, data: Bytes)
    | WriteOp(path: string, offset: nat, data: Bytes)
    | TruncateOp(path: string, size: nat)
    | ReadOp(path: string, offset: nat, size: nat)
    | StatOp(path: string)
    | MkdirOp(path: string)
    | RemoveOp(path: string)
    | RenameOp(oldPath: string, newPath: string)

  predicate OpShaped(op: Op) {
    match op
    case CreateOp(path, _) => SaturnFs.IsCString(path)
    case WriteOp(path, _, _) => SaturnFs.IsCString(path)
    case TruncateOp(path, _) => SaturnFs.IsCString(path)
    case _ => true
  }

  function Apply(v: State, op: Op): (r: State)
    requires Shaped(v) && OpShaped(op)
    ensures Shaped(r)
  {
    match op
    case CreateOp(path, data) => Create(v, path, data).0
    case WriteOp(path, offset, data) => Write(v, path, offset, data).0
    case TruncateOp(path, size) => Truncate(v, path, size).0
    case ReadOp(path, offset, size) => Read(v, path, offset, size).0
    case StatOp(path) => Stat(v, path).0
    case MkdirOp(path) => Mkdir(v, path).0
    case RemoveOp(path) => Remove(v, path).0
    case RenameOp(oldPath, newPath) => Rename(v, oldPath, newPath).0
  }

  /** The names whose file a call may change. */
  predicate Touches(op: Op, q: string) {
    match op
    case CreateOp(path, _) => q == path
    case WriteOp(path, _, _) => q == path
    case TruncateOp(path, _) => q == path
    case ReadOp(_, _, _) => false
    case StatOp(_) => false
    case MkdirOp(_) => false
    case RemoveOp(path) => q == path
    case RenameOp(oldPath, newPath) =>
      q == oldPath || q == newPath || Paths.Below(oldPath, q) || Paths.Below(newPath, q)
  }

  lemma {:induction false} OpKeeps(v: State, op: Op, q: string)
    requires Inv(v) && OpShaped(op)
    ensures Inv(Apply(v, op)) && (!Touches(op, q) ==> Lookup(Apply(v, op), q) == Lookup(v, q))
  {
    match op
    case CreateOp(path, data) => CreateMeaning(v, path, data);
    case WriteOp(path, offset, data) => WriteMeaning(v, path, offset, data);
    case TruncateOp(path, size) => TruncateMeaning(v, path, size);
    case ReadOp(path, offset, size) => ReadMeaning(v, path, offset, size);
    case StatOp(path) => StatMeaning(v, path);
    case MkdirOp(path) => MkdirMeaning(v, path);
    case RemoveOp(path) => RemoveMeaning(v, path);
    case RenameOp(oldPath, newPath) =>
      RenameKeeps(v, oldPath, newPath);
      if !Touches(op, q) { RenameElsewhere(v, oldPath, newPath, q); }
  }

  function Run(v: State, ops: seq<Op>): (r: State)
    requires Shaped(v) && forall i :: 0 <= i < |ops| ==> OpShaped(ops[i])
    ensures Shaped(r)
    decreases |ops|
  {
    if ops == [] then v else Run(Apply(v, ops[0]), ops[1..])
  }

  /** Over every run of VFS calls both backends keep their invariants, and a file whose name no call
      of the run touches is the same at its end. */
  lemma {:induction false} RunKeeps(v: State, ops: seq<Op>, q: string)
    requires Inv(v) && forall i :: 0 <= i < |ops| ==> OpShaped(ops[i])
    ensures Inv(Run(v, ops))
    ensures (forall i :: 0 <= i < |ops| ==> !Touches(ops[i], q)) ==> Lookup(Run(v, ops), q) == Lookup(v, q)
    decreases |ops|
  {
    if ops != [] {
      OpKeeps(v, ops[0], q);
      RunKeeps(Apply(v, ops[0]), ops[1..], q);
    }
  }
}
