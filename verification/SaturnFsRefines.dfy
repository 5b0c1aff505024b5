/** SaturnFS refines a finite map from path to bytes: the operations of kernel/fs/sfs.c, seen through
    the map that the disk and directory stand for, are the operations of that map. */
module SaturnFsRefines {
  import opened FileBytes
  import opened SaturnFs
  import opened SaturnFsMap

  // ---- the abstract filesystem ----

  type Files = map<string, Bytes>

  /** When the abstract filesystem takes a write: a valid path, bytes that fit, and the path exists or
      fewer than eight files do. */
  predicate Takes(m: Files, path: string, data: Bytes) {
    PathValid(path) && |data| <= MAX_FILE_SIZE && (path in m || |m| < MAX_FILES)
  }

  function PutSpec(m: Files, path: string, data: Bytes): Files {
    if Takes(m, path, data) then m[path := data] else m
  }

  function ReadSpec(m: Files, path: string, capacity: nat): ReadResult {
    if path in m && |m[path]| <= capacity then ReadBytes(m[path]) else SaturnFs.ReadFailed
  }

  // ---- the map behind a directory ----

  /** The names held by the first n entries. */
  function Names(d: Directory, n: nat): (r: set<string>)
    requires DirShaped(d) && n <= MAX_FILES
  {
    if n == 0 then {}
    else Names(d, n - 1) + if EntryUsed(d.entries[n - 1]) then {PathOf(d.entries[n - 1].path)} else {}
  }

  lemma {:induction false} NameIff(d: Directory, n: nat, path: string)
    requires DirShaped(d) && n <= MAX_FILES
    ensures path in Names(d, n) <==>
      exists i :: 0 <= i < n && EntryUsed(d.entries[i]) && PathOf(d.entries[i].path) == path
  {
    if n > 0 { NameIff(d, n - 1, path); }
  }

  lemma {:induction false} NamesCount(d: Directory, n: nat)
    requires DirShaped(d) && n <= MAX_FILES && DistinctPaths(d)
    ensures |Names(d, n)| <= n
    ensures |Names(d, n)| == n <==> forall i :: 0 <= i < n ==> EntryUsed(d.entries[i])
  {
    if n > 0 {
      NamesCount(d, n - 1);
      if EntryUsed(d.entries[n - 1]) {
        NameIff(d, n - 1, PathOf(d.entries[n - 1].path));
      }
    }
  }

  lemma {:induction false} NameIsFound(s: Sfs, path: string)
    requires DiskInv(s.disk, s.dir)
    ensures path in Names(s.dir, MAX_FILES) <==> Lookup(s, path).Content?
  {
    NameIff(s.dir, MAX_FILES, path);
  }

  /** The map that a filesystem stands for. */
  ghost function Abs(s: Sfs): (m: Files)
    requires Inv(s)
    ensures m.Keys == Names(s.dir, MAX_FILES)
  {
    map path | path in Names(s.dir, MAX_FILES) :: Held(Lookup(s, path))
  }

  function Held(f: Found): Bytes {
    match f
    case Absent => []
    case Content(bytes) => bytes
  }

  /** The map says exactly what the lookup says. */
  lemma {:induction false} AbsLookup(s: Sfs, path: string)
    requires Inv(s)
    ensures Lookup(s, path) == if path in Abs(s) then Content(Abs(s)[path]) else Absent
  {
    NameIsFound(s, path);
  }

  lemma {:induction false} AbsIs(s: Sfs, m: Files)
    requires Inv(s) && forall path :: Lookup(s, path) == if path in m then Content(m[path]) else Absent
    ensures Abs(s) == m
  {
    forall path ensures path in Abs(s) <==> path in m {
      AbsLookup(s, path);
    }
    forall path | path in m ensures Abs(s)[path] == m[path] {
      AbsLookup(s, path);
    }
  }

  /** The directory has room iff the map has. */
  lemma {:induction false} RoomIff(s: Sfs)
    requires Inv(s)
    ensures |Abs(s)| == |Names(s.dir, MAX_FILES)| <= MAX_FILES
    ensures FreeEntry(s.dir, 0) < MAX_FILES <==> |Abs(s)| < MAX_FILES
  {
    NamesCount(s.dir, MAX_FILES);
    assert |Abs(s)| == |Abs(s).Keys|;
    if FreeEntry(s.dir, 0) < MAX_FILES {
      assert !EntryUsed(s.dir.entries[FreeEntry(s.dir, 0)]);
    }
  }

  lemma {:induction false} TakesIff(s: Sfs, path: string, data: Bytes)
    requires Inv(s)
    ensures Accepts(s, path, data) <==> Takes(Abs(s), path, data)
  {
    RoomIff(s);
    AbsLookup(s, path);
  }

  // ---- each operation ----

  /** sfs_read_file reads the map. */
  lemma {:induction false} ReadRefines(s: Sfs, path: string, capacity: nat)
    requires Inv(s)
    ensures ReadFile(s, path, capacity) == ReadSpec(Abs(s), path, capacity)
  {
    AbsLookup(s, path);
    ReadReturnsContent(s, path, capacity);
  }

  /** sfs_write_file puts into the map, and reports exactly whether it did. */
  lemma {:induction false} WriteRefines(s: Sfs, path: string, data: Bytes)
    requires Inv(s) && IsCString(path)
    ensures var (s', ok) := WriteFile(s, path, data, Done, Done);
      && Inv(s') && Abs(s') == PutSpec(Abs(s), path, data)
      && ok == Takes(Abs(s), path, data) && (!ok ==> s' == s)
  {
    var (s', ok) := WriteFile(s, path, data, Done, Done);
    TakesIff(s, path, data);
    if Accepts(s, path, data) {
      WriteUpdatesOne(s, path, data);
      var m := PutSpec(Abs(s), path, data);
      forall q ensures Lookup(s', q) == if q in m then Content(m[q]) else Absent {
        AbsLookup(s, q);
      }
      AbsIs(s', m);
    }
  }

  /** sfs_init leaves the map as it is, whatever was in memory. */
  lemma {:induction false} RemountRefines(s: Sfs, leftover: Directory)
    requires Inv(s) && DirShaped(leftover)
    ensures Inv(Mount(Sfs(s.disk, leftover, false))) && Abs(Mount(Sfs(s.disk, leftover, false))) == Abs(s)
  {
    RemountRecovers(s, leftover, false);
  }

  /** sfs_format empties the map. */
  lemma {:induction false} FormatRefines(s: Sfs)
    requires Shaped(s) && Sectors(s.disk) >= REQUIRED_SECTORS
    ensures var (s', ok) := Format(s, Done, Done); ok && Inv(s') && Abs(s') == map[]
  {
    FormatEmpties(s);
    AbsIs(Format(s, Done, Done).0, map[]);
  }

  // ---- runs ----

  datatype Op = Put(path: string, data: Bytes) | Remount(leftover: Directory) | Reformat

  ghost predicate OpShaped(op: Op) {
    match op
    case Put(path, _) => IsCString(path)
    case Remount(leftover) => DirShaped(leftover)
    case Reformat => true
  }

  function Apply(s: Sfs, op: Op): (r: Sfs)
    requires Shaped(s) && OpShaped(op)
    ensures Shaped(r)
  {
    match op
    case Put(path, data) => WriteFile(s, path, data, Done, Done).0
    case Remount(leftover) => Mount(Sfs(s.disk, leftover, false))
    case Reformat => Format(s, Done, Done).0
  }

  function Run(s: Sfs, ops: seq<Op>): (r: Sfs)
    requires Shaped(s) && forall i :: 0 <= i < |ops| ==> OpShaped(ops[i])
    ensures Shaped(r)
    decreases |ops|
  {
    if ops == [] then s else Run(Apply(s, ops[0]), ops[1..])
  }

  function ApplySpec(m: Files, op: Op): Files {
    match op
    case Put(path, data) => PutSpec(m, path, data)
    case Remount(_) => m
    case Reformat => map[]
  }

  /** The same run on the map, without any filesystem. */
  function RunSpec(m: Files, ops: seq<Op>): (r: Files)
    decreases |ops|
  {
    if ops == [] then m else RunSpec(ApplySpec(m, ops[0]), ops[1..])
  }

  /** Main result: over every run of writes, remounts and formats, the filesystem stands for what the
      same run makes of the map, and reads return what that map holds. */
  lemma {:induction false} RunRefines(s: Sfs, ops: seq<Op>)
    requires Inv(s) && forall i :: 0 <= i < |ops| ==> OpShaped(ops[i])
    ensures Inv(Run(s, ops)) && Abs(Run(s, ops)) == RunSpec(Abs(s), ops)
    decreases |ops|
  {
    if ops != [] {
      match ops[0] {
        case Put(path, data) => WriteRefines(s, path, data);
        case Remount(leftover) => RemountRefines(s, leftover);
        case Reformat => FormatRefines(s);
      }
      RunRefines(Apply(s, ops[0]), ops[1..]);
    }
  }

  /** From a blank device on: what any path reads after any run is decided by the run alone. */
  lemma {:induction false} BlankRunReads(s: Sfs, ops: seq<Op>, path: string, capacity: nat)
    requires Shaped(s) && Sectors(s.disk) >= REQUIRED_SECTORS && s.disk[0..8] == Zeros(8)
    requires forall i :: 0 <= i < |ops| ==> OpShaped(ops[i])
    ensures ReadFile(Run(Mount(s), ops), path, capacity) == ReadSpec(RunSpec(map[], ops), path, capacity)
  {
    BlankDiskIsFormatted(s);
    AbsIs(Mount(s), map[]);
    RunRefines(Mount(s), ops);
    ReadRefines(Run(Mount(s), ops), path, capacity);
  }
}
