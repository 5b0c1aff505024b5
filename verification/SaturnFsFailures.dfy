/** What a reported failure of sfs_write_file (kernel/fs/sfs.c) leaves behind: exactly when reads are
    as before, and exactly which directory the next mount finds. */
module SaturnFsFailures {
  import opened FileBytes
  import opened SaturnFs
  import opened SaturnFsMap

  /** Every path reads the same in both states. */
  ghost predicate SameReads(s: Sfs, s': Sfs)
    requires Shaped(s) && Shaped(s')
  {
    forall q :: ReadFile(s', q, MAX_FILE_SIZE) == ReadFile(s, q, MAX_FILE_SIZE)
  }

  // ---- a failed directory write ----

  /** The state after a data write that completed and a directory write that left `left`. */
  function AfterDirectoryFailure(s: Sfs, path: string, data: Bytes, left: Bytes): (s': Sfs)
    requires Shaped(s) && IsCString(path) && |left| == SECTOR
    ensures Shaped(s')
  {
    WriteFile(s, path, data, Done, Failed(left)).0
  }

  lemma {:induction false} OtherReads(s: Sfs, path: string, data: Bytes, left: Bytes, q: string)
    requires Inv(s) && IsCString(path) && Accepts(s, path, data) && |left| == SECTOR && q != path
    ensures var s' := AfterDirectoryFailure(s, path, data, left);
      DiskInv(s'.disk, s'.dir) && s'.mounted && Lookup(s', q) == Lookup(s, q)
  {
    var k := TargetEntry(s.dir, path);
    WriteSteps(s, path, data, Failed(left));
    DataInPlace(s, path, data, left);
    WrittenPath(s.dir.entries[k], path, data);
    OtherPathUnaffected(s.dir, UpdatedDir(s.dir, path, data), k, q);
  }

  /** After a failed directory write reads are as before iff the file already held those bytes. */
  lemma {:induction false} DirectoryFailureHarmlessIff(s: Sfs, path: string, data: Bytes, left: Bytes)
    requires Inv(s) && IsCString(path) && Accepts(s, path, data) && |left| == SECTOR
    ensures SameReads(s, AfterDirectoryFailure(s, path, data, left)) <==> Lookup(s, path) == Content(data)
  {
    var s' := AfterDirectoryFailure(s, path, data, left);
    FailedDirectoryWriteIsVisible(s, path, data, left);
    ReadReturnsContent(s', path, MAX_FILE_SIZE);
    ReadReturnsContent(s, path, MAX_FILE_SIZE);
    ContentFits(s, path);
    if Lookup(s, path) == Content(data) {
      forall q ensures ReadFile(s', q, MAX_FILE_SIZE) == ReadFile(s, q, MAX_FILE_SIZE) {
        if q != path {
          OtherReads(s, path, data, left, q);
          ReadReturnsContent(s', q, MAX_FILE_SIZE);
          ReadReturnsContent(s, q, MAX_FILE_SIZE);
        }
      }
    }
  }

  lemma ContentFits(s: Sfs, path: string)
    requires DiskInv(s.disk, s.dir)
    ensures Lookup(s, path).Content? ==> |Lookup(s, path).bytes| <= MAX_FILE_SIZE
  {
    var k := FindEntry(s.dir, path, 0);
    if k < MAX_FILES { assert GoodEntry(s.dir.entries[k], Extent(s.disk, k)); }
  }

  /** A disk with the superblock loads whatever is in its directory sector. */
  lemma {:induction false} MountDecodes(s: Sfs, left: Bytes)
    requires Shaped(s) && |s.disk| >= REQUIRED_SECTORS * SECTOR && |left| == SECTOR
    requires s.disk[0..SECTOR] == Superblock(Sectors(s.disk)) && s.disk[SECTOR..2 * SECTOR] == left
    ensures Mount(s) == Sfs(s.disk, DecodeDir(left), true)
  {
    InRange(s.disk, 0, 1);
    InRange(s.disk, 1, 1);
    var b, e := BlockRead(s.disk, 0, 1), BlockRead(s.disk, 1, 1);
    assert b == s.disk[0..SECTOR] && e == left;
    OwnSuperblockAccepted(b, Sectors(s.disk));
  }

  /** What the next mount finds is decided by the sector that the failed write left, whatever it is:
      the old directory comes back iff the sector decodes to it, and the new one likewise. */
  lemma {:induction false} AfterMount(s: Sfs, path: string, data: Bytes, left: Bytes, leftover: Directory)
    requires Inv(s) && IsCString(path) && Accepts(s, path, data) && |left| == SECTOR && DirShaped(leftover)
    ensures var s' := AfterDirectoryFailure(s, path, data, left); var after := Mount(Sfs(s'.disk, leftover, false));
      && after == Sfs(s'.disk, DecodeDir(left), true)
      && (after.dir == s.dir <==> DecodeDir(left) == s.dir)
      && (after == s' <==> DecodeDir(left) == UpdatedDir(s.dir, path, data))
  {
    WriteSteps(s, path, data, Failed(left));
    DataInPlace(s, path, data, left);
    var s' := AfterDirectoryFailure(s, path, data, left);
    MountDecodes(Sfs(s'.disk, leftover, false), left);
  }

  /** If the failed write did reach the sector, the new content survives the mount. */
  lemma {:induction false} FailureSurvivesMount(s: Sfs, path: string, data: Bytes, leftover: Directory)
    requires Inv(s) && IsCString(path) && Accepts(s, path, data) && DirShaped(leftover)
    ensures var left := EncodeDir(UpdatedDir(s.dir, path, data));
      var after := Mount(Sfs(AfterDirectoryFailure(s, path, data, left).disk, leftover, false));
      Inv(after) && Lookup(after, path) == Content(data)
  {
    var dir := UpdatedDir(s.dir, path, data);
    var left := EncodeDir(dir);
    DirRoundTrip(dir);
    AfterMount(s, path, data, left, leftover);
    WriteSteps(s, path, data, Failed(left));
    DataInPlace(s, path, data, left);
  }

  // ---- a failed data write ----

  /** The state after a data write that failed and left `left` in the extent. */
  function AfterDataFailure(s: Sfs, path: string, data: Bytes, left: Bytes): (s': Sfs)
    requires Shaped(s) && IsCString(path) && |left| == MAX_FILE_SIZE
    ensures Shaped(s')
  {
    WriteFile(s, path, data, Failed(left), Done).0
  }

  lemma {:induction false} ExtentIsLeft(s: Sfs, path: string, data: Bytes, left: Bytes)
    requires Inv(s) && IsCString(path) && Accepts(s, path, data) && |left| == MAX_FILE_SIZE
    ensures var s', k := AfterDataFailure(s, path, data, left), TargetEntry(s.dir, path);
      && s'.dir == s.dir && s'.mounted && |s'.disk| == |s.disk|
      && Extent(s'.disk, k) == left
      && forall i :: 0 <= i < MAX_FILES && i != k ==> Extent(s'.disk, i) == Extent(s.disk, i)
  {
    var k := TargetEntry(s.dir, path);
    ExtentsApart(k, k);
    InRange(s.disk, s.dir.entries[k].start, FILE_SECTORS);
    ExtentWritten(s.disk, k, left);
    var disk' := Overwrite(s.disk, ExtentStart(k), left);
    assert WriteFile(s, path, data, Failed(left), Done) == (s.(disk := disk'), false);
    OtherExtents(s.disk, disk', k);
  }

  /** An overwritten file reads as before iff the extent still starts with its old bytes. */
  lemma {:induction false} OverwrittenReads(s: Sfs, path: string, data: Bytes, left: Bytes)
    requires Inv(s) && IsCString(path) && Accepts(s, path, data) && |left| == MAX_FILE_SIZE
    requires Lookup(s, path).Content?
    ensures var s', old' := AfterDataFailure(s, path, data, left), Lookup(s, path).bytes;
      && |old'| <= MAX_FILE_SIZE
      && (ReadFile(s', path, MAX_FILE_SIZE) == ReadFile(s, path, MAX_FILE_SIZE) <==> left[..|old'|] == old')
  {
    var s', k := AfterDataFailure(s, path, data, left), FindEntry(s.dir, path, 0);
    ExtentIsLeft(s, path, data, left);
    ContentFits(s, path);
    ReadReturnsContent(s, path, MAX_FILE_SIZE);
    assert GoodEntry(s.dir.entries[k], Extent(s.disk, k));
    ExtentsApart(k, k);
    InRange(s'.disk, s.dir.entries[k].start, FILE_SECTORS);
    assert BlockRead(s'.disk, s.dir.entries[k].start, FILE_SECTORS) == left;
  }

  /** After a failed data write reads are as before iff the file is new or its old bytes are still at
      the start of the extent. */
  lemma {:induction false} DataFailureHarmlessIff(s: Sfs, path: string, data: Bytes, left: Bytes)
    requires Inv(s) && IsCString(path) && Accepts(s, path, data) && |left| == MAX_FILE_SIZE
    ensures Lookup(s, path).Content? ==> |Lookup(s, path).bytes| <= MAX_FILE_SIZE
    ensures SameReads(s, AfterDataFailure(s, path, data, left)) <==>
      Lookup(s, path).Absent? || left[..|Lookup(s, path).bytes|] == Lookup(s, path).bytes
  {
    var s', k := AfterDataFailure(s, path, data, left), TargetEntry(s.dir, path);
    ContentFits(s, path);
    ExtentIsLeft(s, path, data, left);
    if Lookup(s, path).Content? { OverwrittenReads(s, path, data, left); }
    if Lookup(s, path).Absent? || left[..|Lookup(s, path).bytes|] == Lookup(s, path).bytes {
      forall q ensures ReadFile(s', q, MAX_FILE_SIZE) == ReadFile(s, q, MAX_FILE_SIZE) {
        if q != path { SameExtentSameRead(s, s', q, k); }
      }
    }
  }
}
