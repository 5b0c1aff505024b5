/** SaturnFS is a persistent map from paths to bytes: the invariant of a formatted disk, refinement
    of the map by writes, reads and remounts, and what survives an interrupted write. */
module SaturnFsMap {
  import opened FileBytes
  import opened SaturnFs

  function ExtentStart(k: nat): nat {
    (DATA_START + k * FILE_SECTORS) * SECTOR
  }

  /** The data extent of entry k. */
  function Extent(disk: Bytes, k: nat): (r: Bytes)
    requires k < MAX_FILES && |disk| >= REQUIRED_SECTORS * SECTOR
    ensures |r| == MAX_FILE_SIZE
  {
    disk[ExtentStart(k)..ExtentStart(k) + MAX_FILE_SIZE]
  }

  /** A used entry names its file properly and its checksum matches its extent. */
  predicate GoodEntry(e: DirEntry, extent: Bytes) {
    && |e.path| == MAX_PATH && PathValid(PathOf(e.path))
    && e.size <= MAX_FILE_SIZE == |extent|
    && e.checksum == Checksum(extent[..e.size])
  }

  ghost predicate DistinctPaths(d: Directory)
    requires DirShaped(d)
  {
    forall i, j :: 0 <= i < j < MAX_FILES && EntryUsed(d.entries[i]) && EntryUsed(d.entries[j]) ==>
      PathOf(d.entries[i].path) != PathOf(d.entries[j].path)
  }

  ghost predicate DiskInv(disk: Bytes, d: Directory) {
    && DirShaped(d)
    && |disk| % SECTOR == 0 && |disk| >= REQUIRED_SECTORS * SECTOR
    && (forall i :: 0 <= i < MAX_FILES ==> d.entries[i].start == DATA_START + i * FILE_SECTORS)
    && (forall i :: 0 <= i < MAX_FILES && EntryUsed(d.entries[i]) ==> GoodEntry(d.entries[i], Extent(disk, i)))
    && DistinctPaths(d)
  }

  /** The filesystem is mounted and the disk holds its superblock and its directory. */
  ghost predicate Inv(s: Sfs) {
    && s.mounted
    && DiskInv(s.disk, s.dir)
    && s.disk[0..SECTOR] == Superblock(Sectors(s.disk))
    && s.disk[SECTOR..2 * SECTOR] == EncodeDir(s.dir)
  }

  datatype Found = Absent | Content(bytes: Bytes)

  /** The map that a filesystem stands for. */
  ghost function Lookup(s: Sfs, path: string): (r: Found)
    requires DiskInv(s.disk, s.dir)
  {
    var k := FindEntry(s.dir, path, 0);
    if k == MAX_FILES then Absent else Content(Extent(s.disk, k)[..s.dir.entries[k].size])
  }

  // ---- reading and writing ranges ----

  lemma Elsewhere(disk: Bytes, offset: nat, buffer: Bytes, lo: nat, hi: nat)
    requires offset + |buffer| <= |disk| && lo <= hi <= |disk| && (hi <= offset || offset + |buffer| <= lo)
    ensures Overwrite(disk, offset, buffer)[lo..hi] == disk[lo..hi]
  {
  }

  lemma ExtentsApart(i: nat, k: nat)
    requires i < MAX_FILES && k < MAX_FILES
    ensures 2 * SECTOR <= ExtentStart(i) && ExtentStart(i) + MAX_FILE_SIZE <= REQUIRED_SECTORS * SECTOR
    ensures i < k ==> ExtentStart(i) + MAX_FILE_SIZE <= ExtentStart(k)
  {
  }

  /** Two disks of one size that differ at most inside the extent of entry k. */
  ghost predicate SameOutside(disk: Bytes, disk': Bytes, k: nat)
    requires k < MAX_FILES
  {
    && |disk'| == |disk| && |disk| >= REQUIRED_SECTORS * SECTOR
    && disk'[..ExtentStart(k)] == disk[..ExtentStart(k)]
    && disk'[ExtentStart(k) + MAX_FILE_SIZE..] == disk[ExtentStart(k) + MAX_FILE_SIZE..]
  }

  lemma OtherExtents(disk: Bytes, disk': Bytes, k: nat)
    requires k < MAX_FILES && |disk| >= REQUIRED_SECTORS * SECTOR && SameOutside(disk, disk', k)
    ensures disk'[0..SECTOR] == disk[0..SECTOR] && disk'[SECTOR..2 * SECTOR] == disk[SECTOR..2 * SECTOR]
    ensures forall i :: 0 <= i < MAX_FILES && i != k ==> Extent(disk', i) == Extent(disk, i)
  {
    var lo, hi := ExtentStart(k), ExtentStart(k) + MAX_FILE_SIZE;
    ExtentsApart(k, k);
    SameSlice(disk, disk', lo, hi, 0, SECTOR);
    SameSlice(disk, disk', lo, hi, SECTOR, 2 * SECTOR);
    forall i | 0 <= i < MAX_FILES && i != k
      ensures Extent(disk', i) == Extent(disk, i)
    {
      ExtentsApart(i, k);
      ExtentsApart(k, i);
      SameSlice(disk, disk', lo, hi, ExtentStart(i), ExtentStart(i) + MAX_FILE_SIZE);
    }
  }

  lemma SameSlice(a: Bytes, b: Bytes, lo: nat, hi: nat, x: nat, y: nat)
    requires |a| == |b| && lo <= hi <= |a| && a[..lo] == b[..lo] && a[hi..] == b[hi..]
    requires x <= y <= |a| && (y <= lo || hi <= x)
    ensures a[x..y] == b[x..y]
  {
    forall j | x <= j < y
      ensures a[j] == b[j]
    {
      if j < lo {
        assert a[j] == a[..lo][j] && b[j] == b[..lo][j];
      } else {
        assert a[j] == a[hi..][j - hi] && b[j] == b[hi..][j - hi];
      }
    }
  }

  lemma ExtentWritten(disk: Bytes, k: nat, buffer: Bytes)
    requires k < MAX_FILES && |disk| >= REQUIRED_SECTORS * SECTOR && |buffer| == MAX_FILE_SIZE
    ensures ExtentStart(k) + MAX_FILE_SIZE <= |disk|
    ensures SameOutside(disk, Overwrite(disk, ExtentStart(k), buffer), k)
    ensures Extent(Overwrite(disk, ExtentStart(k), buffer), k) == buffer
  {
    ExtentsApart(k, k);
    Elsewhere(disk, ExtentStart(k), buffer, 0, ExtentStart(k));
    Elsewhere(disk, ExtentStart(k), buffer, ExtentStart(k) + MAX_FILE_SIZE, |disk|);
  }

  lemma DirectoryWritten(disk: Bytes, dirBytes: Bytes)
    requires |disk| >= REQUIRED_SECTORS * SECTOR && |dirBytes| == SECTOR
    ensures var disk' := Overwrite(disk, SECTOR, dirBytes);
      && |disk'| == |disk|
      && disk'[0..SECTOR] == disk[0..SECTOR] && disk'[SECTOR..2 * SECTOR] == dirBytes
      && forall i :: 0 <= i < MAX_FILES ==> Extent(disk', i) == Extent(disk, i)
  {
    forall i | 0 <= i < MAX_FILES
      ensures Extent(Overwrite(disk, SECTOR, dirBytes), i) == Extent(disk, i)
    {
      ExtentsApart(i, i);
      Elsewhere(disk, SECTOR, dirBytes, ExtentStart(i), ExtentStart(i) + MAX_FILE_SIZE);
    }
    Elsewhere(disk, SECTOR, dirBytes, 0, SECTOR);
  }

  lemma InRange(disk: Bytes, sector: nat, count: nat)
    requires |disk| % SECTOR == 0 && 0 < count && (sector + count) * SECTOR <= |disk|
    ensures InBounds(disk, sector, count)
  {
  }

  // ---- reading ----

  /** On a sound disk sfs_read_file returns exactly what the map holds. */
  lemma ReadReturnsContent(s: Sfs, path: string, capacity: nat)
    requires s.mounted && DiskInv(s.disk, s.dir)
    ensures ReadFile(s, path, capacity) ==
      match Lookup(s, path)
      case Absent => SaturnFs.ReadFailed
      case Content(bytes) => if |bytes| <= capacity then SaturnFs.ReadBytes(bytes) else SaturnFs.ReadFailed
  {
    var k := FindEntry(s.dir, path, 0);
    if k < MAX_FILES {
      ExtentsApart(k, k);
      InRange(s.disk, s.dir.entries[k].start, FILE_SECTORS);
      assert BlockRead(s.disk, s.dir.entries[k].start, FILE_SECTORS) == Extent(s.disk, k);
    }
  }

  // ---- format ----

  lemma {:induction false} FormatEmpties(s: Sfs)
    requires Shaped(s) && Sectors(s.disk) >= REQUIRED_SECTORS
    ensures var (s', ok) := Format(s, Done, Done);
      ok && Inv(s') && |s'.disk| == |s.disk| && forall path :: Lookup(s', path) == Absent
  {
    var dir := EmptyDir(s.dir);
    var super := Superblock(Sectors(s.disk));
    InRange(s.disk, 0, 1);
    var disk1 := Overwrite(s.disk, 0, super);
    assert BlockWrite(s.disk, 0, super, Done) == (disk1, true);
    assert disk1[0..SECTOR] == super;
    InRange(disk1, 1, 1);
    DirectoryWritten(disk1, EncodeDir(dir));
    var (s', ok) := Format(s, Done, Done);
    assert s'.disk == Overwrite(disk1, SECTOR, EncodeDir(dir));
    assert forall i :: 0 <= i < MAX_FILES ==> s'.dir.entries[i] == EmptyEntry(s.dir.entries[i], i);
  }

  // ---- write ----

  /** Replacing entry k by a good entry for a path that no other entry has, with its data in place. */
  lemma EntryReplaced(disk: Bytes, d: Directory, disk': Bytes, k: nat, e: DirEntry)
    requires DiskInv(disk, d) && k < MAX_FILES && SameOutside(disk, disk', k)
    requires EntryShaped(e) && e.start == d.entries[k].start && GoodEntry(e, Extent(disk', k))
    requires forall i :: 0 <= i < MAX_FILES && i != k && EntryUsed(d.entries[i]) ==>
      PathOf(d.entries[i].path) != PathOf(e.path)
    ensures DiskInv(disk', d.(entries := d.entries[k := e]))
  {
    OtherExtents(disk, disk', k);
    var d' := d.(entries := d.entries[k := e]);
    forall i | 0 <= i < MAX_FILES && EntryUsed(d'.entries[i])
      ensures GoodEntry(d'.entries[i], Extent(disk', i))
    {
      if i != k { assert GoodEntry(d.entries[i], Extent(disk, i)); }
    }
  }

  lemma FindUnique(d: Directory, path: string, k: nat)
    requires DirShaped(d) && DistinctPaths(d) && k < MAX_FILES && EntryUsed(d.entries[k])
    requires PathOf(d.entries[k].path) == path
    ensures FindEntry(d, path, 0) == k
  {
  }

  lemma {:induction false} WrittenPath(e: DirEntry, path: string, data: Bytes)
    requires EntryShaped(e) && IsCString(path) && PathValid(path) && |data| <= MAX_FILE_SIZE
    ensures PathOf(WrittenEntry(e, path, data).path) == path
  {
    var buffer := WrittenEntry(e, path, data).path;
    var bytes := PathBytes(path) + [0];
    assert buffer[0..|bytes|] == bytes;
    assert forall i :: 0 <= i < |bytes| ==> buffer[i] == bytes[i];
    PathStored(path, buffer);
  }

  lemma {:induction false} WrittenEntryIsGood(e: DirEntry, path: string, data: Bytes, extent: Bytes)
    requires EntryShaped(e) && IsCString(path) && PathValid(path) && |data| <= MAX_FILE_SIZE
    requires extent == data + Zeros(MAX_FILE_SIZE - |data|)
    ensures PathOf(WrittenEntry(e, path, data).path) == path
    ensures GoodEntry(WrittenEntry(e, path, data), extent) && EntryUsed(WrittenEntry(e, path, data))
    ensures extent[..|data|] == data
  {
    WrittenPath(e, path, data);
  }

  /** When a write with completing I/O succeeds. */
  ghost predicate Accepts(s: Sfs, path: string, data: Bytes)
    requires Shaped(s)
  {
    s.mounted && PathValid(path) && |data| <= MAX_FILE_SIZE && TargetEntry(s.dir, path) < MAX_FILES
  }

  /** The directory in memory after a data write that completed. */
  function UpdatedDir(d: Directory, path: string, data: Bytes): (r: Directory)
    requires DirShaped(d) && IsCString(path) && PathValid(path) && |data| <= MAX_FILE_SIZE
    requires TargetEntry(d, path) < MAX_FILES
    ensures DirShaped(r)
  {
    var k := TargetEntry(d, path);
    d.(entries := d.entries[k := WrittenEntry(d.entries[k], path, data)])
  }

  /** The disk and directory after a write whose data transfer completes. */
  lemma {:induction false} WriteSteps(s: Sfs, path: string, data: Bytes, dirIo: Io)
    requires Inv(s) && IsCString(path) && Accepts(s, path, data) && (dirIo.Failed? ==> |dirIo.left| == SECTOR)
    ensures var disk1 := Overwrite(s.disk, ExtentStart(TargetEntry(s.dir, path)), data + Zeros(MAX_FILE_SIZE - |data|));
      var dir := UpdatedDir(s.dir, path, data);
      WriteFile(s, path, data, Done, dirIo) ==
        (Sfs(Overwrite(disk1, SECTOR, if dirIo.Done? then EncodeDir(dir) else dirIo.left), dir, true), dirIo.Done?)
  {
    var k := TargetEntry(s.dir, path);
    var buffer := data + Zeros(MAX_FILE_SIZE - |data|);
    ExtentsApart(k, k);
    InRange(s.disk, s.dir.entries[k].start, FILE_SECTORS);
    var disk1 := Overwrite(s.disk, ExtentStart(k), buffer);
    assert BlockWrite(s.disk, s.dir.entries[k].start, buffer, Done) == (disk1, true);
    InRange(disk1, 1, 1);
  }

  /** Both variants of a write with completed data transfer leave a sound disk for the new directory. */
  lemma {:induction false} DataInPlace(s: Sfs, path: string, data: Bytes, dirBytes: Bytes)
    requires Inv(s) && IsCString(path) && Accepts(s, path, data) && |dirBytes| == SECTOR
    ensures var disk1 := Overwrite(s.disk, ExtentStart(TargetEntry(s.dir, path)), data + Zeros(MAX_FILE_SIZE - |data|));
      var dir := UpdatedDir(s.dir, path, data);
      var disk2 := Overwrite(disk1, SECTOR, dirBytes);
      && |disk2| == |s.disk| && DiskInv(disk2, dir)
      && disk2[0..SECTOR] == s.disk[0..SECTOR] && disk2[SECTOR..2 * SECTOR] == dirBytes
      && Lookup(Sfs(disk2, dir, true), path) == Content(data)
      && forall i :: 0 <= i < MAX_FILES && i != TargetEntry(s.dir, path) ==> Extent(disk2, i) == Extent(s.disk, i)
  {
    var k := TargetEntry(s.dir, path);
    var buffer := data + Zeros(MAX_FILE_SIZE - |data|);
    var disk1 := Overwrite(s.disk, ExtentStart(k), buffer);
    var dir := UpdatedDir(s.dir, path, data);
    ExtentWritten(s.disk, k, buffer);
    WrittenEntryIsGood(s.dir.entries[k], path, data, buffer);
    OtherExtents(s.disk, disk1, k);
    EntryReplaced(s.disk, s.dir, disk1, k, dir.entries[k]);
    DirectoryWritten(disk1, dirBytes);
    FindUnique(dir, path, k);
  }

  lemma {:induction false} WriteCompletes(s: Sfs, path: string, data: Bytes)
    requires Inv(s) && IsCString(path) && Accepts(s, path, data)
    ensures WriteFile(s, path, data, Done, Done).1
  {
    WriteSteps(s, path, data, Done);
  }

  /** A completed write keeps the invariant and updates the map at exactly one path. */
  lemma {:induction false} WriteUpdatesOne(s: Sfs, path: string, data: Bytes)
    requires Inv(s) && IsCString(path) && Accepts(s, path, data)
    ensures var (s', ok) := WriteFile(s, path, data, Done, Done);
      && ok && Inv(s') && |s'.disk| == |s.disk|
      && Lookup(s', path) == Content(data)
      && forall q :: q != path ==> Lookup(s', q) == Lookup(s, q)
  {
    var dir := UpdatedDir(s.dir, path, data);
    WriteSteps(s, path, data, Done);
    DataInPlace(s, path, data, EncodeDir(dir));
    var s' := WriteFile(s, path, data, Done, Done).0;
    forall q | q != path
      ensures Lookup(s', q) == Lookup(s, q)
    {
      var k := TargetEntry(s.dir, path);
      WrittenPath(s.dir.entries[k], path, data);
      OtherPathUnaffected(s.dir, dir, k, q);
    }
  }

  /** A name other than the one entry k had and gets is found where it was. */
  lemma OtherPathUnaffected(d: Directory, d': Directory, k: nat, q: string)
    requires DirShaped(d) && DirShaped(d') && DistinctPaths(d) && DistinctPaths(d') && k < MAX_FILES
    requires d'.entries == d.entries[k := d'.entries[k]]
    requires !(EntryUsed(d.entries[k]) && PathOf(d.entries[k].path) == q)
    requires !(EntryUsed(d'.entries[k]) && PathOf(d'.entries[k].path) == q)
    ensures FindEntry(d', q, 0) == FindEntry(d, q, 0) && (FindEntry(d, q, 0) < MAX_FILES ==> FindEntry(d, q, 0) != k)
  {
    var i, i' := FindEntry(d, q, 0), FindEntry(d', q, 0);
    assert i < MAX_FILES ==> d'.entries[i] == d.entries[i];
    assert i' < MAX_FILES ==> d'.entries[i'] == d.entries[i'];
  }

  // ---- remount ----

  lemma SuperblockWords(sectors: nat)
    ensures var b := Superblock(sectors);
      && WordAt(b, 0) == MAGIC && WordAt(b, 4) == VERSION && WordAt(b, 8) == SECTOR
      && WordAt(b, 12) == sectors % U32 && WordAt(b, 16) == MAX_FILES && WordAt(b, 20) == DATA_START
  {
    WordRoundTrip(MAGIC);
    WordRoundTrip(VERSION);
    WordRoundTrip(SECTOR);
    WordRoundTrip(sectors % U32);
    WordRoundTrip(MAX_FILES);
    WordRoundTrip(DATA_START);
  }

  /** sfs_init on a disk that carries the superblock and a directory loads exactly that directory. */
  lemma {:induction false} MountLoads(s: Sfs, d: Directory)
    requires Shaped(s) && DirShaped(d) && |s.disk| >= REQUIRED_SECTORS * SECTOR
    requires s.disk[0..SECTOR] == Superblock(Sectors(s.disk)) && s.disk[SECTOR..2 * SECTOR] == EncodeDir(d)
    ensures Mount(s) == Sfs(s.disk, d, true)
  {
    InRange(s.disk, 0, 1);
    InRange(s.disk, 1, 1);
    var b, e := BlockRead(s.disk, 0, 1), BlockRead(s.disk, 1, 1);
    assert b == s.disk[0..SECTOR] && e == s.disk[SECTOR..2 * SECTOR];
    OwnSuperblockAccepted(b, Sectors(s.disk));
    DirectoryLoads(e, d);
  }

  lemma OwnSuperblockAccepted(b: Bytes, sectors: nat)
    requires b == Superblock(sectors)
    ensures |b| == SECTOR && SuperblockAccepted(b, sectors) && WordAt(b, 0) != 0
  {
    SuperblockWords(sectors);
  }

  lemma DirectoryLoads(b: Bytes, d: Directory)
    requires DirShaped(d) && b == EncodeDir(d)
    ensures |b| == SECTOR && DecodeDir(b) == d
  {
    DirRoundTrip(d);
  }

  /** Remounting, with any in-memory state left over, recovers the filesystem. */
  lemma RemountRecovers(s: Sfs, leftover: Directory, mounted: bool)
    requires Inv(s) && DirShaped(leftover)
    ensures Mount(Sfs(s.disk, leftover, mounted)) == s
  {
    MountLoads(Sfs(s.disk, leftover, mounted), s.dir);
  }

  /** A blank device is formatted on first mount. */
  lemma BlankDiskIsFormatted(s: Sfs)
    requires Shaped(s) && Sectors(s.disk) >= REQUIRED_SECTORS && s.disk[0..8] == Zeros(8)
    ensures Inv(Mount(s)) && forall path :: Lookup(Mount(s), path) == Absent
  {
    InRange(s.disk, 0, 1);
    var b := BlockRead(s.disk, 0, 1);
    assert forall i :: 0 <= i < 8 ==> b[i] == s.disk[0..8][i];
    FormatEmpties(s);
  }

  // ---- interruption ----

  /** A write of `path` that stops anywhere before its directory write has changed at most the
      extent of its target entry. After a remount every other file reads as before, a new file is
      absent, and an overwritten file fails to read or returns old-size bytes with the stored checksum. */
  lemma {:induction false} InterruptedWrite(s: Sfs, path: string, disk': Bytes, leftover: Directory, q: string)
    requires Inv(s) && TargetEntry(s.dir, path) < MAX_FILES && DirShaped(leftover)
    requires SameOutside(s.disk, disk', TargetEntry(s.dir, path))
    ensures var after := Mount(Sfs(disk', leftover, false));
      var k := TargetEntry(s.dir, path);
      && after == Sfs(disk', s.dir, true)
      && (q != path ==> ReadFile(after, q, MAX_FILE_SIZE) == ReadFile(s, q, MAX_FILE_SIZE))
      && (Lookup(s, path) == Absent ==> ReadFile(after, path, MAX_FILE_SIZE) == SaturnFs.ReadFailed)
      && (ReadFile(after, path, MAX_FILE_SIZE).ReadBytes? ==>
            Lookup(s, path).Content? &&
            |ReadFile(after, path, MAX_FILE_SIZE).bytes| == |Lookup(s, path).bytes| &&
            Checksum(ReadFile(after, path, MAX_FILE_SIZE).bytes) == Checksum(Lookup(s, path).bytes))
  {
    var k := TargetEntry(s.dir, path);
    OtherExtents(s.disk, disk', k);
    MountLoads(Sfs(disk', leftover, false), s.dir);
    var after := Sfs(disk', s.dir, true);
    if q != path {
      SameExtentSameRead(s, after, q, k);
    }
  }

  lemma SameExtentSameRead(s: Sfs, after: Sfs, q: string, k: nat)
    requires Inv(s) && k < MAX_FILES && |after.disk| == |s.disk| && after.dir == s.dir && after.mounted
    requires FindEntry(s.dir, q, 0) != k
    requires forall i :: 0 <= i < MAX_FILES && i != k ==> Extent(after.disk, i) == Extent(s.disk, i)
    ensures ReadFile(after, q, MAX_FILE_SIZE) == ReadFile(s, q, MAX_FILE_SIZE)
  {
    var i := FindEntry(s.dir, q, 0);
    if i < MAX_FILES {
      ExtentsApart(i, i);
      InRange(s.disk, s.dir.entries[i].start, FILE_SECTORS);
      assert BlockRead(s.disk, s.dir.entries[i].start, FILE_SECTORS) == Extent(s.disk, i);
      assert BlockRead(after.disk, s.dir.entries[i].start, FILE_SECTORS) == Extent(after.disk, i);
    }
  }

  /** The failing paths of sfs_write_file stay within that: a failed data write touches only the
      target extent and leaves the directory alone, in memory and on disk. */
  lemma {:induction false} FailedDataWrite(s: Sfs, path: string, data: Bytes, left: Bytes, dirIo: Io)
    requires Inv(s) && IsCString(path) && Accepts(s, path, data) && |left| == MAX_FILE_SIZE
    requires dirIo.Failed? ==> |dirIo.left| == SECTOR
    ensures var (s', ok) := WriteFile(s, path, data, Failed(left), dirIo);
      !ok && s'.dir == s.dir && SameOutside(s.disk, s'.disk, TargetEntry(s.dir, path))
  {
    var k := TargetEntry(s.dir, path);
    ExtentsApart(k, k);
    InRange(s.disk, s.dir.entries[k].start, FILE_SECTORS);
    ExtentWritten(s.disk, k, left);
    assert WriteFile(s, path, data, Failed(left), dirIo) ==
      (s.(disk := Overwrite(s.disk, ExtentStart(k), left)), false);
  }

  /** A failed directory write reports failure although the new content is already visible: the
      in-memory directory was updated first. */
  lemma {:induction false} FailedDirectoryWriteIsVisible(s: Sfs, path: string, data: Bytes, left: Bytes)
    requires Inv(s) && IsCString(path) && Accepts(s, path, data) && |left| == SECTOR
    ensures var (s', ok) := WriteFile(s, path, data, Done, Failed(left));
      !ok && s'.mounted && DiskInv(s'.disk, s'.dir) && Lookup(s', path) == Content(data)
  {
    WriteSteps(s, path, data, Failed(left));
    DataInPlace(s, path, data, left);
  }

  /** It is visible until the next mount: if the failed write left the old directory sector in place,
      a remount brings the old directory back, and the disk is one that an interrupted write leaves.
      So every other file reads as before and a new file is gone again. */
  lemma {:induction false} FailedDirectoryWriteUndone(s: Sfs, path: string, data: Bytes, leftover: Directory, q: string)
    requires Inv(s) && IsCString(path) && Accepts(s, path, data) && DirShaped(leftover)
    ensures var s' := WriteFile(s, path, data, Done, Failed(EncodeDir(s.dir))).0;
      var after := Mount(Sfs(s'.disk, leftover, false));
      && SameOutside(s.disk, s'.disk, TargetEntry(s.dir, path))
      && after == Sfs(s'.disk, s.dir, true)
      && (q != path ==> ReadFile(after, q, MAX_FILE_SIZE) == ReadFile(s, q, MAX_FILE_SIZE))
      && (Lookup(s, path) == Absent ==> ReadFile(after, path, MAX_FILE_SIZE) == SaturnFs.ReadFailed)
  {
    var left, k := EncodeDir(s.dir), TargetEntry(s.dir, path);
    var buffer := data + Zeros(MAX_FILE_SIZE - |data|);
    WriteSteps(s, path, data, Failed(left));
    ExtentsApart(k, k);
    ExtentWritten(s.disk, k, buffer);
    SameSectorAgain(s.disk, Overwrite(s.disk, ExtentStart(k), buffer), k, left);
    InterruptedWrite(s, path, WriteFile(s, path, data, Done, Failed(left)).0.disk, leftover, q);
  }

  /** Writing the directory sector with the bytes it already holds changes nothing. */
  lemma {:induction false} SameSectorAgain(disk: Bytes, disk1: Bytes, k: nat, left: Bytes)
    requires k < MAX_FILES && |disk| >= REQUIRED_SECTORS * SECTOR && SameOutside(disk, disk1, k)
    requires |left| == SECTOR && disk[SECTOR..2 * SECTOR] == left
    ensures SameOutside(disk, Overwrite(disk1, SECTOR, left), k)
  {
    var disk2 := Overwrite(disk1, SECTOR, left);
    ExtentsApart(k, k);
    forall i | 0 <= i < |disk| && !(ExtentStart(k) <= i < ExtentStart(k) + MAX_FILE_SIZE) ensures disk2[i] == disk[i] {
      if SECTOR <= i < 2 * SECTOR {
        assert disk2[i] == disk2[SECTOR..SECTOR + |left|][i - SECTOR];
        assert disk[i] == disk[SECTOR..2 * SECTOR][i - SECTOR];
      }
    }
  }
}
