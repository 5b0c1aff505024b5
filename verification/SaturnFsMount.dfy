/** What sfs_init (kernel/fs/sfs.c) makes of any device, and what a read makes of a damaged file. */
module SaturnFsMount {
  import opened FileBytes
  import opened SaturnFs
  import opened SaturnFsMap
  import Executable
  import ChecksumDetects

  const HEADER := 24

  /** The first sector starts like the superblock of a device with n sectors. */
  predicate HasSuperblock(b: Bytes, n: nat) {
    |b| == SECTOR && n < U32 && b[..HEADER] == Superblock(n)[..HEADER]
  }

  lemma SuperblockParts(n: nat)
    requires n < U32
    ensures var p := Superblock(n);
      && p[0..4] == Word(MAGIC) && p[4..8] == Word(VERSION) && p[8..12] == Word(SECTOR)
      && p[12..16] == Word(n) && p[16..20] == Word(MAX_FILES) && p[20..24] == Word(DATA_START)
  {
    assert n % U32 == n;
  }

  /** Six words of a sector, part by part. */
  lemma HeaderParts(b: Bytes, p: Bytes)
    requires |b| == |p| == SECTOR
    ensures b[..HEADER] == p[..HEADER] <==>
      && b[0..4] == p[0..4] && b[4..8] == p[4..8] && b[8..12] == p[8..12] && b[12..16] == p[12..16]
      && b[16..20] == p[16..20] && b[20..24] == p[20..24]
  {
    assert b[..HEADER] == b[0..4] + b[4..8] + b[8..12] + b[12..16] + b[16..20] + b[20..24];
    assert p[..HEADER] == p[0..4] + p[4..8] + p[8..12] + p[12..16] + p[16..20] + p[20..24];
    if b[..HEADER] == p[..HEADER] {
      PartOf(b, p, 0);
      PartOf(b, p, 4);
      PartOf(b, p, 8);
      PartOf(b, p, 12);
      PartOf(b, p, 16);
      PartOf(b, p, 20);
    }
  }

  lemma PartOf(b: Bytes, p: Bytes, i: nat)
    requires |b| == |p| == SECTOR && i + 4 <= HEADER && b[..HEADER] == p[..HEADER]
    ensures b[i..i + 4] == p[i..i + 4]
  {
    assert b[i..i + 4] == b[..HEADER][i..i + 4] && p[i..i + 4] == p[..HEADER][i..i + 4];
  }

  /** The tests of sfs_init accept exactly the sectors that start like a superblock of a device that is
      no larger than this one. */
  lemma {:induction false} AcceptedIff(b: Bytes, sectors: nat)
    requires |b| == SECTOR
    ensures SuperblockAccepted(b, sectors) <==> exists n: nat :: HasSuperblock(b, n) && n <= sectors
  {
    forall n: nat | n < U32 ensures HasSuperblock(b, n) && n <= sectors <==>
      SuperblockAccepted(b, sectors) && WordAt(b, 12) == n
    {
      AcceptedFor(b, sectors, n);
    }
    if SuperblockAccepted(b, sectors) {
      assert HasSuperblock(b, WordAt(b, 12));
    }
  }

  lemma {:induction false} AcceptedFor(b: Bytes, sectors: nat, n: nat)
    requires |b| == SECTOR && n < U32
    ensures HasSuperblock(b, n) && n <= sectors <==> SuperblockAccepted(b, sectors) && WordAt(b, 12) == n
  {
    SuperblockParts(n);
    HeaderParts(b, Superblock(n));
    Executable.WordUnique(b, 0, MAGIC);
    Executable.WordUnique(b, 4, VERSION);
    Executable.WordUnique(b, 8, SECTOR);
    Executable.WordUnique(b, 12, n);
    Executable.WordUnique(b, 16, MAX_FILES);
    Executable.WordUnique(b, 20, DATA_START);
  }

  /** sfs_init on any device. Only a device whose first eight bytes are zero is ever written to, and it
      is formatted if it is large enough; any other is left as it is, and mounted with the directory
      in its second sector iff its first sector starts like a superblock that fits. */
  lemma {:induction false} MountMeaning(s: Sfs)
    requires Shaped(s)
    ensures var m, b := Mount(s), BlockRead(s.disk, 0, 1);
      if Sectors(s.disk) == 0 then m == s.(mounted := false)
      else if b[..8] == Zeros(8) then
        if Sectors(s.disk) >= REQUIRED_SECTORS then Inv(m) && forall path :: Lookup(m, path) == Absent
        else m == s.(mounted := false)
      else
        && m.disk == s.disk
        && (m.mounted <==> Sectors(s.disk) >= 2 && exists n: nat :: HasSuperblock(b, n) && n <= Sectors(s.disk))
        && m.dir == if m.mounted then DecodeDir(s.disk[SECTOR..2 * SECTOR]) else s.dir
  {
    var b := BlockRead(s.disk, 0, 1);
    if Sectors(s.disk) > 0 {
      ZeroWords(b);
      AcceptedIff(b, Sectors(s.disk));
      if b[..8] == Zeros(8) && Sectors(s.disk) >= REQUIRED_SECTORS {
        assert s.disk[0..8] == b[..8];
        BlankDiskIsFormatted(s);
      }
    }
  }

  lemma ZeroWords(b: Bytes)
    requires |b| == SECTOR
    ensures b[..8] == Zeros(8) <==> WordAt(b, 0) == 0 && WordAt(b, 4) == 0
  {
    Executable.WordUnique(b, 0, 0);
    Executable.WordUnique(b, 4, 0);
    assert b[..8] == b[0..4] + b[4..8] && Word(0) == Zeros(4);
    assert Zeros(8) == Zeros(4) + Zeros(4);
    if b[..8] == Zeros(8) {
      assert b[0..4] == b[..8][0..4] && b[4..8] == b[..8][4..8];
    }
  }

  // ---- damage ----

  /** A file of which one byte was damaged on the device is never returned, and every other file reads
      as before. */
  lemma {:induction false} DamageIsNoticed(s: Sfs, path: string, k: nat, b: Byte, q: string)
    requires Inv(s) && Lookup(s, path).Content? && k < |Lookup(s, path).bytes| && b != Lookup(s, path).bytes[k]
    ensures var e := FindEntry(s.dir, path, 0); e < MAX_FILES && ExtentStart(e) + k < |s.disk|
    ensures var s' := s.(disk := s.disk[ExtentStart(FindEntry(s.dir, path, 0)) + k := b]);
      && ReadFile(s', path, MAX_FILE_SIZE) == ReadFailed
      && (q != path ==> ReadFile(s', q, MAX_FILE_SIZE) == ReadFile(s, q, MAX_FILE_SIZE))
  {
    var e := FindEntry(s.dir, path, 0);
    ExtentsApart(e, e);
    assert GoodEntry(s.dir.entries[e], Extent(s.disk, e));
    var s' := s.(disk := s.disk[ExtentStart(e) + k := b]);
    DamagedEntry(s, s', e, k, b);
    if q != path { OthersAreFine(s, s', e, q); }
  }

  lemma {:induction false} DamagedEntry(s: Sfs, s': Sfs, e: nat, k: nat, b: Byte)
    requires Inv(s) && e < MAX_FILES && EntryUsed(s.dir.entries[e]) && k < s.dir.entries[e].size <= MAX_FILE_SIZE
    requires FindEntry(s.dir, PathOf(s.dir.entries[e].path), 0) == e && ExtentStart(e) + MAX_FILE_SIZE <= |s.disk|
    requires s' == s.(disk := s.disk[ExtentStart(e) + k := b]) && b != Extent(s.disk, e)[k]
    ensures Shaped(s') && SameOutside(s.disk, s'.disk, e)
    ensures ReadFile(s', PathOf(s.dir.entries[e].path), MAX_FILE_SIZE) == ReadFailed
  {
    var n := s.dir.entries[e].size;
    assert GoodEntry(s.dir.entries[e], Extent(s.disk, e));
    OneByteOff(s.disk, e, k, b);
    PrefixUpdate(Extent(s.disk, e), k, b, n);
    DamagedFile(s', e, Extent(s.disk, e)[..n], k, b);
  }

  lemma {:induction false} OthersAreFine(s: Sfs, s': Sfs, e: nat, q: string)
    requires Inv(s) && e < MAX_FILES && SameOutside(s.disk, s'.disk, e) && s' == s.(disk := s'.disk)
    requires FindEntry(s.dir, q, 0) != e
    ensures Shaped(s') && ReadFile(s', q, MAX_FILE_SIZE) == ReadFile(s, q, MAX_FILE_SIZE)
  {
    OtherExtents(s.disk, s'.disk, e);
    SameExtentSameRead(s, s', q, e);
  }

  lemma PrefixUpdate(x: Bytes, k: nat, b: Byte, n: nat)
    requires k < n <= |x|
    ensures x[k := b][..n] == x[..n][k := b]
  {
  }

  lemma {:induction false} OneByteOff(disk: Bytes, e: nat, k: nat, b: Byte)
    requires |disk| >= REQUIRED_SECTORS * SECTOR && e < MAX_FILES && k < MAX_FILE_SIZE
    requires ExtentStart(e) + MAX_FILE_SIZE <= |disk|
    ensures var disk' := disk[ExtentStart(e) + k := b];
      SameOutside(disk, disk', e) && Extent(disk', e) == Extent(disk, e)[k := b]
  {
  }

  lemma {:induction false} DamagedFile(s: Sfs, e: nat, bytes: Bytes, k: nat, b: Byte)
    requires Shaped(s) && e < MAX_FILES && |s.disk| >= REQUIRED_SECTORS * SECTOR && EntryUsed(s.dir.entries[e])
    requires s.dir.entries[e].start == DATA_START + e * FILE_SECTORS
    requires s.dir.entries[e].size == |bytes| <= MAX_FILE_SIZE
    requires s.dir.entries[e].checksum == Checksum(bytes) && k < |bytes| && b != bytes[k]
    requires Extent(s.disk, e)[..|bytes|] == bytes[k := b] && FindEntry(s.dir, PathOf(s.dir.entries[e].path), 0) == e
    ensures ReadFile(s, PathOf(s.dir.entries[e].path), MAX_FILE_SIZE) == ReadFailed
  {
    ExtentsApart(e, e);
    InRange(s.disk, s.dir.entries[e].start, FILE_SECTORS);
    assert BlockRead(s.disk, s.dir.entries[e].start, FILE_SECTORS) == Extent(s.disk, e);
    ChecksumDetects.OneByteDetected(bytes, k, b);
  }
}
