/** SaturnFS (kernel/fs/sfs.c) on a sector device (kernel/storage/block.c) as a value: the disk is
    one sequence of bytes, and the in-memory directory is what sector 1 decodes to. */
module SaturnFs {
  import opened FileBytes
  import opened Bits

  const SECTOR := 512
  const MAGIC := 0x53465331
  const VERSION := 1
  const MAX_FILES := 8
  const MAX_PATH := 44
  const FILE_SECTORS := 8
  const MAX_FILE_SIZE := FILE_SECTORS * SECTOR
  const DATA_START := 2
  const REQUIRED_SECTORS := DATA_START + MAX_FILES * FILE_SECTORS
  const ENTRY_SIZE := 60
  const RESERVED := SECTOR - MAX_FILES * ENTRY_SIZE
  const U32 := 0x1_0000_0000

  // ---- the block device ----

  /** What a transfer did: the backend may fail, leaving any bytes in the range it was writing. */
  datatype Io = Done | Failed(left: Bytes)

  function Sectors(disk: Bytes): nat {
    |disk| / SECTOR
  }

  predicate InBounds(disk: Bytes, sector: nat, count: nat) {
    0 < count && sector < Sectors(disk) && count <= Sectors(disk) - sector
  }

  lemma BoundsFit(disk: Bytes, sector: nat, count: nat)
    requires InBounds(disk, sector, count)
    ensures sector * SECTOR + count * SECTOR <= |disk|
  {
  }

  /** block_read of a transfer that the backend completes; [] when it is rejected. */
  function BlockRead(disk: Bytes, sector: nat, count: nat): (r: Bytes)
    ensures |r| == if InBounds(disk, sector, count) then count * SECTOR else 0
  {
    if !InBounds(disk, sector, count) then []
    else
      BoundsFit(disk, sector, count);
      disk[sector * SECTOR..sector * SECTOR + count * SECTOR]
  }

  /** block_write. */
  function BlockWrite(disk: Bytes, sector: nat, buffer: Bytes, io: Io): (r: (Bytes, bool))
    requires |buffer| % SECTOR == 0
    requires io.Failed? ==> |io.left| == |buffer|
    ensures |r.0| == |disk|
  {
    var count := |buffer| / SECTOR;
    if !InBounds(disk, sector, count) then (disk, false)
    else
      BoundsFit(disk, sector, count);
      match io
      case Done => (Overwrite(disk, sector * SECTOR, buffer), true)
      case Failed(left) => (Overwrite(disk, sector * SECTOR, left), false)
  }

  // ---- words and the checksum ----

  function Word(n: nat): (r: Bytes)
    requires n < U32
    ensures |r| == 4
  {
    [n % 256, n / 256 % 256, n / 65536 % 256, n / 16777216]
  }

  function WordAt(b: Bytes, i: nat): (n: nat)
    requires i + 4 <= |b|
    ensures n < U32
  {
    b[i] as int + 256 * (b[i + 1] as int) + 65536 * (b[i + 2] as int) + 16777216 * (b[i + 3] as int)
  }

  lemma WordRoundTrip(n: nat)
    requires n < U32
    ensures WordAt(Word(n), 0) == n
  {
    var a, b, c := n / 256, n / 65536, n / 16777216;
    assert n == 256 * a + n % 256;
    assert a == 256 * b + a % 256;
    assert b == 256 * c + b % 256;
  }

  /** One round of checksum: (value << 5) ^ (value >> 2) ^ byte, in 32 bits. */
  function ChecksumStep(value: nat, b: Byte): (r: nat)
  {
    Xor(Xor(value * 32 % U32, value / 4), b)
  }

  function Checksum(data: Bytes): (r: nat)
    ensures r < U32
    decreases |data|
  {
    if data == [] then 0
    else
      var value := Checksum(data[..|data| - 1]);
      ChecksumBound(value, data[|data| - 1]);
      ChecksumStep(value, data[|data| - 1])
  }

  lemma ChecksumBound(value: nat, b: Byte)
    requires value < U32
    ensures ChecksumStep(value, b) < U32
  {
    Pow2Values();
    XorBound(value * 32 % U32, value / 4, 32);
    XorBound(Xor(value * 32 % U32, value / 4), b, 32);
  }

  // ---- the directory sector ----

  datatype DirEntry = DirEntry(path: Bytes, start: nat, size: nat, checksum: nat, flags: nat)

  datatype Directory = Directory(entries: seq<DirEntry>, reserved: Bytes)

  predicate EntryShaped(e: DirEntry) {
    |e.path| == MAX_PATH && e.start < U32 && e.size < U32 && e.checksum < U32 && e.flags < U32
  }

  predicate DirShaped(d: Directory) {
    |d.entries| == MAX_FILES && |d.reserved| == RESERVED && forall i :: 0 <= i < MAX_FILES ==> EntryShaped(d.entries[i])
  }

  function EncodeEntry(e: DirEntry): (r: Bytes)
    requires EntryShaped(e)
    ensures |r| == ENTRY_SIZE
  {
    e.path + Word(e.start) + Word(e.size) + Word(e.checksum) + Word(e.flags)
  }

  function DecodeEntry(b: Bytes): (e: DirEntry)
    requires |b| == ENTRY_SIZE
    ensures EntryShaped(e)
  {
    DirEntry(b[..MAX_PATH], WordAt(b, 44), WordAt(b, 48), WordAt(b, 52), WordAt(b, 56))
  }

  lemma EntryRoundTrip(e: DirEntry)
    requires EntryShaped(e)
    ensures DecodeEntry(EncodeEntry(e)) == e
  {
    WordRoundTrip(e.start);
    WordRoundTrip(e.size);
    WordRoundTrip(e.checksum);
    WordRoundTrip(e.flags);
    assert EncodeEntry(e)[..MAX_PATH] == e.path;
  }

  function EncodeEntries(es: seq<DirEntry>): (r: Bytes)
    requires forall i :: 0 <= i < |es| ==> EntryShaped(es[i])
    ensures |r| == ENTRY_SIZE * |es|
    decreases |es|
  {
    if es == [] then [] else EncodeEntries(es[..|es| - 1]) + EncodeEntry(es[|es| - 1])
  }

  function EncodeDir(d: Directory): (r: Bytes)
    requires DirShaped(d)
    ensures |r| == SECTOR
  {
    EncodeEntries(d.entries) + d.reserved
  }

  function DecodeDir(b: Bytes): (d: Directory)
    requires |b| == SECTOR
    ensures DirShaped(d)
  {
    Directory(seq(MAX_FILES,
      i requires 0 <= i < MAX_FILES => DecodeEntry(b[ENTRY_SIZE * i..ENTRY_SIZE * i + ENTRY_SIZE])),
              b[MAX_FILES * ENTRY_SIZE..])
  }

  lemma {:induction false} EntriesAt(es: seq<DirEntry>, i: nat)
    requires i < |es| && forall i :: 0 <= i < |es| ==> EntryShaped(es[i])
    ensures EncodeEntries(es)[ENTRY_SIZE * i..ENTRY_SIZE * i + ENTRY_SIZE] == EncodeEntry(es[i])
    decreases |es|
  {
    var n := |es| - 1;
    if i < n {
      EntriesAt(es[..n], i);
    }
  }

  /** What is written to the directory sector is what is read back. */
  lemma {:induction false} DirRoundTrip(d: Directory)
    requires DirShaped(d)
    ensures DecodeDir(EncodeDir(d)) == d
  {
    var b := EncodeDir(d);
    forall i | 0 <= i < MAX_FILES
      ensures DecodeDir(b).entries[i] == d.entries[i]
    {
      EntriesAt(d.entries, i);
      assert b[ENTRY_SIZE * i..ENTRY_SIZE * i + ENTRY_SIZE] == EncodeEntry(d.entries[i]);
      EntryRoundTrip(d.entries[i]);
    }
    assert DecodeDir(b).entries == d.entries;
    assert b[MAX_FILES * ENTRY_SIZE..] == d.reserved;
  }

  // ---- paths in entries ----

  /** The characters a C string can hold. */
  predicate IsCString(path: string) {
    forall i :: 0 <= i < |path| ==> 0 < path[i] as int < 256
  }

  predicate PathValid(path: string) {
    1 < |path| < MAX_PATH && path[0] == '/'
  }

  function PathBytes(path: string): (r: Bytes)
    requires IsCString(path)
    ensures |r| == |path|
    ensures forall i :: 0 <= i < |path| ==> r[i] == path[i] as int
  {
    seq(|path|, i requires 0 <= i < |path| => path[i] as int)
  }

  /** The characters before the first NUL of a path buffer. */
  function PathOf(buffer: Bytes): (r: string)
    ensures |r| <= |buffer|
    decreases |buffer|
  {
    if buffer == [] || buffer[0] == 0 then "" else [buffer[0] as char] + PathOf(buffer[1..])
  }

  /** Writing a path and its NUL into a buffer makes it the buffer's path, whatever follows. */
  lemma {:induction false} PathStored(path: string, buffer: Bytes)
    requires IsCString(path) && |path| < |buffer|
    requires forall i :: 0 <= i < |path| ==> buffer[i] == path[i] as int
    requires buffer[|path|] == 0
    ensures PathOf(buffer) == path
    decreases |path|
  {
    if path != "" {
      PathStored(path[1..], buffer[1..]);
      assert path == [path[0]] + path[1..];
    }
  }

  predicate EntryUsed(e: DirEntry) {
    e.flags % 2 == 1
  }

  /** find_entry from index `i` on; MAX_FILES stands for "not found". */
  function FindEntry(d: Directory, path: string, i: nat): (r: nat)
    requires DirShaped(d) && i <= MAX_FILES
    ensures i <= r <= MAX_FILES
    ensures r < MAX_FILES ==> EntryUsed(d.entries[r]) && PathOf(d.entries[r].path) == path
    ensures forall j :: i <= j < r ==> !(EntryUsed(d.entries[j]) && PathOf(d.entries[j].path) == path)
    decreases MAX_FILES - i
  {
    if i == MAX_FILES || (EntryUsed(d.entries[i]) && PathOf(d.entries[i].path) == path) then i
    else FindEntry(d, path, i + 1)
  }

  function FreeEntry(d: Directory, i: nat): (r: nat)
    requires DirShaped(d) && i <= MAX_FILES
    ensures i <= r <= MAX_FILES
    ensures r < MAX_FILES ==> !EntryUsed(d.entries[r])
    ensures forall j :: i <= j < r ==> EntryUsed(d.entries[j])
    decreases MAX_FILES - i
  {
    if i == MAX_FILES || !EntryUsed(d.entries[i]) then i else FreeEntry(d, i + 1)
  }

  /** The entry a write goes to. */
  function TargetEntry(d: Directory, path: string): (r: nat)
    requires DirShaped(d)
    ensures r <= MAX_FILES
  {
    var k := FindEntry(d, path, 0);
    if k < MAX_FILES then k else FreeEntry(d, 0)
  }

  // ---- the filesystem ----

  datatype Sfs = Sfs(disk: Bytes, dir: Directory, mounted: bool)

  predicate Shaped(s: Sfs) {
    DirShaped(s.dir) && |s.disk| % SECTOR == 0
  }

  /** The bytes of the superblock for a device of `sectors` sectors. */
  function Superblock(sectors: nat): (r: Bytes)
    ensures |r| == SECTOR
  {
    Word(MAGIC) + Word(VERSION) + Word(SECTOR) + Word(sectors % U32) + Word(MAX_FILES) + Word(DATA_START) +
      Zeros(SECTOR - 24)
  }

  function EmptyEntry(e: DirEntry, i: nat): (r: DirEntry)
    requires EntryShaped(e) && i < MAX_FILES
    ensures EntryShaped(r)
  {
    DirEntry(e.path[0 := 0], DATA_START + i * FILE_SECTORS, 0, 0, 0)
  }

  function EmptyDir(d: Directory): (r: Directory)
    requires DirShaped(d)
    ensures DirShaped(r)
  {
    Directory(seq(MAX_FILES, i requires 0 <= i < MAX_FILES => EmptyEntry(d.entries[i], i)), Zeros(RESERVED))
  }

  /** sfs_format. */
  function Format(s: Sfs, superIo: Io, dirIo: Io): (r: (Sfs, bool))
    requires Shaped(s)
    requires superIo.Failed? ==> |superIo.left| == SECTOR
    requires dirIo.Failed? ==> |dirIo.left| == SECTOR
    ensures Shaped(r.0)
  {
    if Sectors(s.disk) < REQUIRED_SECTORS then (s.(mounted := false), false)
    else
      var dir := EmptyDir(s.dir);
      var (disk1, ok1) := BlockWrite(s.disk, 0, Superblock(Sectors(s.disk)), superIo);
      if !ok1 then (Sfs(disk1, dir, false), false)
      else
        var (disk2, ok2) := BlockWrite(disk1, 1, EncodeDir(dir), dirIo);
        (Sfs(disk2, dir, ok2), ok2)
  }

  predicate SuperblockAccepted(b: Bytes, sectors: nat)
    requires |b| == SECTOR
  {
    && WordAt(b, 0) == MAGIC && WordAt(b, 4) == VERSION && WordAt(b, 8) == SECTOR
    && WordAt(b, 16) == MAX_FILES && WordAt(b, 20) == DATA_START && WordAt(b, 12) <= sectors
  }

  /** sfs_init with reads that complete. */
  function Mount(s: Sfs): (r: Sfs)
    requires Shaped(s)
    ensures Shaped(r)
  {
    var b := BlockRead(s.disk, 0, 1);
    if b == [] then s.(mounted := false)
    else if WordAt(b, 0) == 0 && WordAt(b, 4) == 0 then Format(s, Done, Done).0
    else if !SuperblockAccepted(b, Sectors(s.disk)) then s.(mounted := false)
    else
      var d := BlockRead(s.disk, 1, 1);
      if d == [] then s.(mounted := false) else s.(dir := DecodeDir(d), mounted := true)
  }

  /** The entry that a completed data write leaves in the in-memory directory. */
  function WrittenEntry(e: DirEntry, path: string, data: Bytes): (r: DirEntry)
    requires EntryShaped(e) && IsCString(path) && PathValid(path) && |data| <= MAX_FILE_SIZE
    ensures EntryShaped(r)
  {
    DirEntry(Overwrite(e.path, 0, PathBytes(path) + [0]), e.start, |data|, Checksum(data), 1)
  }

  /** sfs_write_file. */
  function WriteFile(s: Sfs, path: string, data: Bytes, dataIo: Io, dirIo: Io): (r: (Sfs, bool))
    requires Shaped(s) && IsCString(path)
    requires dataIo.Failed? ==> |dataIo.left| == MAX_FILE_SIZE
    requires dirIo.Failed? ==> |dirIo.left| == SECTOR
    ensures Shaped(r.0)
  {
    if !s.mounted || !PathValid(path) || |data| > MAX_FILE_SIZE then (s, false)
    else
      var k := TargetEntry(s.dir, path);
      if k == MAX_FILES then (s, false)
      else
        var (disk1, ok1) := BlockWrite(s.disk, s.dir.entries[k].start, data + Zeros(MAX_FILE_SIZE - |data|), dataIo);
        if !ok1 then (s.(disk := disk1), false)
        else
          var dir := s.dir.(entries := s.dir.entries[k := WrittenEntry(s.dir.entries[k], path, data)]);
          var (disk2, ok2) := BlockWrite(disk1, 1, EncodeDir(dir), dirIo);
          (Sfs(disk2, dir, s.mounted), ok2)
  }

  datatype ReadResult = ReadFailed | ReadBytes(bytes: Bytes)

  /** sfs_read_file with a read that completes. */
  function ReadFile(s: Sfs, path: string, capacity: nat): (r: ReadResult)
    requires Shaped(s)
  {
    if !s.mounted then ReadFailed
    else
      var k := FindEntry(s.dir, path, 0);
      if k == MAX_FILES || s.dir.entries[k].size > capacity || s.dir.entries[k].size > MAX_FILE_SIZE then ReadFailed
      else
        var e := s.dir.entries[k];
        var b := BlockRead(s.disk, e.start, FILE_SECTORS);
        if b == [] || Checksum(b[..e.size]) != e.checksum then ReadFailed else ReadBytes(b[..e.size])
  }
}
