/** kernel/storage/block.c on its RAM disk and kernel/fs/sfs.c as objects updated in place. Each
    method is proved to compute the corresponding function of module SaturnFs. */
module SaturnFsDriver {
  import opened FileBytes
  import opened SaturnFs

  /** The statistics of the block layer. */
  datatype Stats = Stats(readCount: nat, readSectors: nat, writeCount: nat, writtenSectors: nat, rejected: nat)

  class RamDisk {
    const data: array<Byte>
    var stats: Stats

    ghost predicate Valid()
      reads this, data
    {
      data.Length % SECTOR == 0
    }

    /** block_init without a virtio device: zeroed storage. */
    constructor (sectors: nat)
      ensures Valid() && fresh(data) && data.Length == sectors * SECTOR && data[..] == Zeros(sectors * SECTOR)
      ensures stats == Stats(0, 0, 0, 0, 0)
    {
      data := new Byte[sectors * SECTOR](i => 0);
      stats := Stats(0, 0, 0, 0, 0);
    }

    /** The bounds check of block_read and block_write; a refusal is counted. */
    method Admit(sector: nat, count: nat) returns (ok: bool)
      requires Valid()
      modifies `stats
      ensures ok == InBounds(data[..], sector, count)
      ensures stats == if ok then old(stats) else old(stats).(rejected := old(stats).rejected + 1)
    {
      var sectors := data.Length / SECTOR;
      ok := !(count == 0 || sector >= sectors || count > sectors - sector);
      if !ok {
        stats := stats.(rejected := stats.rejected + 1);
      }
    }

    /** block_read. */
    method ReadBlocks(sector: nat, count: nat) returns (bytes: Bytes)
      requires Valid()
      modifies `stats
      ensures bytes == BlockRead(data[..], sector, count)
      ensures var was := old(stats);
        stats == if InBounds(data[..], sector, count)
                 then was.(readCount := was.readCount + 1, readSectors := was.readSectors + count)
                 else was.(rejected := was.rejected + 1)
    {
      var ok := Admit(sector, count);
      if !ok {
        return [];
      }
      BoundsFit(data[..], sector, count);
      bytes := [];
      for current := 0 to count
        invariant bytes == data[sector * SECTOR..(sector + current) * SECTOR]
      {
        for i := 0 to SECTOR
          invariant bytes == data[sector * SECTOR..(sector + current) * SECTOR + i]
        {
          bytes := bytes + [data[(sector + current) * SECTOR + i]];
        }
      }
      stats := stats.(readCount := stats.readCount + 1, readSectors := stats.readSectors + count);
    }

    /** block_write. */
    method WriteBlocks(sector: nat, buffer: Bytes) returns (ok: bool)
      requires Valid() && |buffer| % SECTOR == 0
      modifies `stats, data
      ensures Valid() && (data[..], ok) == BlockWrite(old(data[..]), sector, buffer, Done)
      ensures var was := old(stats);
        stats == if ok
                 then was.(writeCount := was.writeCount + 1, writtenSectors := was.writtenSectors + |buffer| / SECTOR)
                 else was.(rejected := was.rejected + 1)
    {
      var count := |buffer| / SECTOR;
      ok := Admit(sector, count);
      if !ok {
        return;
      }
      BoundsFit(data[..], sector, count);
      for current := 0 to count
        invariant data[..] == Overwrite(old(data[..]), sector * SECTOR, buffer[..current * SECTOR]) &&
          stats == old(stats)
      {
        var from := current * SECTOR;
        StoreSector((sector + current) * SECTOR, buffer[from..from + SECTOR]);
        OverwriteAppend(old(data[..]), sector * SECTOR, buffer[..from], buffer[from..from + SECTOR]);
        assert buffer[..from] + buffer[from..from + SECTOR] == buffer[..from + SECTOR];
      }
      assert buffer[..count * SECTOR] == buffer;
      stats := stats.(writeCount := stats.writeCount + 1, writtenSectors := stats.writtenSectors + count);
    }

    /** The inner loop of block_write. */
    method StoreSector(offset: nat, chunk: Bytes)
      requires offset + |chunk| <= data.Length
      modifies data
      ensures data[..] == Overwrite(old(data[..]), offset, chunk)
    {
      for i := 0 to |chunk|
        invariant data[..] == Overwrite(old(data[..]), offset, chunk[..i])
      {
        ghost var before := data[..];
        data[offset + i] := chunk[i];
        assert data[..] == before[offset + i := chunk[i]];
        OverwriteAppend(old(data[..]), offset, chunk[..i], [chunk[i]]);
        assert chunk[..i] + [chunk[i]] == chunk[..i + 1];
        assert Overwrite(before, offset + i, [chunk[i]]) == before[offset + i := chunk[i]];
      }
      assert chunk[..|chunk|] == chunk;
    }
  }

  /** checksum. */
  method ComputeChecksum(bytes: Bytes) returns (value: nat)
    ensures value == Checksum(bytes)
  {
    value := 0;
    for i := 0 to |bytes|
      invariant value == Checksum(bytes[..i])
    {
      assert bytes[..i + 1][..i] == bytes[..i];
      value := ChecksumStep(value, bytes[i]);
    }
    assert bytes[..|bytes|] == bytes;
  }

  class FileSystem {
    const device: RamDisk
    var dir: Directory
    var mounted: bool

    ghost predicate Valid()
      reads this, device, device.data
    {
      device.Valid() && DirShaped(dir)
    }

    ghost function View(): (s: Sfs)
      reads this, device, device.data
    {
      Sfs(device.data[..], dir, mounted)
    }

    constructor (ram: RamDisk)
      requires ram.Valid()
      ensures Valid() && device == ram && !mounted
    {
      device := ram;
      dir := Directory(seq(MAX_FILES, i => DirEntry(Zeros(MAX_PATH), 0, 0, 0, 0)), Zeros(RESERVED));
      mounted := false;
    }

    /** sfs_format. */
    method FormatDisk() returns (ok: bool)
      requires Valid()
      modifies this, device, device.data
      ensures Valid() && (View(), ok) == Format(old(View()), Done, Done)
    {
      var sectors := device.data.Length / SECTOR;
      if sectors < REQUIRED_SECTORS {
        mounted := false;
        return false;
      }
      var entries := dir.entries;
      for i := 0 to MAX_FILES
        invariant |entries| == MAX_FILES && dir == old(dir) && Valid() && View() == old(View())
        invariant forall j :: 0 <= j < MAX_FILES ==>
          entries[j] == if j < i then EmptyEntry(old(dir).entries[j], j) else old(dir).entries[j]
      {
        entries := entries[i := DirEntry(entries[i].path[0 := 0], DATA_START + i * FILE_SECTORS, 0, 0, 0)];
      }
      dir := Directory(entries, Zeros(RESERVED));
      assert dir.entries == EmptyDir(old(dir)).entries;
      mounted := false;
      ok := device.WriteBlocks(0, Superblock(sectors));
      if ok {
        ok := device.WriteBlocks(1, EncodeDir(dir));
      }
      mounted := ok;
    }

    /** sfs_init. */
    method Init()
      requires Valid()
      modifies this, device, device.data
      ensures Valid() && View() == Mount(old(View()))
    {
      mounted := false;
      var b := device.ReadBlocks(0, 1);
      if b == [] {
        return;
      }
      if WordAt(b, 0) == 0 && WordAt(b, 4) == 0 {
        var ok := FormatDisk();
        return;
      }
      if !SuperblockAccepted(b, device.data.Length / SECTOR) {
        return;
      }
      var d := device.ReadBlocks(1, 1);
      if d == [] {
        return;
      }
      dir := DecodeDir(d);
      mounted := true;
    }

    /** find_entry. */
    method Locate(path: string) returns (k: nat)
      requires Valid()
      ensures k == FindEntry(dir, path, 0)
    {
      k := 0;
      while k < MAX_FILES
        invariant k <= MAX_FILES && FindEntry(dir, path, k) == FindEntry(dir, path, 0)
      {
        if EntryUsed(dir.entries[k]) && PathOf(dir.entries[k].path) == path {
          return;
        }
        k := k + 1;
      }
    }

    method LocateFree() returns (k: nat)
      requires Valid()
      ensures k == FreeEntry(dir, 0)
    {
      k := 0;
      while k < MAX_FILES && EntryUsed(dir.entries[k])
        invariant k <= MAX_FILES && FreeEntry(dir, k) == FreeEntry(dir, 0)
      {
        k := k + 1;
      }
    }

    /** The path loop of sfs_write_file, with its terminating NUL. */
    method StorePath(buffer: Bytes, path: string) returns (r: Bytes)
      requires IsCString(path) && |path| < |buffer|
      ensures r == Overwrite(buffer, 0, PathBytes(path) + [0])
    {
      r := buffer;
      var i := 0;
      while i < |path|
        invariant i <= |path| && |r| == |buffer|
        invariant forall j :: 0 <= j < |r| ==> r[j] == if j < i then PathBytes(path)[j] else buffer[j]
      {
        r := r[i := path[i] as int];
        i := i + 1;
      }
      r := r[i := 0];
      assert r == Overwrite(buffer, 0, PathBytes(path) + [0]);
    }

    /** sfs_write_file. */
    method Write(path: string, data: Bytes) returns (ok: bool)
      requires Valid() && IsCString(path)
      modifies this, device, device.data
      ensures Valid() && (View(), ok) == WriteFile(old(View()), path, data, Done, Done)
    {
      if !mounted || !PathValid(path) || |data| > MAX_FILE_SIZE {
        return false;
      }
      var k := Locate(path);
      if k == MAX_FILES {
        k := LocateFree();
      }
      if k == MAX_FILES {
        return false;
      }
      ok := device.WriteBlocks(dir.entries[k].start, data + Zeros(MAX_FILE_SIZE - |data|));
      if !ok {
        return;
      }
      UpdateEntry(k, path, data);
      ok := device.WriteBlocks(1, EncodeDir(dir));
    }

    /** The entry update of sfs_write_file. */
    method UpdateEntry(k: nat, path: string, data: Bytes)
      requires Valid() && k < MAX_FILES && IsCString(path) && PathValid(path) && |data| <= MAX_FILE_SIZE
      modifies `dir
      ensures Valid()
      ensures dir == old(dir).(entries := old(dir).entries[k := WrittenEntry(old(dir).entries[k], path, data)])
    {
      var stored := StorePath(dir.entries[k].path, path);
      var sum := ComputeChecksum(data);
      dir := dir.(entries := dir.entries[k := DirEntry(stored, dir.entries[k].start, |data|, sum, 1)]);
    }

    /** sfs_read_file. */
    method Read(path: string, capacity: nat) returns (r: ReadResult)
      requires Valid()
      modifies device
      ensures Valid() && r == ReadFile(View(), path, capacity) && View() == old(View())
    {
      if !mounted {
        return ReadFailed;
      }
      var k := Locate(path);
      if k == MAX_FILES || dir.entries[k].size > capacity || dir.entries[k].size > MAX_FILE_SIZE {
        return ReadFailed;
      }
      var b := device.ReadBlocks(dir.entries[k].start, FILE_SECTORS);
      if b == [] {
        return ReadFailed;
      }
      var sum := ComputeChecksum(b[..dir.entries[k].size]);
      if sum != dir.entries[k].checksum {
        return ReadFailed;
      }
      r := ReadBytes(b[..dir.entries[k].size]);
    }
  }
}
