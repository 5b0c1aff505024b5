/** kernel/fs/vfs.c's entry points over both backends, as an object holding the two filesystems and
    the shared buffer. */
module VfsDispatch {
  import opened FileBytes
  import Paths
  import RamFs
  import RamFsTable
  import SaturnFs
  import SaturnFsDriver
  import opened Vfs
  import VfsNames

  class FileLayer {
    const ram: RamFsTable.RamFileSystem
    const disk: SaturnFsDriver.FileSystem
    var buffer: Bytes

    ghost predicate Valid()
      reads this, ram, ram.nodes, disk, disk.device, disk.device.data
    {
      ram.Valid() && disk.Valid() && |buffer| == MAX_SIZE
    }

    ghost function View(): (v: State)
      reads this, ram, ram.nodes, disk, disk.device, disk.device.data
    {
      State(ram.View(), disk.View(), buffer)
    }

    constructor (r: RamFsTable.RamFileSystem, d: SaturnFsDriver.FileSystem)
      requires r.Valid() && d.Valid()
      ensures Valid() && ram == r && disk == d
    {
      ram, disk := r, d;
      buffer := Zeros(MAX_SIZE);
    }

    /** sfs_read_file into disk_file_buffer; the size read, or -1. */
    method Load(path: string) returns (size: int)
      requires Valid()
      modifies `buffer, disk.device
      ensures Valid()
      ensures match SaturnFs.ReadFile(old(View()).disk, path, MAX_SIZE)
        case ReadFailed => size == -1 && View() == old(View())
        case ReadBytes(content) => size == |content| && View() == old(View()).(buffer := Loaded(old(buffer), content))
    {
      var r := disk.Read(path, MAX_SIZE);
      match r {
        case ReadFailed => size := -1;
        case ReadBytes(content) =>
          buffer := RamFsTable.CopyInto(buffer, 0, content);
          size := |content|;
      }
    }

    /** vfs_write. */
    method WriteAt(path: string, offset: nat, data: Bytes) returns (n: int)
      requires Valid() && SaturnFs.IsCString(path)
      modifies this, ram.nodes, disk, disk.device, disk.device.data
      ensures Valid() && (View(), n) == Write(old(View()), path, offset, data)
    {
      var d := Paths.ResolveDiskPath(path);
      if d == "" {
        n := ram.WriteAt(path, offset, data);
        return;
      }
      n := DiskWriteAt(d, offset, data);
    }

    /** vfs_write on a SaturnFS path: read, modify, rewrite. */
    method DiskWriteAt(d: string, offset: nat, data: Bytes) returns (n: int)
      requires Valid() && SaturnFs.IsCString(d)
      modifies this, disk, disk.device, disk.device.data
      ensures Valid() && (View(), n) == DiskWrite(old(View()), d, offset, data)
    {
      if data == [] || offset > MAX_SIZE || |data| > MAX_SIZE - offset {
        return -1;
      }
      var current := Load(d);
      if current < 0 {
        return -1;
      }
      buffer := RamFsTable.CopyInto(buffer, offset, data);
      var size := if offset + |data| > current then offset + |data| else current;
      var ok := disk.Write(d, buffer[..size]);
      n := if ok then |data| else -1;
    }

    /** vfs_truncate. */
    method SetSize(path: string, size: nat) returns (ok: bool)
      requires Valid() && SaturnFs.IsCString(path)
      modifies this, ram.nodes, disk, disk.device, disk.device.data
      ensures Valid() && (View(), ok) == Truncate(old(View()), path, size)
    {
      var d := Paths.ResolveDiskPath(path);
      if d == "" {
        ok := ram.SetSize(path, size);
        return;
      }
      ok := DiskSetSize(d, size);
    }

    method PadBuffer(current: nat, size: nat)
      requires |buffer| == MAX_SIZE && current <= MAX_SIZE && size <= MAX_SIZE
      modifies `buffer
      ensures buffer == ZeroPadded(old(buffer), current, size)
    {
      if size > current {
        buffer := RamFsTable.CopyInto(buffer, current, Zeros(size - current));
      }
    }

    /** vfs_truncate on a SaturnFS path. */
    method DiskSetSize(path: string, size: nat) returns (ok: bool)
      requires Valid() && SaturnFs.IsCString(path)
      modifies this, disk, disk.device, disk.device.data
      ensures Valid() && (View(), ok) == DiskTruncate(old(View()), path, size)
    {
      if size > MAX_SIZE {
        return false;
      }
      var current := Load(path);
      if current < 0 {
        return false;
      }
      PadBuffer(current, size);
      ok := disk.Write(path, buffer[..size]);
    }

    /** vfs_read. */
    method ReadAt(path: string, offset: nat, size: nat) returns (r: RamFs.ReadResult)
      requires Valid()
      modifies `buffer, disk.device
      ensures Valid() && (View(), r) == Read(old(View()), path, offset, size)
    {
      var d := Paths.ResolveDiskPath(path);
      if d == "" {
        r := ram.ReadAt(path, offset, size);
        return;
      }
      var current := Load(d);
      if current < 0 || offset > current {
        return RamFs.ReadFailed;
      }
      var count := if size > current - offset then current - offset else size;
      r := RamFs.ReadBytes(buffer[offset..offset + count]);
    }

    /** vfs_create. */
    method CreateAt(path: string, data: Bytes) returns (ok: bool)
      requires Valid() && SaturnFs.IsCString(path)
      modifies ram, ram.nodes, disk, disk.device, disk.device.data
      ensures Valid() && (View(), ok) == Create(old(View()), path, data)
    {
      var d := Paths.ResolveDiskPath(path);
      if d == "" {
        ok := ram.Create(path, data);
      } else {
        ok := disk.Write(d, data);
      }
    }

    /** vfs_mkdir, vfs_remove and vfs_rename: no name is sent to SaturnFS. */
    method MkdirAt(path: string) returns (ok: bool)
      requires Valid()
      modifies ram, ram.nodes
      ensures Valid() && (View(), ok) == VfsNames.Mkdir(old(View()), path)
    {
      ok := ram.Mkdir(path);
    }

    method RemoveAt(path: string) returns (ok: bool)
      requires Valid()
      modifies ram, ram.nodes
      ensures Valid() && (View(), ok) == VfsNames.Remove(old(View()), path)
    {
      ok := ram.Unlink(path);
    }

    method RenameAt(oldPath: string, newPath: string) returns (ok: bool)
      requires Valid()
      modifies ram.nodes
      ensures Valid() && (View(), ok) == VfsNames.Rename(old(View()), oldPath, newPath)
    {
      ok := ram.Move(oldPath, newPath);
    }

    /** vfs_stat. */
    method StatAt(path: string) returns (r: VfsNames.StatResult)
      requires Valid()
      modifies `buffer, disk.device
      ensures Valid() && (View(), r) == VfsNames.Stat(old(View()), path)
    {
      var d := Paths.ResolveDiskPath(path);
      if d != "" {
        var size := Load(d);
        return if size < 0 then VfsNames.NoEntry else VfsNames.EntryOf(RamFs.File, size);
      }
      var i := ram.Locate(path);
      r := if i == RamFs.MAX_NODES then VfsNames.NoEntry else VfsNames.EntryOf(ram.nodes[i].kind, ram.nodes[i].size);
    }
  }
}
