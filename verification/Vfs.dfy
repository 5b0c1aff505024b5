/** The VFS over both backends (kernel/fs/vfs.c): paths under /disk go to SaturnFS through one
    shared buffer, all others to the RAM filesystem. A caller sees the same byte-sequence
    operations on both. */
module Vfs {
  import opened FileBytes
  import Paths
  import RamFs
  import RamFsTree
  import SaturnFs
  import SaturnFsMap

  const MAX_SIZE := 4096

  /** `buffer` is disk_file_buffer. */
  datatype State = State(ram: RamFs.Fs, disk: SaturnFs.Sfs, buffer: Bytes)

  predicate Shaped(v: State) {
    RamFs.Shaped(v.ram) && SaturnFs.Shaped(v.disk) && |v.buffer| == MAX_SIZE
  }

  predicate OnDisk(path: string) {
    Paths.DiskPath(path) != ""
  }

  /** The buffer after sfs_read_file returned `content`. */
  function Loaded(buffer: Bytes, content: Bytes): (r: Bytes)
    requires |buffer| == MAX_SIZE && |content| <= MAX_SIZE
    ensures |r| == MAX_SIZE && r[..|content|] == content
  {
    Overwrite(buffer, 0, content)
  }

  function DiskWrite(v: State, path: string, offset: nat, data: Bytes): (r: (State, int))
    requires Shaped(v) && SaturnFs.IsCString(path)
    ensures Shaped(r.0)
  {
    if data == [] || offset > MAX_SIZE || |data| > MAX_SIZE - offset then (v, -1)
    else
      match SaturnFs.ReadFile(v.disk, path, MAX_SIZE)
      case ReadFailed => (v, -1)
      case ReadBytes(content) =>
        var buffer := Overwrite(Loaded(v.buffer, content), offset, data);
        var size := if offset + |data| > |content| then offset + |data| else |content|;
        var (disk, ok) := SaturnFs.WriteFile(v.disk, path, buffer[..size], SaturnFs.Done, SaturnFs.Done);
        (v.(disk := disk, buffer := buffer), if ok then |data| else -1)
  }

  /** The buffer after vfs_truncate's loop from the current size up to the new one. */
  function ZeroPadded(buffer: Bytes, current: nat, size: nat): (r: Bytes)
    requires |buffer| == MAX_SIZE && current <= MAX_SIZE && size <= MAX_SIZE
    ensures |r| == MAX_SIZE
  {
    if size > current then Overwrite(buffer, current, Zeros(size - current)) else buffer
  }

  function DiskTruncate(v: State, path: string, size: nat): (r: (State, bool))
    requires Shaped(v) && SaturnFs.IsCString(path)
    ensures Shaped(r.0)
  {
    if size > MAX_SIZE then (v, false)
    else
      match SaturnFs.ReadFile(v.disk, path, MAX_SIZE)
      case ReadFailed => (v, false)
      case ReadBytes(content) =>
        var buffer := ZeroPadded(Loaded(v.buffer, content), |content|, size);
        var (disk, ok) := SaturnFs.WriteFile(v.disk, path, buffer[..size], SaturnFs.Done, SaturnFs.Done);
        (v.(disk := disk, buffer := buffer), ok)
  }

  /** vfs_read on what sfs_read_file returned. */
  function CopyOut(v: State, file: SaturnFs.ReadResult, offset: nat, size: nat): (r: (State, RamFs.ReadResult))
    requires Shaped(v) && (file.ReadBytes? ==> |file.bytes| <= MAX_SIZE)
    ensures Shaped(r.0)
  {
    match file
    case ReadFailed => (v, RamFs.ReadFailed)
    case ReadBytes(content) =>
      var buffer := Loaded(v.buffer, content);
      if offset > |content| then (v.(buffer := buffer), RamFs.ReadFailed)
      else
        var count := if size > |content| - offset then |content| - offset else size;
        (v.(buffer := buffer), RamFs.ReadBytes(buffer[offset..offset + count]))
  }

  function DiskRead(v: State, path: string, offset: nat, size: nat): (r: (State, RamFs.ReadResult))
    requires Shaped(v)
    ensures Shaped(r.0)
  {
    CopyOut(v, SaturnFs.ReadFile(v.disk, path, MAX_SIZE), offset, size)
  }

  /** vfs_create. */
  function Create(v: State, path: string, data: Bytes): (r: (State, bool))
    requires Shaped(v) && SaturnFs.IsCString(path)
    ensures Shaped(r.0)
  {
    if OnDisk(path) then
      var (disk, ok) := SaturnFs.WriteFile(v.disk, Paths.DiskPath(path), data, SaturnFs.Done, SaturnFs.Done);
      (v.(disk := disk), ok)
    else
      var (ram, ok) := RamFs.CreateFile(v.ram, path, data);
      (v.(ram := ram), ok)
  }

  /** vfs_write. */
  function Write(v: State, path: string, offset: nat, data: Bytes): (r: (State, int))
    requires Shaped(v) && SaturnFs.IsCString(path)
    ensures Shaped(r.0)
  {
    if OnDisk(path) then DiskWrite(v, Paths.DiskPath(path), offset, data)
    else
      var (ram, n) := RamFs.Write(v.ram, path, offset, data);
      (v.(ram := ram), n)
  }

  /** vfs_truncate. */
  function Truncate(v: State, path: string, size: nat): (r: (State, bool))
    requires Shaped(v) && SaturnFs.IsCString(path)
    ensures Shaped(r.0)
  {
    if OnDisk(path) then DiskTruncate(v, Paths.DiskPath(path), size)
    else
      var (ram, ok) := RamFs.Truncate(v.ram, path, size);
      (v.(ram := ram), ok)
  }

  /** vfs_read. */
  function Read(v: State, path: string, offset: nat, size: nat): (r: (State, RamFs.ReadResult))
    requires Shaped(v)
    ensures Shaped(r.0)
  {
    if OnDisk(path) then DiskRead(v, Paths.DiskPath(path), offset, size)
    else (v, RamFs.Read(v.ram, path, offset, size))
  }

  // ---- the files a caller sees ----

  ghost predicate Inv(v: State) {
    RamFsTree.Inv(v.ram) && SaturnFsMap.Inv(v.disk) && |v.buffer| == MAX_SIZE
  }

  datatype Found = NoFile | FileOf(bytes: Bytes)

  /** The file behind a path, on whichever backend holds it. */
  ghost function Lookup(v: State, path: string): (r: Found)
    requires Inv(v)
  {
    if OnDisk(path) then
      match SaturnFsMap.Lookup(v.disk, Paths.DiskPath(path))
      case Absent => NoFile
      case Content(bytes) => FileOf(bytes)
    else
      match RamFsTree.Lookup(v.ram, path)
      case Nothing => NoFile
      case Something(kind, bytes) => if kind.File? then FileOf(bytes) else NoFile
  }

  /** After an operation on `path` the invariant holds and every other path has the file it had. */
  ghost predicate OnlyChanges(v: State, v': State, path: string)
    requires Inv(v)
  {
    Inv(v') && forall q :: q != path ==> Lookup(v', q) == Lookup(v, q)
  }

  lemma DiskPathsDiffer(p: string, q: string)
    requires OnDisk(p) && OnDisk(q) && p != q
    ensures Paths.DiskPath(p) != Paths.DiskPath(q)
  {
  }

  lemma DiskPathIsCString(path: string)
    requires SaturnFs.IsCString(path) && OnDisk(path)
    ensures SaturnFs.IsCString(Paths.DiskPath(path))
  {
    var d := Paths.DiskPath(path);
    assert forall i :: 0 <= i < |d| ==> d[i] == path[i + 5];
  }

  /** A file on disk has a valid path and an entry, so rewriting it is accepted. */
  lemma ExistingAccepted(s: SaturnFs.Sfs, path: string, data: Bytes)
    requires SaturnFsMap.Inv(s) && SaturnFsMap.Lookup(s, path).Content? && |data| <= MAX_SIZE
    ensures SaturnFsMap.Accepts(s, path, data) && |SaturnFsMap.Lookup(s, path).bytes| <= MAX_SIZE
  {
    var k := SaturnFs.FindEntry(s.dir, path, 0);
    assert SaturnFsMap.GoodEntry(s.dir.entries[k], SaturnFsMap.Extent(s.disk, k));
  }

  /** Rewriting an existing file under /disk changes just that file. */
  lemma {:induction false} DiskRewrite(v: State, v': State, path: string, data: Bytes)
    requires Inv(v) && OnDisk(path) && SaturnFs.IsCString(path) && Lookup(v, path).FileOf? && |data| <= MAX_SIZE
    requires SaturnFs.IsCString(Paths.DiskPath(path))
    requires v'.ram == v.ram && |v'.buffer| == MAX_SIZE
    requires (v'.disk, true) == SaturnFs.WriteFile(v.disk, Paths.DiskPath(path), data, SaturnFs.Done, SaturnFs.Done)
    ensures OnlyChanges(v, v', path) && Lookup(v', path) == FileOf(data)
  {
    var d := Paths.DiskPath(path);
    ExistingAccepted(v.disk, d, data);
    SaturnFsMap.WriteUpdatesOne(v.disk, d, data);
    forall q | q != path
      ensures Lookup(v', q) == Lookup(v, q)
    {
      if OnDisk(q) { DiskPathsDiffer(q, path); }
    }
  }

  /** The buffer that a file's bytes are kept in or loaded into, longer than the file. */
  ghost function Storage(v: State, path: string): (r: Bytes)
    requires Inv(v) && Lookup(v, path).FileOf?
    ensures |Lookup(v, path).bytes| <= |r| == MAX_SIZE
  {
    if OnDisk(path) then
      ExistingAccepted(v.disk, Paths.DiskPath(path), []);
      v.buffer
    else RamFsTree.Storage(v.ram, path)
  }

  /** The content a write leaves, for every offset. */
  ghost function Written(v: State, path: string, offset: nat, data: Bytes): Bytes
    requires Inv(v) && Lookup(v, path).FileOf? && offset + |data| <= MAX_SIZE
  {
    Patched(Lookup(v, path).bytes, Storage(v, path), offset, data)
  }

  /** What the read-modify-rewrite of vfs_write hands to sfs_write_file. */
  lemma {:induction false} DiskWriteRewrites(v: State, d: string, offset: nat, data: Bytes)
    requires Shaped(v) && SaturnFs.IsCString(d) && SaturnFsMap.Inv(v.disk) && SaturnFsMap.Lookup(v.disk, d).Content?
    requires data != [] && offset + |data| <= MAX_SIZE
    ensures |SaturnFsMap.Lookup(v.disk, d).bytes| <= MAX_SIZE
    ensures var content := Patched(SaturnFsMap.Lookup(v.disk, d).bytes, v.buffer, offset, data);
      var (v', n) := DiskWrite(v, d, offset, data);
      && |content| <= MAX_SIZE && n == |data| && v'.ram == v.ram && |v'.buffer| == MAX_SIZE
      && (v'.disk, true) == SaturnFs.WriteFile(v.disk, d, content, SaturnFs.Done, SaturnFs.Done)
  {
    var content := SaturnFsMap.Lookup(v.disk, d).bytes;
    ExistingAccepted(v.disk, d, data);
    SaturnFsMap.ReadReturnsContent(v.disk, d, MAX_SIZE);
    BufferHolds(v.buffer, content, offset, data);
    var written := Patched(content, v.buffer, offset, data);
    ExistingAccepted(v.disk, d, written);
    SaturnFsMap.WriteCompletes(v.disk, d, written);
  }

  /** A change of one file in the RAM filesystem is a change of one path. */
  lemma RamFrame(v: State, ram: RamFs.Fs, path: string, content: Bytes)
    requires Inv(v) && !OnDisk(path) && RamFsTree.OnlyContentChanges(v.ram, ram, path, content)
    ensures OnlyChanges(v, v.(ram := ram), path) && Lookup(v.(ram := ram), path) == FileOf(content)
  {
  }

  lemma {:induction false} RamWriteMeaning(v: State, path: string, offset: nat, data: Bytes)
    requires Inv(v) && SaturnFs.IsCString(path) && !OnDisk(path) && Lookup(v, path).FileOf?
    ensures WriteResult(v, path, offset, data, Write(v, path, offset, data))
  {
    var (ram, n) := RamFs.Write(v.ram, path, offset, data);
    RamFsTree.WriteMeaning(v.ram, path, offset, data, path);
    if n >= 0 {
      RamFsTree.WriteChangesOne(v.ram, path, offset, data);
      RamFrame(v, ram, path, Written(v, path, offset, data));
    }
  }

  lemma BufferHolds(buffer: Bytes, content: Bytes, offset: nat, data: Bytes)
    requires |buffer| == MAX_SIZE && |content| <= MAX_SIZE && offset + |data| <= MAX_SIZE
    ensures var size := if offset + |data| > |content| then offset + |data| else |content|;
      Overwrite(Loaded(buffer, content), offset, data)[..size] == Patched(content, buffer, offset, data)
  {
    var loaded := Loaded(buffer, content);
    assert forall i :: 0 <= i < |content| ==> loaded[i] == loaded[..|content|][i];
    assert forall i :: |content| <= i < MAX_SIZE ==> loaded[i] == buffer[i];
  }

  /** What the read-modify-rewrite of vfs_truncate hands to sfs_write_file. */
  lemma {:induction false} DiskTruncateHands(v: State, d: string, size: nat, content: Bytes)
    requires Shaped(v) && SaturnFs.IsCString(d) && size <= MAX_SIZE && |content| <= MAX_SIZE
    requires SaturnFs.ReadFile(v.disk, d, MAX_SIZE) == SaturnFs.ReadBytes(content)
    ensures var (v', ok) := DiskTruncate(v, d, size);
      && v'.ram == v.ram && |v'.buffer| == MAX_SIZE
      && (v'.disk, ok) == SaturnFs.WriteFile(v.disk, d, Resize(content, size), SaturnFs.Done, SaturnFs.Done)
  {
    var loaded := Loaded(v.buffer, content);
    BufferResized(loaded, content, size, ZeroPadded(loaded, |content|, size));
  }

  lemma {:induction false} DiskTruncateRewrites(v: State, d: string, size: nat)
    requires Shaped(v) && SaturnFs.IsCString(d) && SaturnFsMap.Inv(v.disk) && SaturnFsMap.Lookup(v.disk, d).Content?
    requires size <= MAX_SIZE
    ensures var content := Resize(SaturnFsMap.Lookup(v.disk, d).bytes, size);
      var (v', ok) := DiskTruncate(v, d, size);
      && ok && v'.ram == v.ram && |v'.buffer| == MAX_SIZE
      && (v'.disk, true) == SaturnFs.WriteFile(v.disk, d, content, SaturnFs.Done, SaturnFs.Done)
  {
    var content := SaturnFsMap.Lookup(v.disk, d).bytes;
    ExistingAccepted(v.disk, d, []);
    SaturnFsMap.ReadReturnsContent(v.disk, d, MAX_SIZE);
    DiskTruncateHands(v, d, size, content);
    var resized := Resize(content, size);
    ExistingAccepted(v.disk, d, resized);
    SaturnFsMap.WriteCompletes(v.disk, d, resized);
  }

  lemma {:induction false} RamTruncateMeaning(v: State, path: string, size: nat)
    requires Inv(v) && SaturnFs.IsCString(path) && !OnDisk(path) && Lookup(v, path).FileOf?
    ensures var (v', ok) := Truncate(v, path, size);
      if size <= MAX_SIZE
      then ok && OnlyChanges(v, v', path) && Lookup(v', path) == FileOf(Resize(Lookup(v, path).bytes, size))
      else !ok && v' == v
  {
    var (ram, ok) := RamFs.Truncate(v.ram, path, size);
    RamFsTree.TruncateMeaning(v.ram, path, size, path);
    if ok {
      RamFsTree.TruncateChangesOne(v.ram, path, size);
      RamFrame(v, ram, path, Resize(Lookup(v, path).bytes, size));
    }
  }

  lemma BufferResized(loaded: Bytes, content: Bytes, size: nat, buffer: Bytes)
    requires |loaded| == MAX_SIZE && |content| <= MAX_SIZE && loaded[..|content|] == content && size <= MAX_SIZE
    requires buffer == ZeroPadded(loaded, |content|, size)
    ensures |buffer| == MAX_SIZE && buffer[..size] == Resize(content, size)
  {
    assert forall i :: 0 <= i < |content| ==> loaded[i] == loaded[..|content|][i];
    if size > |content| {
      var zeros := Zeros(size - |content|);
      assert buffer[|content|..|content| + |zeros|] == zeros;
      forall i | |content| <= i < size
        ensures buffer[i] == 0
      {
        assert buffer[i] == buffer[|content|..|content| + |zeros|][i - |content|];
      }
    }
  }

  /** What vfs_read copies out of the shared buffer. */
  lemma {:induction false} CopyOutClips(v: State, content: Bytes, offset: nat, size: nat)
    requires Shaped(v) && |content| <= MAX_SIZE
    ensures CopyOut(v, SaturnFs.ReadBytes(content), offset, size) ==
      (v.(buffer := Loaded(v.buffer, content)),
       if offset <= |content| then RamFs.ReadBytes(Clip(content, offset, size)) else RamFs.ReadFailed)
  {
    if offset <= |content| {
      LoadedClips(v.buffer, content, offset, size);
    }
  }

  lemma LoadedClips(buffer: Bytes, content: Bytes, offset: nat, size: nat)
    requires |buffer| == MAX_SIZE && |content| <= MAX_SIZE && offset <= |content|
    ensures var count := if size > |content| - offset then |content| - offset else size;
      Loaded(buffer, content)[offset..offset + count] == Clip(content, offset, size)
  {
    var loaded := Loaded(buffer, content);
    assert forall i :: 0 <= i < |content| ==> loaded[i] == loaded[..|content|][i];
  }

  lemma {:induction false} DiskReadClips(v: State, d: string, offset: nat, size: nat)
    requires Shaped(v) && SaturnFsMap.Inv(v.disk)
    ensures var (v', r) := DiskRead(v, d, offset, size);
      && v'.ram == v.ram && v'.disk == v.disk && |v'.buffer| == MAX_SIZE
      && match SaturnFsMap.Lookup(v.disk, d)
         case Absent => r == RamFs.ReadFailed
         case Content(bytes) => r == if offset <= |bytes| then RamFs.ReadBytes(Clip(bytes, offset, size))
           else RamFs.ReadFailed
  {
    SaturnFsMap.ReadReturnsContent(v.disk, d, MAX_SIZE);
    var found := SaturnFsMap.Lookup(v.disk, d);
    if found.Content? {
      ExistingAccepted(v.disk, d, []);
      CopyOutClips(v, found.bytes, offset, size);
    }
  }

  /** When vfs_write succeeds: on an existing file, within the size limit, and under /disk with at
      least one byte. */
  ghost predicate Writes(v: State, path: string, offset: nat, data: Bytes)
    requires Inv(v)
  {
    Lookup(v, path).FileOf? && offset + |data| <= MAX_SIZE && (OnDisk(path) ==> data != [])
  }

  /** What a write has to do: leave the written content in one existing file and change no other, or
      fail and change nothing. */
  ghost predicate WriteResult(v: State, path: string, offset: nat, data: Bytes, r: (State, int))
    requires Inv(v)
  {
    if Writes(v, path, offset, data)
    then r.1 == |data| && OnlyChanges(v, r.0, path) && Lookup(r.0, path) == FileOf(Written(v, path, offset, data))
    else r.1 == -1 && r.0 == v
  }

  lemma {:induction false} DiskWriteMeaning(v: State, path: string, offset: nat, data: Bytes)
    requires Inv(v) && SaturnFs.IsCString(path) && OnDisk(path)
    ensures WriteResult(v, path, offset, data, Write(v, path, offset, data))
  {
    DiskPathIsCString(path);
    var d := Paths.DiskPath(path);
    SaturnFsMap.ReadReturnsContent(v.disk, d, MAX_SIZE);
    if Writes(v, path, offset, data) {
      DiskWriteRewrites(v, d, offset, data);
      DiskRewrite(v, DiskWrite(v, d, offset, data).0, path, Written(v, path, offset, data));
    }
  }

  /** Main result on writing, for every path, offset and buffer: the same on both backends, except
      for which buffer shows through in a gap beyond the end of the file. */
  lemma {:induction false} WriteMeaning(v: State, path: string, offset: nat, data: Bytes)
    requires Inv(v) && SaturnFs.IsCString(path)
    ensures WriteResult(v, path, offset, data, Write(v, path, offset, data))
  {
    if OnDisk(path) {
      DiskWriteMeaning(v, path, offset, data);
    } else if Lookup(v, path).FileOf? {
      RamWriteMeaning(v, path, offset, data);
    } else {
      RamWriteFails(v, path, offset, data);
    }
  }

  /** A successful write is the byte-sequence operation, growing with zeros where needed, iff the
      offset lies within or at the end of the file or the gap of the buffer behind it is zero. */
  lemma {:induction false} WriteIsSparseIff(v: State, path: string, offset: nat, data: Bytes)
    requires Inv(v) && SaturnFs.IsCString(path) && Writes(v, path, offset, data)
    ensures var bytes, r := Lookup(v, path).bytes, Write(v, path, offset, data);
      && Inv(r.0)
      && (Lookup(r.0, path) == FileOf(SparseWrite(bytes, offset, data)) <==>
            offset <= |bytes| || forall i :: |bytes| <= i < offset ==> Storage(v, path)[i] == 0)
  {
    WriteMeaning(v, path, offset, data);
    SparseIff(Lookup(v, path).bytes, Storage(v, path), offset, data);
  }

  /** Reading back what was written returns it, on both backends. */
  lemma {:induction false} ReadBack(v: State, path: string, offset: nat, data: Bytes)
    requires Inv(v) && SaturnFs.IsCString(path) && Writes(v, path, offset, data)
    ensures Read(Write(v, path, offset, data).0, path, offset, |data|).1 == RamFs.ReadBytes(data)
  {
    WriteMeaning(v, path, offset, data);
    ReadMeaning(Write(v, path, offset, data).0, path, offset, |data|);
    PatchedReads(Lookup(v, path).bytes, Storage(v, path), offset, data);
  }

  /** Under /disk a gap beyond the end shows the shared buffer. */
  lemma {:induction false} DiskWriteBeyondEnd(v: State, path: string, offset: nat, data: Bytes)
    requires Inv(v) && SaturnFs.IsCString(path) && OnDisk(path) && Lookup(v, path).FileOf? && data != []
    requires |Lookup(v, path).bytes| < offset && offset + |data| <= MAX_SIZE
    ensures var bytes := Lookup(v, path).bytes; var (v', n) := Write(v, path, offset, data);
      && n == |data| && OnlyChanges(v, v', path)
      && Lookup(v', path) == FileOf(bytes + v.buffer[|bytes|..offset] + data)
  {
    WriteMeaning(v, path, offset, data);
  }

  /** And the shared buffer holds whatever file was read last: reading any longer file under /disk
      and then writing beyond the end of another copies bytes of the first into the second. */
  lemma {:induction false} GapShowsOtherFile(v: State, path: string, other: string, offset: nat, data: Bytes)
    requires Inv(v) && SaturnFs.IsCString(path) && OnDisk(path) && OnDisk(other) && data != []
    requires Lookup(v, path).FileOf? && Lookup(v, other).FileOf?
    requires |Lookup(v, path).bytes| < offset <= |Lookup(v, other).bytes| && offset + |data| <= MAX_SIZE
    ensures var bytes, secret := Lookup(v, path).bytes, Lookup(v, other).bytes;
      var read := Read(v, other, 0, 0).0;
      && Inv(read) && Inv(Write(read, path, offset, data).0)
      && Lookup(Write(read, path, offset, data).0, path) == FileOf(bytes + secret[|bytes|..offset] + data)
  {
    ReadMeaning(v, other, 0, 0);
    DiskReadLoads(v, Paths.DiskPath(other), 0, 0);
    GapIsBuffer(v, Read(v, other, 0, 0).0, path, Lookup(v, other).bytes, offset, data);
  }

  lemma {:induction false} GapIsBuffer(v: State, w: State, path: string, secret: Bytes, offset: nat, data: Bytes)
    requires Inv(v) && Inv(w) && w.ram == v.ram && w.disk == v.disk
    requires SaturnFs.IsCString(path) && OnDisk(path) && Lookup(v, path).FileOf? && data != []
    requires |Lookup(v, path).bytes| < offset <= |secret| <= MAX_SIZE && offset + |data| <= MAX_SIZE
    requires w.buffer[..|secret|] == secret
    ensures var bytes := Lookup(v, path).bytes; var w' := Write(w, path, offset, data).0;
      Inv(w') && Lookup(w', path) == FileOf(bytes + secret[|bytes|..offset] + data)
  {
    assert Lookup(w, path) == Lookup(v, path);
    DiskWriteBeyondEnd(w, path, offset, data);
    SliceOfPrefix(w.buffer, secret, |Lookup(v, path).bytes|, offset);
  }

  lemma SliceOfPrefix(buffer: Bytes, secret: Bytes, lo: nat, hi: nat)
    requires |secret| <= |buffer| && buffer[..|secret|] == secret && lo <= hi <= |secret|
    ensures buffer[lo..hi] == secret[lo..hi]
  {
    forall i | lo <= i < hi ensures buffer[i] == secret[i] {
      assert buffer[i] == buffer[..|secret|][i];
    }
  }

  /** A read under /disk leaves the whole file in the shared buffer. */
  lemma {:induction false} DiskReadLoads(v: State, d: string, offset: nat, size: nat)
    requires Shaped(v) && SaturnFsMap.Inv(v.disk) && SaturnFsMap.Lookup(v.disk, d).Content?
    ensures var bytes := SaturnFsMap.Lookup(v.disk, d).bytes;
      |bytes| <= MAX_SIZE && DiskRead(v, d, offset, size).0.buffer[..|bytes|] == bytes
  {
    SaturnFsMap.ReadReturnsContent(v.disk, d, MAX_SIZE);
    ExistingAccepted(v.disk, d, []);
    CopyOutClips(v, SaturnFsMap.Lookup(v.disk, d).bytes, offset, size);
  }

  lemma {:induction false} RamWriteFails(v: State, path: string, offset: nat, data: Bytes)
    requires Inv(v) && SaturnFs.IsCString(path) && !OnDisk(path) && Lookup(v, path).NoFile?
    ensures Write(v, path, offset, data) == (v, -1)
  {
    assert RamFs.Write(v.ram, path, offset, data) == (v.ram, -1);
  }

  /** What a truncation has to do: cut or zero-extend exactly one existing file, or fail and change nothing. */
  ghost predicate TruncateResult(v: State, path: string, size: nat, r: (State, bool))
    requires Inv(v)
  {
    if Lookup(v, path).FileOf? && size <= MAX_SIZE
    then r.1 && OnlyChanges(v, r.0, path) && Lookup(r.0, path) == FileOf(Resize(Lookup(v, path).bytes, size))
    else !r.1 && r.0 == v
  }

  lemma {:induction false} DiskTruncateMeaning(v: State, path: string, size: nat)
    requires Inv(v) && SaturnFs.IsCString(path) && OnDisk(path)
    ensures TruncateResult(v, path, size, Truncate(v, path, size))
  {
    DiskPathIsCString(path);
    var d := Paths.DiskPath(path);
    SaturnFsMap.ReadReturnsContent(v.disk, d, MAX_SIZE);
    if Lookup(v, path).FileOf? && size <= MAX_SIZE {
      DiskTruncateRewrites(v, d, size);
      DiskRewrite(v, DiskTruncate(v, d, size).0, path, Resize(Lookup(v, path).bytes, size));
    }
  }

  /** Main result on truncation, on both backends. */
  lemma {:induction false} TruncateMeaning(v: State, path: string, size: nat)
    requires Inv(v) && SaturnFs.IsCString(path)
    ensures TruncateResult(v, path, size, Truncate(v, path, size))
  {
    if OnDisk(path) {
      DiskTruncateMeaning(v, path, size);
    } else if Lookup(v, path).FileOf? {
      RamTruncateMeaning(v, path, size);
    } else {
      RamFsTree.TruncateMeaning(v.ram, path, size, path);
    }
  }

  /** Reading returns the clipped bytes and changes no file, on both backends. */
  lemma {:induction false} ReadMeaning(v: State, path: string, offset: nat, size: nat)
    requires Inv(v)
    ensures var (v', r) := Read(v, path, offset, size);
      && Inv(v') && v'.ram == v.ram && v'.disk == v.disk
      && match Lookup(v, path)
         case NoFile => r == RamFs.ReadFailed
         case FileOf(bytes) => r == if offset <= |bytes| then RamFs.ReadBytes(Clip(bytes, offset, size))
           else RamFs.ReadFailed
  {
    if OnDisk(path) {
      DiskReadClips(v, Paths.DiskPath(path), offset, size);
    }
  }
}
