/** The RAM filesystem of kernel/fs/vfs.c as a value: a flat table of path strings, and each
    operation as a function on it. */
module RamFs {
  import opened Paths
  import opened FileBytes

  const MAX_FILES := 8
  const MAX_DIRS := 8
  const MAX_NODES := 16
  const MAX_FILE_SIZE := 4096

  datatype Kind = File | Directory

  /** `data` is the whole buffer of the node; only the first `size` bytes are file content. */
  datatype Node = Node(path: string, data: Bytes, size: nat, kind: Kind, used: bool)

  datatype Fs = Fs(nodes: seq<Node>, files: int, dirs: int)

  datatype Entry = Entry(path: string, size: nat, kind: Kind)

  predicate NodeShaped(n: Node) {
    |n.data| == MAX_FILE_SIZE && n.size <= MAX_FILE_SIZE
  }

  /** The shape the C arrays always have. */
  predicate Shaped(fs: Fs) {
    |fs.nodes| == MAX_NODES && forall i :: 0 <= i < MAX_NODES ==> NodeShaped(fs.nodes[i])
  }

  function Content(n: Node): (r: Bytes)
    requires NodeShaped(n)
    ensures |r| == n.size
  {
    n.data[..n.size]
  }

  /** vfs_find from index `i` on; MAX_NODES stands for "not found". */
  function FindFrom(nodes: seq<Node>, path: string, i: nat): (r: nat)
    requires i <= |nodes|
    ensures i <= r <= |nodes|
    ensures r < |nodes| ==> nodes[r].used && nodes[r].path == path
    ensures forall j :: i <= j < r ==> !(nodes[j].used && nodes[j].path == path)
    decreases |nodes| - i
  {
    if i == |nodes| || (nodes[i].used && nodes[i].path == path) then i else FindFrom(nodes, path, i + 1)
  }

  function Find(fs: Fs, path: string): (r: nat)
    requires Shaped(fs)
    ensures r <= MAX_NODES
    ensures r < MAX_NODES ==> fs.nodes[r].used && fs.nodes[r].path == path
    ensures r == MAX_NODES ==> forall j :: 0 <= j < MAX_NODES ==> !(fs.nodes[j].used && fs.nodes[j].path == path)
  {
    FindFrom(fs.nodes, path, 0)
  }

  /** vfs_parent_exists. */
  predicate ParentExists(fs: Fs, path: string)
    requires Shaped(fs)
  {
    var k := LastSlash(path);
    k == 0 || (Find(fs, path[..k]) < MAX_NODES && fs.nodes[Find(fs, path[..k])].kind.Directory?)
  }

  /** vfs_alloc_node from index `i` on; MAX_NODES stands for "none free". */
  function FreeFrom(nodes: seq<Node>, i: nat): (r: nat)
    requires i <= |nodes|
    ensures i <= r <= |nodes|
    ensures r < |nodes| ==> !nodes[r].used
    ensures forall j :: i <= j < r ==> nodes[j].used
    decreases |nodes| - i
  {
    if i == |nodes| || !nodes[i].used then i else FreeFrom(nodes, i + 1)
  }

  /** vfs_init on any storage. */
  function Emptied(nodes: seq<Node>): (r: seq<Node>)
    ensures |r| == |nodes|
    ensures forall i :: 0 <= i < |r| ==> r[i] == nodes[i].(used := false, size := 0, path := "")
  {
    seq(|nodes|, i requires 0 <= i < |nodes| => nodes[i].(used := false, size := 0, path := ""))
  }

  function MakeDirectory(fs: Fs, path: string): (r: (Fs, bool))
    requires Shaped(fs)
    ensures Shaped(r.0)
  {
    if !PathValid(path) || Find(fs, path) < MAX_NODES || !ParentExists(fs, path) || fs.dirs >= MAX_DIRS then (fs, false)
    else
      var i := FreeFrom(fs.nodes, 0);
      if i == MAX_NODES then (fs, false)
      else (Fs(fs.nodes[i := Node(path, fs.nodes[i].data, 0, Directory, true)], fs.files, fs.dirs + 1), true)
  }

  /** vfs_create for a path outside /disk. */
  function CreateFile(fs: Fs, path: string, data: Bytes): (r: (Fs, bool))
    requires Shaped(fs)
    ensures Shaped(r.0)
  {
    if !PathValid(path) || |data| > MAX_FILE_SIZE || Find(fs, path) < MAX_NODES || !ParentExists(fs, path) ||
       fs.files >= MAX_FILES then (fs, false)
    else
      var i := FreeFrom(fs.nodes, 0);
      if i == MAX_NODES then (fs, false)
      else (Fs(fs.nodes[i := Node(path, Overwrite(fs.nodes[i].data, 0, data), |data|, File, true)], fs.files + 1,
        fs.dirs), true)
  }

  predicate HasEntries(fs: Fs, dir: string)
    requires Shaped(fs)
  {
    exists i :: 0 <= i < MAX_NODES && fs.nodes[i].used && Below(dir, fs.nodes[i].path)
  }

  function Remove(fs: Fs, path: string): (r: (Fs, bool))
    requires Shaped(fs)
    ensures Shaped(r.0)
  {
    var i := Find(fs, path);
    if i == MAX_NODES then (fs, false)
    else
      var cleared := fs.nodes[i := fs.nodes[i].(used := false, size := 0, path := "")];
      if fs.nodes[i].kind.File? then (Fs(cleared, fs.files - 1, fs.dirs), true)
      else if HasEntries(fs, path) then (fs, false)
      else (Fs(cleared, fs.files, fs.dirs - 1), true)
  }

  /** One node under vfs_rename of node `k`. */
  function RenamedNode(nodes: seq<Node>, k: nat, newPath: string, i: nat): (r: Node)
    requires k < |nodes| && i < |nodes|
    ensures NodeShaped(nodes[i]) ==> NodeShaped(r)
  {
    var n, oldPath := nodes[i], nodes[k].path;
    if i == k then n.(path := newPath)
    else if n.used && Below(oldPath, n.path) then n.(path := newPath + n.path[|oldPath|..])
    else n
  }

  function RenamedNodes(nodes: seq<Node>, k: nat, newPath: string): (r: seq<Node>)
    requires k < |nodes|
    ensures |r| == |nodes|
    ensures forall i :: 0 <= i < |r| ==> r[i] == RenamedNode(nodes, k, newPath, i)
  {
    seq(|nodes|, i requires 0 <= i < |nodes| => RenamedNode(nodes, k, newPath, i))
  }

  /** Some descendant's path would not fit any more. */
  predicate RenameOverflows(fs: Fs, oldPath: string, newPath: string)
    requires Shaped(fs)
  {
    exists i :: 0 <= i < MAX_NODES && fs.nodes[i].used && Below(oldPath, fs.nodes[i].path) &&
      |newPath| + |fs.nodes[i].path| - |oldPath| >= MAX_PATH
  }

  function Rename(fs: Fs, oldPath: string, newPath: string): (r: (Fs, bool))
    requires Shaped(fs)
    ensures Shaped(r.0)
  {
    var k := Find(fs, oldPath);
    if k == MAX_NODES || !PathValid(newPath) || Find(fs, newPath) < MAX_NODES ||
      !ParentExists(fs, newPath) then (fs, false)
    else if fs.nodes[k].kind.Directory? && Below(oldPath, newPath) then (fs, false)
    else if RenameOverflows(fs, oldPath, newPath) then (fs, false)
    else (fs.(nodes := RenamedNodes(fs.nodes, k, newPath)), true)
  }

  /** vfs_write for a path outside /disk; the number of bytes written, or -1. */
  function Write(fs: Fs, path: string, offset: nat, buffer: Bytes): (r: (Fs, int))
    requires Shaped(fs)
    ensures Shaped(r.0)
  {
    var i := Find(fs, path);
    if i == MAX_NODES || fs.nodes[i].kind.Directory? || offset > MAX_FILE_SIZE || |buffer| > MAX_FILE_SIZE - offset
    then (fs, -1)
    else
      var n := fs.nodes[i];
      var size := if offset + |buffer| > n.size then offset + |buffer| else n.size;
      (fs.(nodes := fs.nodes[i := n.(data := Overwrite(n.data, offset, buffer), size := size)]), |buffer|)
  }

  /** vfs_truncate for a path outside /disk. */
  function Truncate(fs: Fs, path: string, size: nat): (r: (Fs, bool))
    requires Shaped(fs)
    ensures Shaped(r.0)
  {
    var i := Find(fs, path);
    if i == MAX_NODES || fs.nodes[i].kind.Directory? || size > MAX_FILE_SIZE then (fs, false)
    else
      var n := fs.nodes[i];
      var data := if size > n.size then Overwrite(n.data, n.size, Zeros(size - n.size)) else n.data;
      (fs.(nodes := fs.nodes[i := n.(data := data, size := size)]), true)
  }

  datatype ReadResult = ReadFailed | ReadBytes(bytes: Bytes)

  /** vfs_read for a path outside /disk. */
  function Read(fs: Fs, path: string, offset: nat, size: nat): (r: ReadResult)
    requires Shaped(fs)
  {
    var i := Find(fs, path);
    if i == MAX_NODES || fs.nodes[i].kind.Directory? || offset > fs.nodes[i].size then ReadFailed
    else ReadBytes(Clip(Content(fs.nodes[i]), offset, size))
  }

  // ---- directory listing ----

  /** The search of vfs_list: the index-th used node at or above `i`, or MAX_NODES. */
  function NthUsedFrom(nodes: seq<Node>, i: nat, index: nat): (r: nat)
    requires i <= |nodes|
    ensures i <= r <= |nodes|
    ensures r < |nodes| ==> nodes[r].used
    decreases |nodes| - i
  {
    if i == |nodes| then i
    else if !nodes[i].used then NthUsedFrom(nodes, i + 1, index)
    else if index == 0 then i
    else NthUsedFrom(nodes, i + 1, index - 1)
  }

  datatype ListResult = ListEnd | ListEntry(entry: Entry)

  /** vfs_list. */
  function List(fs: Fs, index: nat): (r: ListResult)
    requires Shaped(fs)
  {
    var i := NthUsedFrom(fs.nodes, 0, index);
    if i == MAX_NODES then ListEnd
    else ListEntry(Entry(fs.nodes[i].path, fs.nodes[i].size, fs.nodes[i].kind))
  }

  datatype Op =
    | OpMkdir(path: string)
    | OpCreate(path: string, data: Bytes)
    | OpRemove(path: string)
    | OpRename(path: string, newPath: string)
    | OpWrite(path: string, offset: nat, buffer: Bytes)
    | OpTruncate(path: string, size: nat)

  function Apply(fs: Fs, op: Op): (r: Fs)
    requires Shaped(fs)
    ensures Shaped(r)
  {
    match op
    case OpMkdir(path) => MakeDirectory(fs, path).0
    case OpCreate(path, data) => CreateFile(fs, path, data).0
    case OpRemove(path) => Remove(fs, path).0
    case OpRename(path, newPath) => Rename(fs, path, newPath).0
    case OpWrite(path, offset, buffer) => Write(fs, path, offset, buffer).0
    case OpTruncate(path, size) => Truncate(fs, path, size).0
  }
}
