/** The static node table of kernel/fs/vfs.c as an object updated in place. Each method is proved to
    compute the corresponding function of module RamFs. */
module RamFsTable {
  import opened Paths
  import opened FileBytes
  import opened RamFs

  /** The byte loops: `data[offset + i] = buffer[i]`. */
  method CopyInto(data: Bytes, offset: nat, buffer: Bytes) returns (r: Bytes)
    requires offset + |buffer| <= |data|
    ensures r == Overwrite(data, offset, buffer)
  {
    r := data;
    for i := 0 to |buffer|
      invariant r == data[..offset] + buffer[..i] + data[offset + i..]
    {
      r := r[offset + i := buffer[i]];
    }
  }

  class RamFileSystem {
    const nodes: array<Node>
    var files: int
    var dirs: int

    ghost function View(): (fs: Fs)
      reads this, nodes
    {
      Fs(nodes[..], files, dirs)
    }

    ghost predicate Valid()
      reads this, nodes
    {
      Shaped(View())
    }

    /** vfs_init on zeroed storage. */
    constructor ()
      ensures Valid() && fresh(nodes) && files == 0 && dirs == 0
      ensures forall i :: 0 <= i < MAX_NODES ==> !nodes[i].used
    {
      nodes := new Node[MAX_NODES](i => Node("", Zeros(MAX_FILE_SIZE), 0, File, false));
      files, dirs := 0, 0;
    }

    method Reset()
      requires Valid()
      modifies this, nodes
      ensures Valid() && View() == Fs(Emptied(old(nodes[..])), 0, 0)
    {
      files, dirs := 0, 0;
      for i := 0 to MAX_NODES
        invariant files == 0 && dirs == 0
        invariant forall j :: 0 <= j < MAX_NODES ==>
          nodes[j] == if j < i then old(nodes[j]).(used := false, size := 0, path := "") else old(nodes[j])
      {
        nodes[i] := nodes[i].(used := false, size := 0, path := "");
      }
      assert nodes[..] == Emptied(old(nodes[..]));
    }

    /** vfs_find. */
    method Locate(path: string) returns (i: nat)
      requires Valid()
      ensures i == Find(View(), path)
    {
      i := 0;
      while i < MAX_NODES
        invariant i <= MAX_NODES
        invariant FindFrom(nodes[..], path, i) == Find(View(), path)
      {
        var same := PathEquals(nodes[i].path, path);
        if nodes[i].used && same {
          return;
        }
        i := i + 1;
      }
    }

    /** vfs_parent_exists. */
    method HasParent(path: string) returns (ok: bool)
      requires Valid()
      ensures ok == ParentExists(View(), path)
    {
      var k := FindLastSlash(path);
      if k == 0 {
        return true;
      }
      var i := Locate(path[..k]);
      ok := i < MAX_NODES && nodes[i].kind.Directory?;
    }

    /** vfs_alloc_node. */
    method Allocate() returns (i: nat)
      requires Valid()
      ensures i == FreeFrom(nodes[..], 0)
    {
      i := 0;
      while i < MAX_NODES && nodes[i].used
        invariant i <= MAX_NODES
        invariant FreeFrom(nodes[..], i) == FreeFrom(nodes[..], 0)
      {
        i := i + 1;
      }
    }

    /** Replaces one node of the table. */
    method Put(i: nat, n: Node)
      requires Valid() && i < MAX_NODES && NodeShaped(n)
      modifies nodes
      ensures Valid() && View() == old(View()).(nodes := old(nodes[..])[i := n])
    {
      nodes[i] := n;
      assert nodes[..] == old(nodes[..])[i := n];
    }

    /** vfs_mkdir. */
    method Mkdir(path: string) returns (ok: bool)
      requires Valid()
      modifies this, nodes
      ensures Valid() && (View(), ok) == MakeDirectory(old(View()), path)
    {
      var found := Locate(path);
      var parent := HasParent(path);
      if !PathValid(path) || found < MAX_NODES || !parent || dirs >= MAX_DIRS {
        return false;
      }
      var i := Allocate();
      if i == MAX_NODES {
        return false;
      }
      Put(i, Node(path, nodes[i].data, 0, Directory, true));
      dirs := dirs + 1;
      ok := true;
    }

    /** vfs_create outside /disk. */
    method Create(path: string, data: Bytes) returns (ok: bool)
      requires Valid()
      modifies this, nodes
      ensures Valid() && (View(), ok) == CreateFile(old(View()), path, data)
    {
      var found := Locate(path);
      var parent := HasParent(path);
      if !PathValid(path) || |data| > MAX_FILE_SIZE || found < MAX_NODES || !parent || files >= MAX_FILES {
        return false;
      }
      var i := Allocate();
      if i == MAX_NODES {
        return false;
      }
      var bytes := CopyInto(nodes[i].data, 0, data);
      Put(i, Node(path, bytes, |data|, File, true));
      files := files + 1;
      ok := true;
    }

    /** vfs_remove. */
    method Unlink(path: string) returns (ok: bool)
      requires Valid()
      modifies this, nodes
      ensures Valid() && (View(), ok) == Remove(old(View()), path)
    {
      var node := Locate(path);
      if node == MAX_NODES {
        return false;
      }
      var isDir := nodes[node].kind.Directory?;
      if isDir {
        for i := 0 to MAX_NODES
          invariant View() == old(View())
          invariant forall j :: 0 <= j < i ==> !(nodes[j].used && Below(path, nodes[j].path))
        {
          var below := IsBelow(path, nodes[i].path);
          if nodes[i].used && i != node && below {
            assert HasEntries(View(), path);
            return false;
          }
        }
        assert !HasEntries(View(), path);
      }
      Put(node, nodes[node].(used := false, size := 0, path := ""));
      if isDir {
        dirs := dirs - 1;
      } else {
        files := files - 1;
      }
      ok := true;
    }

    /** The first loop of vfs_rename: does every descendant's new path fit? */
    method DescendantsFit(node: nat, newPath: string) returns (ok: bool)
      requires Valid() && node < MAX_NODES
      ensures ok <==> !RenameOverflows(View(), nodes[node].path, newPath)
    {
      var oldPath := nodes[node].path;
      for i := 0 to MAX_NODES
        invariant forall j :: 0 <= j < i && nodes[j].used && Below(oldPath, nodes[j].path) ==>
          |newPath| + |nodes[j].path| - |oldPath| < MAX_PATH
      {
        if nodes[i].used && i != node {
          var below := IsBelow(oldPath, nodes[i].path);
          if below && |newPath| + (|nodes[i].path| - |oldPath|) >= MAX_PATH {
            return false;
          }
        }
      }
      ok := true;
    }

    /** vfs_rename. */
    method Move(oldPath: string, newPath: string) returns (ok: bool)
      requires Valid()
      modifies nodes
      ensures Valid() && (View(), ok) == Rename(old(View()), oldPath, newPath)
    {
      var node := Locate(oldPath);
      var found := Locate(newPath);
      var parent := HasParent(newPath);
      if node == MAX_NODES || !PathValid(newPath) || found < MAX_NODES || !parent {
        return false;
      }
      var inside := IsBelow(oldPath, newPath);
      if nodes[node].kind.Directory? && inside {
        return false;
      }
      var fits := DescendantsFit(node, newPath);
      if !fits {
        return false;
      }
      for i := 0 to MAX_NODES
        invariant Fs(nodes[..], files, dirs) == old(View()).(nodes := nodes[..])
        invariant nodes[node] == old(nodes[node])
        invariant forall j :: 0 <= j < MAX_NODES && j != node ==>
          nodes[j] == if j < i then RenamedNode(old(nodes[..]), node, newPath, j) else old(nodes[j])
      {
        if nodes[i].used && i != node {
          var below := IsBelow(oldPath, nodes[i].path);
          if below {
            nodes[i] := nodes[i].(path := newPath + nodes[i].path[|oldPath|..]);
          }
        }
      }
      nodes[node] := nodes[node].(path := newPath);
      assert nodes[..] == RenamedNodes(old(nodes[..]), node, newPath);
      ok := true;
    }

    /** vfs_write outside /disk. */
    method WriteAt(path: string, offset: nat, buffer: Bytes) returns (n: int)
      requires Valid()
      modifies nodes
      ensures Valid() && (View(), n) == Write(old(View()), path, offset, buffer)
    {
      var i := Locate(path);
      if i == MAX_NODES || nodes[i].kind.Directory? || offset > MAX_FILE_SIZE || |buffer| > MAX_FILE_SIZE - offset {
        return -1;
      }
      var bytes := CopyInto(nodes[i].data, offset, buffer);
      var size := nodes[i].size;
      if offset + |buffer| > size {
        size := offset + |buffer|;
      }
      Put(i, nodes[i].(data := bytes, size := size));
      n := |buffer|;
    }

    /** vfs_truncate outside /disk. */
    method SetSize(path: string, size: nat) returns (ok: bool)
      requires Valid()
      modifies nodes
      ensures Valid() && (View(), ok) == Truncate(old(View()), path, size)
    {
      var i := Locate(path);
      if i == MAX_NODES || nodes[i].kind.Directory? || size > MAX_FILE_SIZE {
        return false;
      }
      var bytes := nodes[i].data;
      if size > nodes[i].size {
        bytes := CopyInto(bytes, nodes[i].size, Zeros(size - nodes[i].size));
      }
      Put(i, nodes[i].(data := bytes, size := size));
      ok := true;
    }

    /** vfs_read outside /disk. */
    method ReadAt(path: string, offset: nat, size: nat) returns (r: ReadResult)
      requires Valid()
      ensures r == Read(View(), path, offset, size)
    {
      var i := Locate(path);
      if i == MAX_NODES || nodes[i].kind.Directory? || offset > nodes[i].size {
        return ReadFailed;
      }
      var count := if size > nodes[i].size - offset then nodes[i].size - offset else size;
      var bytes: Bytes := [];
      for k := 0 to count
        invariant bytes == nodes[i].data[offset..offset + k]
      {
        bytes := bytes + [nodes[i].data[offset + k]];
      }
      r := ReadBytes(bytes);
      assert bytes == Clip(Content(nodes[i]), offset, size);
    }

    /** vfs_list. */
    method ListAt(index: nat) returns (r: ListResult)
      requires Valid()
      ensures r == List(View(), index)
    {
      var current := 0;
      for i := 0 to MAX_NODES
        invariant current <= index
        invariant NthUsedFrom(nodes[..], i, index - current) == NthUsedFrom(nodes[..], 0, index)
      {
        if nodes[i].used {
          if current == index {
            return ListEntry(Entry(nodes[i].path, nodes[i].size, nodes[i].kind));
          }
          current := current + 1;
        }
      }
      r := ListEnd;
    }
  }
}
