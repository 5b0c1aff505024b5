/** What a file is to a caller of the VFS: a sequence of bytes with three operations. Both backends
    are proved to implement these. */
module FileBytes {
  type Byte = b: int | 0 <= b < 256
  type Bytes = seq<Byte>

  /** Overwriting from `offset`, growing the file when the buffer reaches past its end. */
  function Overwrite(content: Bytes, offset: nat, buffer: Bytes): (r: Bytes)
    requires offset <= |content|
    ensures |r| == if offset + |buffer| > |content| then offset + |buffer| else |content|
    ensures r[offset..offset + |buffer|] == buffer
    ensures forall i :: 0 <= i < |content| && !(offset <= i < offset + |buffer|) ==> r[i] == content[i]
  {
    content[..offset] + buffer + if offset + |buffer| < |content| then content[offset + |buffer|..] else []
  }

  function Zeros(n: nat): (r: Bytes)
    ensures |r| == n
    ensures forall i :: 0 <= i < n ==> r[i] == 0
  {
    seq(n, i => 0)
  }

  /** Setting the size, cutting the tail or growing with zero bytes. */
  function Resize(content: Bytes, size: nat): (r: Bytes)
    ensures |r| == size
    ensures forall i :: 0 <= i < size ==> r[i] == if i < |content| then content[i] else 0
  {
    if size <= |content| then content[..size] else content + Zeros(size - |content|)
  }

  /** Reading at most `size` bytes from `offset`, clipped at the end of the file. */
  function Clip(content: Bytes, offset: nat, size: nat): (r: Bytes)
    requires offset <= |content|
    ensures |r| <= size && r <= content[offset..]
    ensures |r| == size || offset + |r| == |content|
  {
    if size < |content| - offset then content[offset..offset + size] else content[offset..]
  }

  /** What a write leaves in a file that is kept at the front of a larger buffer: beyond the end of
      the file the gap is whatever the buffer holds there. */
  function Patched(content: Bytes, stale: Bytes, offset: nat, data: Bytes): (r: Bytes)
    requires |content| <= |stale| && offset <= |stale|
    ensures |r| == if offset + |data| > |content| then offset + |data| else |content|
  {
    if offset <= |content| then Overwrite(content, offset, data) else content + stale[|content|..offset] + data
  }

  /** A write that grows the file with zeros up to the offset first. */
  function SparseWrite(content: Bytes, offset: nat, data: Bytes): (r: Bytes) {
    Overwrite(if offset <= |content| then content else Resize(content, offset), offset, data)
  }

  /** The two agree iff the offset lies within or at the end of the file or the gap happens to be zero. */
  lemma SparseIff(content: Bytes, stale: Bytes, offset: nat, data: Bytes)
    requires |content| <= |stale| && offset <= |stale|
    ensures Patched(content, stale, offset, data) == SparseWrite(content, offset, data) <==>
      offset <= |content| || forall i :: |content| <= i < offset ==> stale[i] == 0
  {
    if |content| < offset {
      var gap, zeros := stale[|content|..offset], Zeros(offset - |content|);
      ZeroGap(content, offset, data);
      SameMiddle(content, gap, zeros, data);
      assert gap == zeros <==> forall i :: 0 <= i < |gap| ==> gap[i] == 0;
      assert forall i :: |content| <= i < offset ==> stale[i] == gap[i - |content|];
    }
  }

  lemma {:induction false} ZeroGap(content: Bytes, offset: nat, data: Bytes)
    requires |content| < offset
    ensures SparseWrite(content, offset, data) == content + Zeros(offset - |content|) + data
  {
    var grown := content + Zeros(offset - |content|);
    assert Resize(content, offset) == grown && grown[..offset] == grown;
  }

  lemma {:induction false} SameMiddle(a: Bytes, x: Bytes, y: Bytes, b: Bytes)
    requires |x| == |y|
    ensures a + x + b == a + y + b <==> x == y
  {
    assert (a + x + b)[|a|..|a| + |x|] == x && (a + y + b)[|a|..|a| + |y|] == y;
  }

  /** Reading back what was just written. */
  lemma PatchedReads(content: Bytes, stale: Bytes, offset: nat, data: Bytes)
    requires |content| <= |stale| && offset <= |stale|
    ensures Clip(Patched(content, stale, offset, data), offset, |data|) == data
  {
  }

  /** Two adjacent overwrites are one. */
  lemma OverwriteAppend(d: Bytes, offset: nat, a: Bytes, b: Bytes)
    requires offset + |a| + |b| <= |d|
    ensures Overwrite(Overwrite(d, offset, a), offset + |a|, b) == Overwrite(d, offset, a + b)
  {
  }
}
