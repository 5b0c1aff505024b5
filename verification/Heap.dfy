/** The kernel heap of kernel/memory/heap.c as a value: the block list in list order, the pages in
    grow order, and the page set of the physical allocator underneath. */
module Heap {
  import opened Pmm

  const HEADER := 24
  const ALIGN := 16
  const MIN_SPLIT := 32
  const CAPACITY := PAGE_SIZE - HEADER
  const U64 := 0x1_0000_0000_0000_0000

  /** `addr` is the address of the block's header; the payload follows it. */
  datatype Block = Block(addr: nat, size: nat, free: bool)

  datatype State = State(blocks: seq<Block>, pages: seq<nat>, heapUsed: int, pmm: set<int>)

  function Len(b: Block): nat {
    HEADER + b.size
  }

  function End(b: Block): nat {
    b.addr + Len(b)
  }

  /** align_up; the addition wraps at 64 bits. */
  function AlignUp(size: nat): (r: nat)
    ensures r % ALIGN == 0
  {
    (size + ALIGN - 1) % U64 / ALIGN * ALIGN
  }

  /** find_free_block: the index of the first free block that is large enough, or |bs|. */
  function FirstFit(bs: seq<Block>, size: nat, i: nat): (r: nat)
    requires i <= |bs|
    ensures i <= r <= |bs|
    ensures r < |bs| ==> bs[r].free && bs[r].size >= size
    ensures forall j :: i <= j < r ==> !(bs[j].free && bs[j].size >= size)
    decreases |bs| - i
  {
    if i == |bs| || (bs[i].free && bs[i].size >= size) then i else FirstFit(bs, size, i + 1)
  }

  predicate Splits(b: Block, size: nat) {
    b.size >= size + HEADER + MIN_SPLIT
  }

  /** split_block on block k. */
  function SplitAt(bs: seq<Block>, k: nat, size: nat): (r: seq<Block>)
    requires k < |bs|
    ensures |r| == if Splits(bs[k], size) then |bs| + 1 else |bs|
  {
    var b := bs[k];
    if !Splits(b, size) then bs
    else bs[..k] + [b.(size := size), Block(b.addr + HEADER + size, b.size - size - HEADER, true)] + bs[k + 1..]
  }

  predicate Mergeable(a: Block, b: Block) {
    a.free && b.free && End(a) == b.addr
  }

  function Merge(a: Block, b: Block): (r: Block)
    ensures Len(r) == Len(a) + Len(b) && r.addr == a.addr && r.free == a.free
  {
    a.(size := a.size + HEADER + b.size)
  }

  /** coalesce_blocks. */
  function Coalesce(bs: seq<Block>): (r: seq<Block>)
    decreases |bs|
  {
    if |bs| < 2 then bs
    else if Mergeable(bs[0], bs[1]) then Coalesce([Merge(bs[0], bs[1])] + bs[2..])
    else [bs[0]] + Coalesce(bs[1..])
  }

  function NewBlock(page: nat): Block {
    Block(page, CAPACITY, true)
  }

  /** grow_heap: the state with one more page, unchanged when no page is free. */
  function Grow(h: State): (r: State)
  {
    var p := LowestFree(h.pmm, 0);
    if p == TOTAL_PAGES then h
    else h.(blocks := h.blocks + [NewBlock(PageAddress(p))], pages := h.pages + [PageAddress(p)], pmm := h.pmm + {p})
  }

  /** Splitting block k and handing it out. */
  function Take(h: State, k: nat, size: nat): (r: State)
    requires k < |h.blocks|
  {
    var split := SplitAt(h.blocks, k, size);
    h.(blocks := split[k := split[k].(free := false)], heapUsed := h.heapUsed + split[k].size)
  }

  /** kmalloc: the new state and the payload address, or 0. */
  function Kmalloc(h: State, size: nat): (r: (State, nat))
  {
    var n := AlignUp(size);
    if size == 0 || n > CAPACITY then (h, 0)
    else
      var k := FirstFit(h.blocks, n, 0);
      var g := if k < |h.blocks| then h else Grow(h);
      if k == |g.blocks| then (h, 0) else (Take(g, k, n), g.blocks[k].addr + HEADER)
  }

  /** The index of the block whose payload starts at `ptr`, or |bs|. */
  function BlockOf(bs: seq<Block>, ptr: nat, i: nat): (r: nat)
    requires i <= |bs|
    ensures i <= r <= |bs|
    ensures r < |bs| ==> bs[r].addr + HEADER == ptr
    ensures forall j :: i <= j < r ==> bs[j].addr + HEADER != ptr
    decreases |bs| - i
  {
    if i == |bs| || bs[i].addr + HEADER == ptr then i else BlockOf(bs, ptr, i + 1)
  }

  /** `ptr` is null or the payload of a block that is still in the list. */
  predicate Freeable(h: State, ptr: nat) {
    ptr == 0 || BlockOf(h.blocks, ptr, 0) < |h.blocks|
  }

  /** kfree. */
  function Kfree(h: State, ptr: nat): (r: State)
    requires Freeable(h, ptr)
  {
    if ptr == 0 then h
    else
      var k := BlockOf(h.blocks, ptr, 0);
      if h.blocks[k].free then h
      else h.(blocks := Coalesce(h.blocks[k := h.blocks[k].(free := true)]), heapUsed := h.heapUsed - h.blocks[k].size)
  }
}
