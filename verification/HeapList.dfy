/** The linked list of in-memory headers behind kernel/memory/heap.c. Pointers are addresses, 0 is
    null, and memory is the map from header addresses to header contents. Each method is proved to
    compute the corresponding function of module Heap on the list it walks. */
module HeapList {
  import opened Pmm
  import opened Heap
  import HeapRuns

  datatype Header = Header(size: nat, free: bool, next: nat)

  function HeadOf(bs: seq<Block>): nat {
    if bs == [] then 0 else bs[0].addr
  }

  function TailOf(bs: seq<Block>): nat {
    if bs == [] then 0 else bs[|bs| - 1].addr
  }

  /** The pointer to block k; null past the end. */
  function Pointer(bs: seq<Block>, k: nat): nat {
    if k < |bs| then bs[k].addr else 0
  }

  ghost predicate LinkedAt(mem: map<nat, Header>, bs: seq<Block>, i: nat)
    requires i < |bs|
  {
    bs[i].addr != 0 && bs[i].addr in mem && mem[bs[i].addr] == Header(bs[i].size, bs[i].free, Pointer(bs, i + 1))
  }

  /** Memory holds the headers of the list `bs`, linked in order at different addresses. */
  ghost predicate Linked(mem: map<nat, Header>, bs: seq<Block>) {
    && (forall i :: 0 <= i < |bs| ==> LinkedAt(mem, bs, i))
    && (forall i, j :: 0 <= i < j < |bs| ==> bs[i].addr != bs[j].addr)
  }

  /** A pointer into the list is null exactly at its end, and a header says what its block is. */
  lemma PointerStep(mem: map<nat, Header>, bs: seq<Block>, k: nat)
    requires Linked(mem, bs)
    ensures Pointer(bs, k) == 0 <==> k >= |bs|
    ensures k < |bs| ==>
      Pointer(bs, k) in mem && mem[Pointer(bs, k)] == Header(bs[k].size, bs[k].free, Pointer(bs, k + 1))
    ensures k < |bs| ==> (Pointer(bs, k) == TailOf(bs) <==> k == |bs| - 1)
  {
    if k < |bs| { assert LinkedAt(mem, bs, k); }
  }

  /** One look of coalesce_blocks at block k and its successor. */
  lemma {:induction false} CoalesceStep(bs: seq<Block>, k: nat)
    requires k + 1 < |bs|
    ensures Mergeable(bs[k], bs[k + 1]) ==>
      var r := bs[..k] + [Merge(bs[k], bs[k + 1])] + bs[k + 2..];
      r[..k] + Coalesce(r[k..]) == bs[..k] + Coalesce(bs[k..])
    ensures !Mergeable(bs[k], bs[k + 1]) ==> bs[..k + 1] + Coalesce(bs[k + 1..]) == bs[..k] + Coalesce(bs[k..])
  {
    var rest := bs[k..];
    if Mergeable(bs[k], bs[k + 1]) {
      var r := bs[..k] + [Merge(bs[k], bs[k + 1])] + bs[k + 2..];
      assert r[k..] == [Merge(rest[0], rest[1])] + rest[2..] && r[..k] == bs[..k];
    } else {
      assert rest[1..] == bs[k + 1..] && bs[..k + 1] == bs[..k] + [rest[0]];
    }
  }

  // ---- what each pointer update does to the list ----

  lemma {:induction false} SplitDistinct(bs: seq<Block>, k: nat, size: nat)
    requires k < |bs| && Splits(bs[k], size) && forall i, j :: 0 <= i < j < |bs| ==> bs[i].addr != bs[j].addr
    requires forall i :: 0 <= i < |bs| ==> bs[i].addr != bs[k].addr + HEADER + size
    ensures var r := SplitAt(bs, k, size); forall i, j :: 0 <= i < j < |r| ==> r[i].addr != r[j].addr
  {
    var r := SplitAt(bs, k, size);
    forall i | 0 <= i < |r|
      ensures r[i].addr == if i <= k then bs[i].addr else if i == k + 1 then bs[k].addr + HEADER + size
        else bs[i - 1].addr
    {
    }
  }

  lemma LinkedSplit(mem: map<nat, Header>, bs: seq<Block>, k: nat, size: nat, mem': map<nat, Header>)
    requires Linked(mem, bs) && k < |bs| && Splits(bs[k], size)
    requires var next := bs[k].addr + HEADER + size;
      && (forall i :: 0 <= i < |bs| ==> bs[i].addr != next)
      && mem' == mem[next := Header(bs[k].size - size - HEADER, true, Pointer(bs, k + 1))]
                    [bs[k].addr := Header(size, bs[k].free, next)]
    ensures Linked(mem', SplitAt(bs, k, size))
    ensures HeadOf(SplitAt(bs, k, size)) == HeadOf(bs)
    ensures TailOf(SplitAt(bs, k, size)) == if k == |bs| - 1 then bs[k].addr + HEADER + size else TailOf(bs)
  {
    var r := SplitAt(bs, k, size);
    SplitDistinct(bs, k, size);
    forall i: nat | i < |r|
      ensures LinkedAt(mem', r, i)
    {
      if i < k {
        assert LinkedAt(mem, bs, i);
      } else if i > k + 1 {
        assert r[i] == bs[i - 1] && LinkedAt(mem, bs, i - 1);
      } else {
        assert LinkedAt(mem, bs, k);
      }
    }
  }

  lemma LinkedAppend(mem: map<nat, Header>, bs: seq<Block>, b: Block, mem': map<nat, Header>)
    requires Linked(mem, bs) && b.addr != 0 && forall i :: 0 <= i < |bs| ==> bs[i].addr != b.addr
    requires bs == [] ==> mem' == mem[b.addr := Header(b.size, b.free, 0)]
    requires bs != [] ==> TailOf(bs) in mem
    requires bs != [] ==>
      mem' == mem[b.addr := Header(b.size, b.free, 0)][TailOf(bs) := mem[TailOf(bs)].(next := b.addr)]
    ensures Linked(mem', bs + [b])
  {
    var r := bs + [b];
    forall i | 0 <= i < |r|
      ensures LinkedAt(mem', r, i)
    {
      if i < |bs| { assert LinkedAt(mem, bs, i); }
    }
  }

  lemma LinkedFlip(mem: map<nat, Header>, bs: seq<Block>, k: nat, free: bool)
    requires Linked(mem, bs) && k < |bs| && bs[k].addr in mem
    ensures Linked(mem[bs[k].addr := mem[bs[k].addr].(free := free)], bs[k := bs[k].(free := free)])
  {
    var r, mem' := bs[k := bs[k].(free := free)], mem[bs[k].addr := mem[bs[k].addr].(free := free)];
    forall i | 0 <= i < |r|
      ensures LinkedAt(mem', r, i)
    {
      assert LinkedAt(mem, bs, i);
    }
  }

  lemma LinkedMerge(mem: map<nat, Header>, bs: seq<Block>, k: nat)
    requires Linked(mem, bs) && k + 1 < |bs|
    ensures var m := Merge(bs[k], bs[k + 1]);
      && Linked(mem[m.addr := Header(m.size, m.free, Pointer(bs, k + 2))], bs[..k] + [m] + bs[k + 2..])
  {
    var m := Merge(bs[k], bs[k + 1]);
    var r := bs[..k] + [m] + bs[k + 2..];
    var mem' := mem[m.addr := Header(m.size, m.free, Pointer(bs, k + 2))];
    forall i | 0 <= i < |r|
      ensures LinkedAt(mem', r, i)
    {
      if i < k {
        assert LinkedAt(mem, bs, i);
      } else if i > k {
        assert r[i] == bs[i + 1] && LinkedAt(mem, bs, i + 1);
      } else {
        assert LinkedAt(mem, bs, k);
      }
    }
  }

  /** kmalloc after its size checks, on values. */
  lemma KmallocIs(h: State, size: nat, n: nat)
    requires size != 0 && n == AlignUp(size) <= CAPACITY
    ensures var k := FirstFit(h.blocks, n, 0);
      var g := if k < |h.blocks| then h else Grow(h);
      Kmalloc(h, size) == if k == |g.blocks| then (h, 0) else (Take(g, k, n), g.blocks[k].addr + HEADER)
  {
  }

  class KernelHeap {
    const pmm: PageAllocator
    var mem: map<nat, Header>
    var head: nat
    var tail: nat
    var pageCount: nat
    var heapUsed: int
    var start: nat
    var end: nat
    /** The list in order and the pages in grow order. */
    ghost var blocks: seq<Block>
    ghost var pages: seq<nat>

    ghost predicate Valid()
      reads this, pmm, pmm.bitmap
    {
      && pmm.Valid()
      && Linked(mem, blocks)
      && head == HeadOf(blocks) && tail == TailOf(blocks)
      && pageCount == |pages| && HeapRuns.Bounds(pages, start, end)
    }

    ghost function View(): (h: State)
      requires Valid()
      reads this, pmm, pmm.bitmap
    {
      State(blocks, pages, heapUsed, pmm.Used())
    }

    /** heap_init. */
    constructor (allocator: PageAllocator)
      requires allocator.Valid()
      ensures Valid() && pmm == allocator
      ensures View() == State([], [], 0, allocator.Used())
    {
      pmm := allocator;
      mem := map[];
      head, tail, pageCount, heapUsed, start, end := 0, 0, 0, 0, 0, 0;
      blocks, pages := [], [];
    }

    /** find_free_block: the header address, or 0. */
    method FindFree(size: nat) returns (block: nat, ghost k: nat)
      requires Valid()
      ensures k == FirstFit(blocks, size, 0)
      ensures block == Pointer(blocks, FirstFit(blocks, size, 0)) && (block == 0 <==> k == |blocks|)
    {
      block := head;
      k := 0;
      PointerStep(mem, blocks, 0);
      while block != 0
        invariant k <= |blocks| && block == Pointer(blocks, k) && (block == 0 <==> k == |blocks|)
        invariant FirstFit(blocks, size, k) == FirstFit(blocks, size, 0)
        decreases |blocks| - k
      {
        PointerStep(mem, blocks, k);
        if mem[block].free && mem[block].size >= size {
          return;
        }
        block := mem[block].next;
        k := k + 1;
        PointerStep(mem, blocks, k);
      }
    }

    /** split_block. The split-off header is written inside the old block, so its address is new. */
    method Split(block: nat, size: nat, ghost k: nat)
      requires Valid() && k < |blocks| && block == blocks[k].addr && HeapRuns.Sound(View())
      modifies this
      ensures Valid() && View() == old(View()).(blocks := SplitAt(old(blocks), k, size))
    {
      PointerStep(mem, blocks, k);
      if mem[block].size < size + HEADER + MIN_SPLIT {
        return;
      }
      var remaining := mem[block].size - size - HEADER;
      var next := block + HEADER + size;
      forall i | 0 <= i < |blocks|
        ensures blocks[i].addr != next
      {
        if i < k { HeapRuns.BlocksDisjoint(View(), i, k, next); }
        if k < i { HeapRuns.BlocksDisjoint(View(), k, i, next); }
      }
      var mem' := mem[next := Header(remaining, true, mem[block].next)][block := Header(size, mem[block].free, next)];
      LinkedSplit(mem, blocks, k, size, mem');
      mem := mem';
      if tail == block {
        tail := next;
      }
      blocks := SplitAt(blocks, k, size);
    }

    /** grow_heap. */
    method GrowOne() returns (block: nat)
      requires Valid() && HeapRuns.Sound(View())
      modifies this, pmm, pmm.bitmap
      ensures Valid() && View() == Grow(old(View()))
      ensures block == 0 <==> |blocks| == |old(blocks)|
      ensures block != 0 ==> blocks == old(blocks) + [NewBlock(block)]
    {
      ghost var h := View();
      block := pmm.Alloc();
      if block == 0 {
        return;
      }
      NewAddress(h);
      Append(block);
    }

    /** The list part of grow_heap: one more block behind the tail. */
    method Append(block: nat)
      requires Valid() && block != 0 && forall i :: 0 <= i < |blocks| ==> blocks[i].addr != block
      modifies this
      ensures Valid() && heapUsed == old(heapUsed)
      ensures blocks == old(blocks) + [NewBlock(block)] && pages == old(pages) + [block]
    {
      PointerStep(mem, blocks, 0);
      var mem' := mem[block := Header(CAPACITY, true, 0)];
      if head == 0 {
        head := block;
      } else {
        PointerStep(mem, blocks, |blocks| - 1);
        mem' := mem'[tail := mem'[tail].(next := block)];
      }
      LinkedAppend(mem, blocks, NewBlock(block), mem');
      mem := mem';
      tail := block;
      pageCount := pageCount + 1;
      Widen(block);
      blocks := blocks + [NewBlock(block)];
      pages := pages + [block];
    }

    /** The end of grow_heap: the bounds of the heap region. */
    method Widen(page: nat)
      requires page != 0 && HeapRuns.Bounds(pages, start, end)
      modifies `start, `end
      ensures HeapRuns.Bounds(pages + [page], start, end)
    {
      if start == 0 || page < start {
        start := page;
      }
      if page + PAGE_SIZE > end {
        end := page + PAGE_SIZE;
      }
    }

    /** kmalloc. */
    method Allocate(size: nat) returns (ptr: nat)
      requires Valid() && HeapRuns.Inv(View())
      modifies this, pmm, pmm.bitmap
      ensures Valid() && HeapRuns.Inv(View())
      ensures (View(), ptr) == Kmalloc(old(View()), size)
    {
      HeapRuns.KmallocKeeps(View(), size);
      ptr := AllocateSound(size);
    }

    method AllocateSound(size: nat) returns (ptr: nat)
      requires Valid() && HeapRuns.Sound(View())
      modifies this, pmm, pmm.bitmap
      ensures Valid() && (View(), ptr) == Kmalloc(old(View()), size)
    {
      var n := AlignUp(size);
      if size == 0 || n > CAPACITY {
        return 0;
      }
      ghost var h := View();
      ptr := AllocateAligned(n);
      KmallocIs(h, size, n);
    }

    /** kmalloc after its size checks. */
    method AllocateAligned(size: nat) returns (ptr: nat)
      requires Valid() && HeapRuns.Sound(View())
      modifies this, pmm, pmm.bitmap
      ensures Valid()
      ensures var h := old(View());
        var k := FirstFit(h.blocks, size, 0);
        var g := if k < |h.blocks| then h else Grow(h);
        if k == |g.blocks| then View() == h && ptr == 0
        else View() == Take(g, k, size) && ptr == g.blocks[k].addr + HEADER
    {
      ghost var h := View();
      ghost var k;
      var block;
      block, k := FindFree(size);
      if block == 0 {
        block := GrowOne();
        if block == 0 {
          return 0;
        }
        HeapRuns.GrowTiles(h);
      }
      TakeBlock(block, size, k);
      ptr := block + HEADER;
    }

    /** The end of kmalloc: split, mark and count. */
    method TakeBlock(block: nat, size: nat, ghost k: nat)
      requires Valid() && k < |blocks| && block == blocks[k].addr && HeapRuns.Sound(View())
      modifies this
      ensures Valid() && View() == Take(old(View()), k, size)
    {
      Split(block, size, k);
      Occupy(block, k);
    }

    /** Marks a block used and counts its bytes. */
    method Occupy(block: nat, ghost k: nat)
      requires Valid() && k < |blocks| && block == blocks[k].addr
      modifies this
      ensures Valid() && heapUsed == old(heapUsed) + old(blocks)[k].size && pages == old(pages)
      ensures blocks == old(blocks)[k := old(blocks)[k].(free := false)]
    {
      PointerStep(mem, blocks, k);
      LinkedFlip(mem, blocks, k, false);
      mem := mem[block := mem[block].(free := false)];
      heapUsed := heapUsed + mem[block].size;
      blocks := blocks[k := blocks[k].(free := false)];
    }

    /** coalesce_blocks. */
    method CoalesceAll()
      requires Valid()
      modifies this
      ensures Valid() && View() == old(View()).(blocks := Coalesce(old(blocks)))
    {
      var block := head;
      ghost var k := 0;
      PointerStep(mem, blocks, 0);
      assert blocks[0..] == blocks;
      while block != 0 && mem[block].next != 0
        invariant Valid() && pages == old(pages) && heapUsed == old(heapUsed)
        invariant k <= |blocks| && block == Pointer(blocks, k) && (block == 0 <==> k == |blocks|)
        invariant block != 0 ==> block in mem && mem[block].next == Pointer(blocks, k + 1)
        invariant blocks[..k] + Coalesce(blocks[k..]) == Coalesce(old(blocks))
        decreases |blocks| - k
      {
        var next := mem[block].next;
        PointerStep(mem, blocks, k);
        PointerStep(mem, blocks, k + 1);
        CoalesceStep(blocks, k);
        if mem[block].free && mem[next].free && block + HEADER + mem[block].size == next {
          Absorb(block, k);
          PointerStep(mem, blocks, k);
        } else {
          block := next;
          k := k + 1;
          PointerStep(mem, blocks, k);
        }
      }
      PointerStep(mem, blocks, k);
      PointerStep(mem, blocks, k + 1);
      assert blocks == blocks[..k] + blocks[k..];
    }

    /** The merge inside coalesce_blocks: the block takes over its successor. */
    method Absorb(block: nat, ghost k: nat)
      requires Valid() && k + 1 < |blocks| && block == blocks[k].addr
      modifies this
      ensures Valid() && pages == old(pages) && heapUsed == old(heapUsed)
      ensures blocks == old(blocks)[..k] + [Merge(old(blocks)[k], old(blocks)[k + 1])] + old(blocks)[k + 2..]
    {
      PointerStep(mem, blocks, k);
      PointerStep(mem, blocks, k + 1);
      PointerStep(mem, blocks, k + 2);
      var next := mem[block].next;
      LinkedMerge(mem, blocks, k);
      mem := mem[block := Header(mem[block].size + HEADER + mem[next].size, mem[block].free, mem[next].next)];
      if mem[block].next == 0 {
        tail := block;
      }
      blocks := blocks[..k] + [Merge(blocks[k], blocks[k + 1])] + blocks[k + 2..];
    }

    /** kfree. */
    method Release(ptr: nat)
      requires Valid() && HeapRuns.Inv(View()) && Freeable(View(), ptr)
      modifies this
      ensures Valid() && HeapRuns.Inv(View())
      ensures View() == Kfree(old(View()), ptr)
    {
      HeapRuns.KfreeKeeps(View(), ptr);
      if ptr != 0 {
        ReleaseBlock(ptr - HEADER, BlockOf(blocks, ptr, 0));
      }
    }

    /** kfree on the header in front of the payload. */
    method ReleaseBlock(block: nat, ghost k: nat)
      requires Valid() && k < |blocks| && block == blocks[k].addr
      modifies this
      ensures Valid()
      ensures View() == if old(blocks)[k].free then old(View()) else
        old(View()).(blocks := Coalesce(old(blocks)[k := old(blocks)[k].(free := true)]),
          heapUsed := old(heapUsed) - old(blocks)[k].size)
    {
      PointerStep(mem, blocks, k);
      if mem[block].free {
        return;
      }
      LinkedFlip(mem, blocks, k, true);
      heapUsed := heapUsed - mem[block].size;
      mem := mem[block := mem[block].(free := true)];
      blocks := blocks[k := blocks[k].(free := true)];
      CoalesceAll();
    }

    /** heap_free_bytes. */
    method CountFreeBytes() returns (total: nat)
      requires Valid()
      ensures total == HeapRuns.FreeBytes(blocks)
    {
      var block := head;
      total := 0;
      ghost var k := 0;
      PointerStep(mem, blocks, 0);
      assert blocks[0..] == blocks;
      while block != 0
        invariant k <= |blocks| && block == Pointer(blocks, k) && (block == 0 <==> k == |blocks|)
        invariant total + HeapRuns.FreeBytes(blocks[k..]) == HeapRuns.FreeBytes(blocks)
        decreases |blocks| - k
      {
        PointerStep(mem, blocks, k);
        assert blocks[k..][1..] == blocks[k + 1..];
        if mem[block].free {
          total := total + mem[block].size;
        }
        block := mem[block].next;
        k := k + 1;
        PointerStep(mem, blocks, k);
      }
    }
  }

  /** A page that the physical allocator hands out holds no header yet. */
  lemma NewAddress(h: State)
    requires HeapRuns.Sound(h) && LowestFree(h.pmm, 0) < TOTAL_PAGES
    ensures forall i :: 0 <= i < |h.blocks| ==> h.blocks[i].addr != PageAddress(LowestFree(h.pmm, 0))
  {
    var p := LowestFree(h.pmm, 0);
    forall i | 0 <= i < |h.blocks|
      ensures h.blocks[i].addr != PageAddress(p)
    {
      HeapRuns.BlockInPages(h, i, h.blocks[i].addr);
      assert HeapRuns.PageIndex(PageAddress(p)) == p;
    }
  }
}
