/** Whole-run properties of the heap: the block list tiles the grown pages, byte accounting is exact,
    free neighbours never stay apart, and live payloads never overlap each other or reserved memory. */
module HeapRuns {
  import opened Pmm
  import opened Heap

  // ---- tiling ----

  /** Pages in grow order form one linear range; this is the address of its x-th byte. */
  function Phys(pages: seq<nat>, x: nat): nat
    requires x < PAGE_SIZE * |pages|
  {
    pages[x / PAGE_SIZE] + x % PAGE_SIZE
  }

  /** Header and payload of `b` are the bytes from position x of the linear range on. */
  ghost predicate Fits(b: Block, pages: seq<nat>, x: nat) {
    && x + Len(b) <= PAGE_SIZE * |pages|
    && forall y :: x <= y < x + Len(b) ==> Phys(pages, y) == b.addr + (y - x)
  }

  ghost predicate FitsAll(bs: seq<Block>, pages: seq<nat>, x: nat)
    decreases |bs|
  {
    bs == [] || (Fits(bs[0], pages, x) && FitsAll(bs[1..], pages, x + Len(bs[0])))
  }

  function Total(bs: seq<Block>): nat {
    if bs == [] then 0 else Len(bs[0]) + Total(bs[1..])
  }

  function UsedBytes(bs: seq<Block>): nat {
    if bs == [] then 0 else (if bs[0].free then 0 else bs[0].size) + UsedBytes(bs[1..])
  }

  function FreeBytes(bs: seq<Block>): nat {
    if bs == [] then 0 else (if bs[0].free then bs[0].size else 0) + FreeBytes(bs[1..])
  }

  /** The list, read in order, is exactly the grown pages in grow order: no gap, no overlap, nothing left over. */
  ghost predicate Tiles(bs: seq<Block>, pages: seq<nat>) {
    FitsAll(bs, pages, 0) && Total(bs) == PAGE_SIZE * |pages|
  }

  /** No two list neighbours that touch are both free. */
  predicate Settled(bs: seq<Block>) {
    forall i {:trigger bs[i]} :: 0 <= i < |bs| - 1 ==> !Mergeable(bs[i], bs[i + 1])
  }

  /** The grown pages are distinct pages held in the physical allocator. */
  ghost predicate Held(pages: seq<nat>, pmm: set<int>) {
    && (forall i :: 0 <= i < |pages| ==> PageIndex(pages[i]) in pmm && pages[i] == PageAddress(PageIndex(pages[i])))
    && (forall i, j :: 0 <= i < j < |pages| ==> pages[i] != pages[j])
  }

  function PageIndex(address: int): int {
    (address - RAM_BASE) / PAGE_SIZE
  }

  /** The part of the invariant that also holds between the steps of one kmalloc. */
  ghost predicate Sound(h: State) {
    Held(h.pages, h.pmm) && Tiles(h.blocks, h.pages)
  }

  ghost predicate Inv(h: State) {
    && Sound(h)
    && Settled(h.blocks)
    && h.heapUsed == UsedBytes(h.blocks)
  }

  // ---- concatenation ----

  lemma {:induction false} Concat(a: seq<Block>, b: seq<Block>, pages: seq<nat>, x: nat)
    ensures FitsAll(a + b, pages, x) <==> FitsAll(a, pages, x) && FitsAll(b, pages, x + Total(a))
    ensures Total(a + b) == Total(a) + Total(b)
    ensures UsedBytes(a + b) == UsedBytes(a) + UsedBytes(b)
    ensures FreeBytes(a + b) == FreeBytes(a) + FreeBytes(b)
    decreases |a|
  {
    if a == [] {
      assert a + b == b;
    } else {
      assert (a + b)[1..] == a[1..] + b;
      Concat(a[1..], b, pages, x + Len(a[0]));
    }
  }

  /** Replacing some blocks of a tiling by others over the same bytes. */
  lemma {:induction false} Replace(bs: seq<Block>, bs': seq<Block>, pre: seq<Block>, mid: seq<Block>, mid': seq<Block>,
      post: seq<Block>, pages: seq<nat>)
    requires bs == pre + mid + post && bs' == pre + mid' + post
    requires Tiles(bs, pages)
    requires Total(mid') == Total(mid) && (FitsAll(mid, pages, Total(pre)) ==> FitsAll(mid', pages, Total(pre)))
    ensures Tiles(bs', pages)
    ensures UsedBytes(bs') == UsedBytes(bs) - UsedBytes(mid) + UsedBytes(mid')
  {
    ConcatThree(bs, pre, mid, post, pages);
    ConcatThree(bs', pre, mid', post, pages);
  }

  lemma {:induction false} ConcatThree(bs: seq<Block>, pre: seq<Block>, mid: seq<Block>, post: seq<Block>,
      pages: seq<nat>)
    requires bs == pre + mid + post
    ensures FitsAll(bs, pages, 0) <==>
      FitsAll(pre, pages, 0) && FitsAll(mid, pages, Total(pre)) && FitsAll(post, pages, Total(pre) + Total(mid))
    ensures Total(bs) == Total(pre) + Total(mid) + Total(post)
    ensures UsedBytes(bs) == UsedBytes(pre) + UsedBytes(mid) + UsedBytes(post)
  {
    Concat(pre + mid, post, pages, 0);
    Concat(pre, mid, pages, 0);
  }

  lemma {:induction false} SingleFits(b: Block, pages: seq<nat>, x: nat)
    ensures FitsAll([b], pages, x) <==> Fits(b, pages, x)
    ensures Total([b]) == Len(b) && UsedBytes([b]) == (if b.free then 0 else b.size)
  {
    assert [b][1..] == [];
  }

  lemma {:induction false} PairFits(a: Block, b: Block, pages: seq<nat>, x: nat)
    ensures FitsAll([a, b], pages, x) <==> Fits(a, pages, x) && Fits(b, pages, x + Len(a))
    ensures Total([a, b]) == Len(a) + Len(b)
    ensures UsedBytes([a, b]) == (if a.free then 0 else a.size) + (if b.free then 0 else b.size)
  {
    assert [a, b][1..] == [b];
    SingleFits(b, pages, x + Len(a));
  }

  // ---- split ----

  lemma {:induction false} SplitBlockFits(b: Block, lo: Block, hi: Block, pages: seq<nat>, x: nat)
    requires lo.addr == b.addr && hi.addr == End(lo) && Len(lo) + Len(hi) == Len(b)
    requires lo.free == hi.free == b.free == true
    ensures FitsAll([b], pages, x) ==> FitsAll([lo, hi], pages, x)
    ensures Total([lo, hi]) == Total([b]) && UsedBytes([lo, hi]) == UsedBytes([b])
  {
    SingleFits(b, pages, x);
    PairFits(lo, hi, pages, x);
  }

  // ---- coalesce ----

  lemma {:induction false} MergeFits(a: Block, b: Block, pages: seq<nat>, x: nat)
    requires Mergeable(a, b)
    ensures FitsAll([a, b], pages, x) ==> FitsAll([Merge(a, b)], pages, x)
    ensures Total([Merge(a, b)]) == Total([a, b]) && UsedBytes([Merge(a, b)]) == UsedBytes([a, b])
  {
    var m := Merge(a, b);
    SingleFits(m, pages, x);
    PairFits(a, b, pages, x);
  }

  /** Coalescing settles any list, keeps its head where it is, and keeps tiling and byte counts. */
  lemma {:induction false} CoalesceKeeps(bs: seq<Block>, pages: seq<nat>, x: nat)
    ensures Settled(Coalesce(bs))
    ensures bs != [] ==> Coalesce(bs) != [] && Coalesce(bs)[0].addr == bs[0].addr && Coalesce(bs)[0].free == bs[0].free
    ensures FitsAll(bs, pages, x) ==> FitsAll(Coalesce(bs), pages, x)
    ensures Total(Coalesce(bs)) == Total(bs) && UsedBytes(Coalesce(bs)) == UsedBytes(bs)
    decreases |bs|
  {
    if |bs| >= 2 {
      if Mergeable(bs[0], bs[1]) {
        var m := Merge(bs[0], bs[1]);
        assert bs == [bs[0], bs[1]] + bs[2..];
        MergeFits(bs[0], bs[1], pages, x);
        Concat([bs[0], bs[1]], bs[2..], pages, x);
        Concat([m], bs[2..], pages, x);
        CoalesceKeeps([m] + bs[2..], pages, x);
      } else {
        CoalesceKeeps(bs[1..], pages, x + Len(bs[0]));
        var r := Coalesce(bs[1..]);
        assert ([bs[0]] + r)[1..] == r;
        forall i {:trigger Coalesce(bs)[i]} | 0 <= i < |Coalesce(bs)| - 1
          ensures !Mergeable(Coalesce(bs)[i], Coalesce(bs)[i + 1])
        {
          if i > 0 { assert Coalesce(bs)[i] == r[i - 1] && Coalesce(bs)[i + 1] == r[i]; }
        }
      }
    }
  }

  // ---- grow ----

  lemma {:induction false} MorePages(bs: seq<Block>, pages: seq<nat>, page: nat, x: nat)
    requires FitsAll(bs, pages, x)
    ensures FitsAll(bs, pages + [page], x)
    decreases |bs|
  {
    if bs != [] {
      MorePages(bs[1..], pages, page, x + Len(bs[0]));
      forall y | x <= y < x + Len(bs[0])
        ensures Phys(pages + [page], y) == bs[0].addr + (y - x)
      {
        assert Phys(pages, y) == bs[0].addr + (y - x);
      }
    }
  }

  lemma {:induction false} GrowTiles(h: State)
    requires Sound(h) && LowestFree(h.pmm, 0) < TOTAL_PAGES
    ensures Sound(Grow(h))
    ensures UsedBytes(Grow(h).blocks) == UsedBytes(h.blocks)
  {
    var p := LowestFree(h.pmm, 0);
    var page := PageAddress(p);
    var b, pages' := NewBlock(page), h.pages + [page];
    MorePages(h.blocks, h.pages, page, 0);
    SingleFits(b, pages', PAGE_SIZE * |h.pages|);
    Concat(h.blocks, [b], pages', 0);
    assert PageIndex(page) == p;
  }

  // ---- allocate ----

  /** Changing only the free flag of one block keeps the tiling and moves its size between the counts. */
  lemma {:induction false} FlipTiles(bs: seq<Block>, k: nat, b: Block, pages: seq<nat>)
    requires Tiles(bs, pages) && k < |bs| && b.addr == bs[k].addr && b.size == bs[k].size
    ensures Tiles(bs[k := b], pages)
    ensures UsedBytes(bs[k := b]) == UsedBytes(bs) - (if bs[k].free then 0 else b.size) + (if b.free then 0 else b.size)
  {
    assert bs == bs[..k] + [bs[k]] + bs[k + 1..];
    assert bs[k := b] == bs[..k] + [b] + bs[k + 1..];
    SingleFits(bs[k], pages, Total(bs[..k]));
    SingleFits(b, pages, Total(bs[..k]));
    Replace(bs, bs[k := b], bs[..k], [bs[k]], [b], bs[k + 1..], pages);
  }

  /** Handing out block k, where either the list was settled or k is the page just grown. */
  lemma {:induction false} TakeKeeps(h: State, k: nat, size: nat)
    requires Sound(h) && h.heapUsed == UsedBytes(h.blocks)
    requires k < |h.blocks| && h.blocks[k].free && h.blocks[k].size >= size
    requires forall i {:trigger h.blocks[i]} :: 0 <= i < |h.blocks| - 1 ==>
      i + 1 == k || !Mergeable(h.blocks[i], h.blocks[i + 1])
    ensures Inv(Take(h, k, size))
  {
    var split := SplitAt(h.blocks, k, size);
    SplitTiles(h.blocks, k, size, h.pages);
    FlipTiles(split, k, split[k].(free := false), h.pages);
    TakeSettles(h.blocks, k, size);
  }

  lemma {:induction false} TakeSettles(bs: seq<Block>, k: nat, size: nat)
    requires k < |bs| && bs[k].free
    requires forall i {:trigger bs[i]} :: 0 <= i < |bs| - 1 ==> i + 1 == k || !Mergeable(bs[i], bs[i + 1])
    ensures var split := SplitAt(bs, k, size); Settled(split[k := split[k].(free := false)])
  {
    var split := SplitAt(bs, k, size);
    var r := split[k := split[k].(free := false)];
    forall i {:trigger r[i]} | 0 <= i < |r| - 1
      ensures !Mergeable(r[i], r[i + 1])
    {
      if i < k {
        assert r[i] == bs[i];
        if i + 1 < k { assert r[i + 1] == bs[i + 1]; }
      } else if i > k {
        if Splits(bs[k], size) {
          assert End(r[i]) == End(bs[i - 1]) && r[i].free == bs[i - 1].free && r[i + 1] == bs[i];
        } else {
          assert r[i] == bs[i] && r[i + 1] == bs[i + 1];
        }
      }
    }
  }

  lemma {:induction false} SplitTiles(bs: seq<Block>, k: nat, size: nat, pages: seq<nat>)
    requires Tiles(bs, pages) && k < |bs| && bs[k].free
    ensures Tiles(SplitAt(bs, k, size), pages)
    ensures UsedBytes(SplitAt(bs, k, size)) == UsedBytes(bs)
    ensures SplitAt(bs, k, size)[k].free && SplitAt(bs, k, size)[k].addr == bs[k].addr
  {
    var b, r := bs[k], SplitAt(bs, k, size);
    if Splits(b, size) {
      assert bs == bs[..k] + [b] + bs[k + 1..];
      SplitBlockFits(b, r[k], r[k + 1], pages, Total(bs[..k]));
      Replace(bs, r, bs[..k], [b], [r[k], r[k + 1]], bs[k + 1..], pages);
    }
  }

  lemma {:induction false} KmallocKeeps(h: State, size: nat)
    requires Inv(h)
    ensures Inv(Kmalloc(h, size).0)
  {
    var n := AlignUp(size);
    if size != 0 && n <= CAPACITY {
      var k := FirstFit(h.blocks, n, 0);
      if k < |h.blocks| {
        TakeKeeps(h, k, n);
      } else if LowestFree(h.pmm, 0) < TOTAL_PAGES {
        GrowTiles(h);
        var g := Grow(h);
        forall i {:trigger g.blocks[i]} | 0 <= i < |g.blocks| - 1
          ensures i + 1 == k || !Mergeable(g.blocks[i], g.blocks[i + 1])
        {
          if i + 1 != k { assert g.blocks[i] == h.blocks[i] && g.blocks[i + 1] == h.blocks[i + 1]; }
        }
        TakeKeeps(g, k, n);
      }
    }
  }

  lemma {:induction false} KfreeKeeps(h: State, ptr: nat)
    requires Inv(h) && Freeable(h, ptr)
    ensures Inv(Kfree(h, ptr))
  {
    var k := BlockOf(h.blocks, ptr, 0);
    if ptr != 0 && !h.blocks[k].free {
      var freed := h.blocks[k := h.blocks[k].(free := true)];
      FlipTiles(h.blocks, k, freed[k], h.pages);
      CoalesceKeeps(freed, h.pages, 0);
    }
  }

  // ---- what the tiling gives a caller ----

  lemma {:induction false} FitsAt(bs: seq<Block>, pages: seq<nat>, x: nat, i: nat)
    requires FitsAll(bs, pages, x) && i < |bs|
    ensures Fits(bs[i], pages, x + Total(bs[..i]))
    decreases |bs|
  {
    if i == 0 {
      assert bs[..0] == [];
    } else {
      FitsAt(bs[1..], pages, x + Len(bs[0]), i - 1);
      assert bs[..i][1..] == bs[1..][..i - 1];
    }
  }

  lemma {:induction false} TotalGrows(bs: seq<Block>, i: nat, j: nat)
    requires i < j <= |bs|
    ensures Total(bs[..i]) + Len(bs[i]) <= Total(bs[..j])
  {
    assert bs[..j] == bs[..i] + [bs[i]] + bs[i + 1..j];
    ConcatThree(bs[..j], bs[..i], [bs[i]], bs[i + 1..j], []);
    SingleFits(bs[i], [], 0);
  }

  /** Distinct positions of the grown pages are distinct addresses. */
  lemma {:induction false} PhysInjective(pages: seq<nat>, pmm: set<int>, x: nat, y: nat)
    requires Held(pages, pmm) && x < y < PAGE_SIZE * |pages|
    ensures Phys(pages, x) != Phys(pages, y)
  {
    var a, b := pages[x / PAGE_SIZE], pages[y / PAGE_SIZE];
    assert a == PageAddress(PageIndex(a)) && b == PageAddress(PageIndex(b));
  }

  /** Address a belongs to block b, header included. */
  predicate Covers(b: Block, a: int) {
    b.addr <= a < End(b)
  }

  /** No byte belongs to two blocks. */
  lemma {:induction false} BlocksDisjoint(h: State, i: nat, j: nat, a: int)
    requires Sound(h) && i < j < |h.blocks|
    ensures !(Covers(h.blocks[i], a) && Covers(h.blocks[j], a))
  {
    var xi, xj := Total(h.blocks[..i]), Total(h.blocks[..j]);
    FitsAt(h.blocks, h.pages, 0, i);
    FitsAt(h.blocks, h.pages, 0, j);
    TotalGrows(h.blocks, i, j);
    if Covers(h.blocks[i], a) && Covers(h.blocks[j], a) {
      PhysInjective(h.pages, h.pmm, xi + (a - h.blocks[i].addr), xj + (a - h.blocks[j].addr));
      assert false;
    }
  }

  /** Every byte of a block lies in a page that the heap holds. */
  lemma {:induction false} BlockInPages(h: State, i: nat, a: int)
    requires Sound(h) && i < |h.blocks| && Covers(h.blocks[i], a)
    ensures PageIndex(a) in h.pmm && PageAddress(PageIndex(a)) in h.pages
  {
    FitsAt(h.blocks, h.pages, 0, i);
    var y := Total(h.blocks[..i]) + (a - h.blocks[i].addr);
    assert Phys(h.pages, y) == a;
    var page := h.pages[y / PAGE_SIZE];
    assert page == PageAddress(PageIndex(page));
    assert PageIndex(a) == PageIndex(page);
  }

  /** Header addresses identify blocks. */
  lemma {:induction false} AddressesDistinct(h: State)
    requires Sound(h)
    ensures forall i, j :: 0 <= i < j < |h.blocks| ==> h.blocks[i].addr != h.blocks[j].addr
  {
    forall i, j | 0 <= i < j < |h.blocks|
      ensures h.blocks[i].addr != h.blocks[j].addr
    {
      BlocksDisjoint(h, i, j, h.blocks[i].addr);
    }
  }

  /** heap_start and heap_end: the bounds of the grown pages, 0 before the first. */
  ghost predicate Bounds(pages: seq<nat>, start: nat, end: nat) {
    && (forall i :: 0 <= i < |pages| ==> 0 < start <= pages[i] && pages[i] + PAGE_SIZE <= end)
    && (if pages == [] then start == 0 && end == 0 else start in pages && end >= PAGE_SIZE && end - PAGE_SIZE in pages)
  }

  /** Every byte of a block lies in the reported heap region. */
  lemma {:induction false} BlockInRegion(h: State, start: nat, end: nat, i: nat, a: int)
    requires Sound(h) && Bounds(h.pages, start, end) && i < |h.blocks| && Covers(h.blocks[i], a)
    ensures start <= a < end
  {
    BlockInPages(h, i, a);
    assert PageAddress(PageIndex(a)) <= a < PageAddress(PageIndex(a)) + PAGE_SIZE;
  }

  /** The allocated blocks. */
  function Live(bs: seq<Block>): (r: set<Block>)
  {
    set b | b in bs && !b.free
  }

  lemma {:induction false} LiveCons(b: Block, bs: seq<Block>)
    ensures Live([b] + bs) == Live([b]) + Live(bs)
  {
  }

  lemma {:induction false} CoalesceLive(bs: seq<Block>)
    ensures Live(Coalesce(bs)) == Live(bs)
    decreases |bs|
  {
    if |bs| >= 2 {
      if Mergeable(bs[0], bs[1]) {
        CoalesceLive([Merge(bs[0], bs[1])] + bs[2..]);
        assert bs == [bs[0], bs[1]] + bs[2..];
      } else {
        CoalesceLive(bs[1..]);
        LiveCons(bs[0], bs[1..]);
        LiveCons(bs[0], Coalesce(bs[1..]));
        assert bs == [bs[0]] + bs[1..];
      }
    }
  }

  lemma {:induction false} TakeLive(bs: seq<Block>, k: nat, size: nat)
    requires k < |bs| && bs[k].free
    ensures var split := SplitAt(bs, k, size); var b := split[k].(free := false);
      Live(split[k := b]) == Live(bs) + {b}
  {
    var split := SplitAt(bs, k, size);
    var b := split[k].(free := false);
    assert bs == bs[..k] + [bs[k]] + bs[k + 1..];
    if Splits(bs[k], size) {
      assert split[k := b] == bs[..k] + [b, split[k + 1]] + bs[k + 1..];
    } else {
      assert split[k := b] == bs[..k] + [b] + bs[k + 1..];
    }
  }

  /** split_block: a block is cut iff at least 32 bytes and a header remain; the front then has exactly
      the size asked for and the rest is one free block right behind it. */
  lemma {:induction false} SplitMeaning(bs: seq<Block>, k: nat, size: nat)
    requires k < |bs|
    ensures var split := SplitAt(bs, k, size);
      if bs[k].size < size + 56 then split == bs
      else
        && |split| == |bs| + 1 && split[..k] == bs[..k] && split[k + 2..] == bs[k + 1..]
        && split[k] == bs[k].(size := size) && split[k + 1].addr == End(split[k]) && split[k + 1].free
        && split[k + 1].size >= 32 && End(split[k + 1]) == End(bs[k])
  {
  }

  /** kmalloc adds exactly one live block and moves or resizes none. The block is at least as large as
      the aligned size, and by less than a header and the smallest block larger; kmalloc fails only for
      a size of 0, a size above one page's capacity, or when neither a block nor a page is free. */
  lemma {:induction false} KmallocAllocates(h: State, size: nat)
    requires Inv(h)
    ensures var (h', ptr) := Kmalloc(h, size);
      && (ptr == 0 ==> h' == h)
      && (ptr != 0 ==> exists b :: b in h'.blocks && !b.free && b.addr + HEADER == ptr &&
                         AlignUp(size) <= b.size < AlignUp(size) + 56 &&
                         Live(h'.blocks) == Live(h.blocks) + {b} && h'.heapUsed == h.heapUsed + b.size)
    ensures Kmalloc(h, size).1 == 0 <==>
      || size == 0 || AlignUp(size) > 4096 - 24
      || (FirstFit(h.blocks, AlignUp(size), 0) == |h.blocks| && LowestFree(h.pmm, 0) == TOTAL_PAGES)
  {
    var n := AlignUp(size);
    if size != 0 && n <= CAPACITY {
      var k := FirstFit(h.blocks, n, 0);
      var g := if k < |h.blocks| then h else Grow(h);
      if k < |g.blocks| {
        TakeLive(g.blocks, k, n);
        assert Live(g.blocks) == Live(h.blocks);
        TakenBlock(g, k, n);
      }
    }
  }

  lemma {:induction false} TakenBlock(g: State, k: nat, n: nat)
    requires k < |g.blocks| && g.blocks[k].size >= n
    ensures var g' := Take(g, k, n); var b := SplitAt(g.blocks, k, n)[k].(free := false);
      && k < |g'.blocks| && g'.blocks[k] == b && b in g'.blocks && b.addr == g.blocks[k].addr
      && n <= b.size < n + 56 && g'.heapUsed == g.heapUsed + b.size
  {
    SplitMeaning(g.blocks, k, n);
    assert Take(g, k, n).blocks[k] in Take(g, k, n).blocks;
  }

  /** Which block it is: the first free one of the list that is large enough, and no page is taken;
      or, if there is none, the start of the lowest free page, which joins the heap. */
  lemma {:induction false} KmallocFirstFit(h: State, size: nat, k: nat)
    requires Kmalloc(h, size).1 != 0 && k < |h.blocks|
    requires h.blocks[k].free && h.blocks[k].size >= AlignUp(size)
    requires forall j :: 0 <= j < k ==> !(h.blocks[j].free && h.blocks[j].size >= AlignUp(size))
    ensures var (h', ptr) := Kmalloc(h, size);
      ptr == h.blocks[k].addr + HEADER && h'.pages == h.pages && h'.pmm == h.pmm
  {
    assert FirstFit(h.blocks, AlignUp(size), 0) == k;
  }

  lemma {:induction false} KmallocGrows(h: State, size: nat)
    requires Inv(h) && Kmalloc(h, size).1 != 0
    requires forall j :: 0 <= j < |h.blocks| ==> !(h.blocks[j].free && h.blocks[j].size >= AlignUp(size))
    ensures var (h', ptr) := Kmalloc(h, size); var p := LowestFree(h.pmm, 0);
      && p !in h.pmm && (forall q :: 0 <= q < p ==> q in h.pmm)
      && ptr == PageAddress(p) + HEADER && h'.pages == h.pages + [PageAddress(p)] && h'.pmm == h.pmm + {p}
  {
    assert FirstFit(h.blocks, AlignUp(size), 0) == |h.blocks|;
  }

  /** align_up never loses bytes unless the 64-bit addition wraps. */
  lemma AlignUpCoversIff(size: nat)
    requires size < U64
    ensures AlignUp(size) >= size <==> size <= 0x1_0000_0000_0000_0000 - 16
    ensures size <= 0x1_0000_0000_0000_0000 - 16 ==> AlignUp(size) < size + 16 && AlignUp(size) % 16 == 0
  {
  }

  /** What callers get: a payload at least as large as asked for iff the request is at most 2^64 - 16.
      Above that the wrapped size is 0 and kmalloc hands out a block that is too small. */
  lemma {:induction false} KmallocCoversIff(h: State, size: nat, b: Block)
    requires Inv(h) && 0 < size < U64 && Kmalloc(h, size).1 != 0
    requires b in Kmalloc(h, size).0.blocks && b.addr + HEADER == Kmalloc(h, size).1
    ensures b.size >= size <==> size <= 0x1_0000_0000_0000_0000 - 16
  {
    var n, h' := AlignUp(size), Kmalloc(h, size).0;
    var k := FirstFit(h.blocks, n, 0);
    var g := if k < |h.blocks| then h else Grow(h);
    KmallocKeeps(h, size);
    AddressesDistinct(h');
    AlignUpCoversIff(size);
    assert h'.blocks[k].addr + HEADER == Kmalloc(h, size).1 && h'.blocks[k].size == SplitAt(g.blocks, k, n)[k].size;
    assert b == h'.blocks[k];
    if size > U64 - ALIGN { WrappedIsZero(size); }
  }

  lemma WrappedIsZero(size: nat)
    requires U64 - ALIGN < size < U64
    ensures AlignUp(size) == 0
  {
    assert (size + ALIGN - 1) % U64 == size + ALIGN - 1 - U64;
  }

  /** kfree gives back exactly the block of `ptr`; every other live block stays where it is. A second
      free of a block that is still in the list changes nothing. */
  lemma {:induction false} KfreeReleases(h: State, ptr: nat)
    requires Inv(h) && Freeable(h, ptr) && ptr != 0
    ensures var b := h.blocks[BlockOf(h.blocks, ptr, 0)];
      && Live(Kfree(h, ptr).blocks) == Live(h.blocks) - {b}
      && Kfree(h, ptr).heapUsed == h.heapUsed - (if b.free then 0 else b.size)
      && Kfree(h, ptr).pages == h.pages
  {
    var k := BlockOf(h.blocks, ptr, 0);
    var b := h.blocks[k];
    if b.free {
      assert Live(h.blocks) - {b} == Live(h.blocks);
    } else {
      var freed := h.blocks[k := b.(free := true)];
      AddressesDistinct(h);
      CoalesceLive(freed);
      FreedLive(h.blocks, k);
    }
  }

  /** Marking a block free takes exactly it out of the live ones. */
  lemma {:induction false} FreedLive(bs: seq<Block>, k: nat)
    requires k < |bs| && !bs[k].free && forall i, j :: 0 <= i < j < |bs| ==> bs[i].addr != bs[j].addr
    ensures Live(bs[k := bs[k].(free := true)]) == Live(bs) - {bs[k]}
  {
    var freed := bs[k := bs[k].(free := true)];
    forall c
      ensures c in Live(freed) <==> c in Live(bs) - {bs[k]}
    {
      if c in Live(freed) {
        var i :| 0 <= i < |freed| && freed[i] == c;
        assert i != k && bs[i] == c;
      }
      if c in Live(bs) - {bs[k]} {
        var i :| 0 <= i < |bs| && bs[i] == c;
        assert i != k && freed[i] == c;
      }
    }
  }

  // ---- byte statistics ----

  lemma {:induction false} SumOfSizes(bs: seq<Block>)
    ensures Total(bs) == UsedBytes(bs) + FreeBytes(bs) + HEADER * |bs|
    decreases |bs|
  {
    if bs != [] { SumOfSizes(bs[1..]); }
  }

  /** heap_overhead_bytes: what it reports is 24 bytes for every block beyond one per page, and 0
      once merging across pages has left fewer blocks than pages. */
  function Overhead(h: State): (r: int)
    ensures r >= 0
  {
    var total := |h.pages| * CAPACITY;
    if total < UsedBytes(h.blocks) + FreeBytes(h.blocks) then 0 else total - UsedBytes(h.blocks) - FreeBytes(h.blocks)
  }

  lemma {:induction false} ByteAccounting(h: State)
    requires Inv(h)
    ensures h.heapUsed + FreeBytes(h.blocks) + 24 * |h.blocks| == 4096 * |h.pages|
    ensures Overhead(h) == if |h.blocks| < |h.pages| then 0 else 24 * (|h.blocks| - |h.pages|)
  {
    SumOfSizes(h.blocks);
  }

  // ---- runs ----

  /** The heap's operations, and other users of the physical allocator. */
  datatype Op = Malloc(size: nat) | Free(ptr: nat) | OtherAlloc | OtherFree(page: int)

  /** Callers free only what they were given: the heap a payload still in its list, other users
      neither a page of the heap nor a reserved page. */
  predicate Allowed(h: State, reserved: set<int>, op: Op) {
    match op
    case Free(ptr) => Freeable(h, ptr)
    case OtherFree(page) => page !in reserved && PageAddress(page) !in h.pages
    case _ => true
  }

  function Apply(h: State, reserved: set<int>, op: Op): (r: State)
    requires Allowed(h, reserved, op)
  {
    match op
    case Malloc(size) => Kmalloc(h, size).0
    case Free(ptr) => Kfree(h, ptr)
    case OtherAlloc =>
      var p := LowestFree(h.pmm, 0);
      if p == TOTAL_PAGES then h else h.(pmm := h.pmm + {p})
    case OtherFree(page) => h.(pmm := h.pmm - {page})
  }

  ghost predicate RunInv(h: State, reserved: set<int>) {
    && Inv(h)
    && reserved <= h.pmm
    && (forall p :: p in h.pmm ==> 0 <= p < TOTAL_PAGES)
    && (forall i :: 0 <= i < |h.pages| ==> PageIndex(h.pages[i]) !in reserved)
  }

  lemma {:induction false} OpKeeps(h: State, reserved: set<int>, op: Op)
    requires RunInv(h, reserved) && Allowed(h, reserved, op)
    ensures RunInv(Apply(h, reserved, op), reserved)
  {
    match op
    case Malloc(size) =>
      KmallocKeeps(h, size);
      assert PageIndex(PageAddress(LowestFree(h.pmm, 0))) == LowestFree(h.pmm, 0);
    case Free(ptr) => KfreeKeeps(h, ptr);
    case OtherAlloc =>
    case OtherFree(page) =>
      forall i | 0 <= i < |h.pages|
        ensures PageIndex(h.pages[i]) != page
      {
        assert h.pages[i] == PageAddress(PageIndex(h.pages[i]));
      }
  }

  /** The state after a run of allowed operations, as a relation. */
  ghost predicate Reaches(h: State, reserved: set<int>, ops: seq<Op>, h': State)
    decreases |ops|
  {
    if ops == [] then h' == h
    else Allowed(h, reserved, ops[0]) && Reaches(Apply(h, reserved, ops[0]), reserved, ops[1..], h')
  }

  lemma {:induction false} RunKeeps(h: State, reserved: set<int>, ops: seq<Op>, h': State)
    requires RunInv(h, reserved) && Reaches(h, reserved, ops, h')
    ensures RunInv(h', reserved)
    decreases |ops|
  {
    if ops != [] {
      OpKeeps(h, reserved, ops[0]);
      RunKeeps(Apply(h, reserved, ops[0]), reserved, ops[1..], h');
    }
  }

  /** The pages pmm_init reserves. */
  function BootReserved(kernelEnd: nat): set<int> {
    ReservedPages(RAM_BASE, kernelEnd) + ReservedPages(RAMFB_BASE, RAMFB_END)
  }

  /** After every allowed run from boot, two different live payloads share no byte, and no byte of a
      payload lies in the kernel image or in the framebuffer range. */
  lemma {:induction false} LivePayloadsSafe(kernelEnd: nat, ops: seq<Op>, h: State, i: nat, j: nat, a: int)
    requires Reaches(Boot(kernelEnd), BootReserved(kernelEnd), ops, h)
    requires i < |h.blocks| && !h.blocks[i].free && Covers(h.blocks[i], a)
    ensures RunInv(h, BootReserved(kernelEnd))
    ensures j < |h.blocks| && j != i ==> !Covers(h.blocks[j], a)
    ensures !(RAM_BASE <= a < kernelEnd) && !(RAMFB_BASE <= a < RAMFB_END)
  {
    RunKeeps(Boot(kernelEnd), BootReserved(kernelEnd), ops, h);
    BlockSafe(kernelEnd, h, i, j, a);
  }

  /** The heap and the page set as pmm_init and heap_init leave them. */
  function Boot(kernelEnd: nat): State {
    State([], [], 0, BootReserved(kernelEnd))
  }

  lemma {:induction false} BlockSafe(kernelEnd: nat, h: State, i: nat, j: nat, a: int)
    requires RunInv(h, BootReserved(kernelEnd)) && i < |h.blocks| && Covers(h.blocks[i], a)
    ensures j < |h.blocks| && j != i ==> !Covers(h.blocks[j], a)
    ensures !(RAM_BASE <= a < kernelEnd) && !(RAMFB_BASE <= a < RAMFB_END)
  {
    if i < j < |h.blocks| { BlocksDisjoint(h, i, j, a); }
    if j < i { BlocksDisjoint(h, j, i, a); }
    BlockInPages(h, i, a);
    var p := PageIndex(a);
    assert PageAddress(p) in h.pages;
    var k :| 0 <= k < |h.pages| && h.pages[k] == PageAddress(p);
    assert PageIndex(h.pages[k]) == p;
    assert PageAddress(p) <= a < PageAddress(p) + PAGE_SIZE;
    assert !Reserved(p, RAM_BASE, kernelEnd) && !Reserved(p, RAMFB_BASE, RAMFB_END);
  }

  /** Wherever the kernel image leaves a page free below the framebuffer, the largest request there is
      gets a block of no bytes at all as the first call after boot. */
  lemma {:induction false} KmallocWrapWitness(kernelEnd: nat)
    requires kernelEnd + PAGE_SIZE <= RAMFB_BASE
    ensures var (h, ptr) := Kmalloc(Boot(kernelEnd), U64 - 1); var p := LowestFree(BootReserved(kernelEnd), 0);
      && RunInv(Boot(kernelEnd), BootReserved(kernelEnd)) && p < TOTAL_PAGES
      && ptr == PageAddress(p) + HEADER && h.heapUsed == 0 && h.blocks[0] == Block(PageAddress(p), 0, false)
  {
    WrappedIsZero(U64 - 1);
    FreePageAtBoot(kernelEnd);
  }

  lemma FreePageAtBoot(kernelEnd: nat)
    requires kernelEnd + PAGE_SIZE <= RAMFB_BASE
    ensures LowestFree(BootReserved(kernelEnd), 0) < TOTAL_PAGES
  {
    var p := (RAMFB_BASE - RAM_BASE) / PAGE_SIZE - 1;
    assert PageAddress(p) == RAMFB_BASE - PAGE_SIZE;
    assert !Reserved(p, RAM_BASE, kernelEnd) && !Reserved(p, RAMFB_BASE, RAMFB_END);
    assert p !in BootReserved(kernelEnd);
  }
}
