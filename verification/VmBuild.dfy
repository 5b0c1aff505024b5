/** Value-level steps of the table builder of kernel/memory/vm.c: taking a level 2 table for a level 1
    entry, and setting one level 2 entry. */
module VmBuild {
  import opened Mmu
  import opened Vm

  /** A fresh, cleared level 2 table serves level 1 entry i (get_l2_table past its search). */
  function AddSlot(v: Tables, y: Layout, i: nat): (r: Tables)
    requires Shaped(v) && v.used < L2_CAPACITY && i < ENTRIES
    ensures Shaped(r)
  {
    v.(l1 := v.l1[i := TableDesc(y.l2 + v.used * PAGE_SIZE)],
       l2 := v.l2[..v.used * ENTRIES] + seq(ENTRIES, j => 0) + v.l2[(v.used + 1) * ENTRIES..],
       slots := v.slots[v.used := Slot(i, true)],
       used := v.used + 1)
  }

  /** Stores a level 2 entry. */
  function SetBlock(v: Tables, b: nat, d: nat): (r: Tables)
    requires Shaped(v) && FindSlot(v, b / ENTRIES, 0) < L2_CAPACITY
    ensures Shaped(r)
  {
    v.(l2 := v.l2[FindSlot(v, b / ENTRIES, 0) * ENTRIES + b % ENTRIES := d])
  }

  /** The lookup reads nothing but the slots. */
  lemma {:induction false} FindReads(v: Tables, w: Tables, i: nat, s: nat)
    requires Shaped(v) && Shaped(w) && v.slots == w.slots && v.used == w.used && s <= v.used
    ensures FindSlot(v, i, s) == FindSlot(w, i, s)
    decreases v.used - s
  {
    if s < v.used { FindReads(v, w, i, s + 1); }
  }

  /** Adding a slot serves its level 1 entry and disturbs no other lookup. */
  lemma {:induction false} FindAfterAdd(v: Tables, y: Layout, i: nat, j: nat, s: nat)
    requires Shaped(v) && v.used < L2_CAPACITY && i < ENTRIES && s <= v.used && FindSlot(v, i, s) == L2_CAPACITY
    ensures FindSlot(AddSlot(v, y, i), j, s) == if j == i then v.used else FindSlot(v, j, s)
    decreases v.used - s
  {
    var w := AddSlot(v, y, i);
    if s < v.used {
      assert w.slots[s] == v.slots[s];
      FindAfterAdd(v, y, i, j, s + 1);
    } else {
      assert w.slots[s] == Slot(i, true);
    }
  }

  /** Adding a slot keeps the tables consistent and maps nothing. */
  lemma {:induction false} AddSlotKeeps(v: Tables, y: Layout, i: nat)
    requires Shaped(v) && SlotsOk(v, y) && v.used < L2_CAPACITY && i < ENTRIES && FindSlot(v, i, 0) == L2_CAPACITY
    ensures var w := AddSlot(v, y, i);
      && SlotsOk(w, y) && FindSlot(w, i, 0) == v.used
      && forall b: nat :: b < BLOCKS ==> BlockEntry(w, b) == BlockEntry(v, b)
  {
    var w := AddSlot(v, y, i);
    forall j: nat ensures FindSlot(w, j, 0) == if j == i then v.used else FindSlot(v, j, 0) {
      FindAfterAdd(v, y, i, j, 0);
    }
    AddedSlotOk(v, y, i);
    forall b: nat | b < BLOCKS ensures BlockEntry(w, b) == BlockEntry(v, b) {
      AddedRow(v, y, i, b);
    }
  }

  lemma {:induction false} AddedSlotOk(v: Tables, y: Layout, i: nat)
    requires Shaped(v) && SlotsOk(v, y) && v.used < L2_CAPACITY && i < ENTRIES && FindSlot(v, i, 0) == L2_CAPACITY
    requires var w := AddSlot(v, y, i);
      forall j: nat :: FindSlot(w, j, 0) == if j == i then v.used else FindSlot(v, j, 0)
    ensures SlotsOk(AddSlot(v, y, i), y)
  {
    var w := AddSlot(v, y, i);
    forall s: nat | s < v.used ensures w.slots[s] == v.slots[s] && v.slots[s].l1Index != i {
      assert v.slots[s] != Slot(i, true);
    }
  }

  /** The new table is empty, the others are as they were. */
  lemma {:induction false} AddedRow(v: Tables, y: Layout, i: nat, b: nat)
    requires Shaped(v) && v.used < L2_CAPACITY && i < ENTRIES && FindSlot(v, i, 0) == L2_CAPACITY
    requires var w := AddSlot(v, y, i);
      FindSlot(w, b / ENTRIES, 0) == if b / ENTRIES == i then v.used else FindSlot(v, b / ENTRIES, 0)
    ensures BlockEntry(AddSlot(v, y, i), b) == BlockEntry(v, b)
  {
    var w := AddSlot(v, y, i);
    var s, o := FindSlot(w, b / ENTRIES, 0), b % ENTRIES;
    if s < v.used {
      assert w.l2[s * ENTRIES + o] == v.l2[s * ENTRIES + o];
    } else if s == v.used {
      assert w.l2[s * ENTRIES + o] == 0;
    }
  }

  /** Storing an entry changes the map at that block and nowhere else. */
  lemma {:induction false} SetBlockKeeps(v: Tables, y: Layout, b: nat, d: nat)
    requires Shaped(v) && SlotsOk(v, y) && b < BLOCKS && FindSlot(v, b / ENTRIES, 0) < L2_CAPACITY
    ensures var w := SetBlock(v, b, d);
      && SlotsOk(w, y)
      && (forall i: nat :: FindSlot(w, i, 0) == FindSlot(v, i, 0))
      && forall c: nat :: c < BLOCKS ==> BlockEntry(w, c) == if c == b then d else BlockEntry(v, c)
  {
    var w := SetBlock(v, b, d);
    forall i: nat ensures FindSlot(w, i, 0) == FindSlot(v, i, 0) {
      FindReads(w, v, i, 0);
    }
    forall c: nat | c < BLOCKS ensures BlockEntry(w, c) == if c == b then d else BlockEntry(v, c) {
      if c != b { OtherCell(v, y, b, c); }
    }
  }

  /** Different blocks have different cells. */
  lemma {:induction false} OtherCell(v: Tables, y: Layout, b: nat, c: nat)
    requires Shaped(v) && SlotsOk(v, y) && b != c
    ensures var s, t := FindSlot(v, b / ENTRIES, 0), FindSlot(v, c / ENTRIES, 0);
      s < L2_CAPACITY && t < L2_CAPACITY ==> s * ENTRIES + b % ENTRIES != t * ENTRIES + c % ENTRIES
  {
    var s, t := FindSlot(v, b / ENTRIES, 0), FindSlot(v, c / ENTRIES, 0);
    if s == t && s < L2_CAPACITY {
      assert v.slots[s].l1Index == b / ENTRIES && v.slots[s].l1Index == c / ENTRIES;
    }
  }

  // ---- mapping a region ----

  /** get_l2_table: the tables with one for level 1 entry i, unless all four serve others. */
  function Reach(v: Tables, y: Layout, i: nat): (r: Tables)
    requires Shaped(v) && i < ENTRIES
    ensures Shaped(r)
  {
    if FindSlot(v, i, 0) < L2_CAPACITY || v.used == L2_CAPACITY then v else AddSlot(v, y, i)
  }

  predicate CanMap(v: Tables, b: nat)
    requires Shaped(v)
  {
    FindSlot(v, b / ENTRIES, 0) < L2_CAPACITY || v.used < L2_CAPACITY
  }

  lemma {:induction false} CanReach(v: Tables, y: Layout, i: nat)
    requires Shaped(v) && i < ENTRIES
    ensures FindSlot(Reach(v, y, i), i, 0) < L2_CAPACITY <==> FindSlot(v, i, 0) < L2_CAPACITY || v.used < L2_CAPACITY
  {
    if FindSlot(v, i, 0) == L2_CAPACITY && v.used < L2_CAPACITY { FindAfterAdd(v, y, i, i, 0); }
  }

  /** Stores the level 2 entry of block b, in a fresh table where needed; no change without a table. */
  function MapOne(v: Tables, y: Layout, b: nat, d: nat): (r: Tables)
    requires Shaped(v) && b < BLOCKS
    ensures Shaped(r)
  {
    var w := Reach(v, y, b / ENTRIES);
    if FindSlot(w, b / ENTRIES, 0) < L2_CAPACITY then SetBlock(w, b, d) else v
  }

  /** Tables w are v with the entry of block b set to d. */
  ghost predicate OneMapped(v: Tables, w: Tables, b: nat, d: nat)
    requires Shaped(v) && Shaped(w)
  {
    && w.l3 == v.l3 && FindSlot(w, b / ENTRIES, 0) < L2_CAPACITY
    && w.used == v.used + (if FindSlot(v, b / ENTRIES, 0) == L2_CAPACITY then 1 else 0)
    && forall c: nat :: c < BLOCKS ==> BlockEntry(w, c) == if c == b then d else BlockEntry(v, c)
  }

  lemma {:induction false} MapOneKeeps(v: Tables, y: Layout, b: nat, d: nat)
    requires Shaped(v) && SlotsOk(v, y) && b < BLOCKS && CanMap(v, b)
    ensures SlotsOk(MapOne(v, y, b, d), y) && OneMapped(v, MapOne(v, y, b, d), b, d)
  {
    if FindSlot(v, b / ENTRIES, 0) == L2_CAPACITY { AddSlotKeeps(v, y, b / ENTRIES); }
    CanReach(v, y, b / ENTRIES);
    SetBlockKeeps(Reach(v, y, b / ENTRIES), y, b, d);
  }

  /** A level 2 entry after n blocks from block number `first` on are mapped from pa on. */
  function MapEntry(first: nat, pa: nat, t: Attr, n: nat, b: nat, before: nat): nat {
    if first <= b < first + n then BlockDesc(pa + (b - first) * BLOCK_SIZE, t) else before
  }

  /** Every entry of w is as of v with n blocks mapped. */
  ghost predicate EntriesMapped(v: Tables, w: Tables, first: nat, pa: nat, t: Attr, n: nat)
    requires Shaped(v) && Shaped(w)
  {
    forall b: nat :: b < BLOCKS ==> BlockEntry(w, b) == MapEntry(first, pa, t, n, b, BlockEntry(v, b))
  }

  /** Level 1 entries that n blocks from block number `first` on touch. */
  function Span(first: nat, n: nat): nat {
    if n == 0 then 0 else (first + n - 1) / ENTRIES - first / ENTRIES + 1
  }

  lemma SpanStep(first: nat, n: nat)
    ensures Span(first, n + 1) ==
      Span(first, n) + if n > 0 && (first + n) / ENTRIES == (first + n - 1) / ENTRIES then 0 else 1
  {
  }

  lemma SpanGrows(first: nat, n: nat, total: nat)
    requires n <= total
    ensures Span(first, n) <= Span(first, total)
  {
    if n > 0 { assert (first + n - 1) / ENTRIES <= (first + total - 1) / ENTRIES; }
  }

  /** From tables v to tables w the n blocks were mapped: entries outside them are untouched, and no
      more level 2 tables were taken than the blocks need. */
  ghost predicate RegionMapped(v: Tables, w: Tables, first: nat, pa: nat, t: Attr, n: nat)
    requires Shaped(v) && Shaped(w)
  {
    && w.l3 == v.l3 && w.used <= v.used + Span(first, n)
    && (n > 0 ==> FindSlot(w, (first + n - 1) / ENTRIES, 0) < L2_CAPACITY)
    && EntriesMapped(v, w, first, pa, t, n)
  }

  lemma {:induction false} EntriesStep(v: Tables, w: Tables, x: Tables, first: nat, pa: nat, t: Attr, n: nat)
    requires Shaped(v) && Shaped(w) && Shaped(x) && EntriesMapped(v, w, first, pa, t, n)
    requires forall c: nat :: c < BLOCKS ==>
      BlockEntry(x, c) == if c == first + n then BlockDesc(pa + n * BLOCK_SIZE, t) else BlockEntry(w, c)
    ensures EntriesMapped(v, x, first, pa, t, n + 1)
  {
    forall b: nat | b < BLOCKS ensures BlockEntry(x, b) == MapEntry(first, pa, t, n + 1, b, BlockEntry(v, b)) {
      assert BlockEntry(w, b) == MapEntry(first, pa, t, n, b, BlockEntry(v, b));
    }
  }

  /** The level 2 entry of block b once both regions are mapped as blocks. */
  function RegionsEntry(b: nat): nat {
    if 64 <= b < 81 then BlockDesc(b * BLOCK_SIZE, DEVICE)
    else if 512 <= b < 576 then BlockDesc(b * BLOCK_SIZE, NORMAL_XN)
    else 0
  }

  lemma NothingMapped(v: Tables, first: nat, pa: nat, t: Attr)
    requires Shaped(v)
    ensures RegionMapped(v, v, first, pa, t, 0)
  {
  }

  lemma {:induction false} MapStep(v: Tables, w: Tables, x: Tables, first: nat, pa: nat, t: Attr, n: nat)
    requires Shaped(v) && Shaped(w) && Shaped(x) && RegionMapped(v, w, first, pa, t, n)
    requires OneMapped(w, x, first + n, BlockDesc(pa + n * BLOCK_SIZE, t))
    ensures RegionMapped(v, x, first, pa, t, n + 1)
  {
    SpanStep(first, n);
    EntriesStep(v, w, x, first, pa, t, n);
  }

  lemma {:induction false} MapRoom(v: Tables, w: Tables, first: nat, pa: nat, t: Attr, n: nat)
    requires Shaped(v) && Shaped(w) && RegionMapped(v, w, first, pa, t, n)
    ensures v.used + Span(first, n + 1) <= L2_CAPACITY ==> CanMap(w, first + n)
  {
    SpanStep(first, n);
  }

  // ---- what the counters have to say ----

  /** Page i of the first RAM block is a guard page. */
  predicate GuardPage(k: Kernel, i: nat) {
    IsGuard(k, KERNEL_L3_BASE + i * PAGE_SIZE)
  }

  /** Page i of the first RAM block is mapped executable. */
  predicate ExecPage(k: Kernel, i: nat) {
    !GuardPage(k, i) && KernelAttr(k, KERNEL_L3_BASE + i * PAGE_SIZE).xn == 0
  }

  /** Those below page n. */
  ghost function GuardPages(k: Kernel, n: nat): set<nat> {
    set i: nat | i < n && GuardPage(k, i)
  }

  ghost function ExecPages(k: Kernel, n: nat): set<nat> {
    set i: nat | i < n && ExecPage(k, i)
  }

  /** Level 2 entries that map a block, and level 3 entries that map a page. */
  ghost function MappedBlocks(v: Tables): set<nat>
    requires Shaped(v)
  {
    set b: nat | b < BLOCKS && IsBlock(BlockEntry(v, b))
  }

  ghost function MappedPages(v: Tables): set<nat>
    requires Shaped(v)
  {
    set i: nat | i < ENTRIES && IsTable(v.l3[i])
  }

  lemma AddOne(smaller: set<nat>, larger: set<nat>, n: nat, isIn: bool)
    requires n !in smaller && (n in larger <==> isIn)
    requires forall i :: i != n ==> (i in larger <==> i in smaller)
    ensures |larger| == |smaller| + if isIn then 1 else 0
  {
    assert larger == smaller + if isIn then {n} else {};
  }

  lemma CountStep(k: Kernel, n: nat)
    ensures |GuardPages(k, n + 1)| == |GuardPages(k, n)| + (if GuardPage(k, n) then 1 else 0)
    ensures |ExecPages(k, n + 1)| == |ExecPages(k, n)| + (if ExecPage(k, n) then 1 else 0)
  {
    AddOne(GuardPages(k, n), GuardPages(k, n + 1), n, GuardPage(k, n));
    AddOne(ExecPages(k, n), ExecPages(k, n + 1), n, ExecPage(k, n));
  }

  /** Seen from the first guard page p, the guard pages are every second one of seventeen. */
  lemma GuardPageIs(k: Kernel, p: nat, i: nat)
    requires k.stacks == KERNEL_L3_BASE + p * PAGE_SIZE
    ensures GuardPage(k, i) <==> p <= i <= p + 16 && (i - p) % 2 == 0
  {
    if p <= i {
      var q, odd := (i - p) / 2, (i - p) % 2;
      assert KERNEL_L3_BASE + i * PAGE_SIZE - k.stacks == q * STACK_SLOT + odd * PAGE_SIZE;
    }
  }

  lemma EverySecond(g: set<nat>, p: nat)
    requires forall i: nat :: i in g <==> p <= i <= p + 16 && (i - p) % 2 == 0
    ensures |g| == 9
  {
    assert g == {p, p + 2, p + 4, p + 6, p + 8, p + 10, p + 12, p + 14, p + 16};
  }

  /** A stack region inside the first block of RAM has its nine guard pages there. */
  lemma NineGuards(k: Kernel)
    requires KernelPlaced(k)
    ensures |GuardPages(k, ENTRIES)| == STACK_COUNT + 1
  {
    var p := (k.stacks - KERNEL_L3_BASE) / PAGE_SIZE;
    assert k.stacks == KERNEL_L3_BASE + p * PAGE_SIZE && p + 17 <= ENTRIES;
    forall i: nat ensures i in GuardPages(k, ENTRIES) <==> p <= i <= p + 16 && (i - p) % 2 == 0 {
      GuardPageIs(k, p, i);
    }
    EverySecond(GuardPages(k, ENTRIES), p);
  }

  function Interval(lo: nat, hi: nat): (r: set<nat>)
    requires lo <= hi
    ensures forall b :: b in r <==> lo <= b < hi
    ensures |r| == hi - lo
    decreases hi - lo
  {
    if lo == hi then {} else Interval(lo, hi - 1) + {hi - 1}
  }

  lemma BuiltIsBlock(y: Layout, b: nat)
    requires LayoutOk(y) && b < BLOCKS
    ensures IsBlock(BuiltEntry(y, b)) <==> 64 <= b < 81 || 513 <= b < 576
  {
    if 64 <= b < 81 {
      BlockDescIs(b * BLOCK_SIZE, DEVICE);
    } else if b == 512 {
      TableDescIs(y.l3);
    } else if 513 <= b < 576 {
      BlockDescIs(b * BLOCK_SIZE, NORMAL_XN);
    }
  }

  lemma BuiltIsPage(k: Kernel, i: nat)
    requires i < ENTRIES
    ensures IsTable(BuiltPage(k, i)) <==> !GuardPage(k, i)
  {
    var address := KERNEL_L3_BASE + i * PAGE_SIZE;
    PageDescIs(address, KernelAttr(k, address));
  }

  lemma {:induction false} BlockIsBuilt(v: Tables, y: Layout, k: Kernel, b: nat)
    requires Built(v, y, k)
    ensures b < BLOCKS && IsBlock(BlockEntry(v, b)) <==> 64 <= b < 81 || 513 <= b < 576
  {
    if b < BLOCKS {
      BuiltIsBlock(y, b);
      assert BlockEntry(v, b) == BuiltEntry(y, b);
    }
  }

  lemma {:induction false} TwoIntervals(s: set<nat>, lo: nat, hi: nat, lo': nat, hi': nat)
    requires lo <= hi <= lo' <= hi' && forall b: nat :: b in s <==> lo <= b < hi || lo' <= b < hi'
    ensures |s| == hi - lo + (hi' - lo')
  {
    assert s == Interval(lo, hi) + Interval(lo', hi') && Interval(lo, hi) !! Interval(lo', hi');
  }

  /** How much a built map really maps. */
  lemma {:induction false} BuiltCounts(v: Tables, y: Layout, k: Kernel)
    requires Built(v, y, k)
    ensures |MappedBlocks(v)| == 80
    ensures |MappedPages(v)| == ENTRIES - |GuardPages(k, ENTRIES)|
  {
    forall b: nat ensures b in MappedBlocks(v) <==> 64 <= b < 81 || 513 <= b < 576 {
      BlockIsBuilt(v, y, k, b);
    }
    TwoIntervals(MappedBlocks(v), 64, 81, 513, 576);
    PagesCount(v, k);
  }

  lemma {:induction false} PagesCount(v: Tables, k: Kernel)
    requires Shaped(v) && forall i :: 0 <= i < ENTRIES ==> v.l3[i] == BuiltPage(k, i)
    ensures |MappedPages(v)| == ENTRIES - |GuardPages(k, ENTRIES)|
  {
    var all, guards := Interval(0, ENTRIES), GuardPages(k, ENTRIES);
    forall i: nat ensures i in MappedPages(v) <==> i in all && i !in guards {
      if i < ENTRIES { BuiltIsPage(k, i); }
    }
    assert MappedPages(v) == all - guards && guards <= all;
  }
}
