/** kernel/memory/vm.c as it runs: static tables filled and checked in place. */
module VmTables {
  import opened Bits
  import opened Mmu
  import opened Vm
  import opened VmBuild
  import opened RegionScan
  import opened VmValidate

  /** The statistics the builder keeps. */
  datatype Counters = Counters(blocks: int, pages: int, guards: int, execBlocks: int, xnBlocks: int, execPages: int,
    xnPages: int, bytes: int)

  function CountBlocks(c: Counters, xn: bool, n: nat): Counters {
    var counted := c.(blocks := c.blocks + n, bytes := c.bytes + n * BLOCK_SIZE);
    if xn then counted.(xnBlocks := c.xnBlocks + n) else counted.(execBlocks := c.execBlocks + n)
  }

  /** Statistics after the first n pages of the level 3 table. */
  ghost function CountPages(c: Counters, k: Kernel, n: nat): Counters {
    var guards, exec := |GuardPages(k, n)|, |ExecPages(k, n)|;
    c.(guards := c.guards + guards, pages := c.pages + n - guards, bytes := c.bytes + (n - guards) * PAGE_SIZE,
       execPages := c.execPages + exec, xnPages := c.xnPages + n - guards - exec)
  }

  /** Statistics after page i more. */
  function CountPage(c: Counters, k: Kernel, i: nat): Counters {
    if GuardPage(k, i) then c.(guards := c.guards + 1)
    else
      var counted := c.(pages := c.pages + 1, bytes := c.bytes + PAGE_SIZE);
      if ExecPage(k, i) then counted.(execPages := c.execPages + 1) else counted.(xnPages := c.xnPages + 1)
  }

  lemma CountPagesStep(c: Counters, k: Kernel, i: nat)
    ensures CountPages(c, k, i + 1) == CountPage(CountPages(c, k, i), k, i)
  {
    CountStep(k, i);
  }

  /** Statistics when a block is replaced by a table. */
  function DropBlock(c: Counters, d: nat): Counters {
    if !IsBlock(d) then c
    else
      var dropped := c.(blocks := c.blocks - 1, bytes := c.bytes - BLOCK_SIZE);
      if ExecuteNever(d) then dropped.(xnBlocks := c.xnBlocks - 1) else dropped.(execBlocks := c.execBlocks - 1)
  }

  method Clear(a: array<nat>, start: nat)
    requires start + ENTRIES <= a.Length
    modifies a
    ensures forall i :: 0 <= i < a.Length ==> a[i] == if start <= i < start + ENTRIES then 0 else old(a[i])
  {
    for j := 0 to ENTRIES
      invariant forall i :: 0 <= i < a.Length ==> a[i] == if start <= i < start + j then 0 else old(a[i])
    {
      a[start + j] := 0;
    }
  }

  class KernelTables {
    const layout: Layout
    const kernel: Kernel
    const l1: array<nat>
    /** The four level 2 tables, one after another. */
    const l2: array<nat>
    const l3: array<nat>
    const slots: array<Slot>
    var used: nat
    var l3Mapped: bool
    var count: Counters
    var blocksValidated: nat
    var pagesValidated: nat
    var guardsValidated: nat
    var errors: nat
    var ready: bool

    ghost predicate Valid()
      reads this`used
    {
      && l1.Length == ENTRIES && l2.Length == L2_CAPACITY * ENTRIES && l3.Length == ENTRIES &&
        slots.Length == L2_CAPACITY
      && l1 != l2 && l1 != l3 && l2 != l3 && used <= L2_CAPACITY && LayoutOk(layout)
    }

    ghost function View(): (v: Tables)
      requires Valid()
      reads this`used, l1, l2, l3, slots
      ensures Shaped(v)
    {
      Tables(l1[..], l2[..], l3[..], slots[..], used)
    }

    constructor (y: Layout, k: Kernel)
      requires LayoutOk(y)
      ensures Valid() && layout == y && kernel == k && fresh(l1) && fresh(l2) && fresh(l3) && fresh(slots) && !ready
    {
      layout, kernel := y, k;
      l1 := new nat[ENTRIES](i => 0);
      l2 := new nat[L2_CAPACITY * ENTRIES](i => 0);
      l3 := new nat[ENTRIES](i => 0);
      slots := new Slot[L2_CAPACITY](i => Slot(0, false));
      used, l3Mapped, count := 0, false, Counters(0, 0, 0, 0, 0, 0, 0, 0);
      blocksValidated, pagesValidated, guardsValidated, errors, ready := 0, 0, 0, 0, false;
    }

    /** find_l2_table; L2_CAPACITY stands for the null pointer. */
    method FindTable(l1Index: nat) returns (s: nat)
      requires Valid()
      ensures s == FindSlot(View(), l1Index, 0)
    {
      s := 0;
      while s < used
        invariant s <= used && FindSlot(View(), l1Index, 0) == FindSlot(View(), l1Index, s)
      {
        if slots[s].used && slots[s].l1Index == l1Index { return; }
        s := s + 1;
      }
      s := L2_CAPACITY;
    }

    /** get_l2_table: the search, and a fresh table where it finds none and one is left. */
    method GetTable(l1Index: nat) returns (s: nat)
      requires Valid() && l1Index < ENTRIES
      modifies this`used, l1, l2, slots
      ensures Valid() && s == FindSlot(View(), l1Index, 0)
      ensures View() == if FindSlot(old(View()), l1Index, 0) < L2_CAPACITY || old(used) == L2_CAPACITY then old(View())
                        else AddSlot(old(View()), layout, l1Index)
    {
      s := FindTable(l1Index);
      if s < L2_CAPACITY || used >= L2_CAPACITY { return; }
      ghost var v := View();
      s := used;
      used := used + 1;
      slots[s] := Slot(l1Index, true);
      Clear(l2, s * ENTRIES);
      l1[l1Index] := TableDesc(layout.l2 + s * PAGE_SIZE);
      FindAfterAdd(v, layout, l1Index, l1Index, 0);
      assert View().l2 == AddSlot(v, layout, l1Index).l2;
      assert View() == AddSlot(v, layout, l1Index);
    }

    /** Stores an entry of a level 2 table that is in use. */
    method Store(s: nat, b: nat, d: nat)
      requires Valid() && b < BLOCKS && s < L2_CAPACITY && s == FindSlot(View(), b / ENTRIES, 0)
      modifies l2
      ensures View() == SetBlock(old(View()), b, d)
    {
      l2[s * ENTRIES + b % ENTRIES] := d;
    }

    /** One turn of map_region: finds or takes the level 2 table of block number b and stores d. */
    method MapBlock(b: nat, d: nat) returns (ok: bool)
      requires Valid() && SlotsOk(View(), layout) && b < BLOCKS
      modifies this`used, l1, l2, slots
      ensures Valid() && SlotsOk(View(), layout) && (ok <==> CanMap(old(View()), b))
      ensures if ok then OneMapped(old(View()), View(), b, d) else View() == old(View())
    {
      ghost var v := View();
      var s := GetTable(b / ENTRIES);
      CanReach(v, layout, b / ENTRIES);
      ok := s < L2_CAPACITY;
      if ok {
        Store(s, b, d);
        assert View() == MapOne(v, layout, b, d);
        MapOneKeeps(v, layout, b, d);
      }
    }

    /** Statistics of a block descriptor that was stored. */
    method CountOne(pa: nat, t: Attr)
      requires pa % BLOCK_SIZE == 0 && pa < U48 && AttrValid(t)
      modifies this`count
      ensures count == CountBlocks(old(count), t.xn != 0, 1)
    {
      var d := BlockDesc(pa, t);
      BlockDescIs(pa, t);
      if ExecuteNever(d) {
        count := count.(xnBlocks := count.xnBlocks + 1);
      } else {
        count := count.(execBlocks := count.execBlocks + 1);
      }
      count := count.(blocks := count.blocks + 1, bytes := count.bytes + BLOCK_SIZE);
    }

    /** The turn of map_region for block n of a region that began with the tables v and the counters c. */
    method MapNext(b: nat, pa: nat, t: Attr, ghost v: Tables, ghost c: Counters, ghost first: nat, ghost base: nat,
        ghost n: nat)
      returns (ok: bool)
      requires Valid() && Progress(v, View(), layout, c, count, first, base, t, n)
      requires b == first + n < BLOCKS && pa == base + n * BLOCK_SIZE
      requires AttrValid(t) && pa % BLOCK_SIZE == 0 && pa < U48
      modifies this`used, this`count, l1, l2, slots
      ensures Valid() && (ok ==> Progress(v, View(), layout, c, count, first, base, t, n + 1))
      ensures !ok ==> View() == old(View()) && v.used + Span(first, n + 1) > L2_CAPACITY
    {
      ghost var w := View();
      ok := MapBlock(b, BlockDesc(pa, t));
      ghost var x := View();
      BlockTurn(v, w, x, layout, c, count, first, base, t, n, ok);
      if ok {
        CountOne(pa, t);
        assert View() == x;
      }
    }

    /** The loop of map_region over `total` blocks. */
    method MapBlocks(start: nat, base: nat, size: nat, t: Attr, ghost first: nat, ghost total: nat) returns (ok: bool)
      requires Valid() && SlotsOk(View(), layout) && AttrValid(t) && base % BLOCK_SIZE == 0 && base + size <= U48
      requires start == first * BLOCK_SIZE && size == total * BLOCK_SIZE && first + total <= BLOCKS
      modifies this`used, this`count, l1, l2, slots
      ensures Valid() && SlotsOk(View(), layout)
      ensures ok ==> Progress(old(View()), View(), layout, old(count), count, first, base, t, total)
      ensures !ok ==> old(used) + Span(first, total) > L2_CAPACITY
    {
      var va, pa, remaining := start, base, size;
      ghost var n, v, c := 0, View(), count;
      NoProgress(v, layout, c, first, base, t);
      while remaining > 0
        invariant Valid() && Progress(v, View(), layout, c, count, first, base, t, n)
        invariant Cursor(first, base, total, n, va, pa, remaining)
        decreases remaining
      {
        CursorBlock(first, base, total, n, va, pa, remaining);
        ok := MapNext(va / BLOCK_SIZE, pa, t, v, c, first, base, n);
        if !ok { return; }
        CursorStep(first, base, total, n, va, pa, remaining);
        va, pa, remaining := va + BLOCK_SIZE, pa + BLOCK_SIZE, remaining - BLOCK_SIZE;
        n := n + 1;
      }
      ok := true;
    }

    /** map_region. */
    method MapRegion(r: Region) returns (ok: bool)
      requires Valid() && SlotsOk(View(), layout) && AttrValid(r.attr)
      requires r.va + r.size <= BLOCKS * BLOCK_SIZE && r.pa + r.size <= U48
      modifies this`used, this`count, l1, l2, slots
      ensures Valid() && SlotsOk(View(), layout)
      ensures ok ==> RegionAligned(r)
      ensures RegionAligned(r) && old(used) + Span(r.va / BLOCK_SIZE, r.size / BLOCK_SIZE) <= L2_CAPACITY ==> ok
      ensures ok ==> RegionMapped(old(View()), View(), r.va / BLOCK_SIZE, r.pa, r.attr, r.size / BLOCK_SIZE)
      ensures ok ==> count == CountBlocks(old(count), r.attr.xn != 0, r.size / BLOCK_SIZE)
      ensures !RegionAligned(r) ==> View() == old(View()) && count == old(count)
    {
      ok := false;
      if !RegionAligned(r) { return; }
      ok := MapBlocks(r.va, r.pa, r.size, r.attr, r.va / BLOCK_SIZE, r.size / BLOCK_SIZE);
    }

    /** One turn of the page loop of map_kernel_l3_block. */
    method FillPage(i: nat)
      requires Valid() && i < ENTRIES && l3[i] == 0
      modifies this`count, l3
      ensures l3[i] == BuiltPage(kernel, i) && forall j :: 0 <= j < ENTRIES && j != i ==> l3[j] == old(l3[j])
      ensures count == CountPage(old(count), kernel, i)
    {
      var address := KERNEL_L3_BASE + i * PAGE_SIZE;
      var t := KernelAttr(kernel, address);
      if IsGuard(kernel, address) {
        count := count.(guards := count.guards + 1);
      } else {
        l3[i] := PageDesc(address, t);
        PageDescIs(address, t);
        if ExecuteNever(l3[i]) {
          count := count.(xnPages := count.xnPages + 1);
        } else {
          count := count.(execPages := count.execPages + 1);
        }
        count := count.(pages := count.pages + 1, bytes := count.bytes + PAGE_SIZE);
      }
    }

    method FillPages()
      requires Valid()
      modifies this`count, l3
      ensures forall i :: 0 <= i < ENTRIES ==> l3[i] == BuiltPage(kernel, i)
      ensures count == CountPages(old(count), kernel, ENTRIES)
    {
      Clear(l3, 0);
      assert GuardPages(kernel, 0) == {} && ExecPages(kernel, 0) == {};
      for i := 0 to ENTRIES
        invariant forall j :: 0 <= j < i ==> l3[j] == BuiltPage(kernel, j)
        invariant forall j :: i <= j < ENTRIES ==> l3[j] == 0
        invariant count == CountPages(old(count), kernel, i)
      {
        FillPage(i);
        CountPagesStep(old(count), kernel, i);
      }
    }

    /** Statistics of a level 2 entry that is about to be replaced. */
    method Uncount(d: nat)
      modifies this`count
      ensures count == DropBlock(old(count), d)
    {
      if IsBlock(d) {
        if ExecuteNever(d) {
          count := count.(xnBlocks := count.xnBlocks - 1);
        } else {
          count := count.(execBlocks := count.execBlocks - 1);
        }
        count := count.(blocks := count.blocks - 1, bytes := count.bytes - BLOCK_SIZE);
      }
    }

    /** map_kernel_l3_block: the first block of RAM becomes a table of pages. */
    method MapKernelL3() returns (ok: bool)
      requires Valid() && SlotsOk(View(), layout)
      modifies this`used, this`count, this`l3Mapped, l1, l2, l3, slots
      ensures Valid() && SlotsOk(View(), layout) && (ok <==> CanMap(old(View()), 512))
      ensures ok ==> l3Mapped && forall i :: 0 <= i < ENTRIES ==> l3[i] == BuiltPage(kernel, i)
      ensures ok ==> OneMapped(old(View()), View().(l3 := old(View()).l3), 512, TableDesc(layout.l3))
      ensures ok ==> count == DropBlock(CountPages(old(count), kernel, ENTRIES), BlockEntry(old(View()), 512))
      ensures !ok ==> View() == old(View()) && count == old(count)
    {
      ghost var v := View();
      var s := GetTable(1);
      CanReach(v, layout, 1);
      ok := s < L2_CAPACITY;
      if !ok { return; }
      ghost var w := View();
      FillPages();
      var d := l2[s * ENTRIES];
      Uncount(d);
      ghost var x := View();
      Store(s, 512, TableDesc(layout.l3));
      l3Mapped := true;
      TableReplaced(v, w, x, View(), layout, d);
    }

    /** The clearing that build_tables begins with. */
    method Reset()
      requires Valid()
      modifies this, l1, l2, l3, slots
      ensures Valid() && SlotsOk(View(), layout) && used == 0 && !l3Mapped && ready == old(ready)
      ensures forall b: nat :: b < BLOCKS ==> BlockEntry(View(), b) == 0
      ensures count == Counters(0, 0, 0, 0, 0, 0, 0, 0)
      ensures blocksValidated == 0 && pagesValidated == 0 && guardsValidated == 0 && errors == 0
    {
      Clear(l1, 0);
      Clear(l3, 0);
      for s := 0 to L2_CAPACITY
        invariant forall i :: 0 <= i < ENTRIES ==> l1[i] == 0
        invariant used == old(used) && ready == old(ready)
      {
        slots[s] := Slot(0, false);
        Clear(l2, s * ENTRIES);
      }
      used, l3Mapped, count := 0, false, Counters(0, 0, 0, 0, 0, 0, 0, 0);
      blocksValidated, pagesValidated, guardsValidated, errors := 0, 0, 0, 0;
    }

    /** The loop of build_tables over the two regions; they need one level 2 table each. */
    method MapRegions()
      requires Valid() && SlotsOk(View(), layout) && used == 0 && count == Counters(0, 0, 0, 0, 0, 0, 0, 0)
      requires forall b: nat :: b < BLOCKS ==> BlockEntry(View(), b) == 0
      modifies this`used, this`count, l1, l2, slots
      ensures Valid() && SlotsOk(View(), layout) && CanMap(View(), 512)
      ensures forall b: nat :: b < BLOCKS ==> BlockEntry(View(), b) == RegionsEntry(b)
      ensures count == Counters(81, 0, 0, 0, 81, 0, 0, 81 * BLOCK_SIZE)
    {
      ghost var v0 := View();
      var ok := MapRegion(MMIO);
      assert ok;
      ghost var v1 := View();
      ok := MapRegion(RAM);
      assert ok;
      RegionsMapped(v0, v1, View());
    }

    /** build_tables: never fails, makes the map the design asks for, and its statistics are the
        numbers of blocks, pages, guard pages and bytes really mapped. */
    method BuildTables() returns (ok: bool)
      requires Valid()
      modifies this, l1, l2, l3, slots
      ensures Valid() && ok && Built(View(), layout, kernel) && l3Mapped && ready == old(ready)
      ensures StatisticsTrue(count, View(), kernel)
      ensures blocksValidated == 0 && pagesValidated == 0 && guardsValidated == 0 && errors == 0
    {
      Reset();
      MapRegions();
      ghost var v := View();
      ok := MapKernelL3();
      BuiltFrom(v, View(), layout, kernel);
      StatisticsAre(View(), layout, kernel);
    }

    /** translation_for_address; `mem` is the memory that table descriptors point into. */
    method Lookup(mem: Memory, address: nat) returns (r: Translation)
      requires Valid()
      ensures r == Translate(View(), mem, address)
    {
      r := Unmapped;
      if !IsTable(l1[L1Index(address)]) { return; }
      var s := FindTable(L1Index(address));
      if s == L2_CAPACITY { return; }
      var d := l2[s * ENTRIES + L2Index(address)];
      if IsBlock(d) { return Mapped(BlockAddress(d) + address % BLOCK_SIZE, d, 2); }
      if !IsTable(d) { return; }
      var page := Entry(mem, DescAddress(d), L3Index(address));
      if IsTable(page) { r := Mapped(DescAddress(page) + address % PAGE_SIZE, page, 3); }
    }

    /** One turn of validate_region: how far to go on, or 0 for an error. */
    method CheckAddress(va: nat, pa: nat, mem: Memory, ghost v: Tables) returns (step: nat)
      requires Valid() && v == View()
      modifies this`blocksValidated, this`pagesValidated, this`guardsValidated, this`errors
      ensures var c := CheckAt(v, mem, kernel, va, pa);
        if c.Failed? then step == 0 && Counted(0, 0, 0, 1)
          else step == StepAt(v, va) && Counted(c.blocks, c.pages, c.guards, 0)
    {
      LevelTwoIsBlock(v, mem, va);
      var t := Lookup(mem, va);
      step := 0;
      if IsGuard(kernel, va) {
        if t.Mapped? {
          errors := errors + 1;
          return;
        }
        step := PAGE_SIZE;
        guardsValidated := guardsValidated + 1;
        return;
      }
      if t.Unmapped? || t.physical != pa {
        errors := errors + 1;
        return;
      }
      if t.level == 2 {
        step := BLOCK_SIZE;
        blocksValidated := blocksValidated + 1;
      } else {
        step := PAGE_SIZE;
        pagesValidated := pagesValidated + 1;
      }
    }

    /** By how much the validator's four counts grew. */
    twostate predicate Counted(blocks: nat, pages: nat, guards: nat, failures: nat)
      reads this
    {
      && blocksValidated == old(blocksValidated) + blocks && pagesValidated == old(pagesValidated) + pages
      && guardsValidated == old(guardsValidated) + guards && errors == old(errors) + failures
    }

    /** One turn of the loop, with o the outcome of the whole of it and `done` what it has counted. */
    method CheckStep(va: nat, pa: nat, remaining: nat, mem: Memory, ghost v: Tables, ghost look: (nat, nat) -> Outcome,
        ghost steps: nat -> nat, ghost at: (nat, nat) -> bool, ghost o: Outcome, ghost done: Outcome)
      returns (step: nat, ghost c: Outcome)
      requires Valid() && v == View() && Fits(at, steps)
      requires look(va, pa) == CheckAt(v, mem, kernel, va, pa) && steps(va) == StepAt(v, va)
      requires Scanning(look, steps, at, o, done, va, pa, remaining) && remaining > 0
      modifies this`blocksValidated, this`pagesValidated, this`guardsValidated, this`errors
      ensures step == 0 ==> o == Failed && errors == old(errors) + 1
      ensures step > 0 ==> step <= remaining && c.Passed? && Counted(c.blocks, c.pages, c.guards, 0)
      ensures step > 0 ==> Scanning(look, steps, at, o, Sum(done, c), va + step, pa + step, remaining - step)
    {
      ScanningStep(look, steps, at, o, done, va, pa, remaining);
      c := look(va, pa);
      step := CheckAddress(va, pa, mem, v);
    }

    /** The same for looks and steps that describe the tables. */
    method CheckTurn(va: nat, pa: nat, remaining: nat, mem: Memory, ghost v: Tables, ghost look: (nat, nat) -> Outcome,
        ghost steps: nat -> nat, ghost at: (nat, nat) -> bool, ghost o: Outcome, ghost done: Outcome)
      returns (step: nat, ghost c: Outcome)
      requires Valid() && v == View() && Fits(at, steps) && Describe(v, mem, kernel, look, steps)
      requires Scanning(look, steps, at, o, done, va, pa, remaining) && remaining > 0
      modifies this`blocksValidated, this`pagesValidated, this`guardsValidated, this`errors
      ensures step == 0 ==> o == Failed && errors == old(errors) + 1
      ensures step > 0 ==> step <= remaining && c.Passed? && Counted(c.blocks, c.pages, c.guards, 0)
      ensures step > 0 ==> Scanning(look, steps, at, o, Sum(done, c), va + step, pa + step, remaining - step)
    {
      DescribedAt(v, mem, kernel, look, steps, va, pa);
      step, c := CheckStep(va, pa, remaining, mem, v, look, steps, at, o, done);
    }

    /** The loop of validate_region, for the looks, steps and positions of the tables. */
    method CheckFrom(start: nat, base: nat, size: nat, mem: Memory, ghost v: Tables, ghost look: (nat, nat) -> Outcome,
        ghost steps: nat -> nat, ghost at: (nat, nat) -> bool)
      returns (ok: bool)
      requires Valid() && v == View() && Fits(at, steps) && at(start, size) && Describe(v, mem, kernel, look, steps)
      modifies this`blocksValidated, this`pagesValidated, this`guardsValidated, this`errors
      ensures var o := Scan(look, steps, start, base, size);
        if o.Passed? then ok && Counted(o.blocks, o.pages, o.guards, 0) else !ok && errors == old(errors) + 1
    {
      var va, pa, remaining := start, base, size;
      ghost var o, done := Scan(look, steps, start, base, size), Passed(0, 0, 0);
      while remaining > 0
        invariant View() == v && Scanning(look, steps, at, o, done, va, pa, remaining)
        invariant Counted(done.blocks, done.pages, done.guards, 0)
        decreases remaining
      {
        var step, c := CheckTurn(va, pa, remaining, mem, v, look, steps, at, o, done);
        assert View() == v;
        if step == 0 { return false; }
        va, pa, remaining := va + step, pa + step, remaining - step;
        done := Sum(done, c);
      }
      NothingLeft(look, steps, at, o, done, va, pa, remaining);
      ok := true;
    }

    /** validate_region. */
    method CheckRegion(r: Region, mem: Memory, ghost v: Tables) returns (ok: bool)
      requires Valid() && v == View()
      modifies this`blocksValidated, this`pagesValidated, this`guardsValidated, this`errors
      ensures var o := ValidateRegion(v, mem, kernel, r);
        if o.Passed? then ok && Counted(o.blocks, o.pages, o.guards, 0) else !ok && errors == old(errors) + 1
    {
      if !RegionAligned(r) {
        errors := errors + 1;
        return false;
      }
      AlignedAt(v, r);
      StepsFit(v);
      LooksDescribe(v, mem, kernel);
      ok := CheckFrom(r.va, r.pa, r.size, mem, v, Look(v, mem, kernel), Steps(v), Positions(v));
    }

    /** Both regions, with the outcomes m and o that the specification gives them. */
    method CheckRegions(mem: Memory, ghost v: Tables, ghost m: Outcome, ghost o: Outcome) returns (ok: bool)
      requires Valid() && v == View()
      requires m == ValidateRegion(v, mem, kernel, MMIO) && o == ValidateRegion(v, mem, kernel, RAM)
      modifies this`blocksValidated, this`pagesValidated, this`guardsValidated, this`errors
      ensures ok <==> m.Passed? && o.Passed?
      ensures if ok then Counted(m.blocks + o.blocks, m.pages + o.pages, m.guards + o.guards, 0)
        else errors == old(errors) + 1
    {
      ok := CheckRegion(MMIO, mem, v);
      if !ok { return; }
      ok := CheckRegion(RAM, mem, v);
    }

    /** validate_tables. The count of guard pages is not reset here; build_tables has done it. */
    method CheckTables(mem: Memory) returns (ok: bool)
      requires Valid()
      modifies this`blocksValidated, this`pagesValidated, this`guardsValidated, this`errors
      ensures ok <==> ValidateTables(View(), mem, layout, kernel, count.blocks, count.pages, count.guards,
        old(guardsValidated), l3Mapped)
      ensures errors == if ok then 0 else 1
    {
      ghost var v := View();
      ghost var m, o := ValidateRegion(v, mem, kernel, MMIO), ValidateRegion(v, mem, kernel, RAM);
      JudgedByCounts(v, mem, layout, kernel, count.blocks, count.pages, count.guards, guardsValidated, l3Mapped, m, o);
      ok := CheckCounts(mem, v, m, o);
    }

    method CheckCounts(mem: Memory, ghost v: Tables, ghost m: Outcome, ghost o: Outcome) returns (ok: bool)
      requires Valid() && v == View()
      requires m == ValidateRegion(v, mem, kernel, MMIO) && o == ValidateRegion(v, mem, kernel, RAM)
      modifies this`blocksValidated, this`pagesValidated, this`guardsValidated, this`errors
      ensures ok <==> CountsMatch(m, o, count.blocks, count.pages, count.guards, old(guardsValidated))
      ensures errors == if ok then 0 else 1
    {
      blocksValidated, pagesValidated, errors := 0, 0, 0;
      ok := CheckRegions(mem, v, m, o);
      if !ok { return; }
      ok := blocksValidated == count.blocks && pagesValidated == count.pages && guardsValidated == count.guards;
      if !ok { errors := errors + 1; }
    }

    /** vm_init up to switching the MMU on: building succeeds, the validator accepts what was built,
        and so the kernel map is in force. */
    method Init(elsewhere: Memory)
      requires Valid() && KernelPlaced(kernel)
      modifies this, l1, l2, l3, slots
      ensures Valid() && ready && errors == 0 && Built(View(), layout, kernel) && StatisticsTrue(count, View(), kernel)
      ensures forall a: nat :: a < 0x1_0000_0000 ==>
        KernelMaps(Walk(InMemory(View(), layout, elsewhere), layout.l1, a), kernel, a)
    {
      var built := BuildTables();
      ready := false;
      if built {
        ready := CheckBuilt(elsewhere);
      }
      MapInForce(View(), layout, kernel, elsewhere);
    }

    /** The validator accepts what the builder just made. */
    method CheckBuilt(elsewhere: Memory) returns (ok: bool)
      requires Valid() && KernelPlaced(kernel) && Built(View(), layout, kernel)
      requires StatisticsTrue(count, View(), kernel) && guardsValidated == 0
      modifies this`blocksValidated, this`pagesValidated, this`guardsValidated, this`errors
      ensures ok && errors == 0
    {
      ghost var v := View();
      ok := CheckTables(TableMemory(elsewhere));
      BuiltIsAccepted(v, layout, kernel, elsewhere, count, l3Mapped);
    }

    /** The memory that holds the tables, beside whatever else is there. */
    function TableMemory(elsewhere: Memory): (mem: Memory)
      requires Valid()
      reads this`used, l1, l2, l3, slots
      ensures mem == InMemory(View(), layout, elsewhere)
    {
      InMemory(Tables(l1[..], l2[..], l3[..], slots[..], used), layout, elsewhere)
    }
  }

  lemma {:induction false} BuiltIsAccepted(v: Tables, y: Layout, k: Kernel, elsewhere: Memory, c: Counters,
      l3Mapped: bool)
    requires Built(v, y, k) && KernelPlaced(k) && StatisticsTrue(c, v, k)
    ensures ValidateTables(v, InMemory(v, y, elsewhere), y, k, c.blocks, c.pages, c.guards, 0, l3Mapped)
  {
    ValidatorComplete(v, y, k, elsewhere);
  }

  lemma {:induction false} MapInForce(v: Tables, y: Layout, k: Kernel, elsewhere: Memory)
    requires Built(v, y, k) && KernelPlaced(k)
    ensures forall a: nat :: a < 0x1_0000_0000 ==> KernelMaps(Walk(InMemory(v, y, elsewhere), y.l1, a), k, a)
  {
    forall a: nat | a < 0x1_0000_0000 ensures KernelMaps(Walk(InMemory(v, y, elsewhere), y.l1, a), k, a) {
      KernelMapExact(v, y, k, elsewhere, a);
    }
  }

  lemma AlignedAt(v: Tables, r: Region)
    requires Shaped(v) && RegionAligned(r)
    ensures At(v, r.va, r.size)
  {
    BlockIsPages(r.va);
    RemainderIs(r.va + r.size, BLOCK_SIZE, r.va / BLOCK_SIZE + r.size / BLOCK_SIZE, 0);
  }

  /** The statistics are the numbers of blocks, pages, guard pages and bytes really mapped. */
  ghost predicate StatisticsTrue(c: Counters, v: Tables, k: Kernel)
    requires Shaped(v)
  {
    && c.blocks == |MappedBlocks(v)| && c.pages == |MappedPages(v)| && c.guards == |GuardPages(k, ENTRIES)|
    && c.bytes == c.blocks * BLOCK_SIZE + c.pages * PAGE_SIZE
    && c.execBlocks == 0 && c.xnBlocks == c.blocks
    && c.execPages == |ExecPages(k, ENTRIES)| && c.xnPages == c.pages - c.execPages
  }

  lemma {:induction false} StatisticsAre(v: Tables, y: Layout, k: Kernel)
    requires Built(v, y, k)
    ensures StatisticsTrue(DropBlock(CountPages(Counters(81, 0, 0, 0, 81, 0, 0, 81 * BLOCK_SIZE), k, ENTRIES),
      RegionsEntry(512)), v, k)
  {
    BuiltCounts(v, y, k);
    BlockDescIs(512 * BLOCK_SIZE, NORMAL_XN);
  }

  lemma {:induction false} RegionsMapped(v0: Tables, v1: Tables, v2: Tables)
    requires Shaped(v0) && Shaped(v1) && Shaped(v2) && forall b: nat :: b < BLOCKS ==> BlockEntry(v0, b) == 0
    requires RegionMapped(v0, v1, 64, 64 * BLOCK_SIZE, DEVICE, 17)
    requires RegionMapped(v1, v2, 512, 512 * BLOCK_SIZE, NORMAL_XN, 64)
    ensures forall b: nat :: b < BLOCKS ==> BlockEntry(v2, b) == RegionsEntry(b)
    ensures FindSlot(v2, 1, 0) < L2_CAPACITY
  {
    forall b: nat | b < BLOCKS ensures BlockEntry(v2, b) == RegionsEntry(b) {
      assert BlockEntry(v1, b) == MapEntry(64, 64 * BLOCK_SIZE, DEVICE, 17, b, BlockEntry(v0, b));
    }
  }

  lemma {:induction false} BuiltFrom(v: Tables, w: Tables, y: Layout, k: Kernel)
    requires Shaped(v) && Shaped(w) && LayoutOk(y) && SlotsOk(w, y)
    requires forall b: nat :: b < BLOCKS ==> BlockEntry(v, b) == RegionsEntry(b)
    requires OneMapped(v, w.(l3 := v.l3), 512, TableDesc(y.l3))
    requires forall i :: 0 <= i < ENTRIES ==> w.l3[i] == BuiltPage(k, i)
    ensures Built(w, y, k)
  {
    var u := w.(l3 := v.l3);
    forall b: nat | b < BLOCKS ensures BlockEntry(w, b) == BuiltEntry(y, b) {
      FindReads(u, w, b / ENTRIES, 0);
      assert BlockEntry(u, b) == if b == 512 then TableDesc(y.l3) else BlockEntry(v, b);
    }
  }

  /** Filling the level 3 table between taking the level 2 table and storing its entry is no matter. */
  lemma {:induction false} TableReplaced(v: Tables, w: Tables, x: Tables, z: Tables, y: Layout, d: nat)
    requires Shaped(v) && Shaped(w) && Shaped(x) && Shaped(z) && SlotsOk(v, y) && CanMap(v, 512)
    requires w == Reach(v, y, 1) && x == w.(l3 := x.l3) && FindSlot(x, 1, 0) < L2_CAPACITY
    requires z == SetBlock(x, 512, TableDesc(y.l3))
    requires d == x.l2[FindSlot(x, 1, 0) * ENTRIES]
    ensures SlotsOk(z, y) && OneMapped(v, z.(l3 := v.l3), 512, TableDesc(y.l3)) && d == BlockEntry(v, 512)
  {
    var u := z.(l3 := v.l3);
    if FindSlot(v, 1, 0) == L2_CAPACITY { AddSlotKeeps(v, y, 1); }
    forall i: nat ensures FindSlot(x, i, 0) == FindSlot(w, i, 0) && FindSlot(z, i, 0) == FindSlot(u, i, 0) {
      FindReads(x, w, i, 0);
      FindReads(z, u, i, 0);
    }
    assert u == MapOne(v, y, 512, TableDesc(y.l3));
    MapOneKeeps(v, y, 512, TableDesc(y.l3));
    assert BlockEntry(w, 512) == BlockEntry(v, 512);
  }

  /** What the loop of the validator sees on tables v. */
  ghost predicate Describe(v: Tables, mem: Memory, k: Kernel, look: (nat, nat) -> Outcome, steps: nat -> nat) {
    && Shaped(v)
    && (forall va: nat, pa: nat {:trigger CheckAt(v, mem, k, va, pa)} :: look(va, pa) == CheckAt(v, mem, k, va, pa))
    && (forall va: nat {:trigger StepAt(v, va)} :: steps(va) == StepAt(v, va))
  }

  lemma DescribedAt(v: Tables, mem: Memory, k: Kernel, look: (nat, nat) -> Outcome, steps: nat -> nat, va: nat, pa: nat)
    requires Describe(v, mem, k, look, steps)
    ensures look(va, pa) == CheckAt(v, mem, k, va, pa) && steps(va) == StepAt(v, va)
  {
  }

  lemma LooksDescribe(v: Tables, mem: Memory, k: Kernel)
    requires Shaped(v)
    ensures Describe(v, mem, k, Look(v, mem, k), Steps(v))
  {
  }

  /** From tables v and counters c, n blocks of a region were mapped and counted. */
  ghost predicate Progress(v: Tables, w: Tables, y: Layout, c: Counters, c': Counters, first: nat, pa: nat, t: Attr,
      n: nat) {
    && Shaped(v) && Shaped(w) && SlotsOk(w, y) && RegionMapped(v, w, first, pa, t, n)
    && c' == CountBlocks(c, t.xn != 0, n)
  }

  lemma NoProgress(v: Tables, y: Layout, c: Counters, first: nat, pa: nat, t: Attr)
    requires Shaped(v) && SlotsOk(v, y)
    ensures Progress(v, v, y, c, c, first, pa, t, 0)
  {
    NothingMapped(v, first, pa, t);
  }

  /** One more block was mapped, or no level 2 table is left for it. */
  lemma {:induction false} BlockTurn(v: Tables, w: Tables, x: Tables, y: Layout, c: Counters, c': Counters, first: nat,
      pa: nat, t: Attr, n: nat, ok: bool)
    requires Progress(v, w, y, c, c', first, pa, t, n) && Shaped(x) && SlotsOk(x, y) && first + n < BLOCKS
    requires ok <==> CanMap(w, first + n)
    requires ok ==> OneMapped(w, x, first + n, BlockDesc(pa + n * BLOCK_SIZE, t))
    ensures ok ==> Progress(v, x, y, c, CountBlocks(c', t.xn != 0, 1), first, pa, t, n + 1)
    ensures !ok ==> v.used + Span(first, n + 1) > L2_CAPACITY
  {
    MapRoom(v, w, first, pa, t, n);
    if ok { ProgressStep(v, w, x, y, c, c', first, pa, t, n); }
  }

  lemma {:induction false} ProgressStep(v: Tables, w: Tables, x: Tables, y: Layout, c: Counters, c': Counters,
                                        first: nat, pa: nat, t: Attr, n: nat)
    requires Progress(v, w, y, c, c', first, pa, t, n) && Shaped(x) && SlotsOk(x, y)
    requires OneMapped(w, x, first + n, BlockDesc(pa + n * BLOCK_SIZE, t))
    ensures Progress(v, x, y, c, CountBlocks(c', t.xn != 0, 1), first, pa, t, n + 1)
  {
    MapStep(v, w, x, first, pa, t, n);
  }

  /** Where the loop over a region's blocks is. */
  predicate Cursor(first: nat, base: nat, total: nat, n: nat, va: int, pa: int, remaining: int) {
    n <= total && va == (first + n) * BLOCK_SIZE && pa == base + n * BLOCK_SIZE && remaining == (total - n) * BLOCK_SIZE
  }

  lemma CursorBlock(first: nat, base: nat, total: nat, n: nat, va: int, pa: int, remaining: int)
    requires Cursor(first, base, total, n, va, pa, remaining) && remaining > 0 && base % BLOCK_SIZE == 0
    ensures n < total && va / BLOCK_SIZE == first + n && pa % BLOCK_SIZE == 0 && pa < base + total * BLOCK_SIZE
    ensures Span(first, n + 1) <= Span(first, total)
  {
    BlockOf(pa, base, n);
    SpanGrows(first, n + 1, total);
  }

  lemma CursorStep(first: nat, base: nat, total: nat, n: nat, va: int, pa: int, remaining: int)
    requires Cursor(first, base, total, n, va, pa, remaining) && n < total
    ensures Cursor(first, base, total, n + 1, va + BLOCK_SIZE, pa + BLOCK_SIZE, remaining - BLOCK_SIZE)
  {
  }

  lemma BlockOf(pa: nat, base: nat, n: nat)
    requires base % BLOCK_SIZE == 0 && pa == base + n * BLOCK_SIZE
    ensures pa % BLOCK_SIZE == 0
  {
    RemainderIs(pa, BLOCK_SIZE, base / BLOCK_SIZE + n, 0);
  }
}
