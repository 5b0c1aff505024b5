/** What validate_tables of kernel/memory/vm.c cannot see: a guard page inside a block entry. */
module VmBlindSpot {
  import opened Mmu
  import opened Vm
  import opened VmBuild
  import opened RegionScan
  import opened VmValidate

  const FREE_SLOT := Slot(0, false)

  /** The tables once both regions are mapped as blocks, before map_kernel_l3_block. */
  function BlockTables(y: Layout): (v: Tables)
    ensures Shaped(v)
  {
    Tables([TableDesc(y.l2), TableDesc(y.l2 + PAGE_SIZE)] + seq(ENTRIES - 2, i => 0),
           seq(L2_CAPACITY * ENTRIES, j requires 0 <= j => RegionsEntry(j)),
           seq(ENTRIES, i => 0),
           [Slot(0, true), Slot(1, true), FREE_SLOT, FREE_SLOT], 2)
  }

  lemma {:induction false} EntryOfBlockTables(y: Layout, b: nat)
    requires LayoutOk(y) && b < 2 * ENTRIES
    ensures EntryOf(BlockTables(y), b * BLOCK_SIZE) == RegionsEntry(b)
  {
    var v, a := BlockTables(y), b * BLOCK_SIZE;
    assert a / BLOCK_SIZE == b;
    IndexOfBlock(a);
    TableDescIs(y.l2);
    TableDescIs(y.l2 + PAGE_SIZE);
    assert v.slots[0] == Slot(0, true) && v.slots[1] == Slot(1, true);
    assert FindSlot(v, L1Index(a), 0) == L1Index(a) by {
      assert FindSlot(v, L1Index(a), 1) == if L1Index(a) == 1 then 1 else FindSlot(v, L1Index(a), 2);
    }
    assert v.l1[0] == TableDesc(y.l2) && v.l1[1] == TableDesc(y.l2 + PAGE_SIZE);
    assert v.l2[b] == RegionsEntry(b);
  }

  lemma {:induction false} RegionBlockPasses(y: Layout, mem: Memory, k: Kernel, b: nat)
    requires LayoutOk(y) && KernelPlaced(k) && k.stacks > KERNEL_L3_BASE && (64 <= b < 81 || 512 <= b < 576)
    ensures BlockPasses(BlockTables(y), mem, k, b * BLOCK_SIZE)
  {
    var v, va := BlockTables(y), b * BLOCK_SIZE;
    assert va / BLOCK_SIZE == b;
    EntryOfBlockTables(y, b);
    TranslateByEntry(v, mem, va);
    LevelTwoIsBlock(v, mem, va);
    BlockTranslates(mem, b, if b < 81 then DEVICE else NORMAL_XN, va);
    if IsGuard(k, va) { GuardsInFirstBlock(k, va); }
  }

  lemma {:induction false} RegionPasses(y: Layout, mem: Memory, k: Kernel, r: Region, lo: nat, n: nat)
    requires LayoutOk(y) && KernelPlaced(k) && k.stacks > KERNEL_L3_BASE
    requires (r == MMIO && lo == 64 && n == 17) || (r == RAM && lo == 512 && n == 64)
    ensures ValidateRegion(BlockTables(y), mem, k, r) == Passed(n, 0, 0)
  {
    var v := BlockTables(y);
    RegionStart(v, mem, k, r);
    forall i: nat | i < n ensures BlockPasses(v, mem, k, Nth(r.va, i)) {
      RegionBlockPasses(y, mem, k, lo + i);
      assert Nth(r.va, i) == (lo + i) * BLOCK_SIZE;
    }
    ValidateBlocks(v, mem, k, n, r.va, r.size);
  }

  /** The region checks pass on tables that map every guard page: with the counters that fit these
      tables validate_tables succeeds, wherever the stacks lie behind the first page of RAM. */
  lemma {:induction false} GuardMissed(y: Layout, mem: Memory, k: Kernel, a: nat)
    requires LayoutOk(y) && KernelPlaced(k) && k.stacks > KERNEL_L3_BASE && IsGuard(k, a)
    ensures ValidateTables(BlockTables(y), mem, y, k, 81, 0, 0, 0, false)
    ensures Translate(BlockTables(y), mem, a).Mapped?
  {
    var v := BlockTables(y);
    RegionPasses(y, mem, k, MMIO, 64, 17);
    RegionPasses(y, mem, k, RAM, 512, 64);
    RegionBlockPasses(y, mem, k, 512);
    GuardInBlock(v, mem, k, a);
  }
}
