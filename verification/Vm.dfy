/** The kernel page tables of kernel/memory/vm.c as a value: the walker and the map the builder has
    to produce. */
module Vm {
  import opened Mmu

  const L2_CAPACITY := 4
  const KERNEL_L3_BASE := 0x40000000
  const STACK_SLOT := 8192
  const STACK_COUNT := 8
  const STACK_REGION := STACK_COUNT * STACK_SLOT + PAGE_SIZE
  /** Level 2 entries reachable from one level 1 table. */
  const BLOCKS := ENTRIES * ENTRIES

  datatype Region = Region(va: nat, pa: nat, size: nat, attr: Attr)

  const MMIO := Region(0x08000000, 0x08000000, 0x02200000, DEVICE)
  const RAM := Region(0x40000000, 0x40000000, 0x08000000, NORMAL_XN)

  predicate RegionAligned(r: Region) {
    r.va % BLOCK_SIZE == 0 && r.pa % BLOCK_SIZE == 0 && r.size % BLOCK_SIZE == 0
  }

  /** What the linker and the scheduler put into the first block of RAM. */
  datatype Kernel = Kernel(textStart: nat, textEnd: nat, rodataStart: nat, rodataEnd: nat, stacks: nat)

  /** The stack region is page aligned and lies in the first block of RAM. */
  predicate KernelPlaced(k: Kernel) {
    k.stacks % PAGE_SIZE == 0 && KERNEL_L3_BASE <= k.stacks && k.stacks + STACK_REGION <= KERNEL_L3_BASE + BLOCK_SIZE
  }

  function RoundUp(x: nat): nat {
    (x + PAGE_SIZE - 1) / PAGE_SIZE * PAGE_SIZE
  }

  function RoundDown(x: nat): nat {
    x / PAGE_SIZE * PAGE_SIZE
  }

  /** kernel_page_attributes. */
  function KernelAttr(k: Kernel, address: nat): (t: Attr)
    ensures AttrValid(t)
    ensures t.xn == 0 ==> AttrAp(t) >= 2
  {
    if RoundDown(k.textStart) <= address < RoundUp(k.textEnd) then NORMAL_RO_EXEC
    else if RoundDown(k.rodataStart) <= address < RoundUp(k.rodataEnd) then NORMAL_RO_XN
    else NORMAL_XN
  }

  /** scheduler_address_is_stack_guard, without its loop. */
  predicate IsGuard(k: Kernel, address: nat) {
    k.stacks <= address && (address - k.stacks) / STACK_SLOT <= STACK_COUNT &&
      (address - k.stacks) % STACK_SLOT < PAGE_SIZE
  }

  /** The loop over the nine guard pages decides the same. */
  lemma GuardIsOneOfNine(k: Kernel, address: nat)
    ensures IsGuard(k, address) <==>
      exists i {:trigger GuardStart(k, i)} :: 0 <= i <= STACK_COUNT &&
        GuardStart(k, i) <= address < GuardStart(k, i) + PAGE_SIZE
  {
    if IsGuard(k, address) {
      var i := (address - k.stacks) / STACK_SLOT;
      assert GuardStart(k, i) <= address < GuardStart(k, i) + PAGE_SIZE;
    }
    forall i {:trigger GuardStart(k, i)} | 0 <= i <= STACK_COUNT &&
      GuardStart(k, i) <= address < GuardStart(k, i) + PAGE_SIZE
      ensures IsGuard(k, address)
    {
      assert (address - k.stacks) / STACK_SLOT == i;
    }
  }

  function GuardStart(k: Kernel, i: int): int {
    k.stacks + i * STACK_SLOT
  }

  /** A page is a guard page as a whole. */
  lemma GuardByPage(k: Kernel, a: nat)
    requires k.stacks % PAGE_SIZE == 0
    ensures IsGuard(k, a) <==> IsGuard(k, a / PAGE_SIZE * PAGE_SIZE)
  {
    var s, p, r := k.stacks / PAGE_SIZE, a / PAGE_SIZE, a % PAGE_SIZE;
    assert k.stacks == s * PAGE_SIZE && a == p * PAGE_SIZE + r;
    if s <= p {
      var q, odd := (p - s) / 2, (p - s) % 2;
      assert a - k.stacks == q * STACK_SLOT + (odd * PAGE_SIZE + r);
      assert p * PAGE_SIZE - k.stacks == q * STACK_SLOT + odd * PAGE_SIZE;
    }
  }

  // ---- tables ----

  datatype Slot = Slot(l1Index: nat, used: bool)

  /** Where the linker put the tables: the level 1 table, four level 2 tables in a row, one level 3 table. */
  datatype Layout = Layout(l1: nat, l2: nat, l3: nat)

  predicate LayoutOk(y: Layout) {
    && y.l1 % PAGE_SIZE == 0 && y.l2 % PAGE_SIZE == 0 && y.l3 % PAGE_SIZE == 0
    && 0 < y.l1 < U48 && y.l2 + L2_CAPACITY * PAGE_SIZE <= U48 && y.l3 < U48
    && !(y.l2 <= y.l1 < y.l2 + L2_CAPACITY * PAGE_SIZE) && !(y.l2 <= y.l3 < y.l2 + L2_CAPACITY * PAGE_SIZE) &&
      y.l1 != y.l3
  }

  /** `l2` holds the four level 2 tables one after another. */
  datatype Tables = Tables(l1: seq<nat>, l2: seq<nat>, l3: seq<nat>, slots: seq<Slot>, used: nat)

  predicate Shaped(v: Tables) {
    |v.l1| == ENTRIES && |v.l2| == L2_CAPACITY * ENTRIES && |v.l3| == ENTRIES && |v.slots| == L2_CAPACITY &&
      v.used <= L2_CAPACITY
  }

  function Row(v: Tables, s: nat): (r: seq<nat>)
    requires Shaped(v) && s < L2_CAPACITY
    ensures |r| == ENTRIES
  {
    v.l2[s * ENTRIES..s * ENTRIES + ENTRIES]
  }

  /** The tables in memory, beside whatever else is there. */
  function InMemory(v: Tables, y: Layout, elsewhere: Memory): (mem: Memory)
    requires Shaped(v) && LayoutOk(y)
    ensures forall i :: 0 <= i < ENTRIES ==> Entry(mem, y.l1, i) == v.l1[i]
    ensures forall i :: 0 <= i < ENTRIES ==> Entry(mem, y.l3, i) == v.l3[i]
    ensures forall s, i :: 0 <= s < L2_CAPACITY && 0 <= i < ENTRIES ==>
      Entry(mem, y.l2 + s * PAGE_SIZE, i) == Row(v, s)[i]
  {
    elsewhere + map[y.l1 := v.l1, y.l2 := Row(v, 0), y.l2 + PAGE_SIZE := Row(v, 1), y.l2 + 2 * PAGE_SIZE := Row(v, 2),
                    y.l2 + 3 * PAGE_SIZE := Row(v, 3), y.l3 := v.l3]
  }

  /** find_l2_table from slot `s` on; L2_CAPACITY stands for "none". */
  function FindSlot(v: Tables, l1Index: nat, s: nat): (r: nat)
    requires Shaped(v) && s <= v.used
    ensures r < v.used || r == L2_CAPACITY
    ensures r < v.used ==> s <= r && v.slots[r] == Slot(l1Index, true)
    ensures r == L2_CAPACITY ==> forall j :: s <= j < v.used ==> v.slots[j] != Slot(l1Index, true)
    decreases v.used - s
  {
    if s == v.used then L2_CAPACITY
    else if v.slots[s].used && v.slots[s].l1Index == l1Index then s
    else FindSlot(v, l1Index, s + 1)
  }

  /** The level 2 entry for block number b; 0 when no level 2 table covers it. */
  function BlockEntry(v: Tables, b: nat): nat
    requires Shaped(v)
  {
    var s := FindSlot(v, b / ENTRIES, 0);
    if s < L2_CAPACITY then v.l2[s * ENTRIES + b % ENTRIES] else 0
  }

  /** translation_for_address; `mem` is where the level 3 table is looked up by its address. */
  function Translate(v: Tables, mem: Memory, address: nat): (r: Translation)
    requires Shaped(v)
  {
    var s := FindSlot(v, L1Index(address), 0);
    if !IsTable(v.l1[L1Index(address)]) || s == L2_CAPACITY then Unmapped
    else Walk2(mem, v.l2[s * ENTRIES + L2Index(address)], address)
  }

  /** Each used slot serves one level 1 entry, and the entry points at the slot's table. */
  ghost predicate SlotsOk(v: Tables, y: Layout)
    requires Shaped(v)
  {
    && (forall s :: 0 <= s < v.used ==> v.slots[s].used && v.slots[s].l1Index < ENTRIES)
    && (forall s :: 0 <= s < v.used ==> v.l1[v.slots[s].l1Index] == TableDesc(y.l2 + s * PAGE_SIZE))
    && (forall s :: 0 <= s < v.used ==> FindSlot(v, v.slots[s].l1Index, 0) == s)
    && (forall i {:trigger FindSlot(v, i, 0)} :: 0 <= i < ENTRIES && FindSlot(v, i, 0) == L2_CAPACITY ==> v.l1[i] == 0)
  }

  lemma IndexOfBlock(a: nat)
    requires a < 0x1_0000_0000
    ensures L1Index(a) == a / BLOCK_SIZE / ENTRIES && L2Index(a) == a / BLOCK_SIZE % ENTRIES && a / BLOCK_SIZE < 2048
  {
  }

  /** Where the level 1 descriptor of block b leads: to the table of its slot, or nowhere. */
  lemma {:induction false} TableFound(v: Tables, y: Layout, elsewhere: Memory, b: nat)
    requires Shaped(v) && LayoutOk(y) && SlotsOk(v, y) && b < 2048
    ensures var mem, s := InMemory(v, y, elsewhere), FindSlot(v, b / ENTRIES, 0);
      var d1 := Entry(mem, y.l1, b / ENTRIES);
      if s == L2_CAPACITY then d1 == 0
      else
        && s < L2_CAPACITY && IsTable(d1) && DescAddress(d1) == y.l2 + s * PAGE_SIZE
        && Entry(mem, DescAddress(d1), b % ENTRIES) == v.l2[s * ENTRIES + b % ENTRIES]
  {
    var mem := InMemory(v, y, elsewhere);
    var s := FindSlot(v, b / ENTRIES, 0);
    if s < L2_CAPACITY {
      TableDescIs(y.l2 + s * PAGE_SIZE);
      assert Entry(mem, y.l2 + s * PAGE_SIZE, b % ENTRIES) == Row(v, s)[b % ENTRIES];
    }
  }

  /** The lookup by slot agrees with following the level 1 descriptor in memory, up to the access flag
      that only the hardware tests, and both depend on nothing but the level 2 entry. */
  lemma {:induction false} WalksAgree(v: Tables, y: Layout, elsewhere: Memory, a: nat)
    requires Shaped(v) && LayoutOk(y) && SlotsOk(v, y) && a < 0x1_0000_0000
    ensures var mem := InMemory(v, y, elsewhere);
      && Translate(v, mem, a) == Walk2(mem, BlockEntry(v, a / BLOCK_SIZE), a)
      && Walk(mem, y.l1, a) == Flagged(Translate(v, mem, a))
  {
    IndexOfBlock(a);
    TableFound(v, y, elsewhere, a / BLOCK_SIZE);
  }

  // ---- the map the builder has to produce ----

  /** The level 2 entry of block number b after build_tables. */
  function BuiltEntry(y: Layout, b: nat): nat {
    if 64 <= b < 81 then BlockDesc(b * BLOCK_SIZE, DEVICE)
    else if b == 512 then TableDesc(y.l3)
    else if 513 <= b < 576 then BlockDesc(b * BLOCK_SIZE, NORMAL_XN)
    else 0
  }

  /** Entry i of the level 3 table after build_tables. */
  function BuiltPage(k: Kernel, i: nat): nat {
    var address := KERNEL_L3_BASE + i * PAGE_SIZE;
    if IsGuard(k, address) then 0 else PageDesc(address, KernelAttr(k, address))
  }

  ghost predicate Built(v: Tables, y: Layout, k: Kernel) {
    && Shaped(v) && LayoutOk(y) && SlotsOk(v, y)
    && (forall b :: 0 <= b < BLOCKS ==> BlockEntry(v, b) == BuiltEntry(y, b))
    && (forall i :: 0 <= i < ENTRIES ==> v.l3[i] == BuiltPage(k, i))
  }

  predicate InRegion(r: Region, a: nat) {
    r.va <= a < r.va + r.size
  }

  /** What a correct kernel map does to an address. */
  ghost predicate IdentityMapped(r: Translation, a: nat) {
    && r.Mapped? && r.physical == a && AccessFlag(r.descriptor)
    && !UserAccess(r.descriptor) && (Xn(r.descriptor) == 0 || Xn(r.descriptor) == 3)
    && !(Writable(r.descriptor) && !ExecuteNever(r.descriptor))
  }

  /** Device memory exactly in the MMIO region, inner shareable normal memory elsewhere. */
  predicate MemoryFits(d: nat, a: nat) {
    Plain(d) && if InRegion(MMIO, a) then MemoryType(d) == 1 else MemoryType(d) == 0 && Shareability(d) == 3
  }

  /** The page of address a meets the range from lo to hi. */
  ghost predicate OnPageOf(lo: nat, hi: nat, a: nat) {
    exists t: nat :: lo <= t < hi && t / PAGE_SIZE == a / PAGE_SIZE
  }

  /** A range that is not empty, or is empty between two pages. */
  predicate RangeOk(lo: nat, hi: nat) {
    lo < hi || (lo == hi && lo % PAGE_SIZE == 0)
  }

  predicate RangesOk(k: Kernel) {
    RangeOk(k.textStart, k.textEnd) && RangeOk(k.rodataStart, k.rodataEnd)
  }

  predicate InFirstBlock(a: nat) {
    KERNEL_L3_BASE <= a < KERNEL_L3_BASE + BLOCK_SIZE
  }

  /** Executable exactly where a page of the first block meets the kernel text, and writable exactly
      where it meets neither text nor read-only data. */
  ghost predicate Permitted(d: nat, k: Kernel, a: nat) {
    && (KernelExecutable(d) <==> InFirstBlock(a) && OnPageOf(k.textStart, k.textEnd, a))
    && (Writable(d) <==>
      !(InFirstBlock(a) && (OnPageOf(k.textStart, k.textEnd, a) || OnPageOf(k.rodataStart, k.rodataEnd, a))))
  }

  /** What the kernel map does to a 32-bit address. */
  ghost predicate KernelMaps(r: Translation, k: Kernel, a: nat) {
    if (InRegion(MMIO, a) || InRegion(RAM, a)) && !IsGuard(k, a) then
      && IdentityMapped(r, a) && MemoryFits(r.descriptor, a)
      && (RangesOk(k) ==> Permitted(r.descriptor, k, a))
    else r == Unmapped
  }

  lemma BlockTranslates(mem: Memory, b: nat, t: Attr, a: nat)
    requires b < 2048 && AttrValid(t) && AttrAp(t) == 0 && t.xn == 3 && t.low / 0x400 % 2 == 1 && a / BLOCK_SIZE == b
    ensures IdentityMapped(Walk2(mem, BlockDesc(b * BLOCK_SIZE, t), a), a)
    ensures var r := Walk2(mem, BlockDesc(b * BLOCK_SIZE, t), a);
      r.level == 2 && HasAttr(r.descriptor, t) && Xn(r.descriptor) == 3
  {
    BlockDescIs(b * BLOCK_SIZE, t);
    assert a == b * BLOCK_SIZE + a % BLOCK_SIZE;
  }

  lemma PageTranslates(mem: Memory, y: Layout, k: Kernel, a: nat)
    requires LayoutOk(y) && KernelPlaced(k) && a / BLOCK_SIZE == 512
    requires forall i :: 0 <= i < ENTRIES ==> Entry(mem, y.l3, i) == BuiltPage(k, i)
    ensures var r := Walk2(mem, TableDesc(y.l3), a);
      if IsGuard(k, a) then r == Unmapped
      else
        && IdentityMapped(r, a) && r.level == 3
        && HasAttr(r.descriptor, KernelAttr(k, RoundDown(a))) && Xn(r.descriptor) == KernelAttr(k, RoundDown(a)).xn
  {
    TableDescIs(y.l3);
    var i := L3Index(a);
    PageNumber(a, i);
    var address := KERNEL_L3_BASE + i * PAGE_SIZE;
    GuardByPage(k, a);
    assert Entry(mem, y.l3, i) == BuiltPage(k, i);
    if !IsGuard(k, a) {
      PageDescIs(address, KernelAttr(k, address));
    }
  }

  /** Rounding a range outwards takes in exactly the pages that meet it. */
  lemma {:induction false} RoundedRange(lo: nat, hi: nat, a: nat)
    requires RangeOk(lo, hi)
    ensures RoundDown(lo) <= RoundDown(a) < RoundUp(hi) <==> OnPageOf(lo, hi, a)
  {
    var p := a / PAGE_SIZE;
    if RoundDown(lo) <= RoundDown(a) < RoundUp(hi) {
      var t := if lo <= RoundDown(a) then RoundDown(a) else lo;
      InPage(lo, hi, p, t);
    }
    forall t: nat | lo <= t < hi && t / PAGE_SIZE == p ensures RoundDown(lo) <= RoundDown(a) < RoundUp(hi) {
      assert t == p * PAGE_SIZE + t % PAGE_SIZE;
      assert lo == lo / PAGE_SIZE * PAGE_SIZE + lo % PAGE_SIZE;
      assert hi + PAGE_SIZE - 1 == RoundUp(hi) + (hi + PAGE_SIZE - 1) % PAGE_SIZE;
    }
  }

  lemma InPage(lo: nat, hi: nat, p: nat, t: nat)
    requires RangeOk(lo, hi) && RoundDown(lo) <= p * PAGE_SIZE < RoundUp(hi)
    requires t == if lo <= p * PAGE_SIZE then p * PAGE_SIZE else lo
    ensures lo <= t < hi && t / PAGE_SIZE == p
  {
    assert lo == lo / PAGE_SIZE * PAGE_SIZE + lo % PAGE_SIZE;
    assert hi + PAGE_SIZE - 1 == RoundUp(hi) + (hi + PAGE_SIZE - 1) % PAGE_SIZE;
  }

  /** kernel_page_attributes by what the page meets: text is executable and read-only, other read-only
      data is neither writable nor executable, and the rest is writable only. */
  lemma {:induction false} AttributesFollowRanges(k: Kernel, a: nat)
    requires RangesOk(k)
    ensures var t := KernelAttr(k, RoundDown(a));
      && t.xn == (if OnPageOf(k.textStart, k.textEnd, a) then 0 else 3)
      && AttrAp(t) == (if OnPageOf(k.textStart, k.textEnd, a) || OnPageOf(k.rodataStart, k.rodataEnd, a) then 2 else 0)
  {
    RoundedRange(k.textStart, k.textEnd, a);
    RoundedRange(k.rodataStart, k.rodataEnd, a);
  }

  lemma AttributesAreNormal(k: Kernel, a: nat)
    ensures var t := KernelAttr(k, a); t.low / 4 % 8 == 0 && t.low / 256 % 4 == 3 && t.low / 0x400 % 2 == 1
    ensures var t := KernelAttr(k, a); t.low / 32 % 2 == 0 && t.low / 0x800 % 2 == 0
    ensures var t := KernelAttr(k, a); t.xn == 0 || t.xn == 3
  {
  }

  lemma PageNumber(a: nat, i: nat)
    requires a / BLOCK_SIZE == 512 && i == L3Index(a)
    ensures a / PAGE_SIZE * PAGE_SIZE == KERNEL_L3_BASE + i * PAGE_SIZE
    ensures a == KERNEL_L3_BASE + i * PAGE_SIZE + a % PAGE_SIZE
  {
    var p := a / PAGE_SIZE;
    assert p / 512 == 512;
  }

  /** Main result on the kernel map: every 32-bit address in the MMIO and RAM regions outside the
      guard pages translates to itself and nothing else translates at all; MMIO is device memory and
      RAM normal; nothing is accessible from EL0 or both writable and executable, the kernel text is
      what can be executed, and text and read-only data are what cannot be written. */
  lemma {:induction false} KernelMapExact(v: Tables, y: Layout, k: Kernel, elsewhere: Memory, a: nat)
    requires Built(v, y, k) && KernelPlaced(k) && a < 0x1_0000_0000
    ensures KernelMaps(Walk(InMemory(v, y, elsewhere), y.l1, a), k, a)
  {
    var mem, b := InMemory(v, y, elsewhere), a / BLOCK_SIZE;
    WalksAgree(v, y, elsewhere, a);
    IndexOfBlock(a);
    assert BlockEntry(v, b) == BuiltEntry(y, b);
    EntryTranslates(mem, y, k, a);
  }

  /** The built level 2 entry does to an address of its block what the map promises. */
  lemma {:induction false} EntryTranslates(mem: Memory, y: Layout, k: Kernel, a: nat)
    requires LayoutOk(y) && KernelPlaced(k) && a < 0x1_0000_0000
    requires forall i :: 0 <= i < ENTRIES ==> Entry(mem, y.l3, i) == BuiltPage(k, i)
    ensures KernelMaps(Walk2(mem, BuiltEntry(y, a / BLOCK_SIZE), a), k, a)
  {
    var b := a / BLOCK_SIZE;
    IndexOfBlock(a);
    RegionBlocks(a);
    if IsGuard(k, a) { GuardsInFirstBlock(k, a); }
    if 64 <= b < 81 {
      BlockTranslates(mem, b, DEVICE, a);
    } else if b == 512 {
      PageTranslates(mem, y, k, a);
      AttributesAreNormal(k, RoundDown(a));
      if RangesOk(k) { AttributesFollowRanges(k, a); }
    } else if 513 <= b < 576 {
      BlockTranslates(mem, b, NORMAL_XN, a);
    }
  }

  lemma RegionBlocks(a: nat)
    ensures InRegion(MMIO, a) <==> 64 <= a / BLOCK_SIZE < 81
    ensures InRegion(RAM, a) <==> 512 <= a / BLOCK_SIZE < 576
  {
  }

  lemma GuardsInFirstBlock(k: Kernel, a: nat)
    requires KernelPlaced(k) && IsGuard(k, a)
    ensures a / BLOCK_SIZE == 512
  {
  }
}
