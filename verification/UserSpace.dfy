/** The user address spaces of kernel/memory/address_space.c: per-slot tables laid over the kernel
    map, with one page each for code, data and stack. */
module UserSpace {
  import opened Mmu
  import opened Vm

  const SLOTS := 4
  const REGIONS := 3
  const CODE_START := 0x00100000
  const DATA_START := 0x00200000
  const STACK_START := 0x3fff0000
  const STACK_END := 0x40000000
  const REGION_SIZE := 0x00100000
  const U64 := 0x1_0000_0000_0000_0000

  /** First address and attributes of region i: code, data, stack. */
  function RegionStart(i: nat): nat {
    if i == 0 then CODE_START else if i == 1 then DATA_START else STACK_START
  }

  /** The planned end of region i; only its first page is mapped. */
  function RegionEnd(i: nat): nat {
    if i == 0 then CODE_START + REGION_SIZE else if i == 1 then DATA_START + REGION_SIZE else STACK_END
  }

  function RegionAttr(i: nat): (t: Attr)
    ensures AttrValid(t)
  {
    if i == 0 then USER_CODE else USER_DATA
  }

  /** The static pools: level 1 and level 2 tables, three level 3 tables and three pages per slot. */
  datatype Pools = Pools(l1: nat, l2: nat, l3: nat, pages: nat)

  function L1At(u: Pools, slot: nat): nat { u.l1 + slot * PAGE_SIZE }
  function L2At(u: Pools, slot: nat): nat { u.l2 + slot * PAGE_SIZE }
  function L3At(u: Pools, slot: nat, i: nat): nat { u.l3 + (slot * REGIONS + i) * PAGE_SIZE }
  function PageAt(u: Pools, slot: nat, i: nat): nat { u.pages + (slot * REGIONS + i) * PAGE_SIZE }

  /** [start, start + n pages) and [start', start' + n' pages) are apart. */
  predicate Apart(start: nat, n: nat, start': nat, n': nat) {
    start + n * PAGE_SIZE <= start' || start' + n' * PAGE_SIZE <= start
  }

  /** The pools are page aligned, below 2^48, and apart from each other and from the kernel tables. */
  predicate PoolsOk(u: Pools, y: Layout) {
    && 0 < u.l1 && u.l1 % PAGE_SIZE == 0 && u.l2 % PAGE_SIZE == 0 && u.l3 % PAGE_SIZE == 0 && u.pages % PAGE_SIZE == 0
    && u.l1 + SLOTS * PAGE_SIZE <= U48 && u.l2 + SLOTS * PAGE_SIZE <= U48
    && u.l3 + SLOTS * REGIONS * PAGE_SIZE <= U48 && u.pages + SLOTS * REGIONS * PAGE_SIZE <= U48
    && Apart(u.l1, SLOTS, u.l2, SLOTS) && Apart(u.l1, SLOTS, u.l3, SLOTS * REGIONS) &&
      Apart(u.l2, SLOTS, u.l3, SLOTS * REGIONS)
    && Apart(u.l1, SLOTS, y.l1, 1) && Apart(u.l2, SLOTS, y.l1, 1) && Apart(u.l3, SLOTS * REGIONS, y.l1, 1)
    && Apart(u.l1, SLOTS, y.l2, L2_CAPACITY) && Apart(u.l2, SLOTS, y.l2, L2_CAPACITY) &&
      Apart(u.l3, SLOTS * REGIONS, y.l2, L2_CAPACITY)
    && Apart(u.l1, SLOTS, y.l3, 1) && Apart(u.l2, SLOTS, y.l3, 1) && Apart(u.l3, SLOTS * REGIONS, y.l3, 1)
  }

  /** The kernel map can be shared: there is a root, and its first entry is a table. */
  predicate Shareable(mem: Memory, root: nat) {
    root != 0 && IsTable(Entry(mem, root, 0))
  }

  /** The entry that replaces the kernel's at the level 2 index of a region. */
  function OverlayEntry(u: Pools, slot: nat, kernelEntry: nat, i: nat): nat {
    if i == L2Index(CODE_START) then TableDesc(L3At(u, slot, 0))
    else if i == L2Index(DATA_START) then TableDesc(L3At(u, slot, 1))
    else if i == L2Index(STACK_START) then TableDesc(L3At(u, slot, 2))
    else kernelEntry
  }

  /** Entries of a slot's tables over the kernel tables found in memory. When the kernel map cannot
      be shared, nothing of it is. */
  function UserL1(mem: Memory, root: nat, u: Pools, slot: nat, i: nat): nat {
    if i == 0 then TableDesc(L2At(u, slot))
    else if Shareable(mem, root) then Entry(mem, root, i)
    else 0
  }

  function SharedL2(mem: Memory, root: nat, i: nat): nat {
    if Shareable(mem, root) then Entry(mem, DescAddress(Entry(mem, root, 0)), i) else 0
  }

  function UserL2(mem: Memory, root: nat, u: Pools, slot: nat, i: nat): nat {
    OverlayEntry(u, slot, SharedL2(mem, root, i), i)
  }

  function UserL3(u: Pools, slot: nat, i: nat, j: nat): nat {
    if j == L3Index(RegionStart(i)) then PageDesc(PageAt(u, slot, i), RegionAttr(i)) else 0
  }

  /** Memory m holds the tables of a slot as address_space_install_user_descriptors leaves them. */
  ghost predicate SlotIn(m: Memory, root: nat, u: Pools, slot: nat) {
    && (forall i: nat :: i < ENTRIES ==> Entry(m, L1At(u, slot), i) == UserL1(m, root, u, slot, i))
    && (forall i: nat :: i < ENTRIES ==> Entry(m, L2At(u, slot), i) == UserL2(m, root, u, slot, i))
    && (forall r: nat, j: nat :: r < REGIONS && j < ENTRIES ==> Entry(m, L3At(u, slot, r), j) == UserL3(u, slot, r, j))
  }

  // ---- where things are ----

  lemma PoolAddress(base: nat, n: nat, slot: nat)
    requires base % PAGE_SIZE == 0 && slot < n && base + n * PAGE_SIZE <= U48
    ensures (base + slot * PAGE_SIZE) % PAGE_SIZE == 0 && base <= base + slot * PAGE_SIZE < base + n * PAGE_SIZE <= U48
  {
    assert base + slot * PAGE_SIZE == (base / PAGE_SIZE + slot) * PAGE_SIZE;
  }

  predicate KernelTable(y: Layout, table: nat) {
    table == y.l1 || table == y.l3 || y.l2 <= table < y.l2 + L2_CAPACITY * PAGE_SIZE
  }

  /** The level 1 and level 2 entries for block b are the built ones. */
  ghost predicate BlockIn(m: Memory, y: Layout, b: nat) {
    var d1 := Entry(m, y.l1, b / ENTRIES);
    || (d1 == 0 && BuiltEntry(y, b) == 0)
    || (IsTable(d1) && KernelTable(y, DescAddress(d1)) && Entry(m, DescAddress(d1), b % ENTRIES) == BuiltEntry(y, b))
  }

  /** Memory m holds the kernel tables as built. */
  ghost predicate KernelIn(m: Memory, y: Layout, k: Kernel) {
    && (forall b: nat :: b < 2048 ==> BlockIn(m, y, b))
    && (forall i :: 0 <= i < ENTRIES ==> Entry(m, y.l3, i) == BuiltPage(k, i))
  }

  lemma {:induction false} BuiltBlockIn(v: Tables, y: Layout, k: Kernel, elsewhere: Memory, b: nat)
    requires Built(v, y, k) && b < 2048
    ensures BlockIn(InMemory(v, y, elsewhere), y, b)
  {
    assert BlockEntry(v, b) == BuiltEntry(y, b);
    TableFound(v, y, elsewhere, b);
  }

  lemma {:induction false} BuiltKernelIn(v: Tables, y: Layout, k: Kernel, elsewhere: Memory)
    requires Built(v, y, k)
    ensures KernelIn(InMemory(v, y, elsewhere), y, k)
  {
    var mem := InMemory(v, y, elsewhere);
    forall b: nat | b < 2048 ensures BlockIn(mem, y, b) {
      BuiltBlockIn(v, y, k, elsewhere, b);
    }
  }

  /** From memory that holds the built tables, the kernel's walk is the kernel map. */
  lemma {:induction false} KernelWalk(m: Memory, y: Layout, k: Kernel, a: nat)
    requires LayoutOk(y) && KernelPlaced(k) && KernelIn(m, y, k) && a < 0x1_0000_0000
    ensures Walk(m, y.l1, a) == Flagged(Walk2(m, BuiltEntry(y, a / BLOCK_SIZE), a))
    ensures KernelMaps(Walk(m, y.l1, a), k, a)
  {
    IndexOfBlock(a);
    assert BlockIn(m, y, a / BLOCK_SIZE);
    EntryTranslates(m, y, k, a);
  }

  /** The EL0 page that an address of region i's first page lies in. */
  predicate InUserPage(i: nat, a: nat) {
    RegionStart(i) <= a < RegionStart(i) + PAGE_SIZE
  }

  /** A region address is translated to the slot's own page, with the region's permissions. */
  ghost predicate UserMapped(r: Translation, u: Pools, slot: nat, i: nat, a: nat) {
    && r.Mapped? && r.level == 3 && r.physical == PageAt(u, slot, i) + (a - RegionStart(i))
    && UserAccess(r.descriptor) && AccessFlag(r.descriptor)
    && (UserWritable(r.descriptor) <==> i != 0) && (UserExecutable(r.descriptor) <==> i == 0)
    && !KernelExecutable(r.descriptor)
    && Plain(r.descriptor) && MemoryType(r.descriptor) == 0 && Shareability(r.descriptor) == 3
  }

  /** Level 3 of the overlay: the region's first page and nothing else in its block. */
  lemma {:induction false} RegionWalk(m: Memory, u: Pools, y: Layout, slot: nat, i: nat, a: nat)
    requires PoolsOk(u, y) && slot < SLOTS && i < REGIONS && a / BLOCK_SIZE == RegionStart(i) / BLOCK_SIZE
    requires forall j: nat :: j < ENTRIES ==> Entry(m, L3At(u, slot, i), j) == UserL3(u, slot, i, j)
    ensures var r := Walk2(m, TableDesc(L3At(u, slot, i)), a);
      if InUserPage(i, a) then UserMapped(r, u, slot, i, a) else r == Unmapped
  {
    PoolAddress(u.l3, SLOTS * REGIONS, slot * REGIONS + i);
    PoolAddress(u.pages, SLOTS * REGIONS, slot * REGIONS + i);
    TableDescIs(L3At(u, slot, i));
    PageDescIs(PageAt(u, slot, i), RegionAttr(i));
    PageInBlock(i, a);
    assert Entry(m, L3At(u, slot, i), L3Index(a)) == UserL3(u, slot, i, L3Index(a));
  }

  lemma PageInBlock(i: nat, a: nat)
    requires i < REGIONS && a / BLOCK_SIZE == RegionStart(i) / BLOCK_SIZE
    ensures InUserPage(i, a) <==> L3Index(a) == L3Index(RegionStart(i))
    ensures InUserPage(i, a) ==> a % PAGE_SIZE == a - RegionStart(i)
  {
    var p := a / PAGE_SIZE;
    assert a == p * PAGE_SIZE + a % PAGE_SIZE;
    assert p / 512 == a / BLOCK_SIZE;
  }

  // ---- the overlay ----

  /** The region whose block an address lies in, if the kernel leaves that block alone. */
  function RegionOf(b: nat): nat {
    if b == 0 then 0 else if b == 1 then 1 else if b == 511 then 2 else REGIONS
  }

  lemma RegionBlocksAre()
    ensures L2Index(CODE_START) == 0 && L2Index(DATA_START) == 1 && L2Index(STACK_START) == 511
    ensures CODE_START / BLOCK_SIZE == 0 && DATA_START / BLOCK_SIZE == 1 && STACK_START / BLOCK_SIZE == 511
  {
  }

  lemma {:induction false} KernelShareable(m: Memory, y: Layout, k: Kernel)
    requires LayoutOk(y) && KernelIn(m, y, k)
    ensures Shareable(m, y.l1)
  {
    assert BlockIn(m, y, 64);
    BlockDescIs(64 * BLOCK_SIZE, DEVICE);
  }

  /** Above the first gigabyte the user's walk is the kernel's. */
  lemma {:induction false} SharedAbove(m: Memory, y: Layout, k: Kernel, u: Pools, slot: nat, a: nat)
    requires LayoutOk(y) && KernelIn(m, y, k) && SlotIn(m, y.l1, u, slot) && L1_SIZE <= a < 0x1_0000_0000
    ensures Walk(m, L1At(u, slot), a) == Walk(m, y.l1, a)
  {
    KernelShareable(m, y, k);
    IndexOfBlock(a);
    assert Entry(m, L1At(u, slot), L1Index(a)) == UserL1(m, y.l1, u, slot, L1Index(a));
  }

  /** In the first gigabyte the user's level 2 entry is the kernel's, except at the three regions. */
  lemma {:induction false} FirstGigabyte(m: Memory, y: Layout, u: Pools, slot: nat, a: nat)
    requires PoolsOk(u, y) && slot < SLOTS && SlotIn(m, y.l1, u, slot) && a < L1_SIZE
    ensures Walk(m, L1At(u, slot), a) == Flagged(Walk2(m, UserL2(m, y.l1, u, slot, a / BLOCK_SIZE), a))
  {
    IndexOfBlock(a);
    PoolAddress(u.l2, SLOTS, slot);
    TableDescIs(L2At(u, slot));
    assert Entry(m, L1At(u, slot), 0) == UserL1(m, y.l1, u, slot, 0);
    assert Entry(m, L2At(u, slot), a / BLOCK_SIZE) == UserL2(m, y.l1, u, slot, a / BLOCK_SIZE);
  }

  /** There the walk is the kernel's, or ends in the region's own level 3 table. */
  lemma {:induction false} LowBlock(m: Memory, y: Layout, k: Kernel, u: Pools, slot: nat, a: nat)
    requires LayoutOk(y) && KernelIn(m, y, k) && PoolsOk(u, y) && slot < SLOTS && SlotIn(m, y.l1, u, slot)
    requires a < L1_SIZE
    ensures var r, i := Walk(m, L1At(u, slot), a), RegionOf(a / BLOCK_SIZE);
      if i == REGIONS then r == Walk(m, y.l1, a)
      else if InUserPage(i, a) then UserMapped(r, u, slot, i, a) else r == Unmapped
  {
    FirstGigabyte(m, y, u, slot, a);
    KernelShareable(m, y, k);
    IndexOfBlock(a);
    RegionBlocksAre();
    var i := RegionOf(a / BLOCK_SIZE);
    if i < REGIONS { RegionWalk(m, u, y, slot, i, a); }
  }

  /** Main result on user address spaces, for every 32-bit address and any memory that holds the
      kernel's and a slot's tables: the first page of code, data and stack is the slot's own,
      accessible from EL0 and never both writable and executable there, where the kernel maps
      nothing; everywhere else the walk is the kernel's, which gives EL0 nothing. */
  lemma {:induction false} OverlayExact(m: Memory, y: Layout, k: Kernel, u: Pools, slot: nat, a: nat)
    requires LayoutOk(y) && KernelPlaced(k) && KernelIn(m, y, k) && PoolsOk(u, y) && slot < SLOTS
    requires SlotIn(m, y.l1, u, slot)
    requires a < 0x1_0000_0000
    ensures var r := Walk(m, L1At(u, slot), a);
      if InUserPage(0, a) then UserMapped(r, u, slot, 0, a) && Walk(m, y.l1, a) == Unmapped
      else if InUserPage(1, a) then UserMapped(r, u, slot, 1, a) && Walk(m, y.l1, a) == Unmapped
      else if InUserPage(2, a) then UserMapped(r, u, slot, 2, a) && Walk(m, y.l1, a) == Unmapped
      else r == Walk(m, y.l1, a) && (r.Mapped? ==> !UserAccess(r.descriptor))
  {
    KernelWalk(m, y, k, a);
    RegionBlocksAre();
    if a >= L1_SIZE {
      SharedAbove(m, y, k, u, slot, a);
    } else {
      LowBlock(m, y, k, u, slot, a);
    }
  }

  /** The EL0 pages of different slots, and of different regions, share no physical byte. */
  lemma SlotsShareNothing(u: Pools, slot: nat, i: nat, slot': nat, i': nat, x: nat, x': nat)
    requires slot < SLOTS && slot' < SLOTS && i < REGIONS && i' < REGIONS && (slot != slot' || i != i')
    requires x < PAGE_SIZE && x' < PAGE_SIZE
    ensures PageAt(u, slot, i) + x != PageAt(u, slot', i') + x'
  {
    var n, n' := slot * REGIONS + i, slot' * REGIONS + i';
    assert n != n';
  }
}
