/** The table slots of kernel/memory/address_space.c as they are allocated, filled and cleared in
    place. */
module UserTables {
  import opened Mmu
  import opened Vm
  import opened UserSpace
  import opened FileBytes
  import SpaceRecord

  /** Rows of the flat tables: `n` cells for row number `row`. */
  predicate InRow(row: nat, n: nat, j: int) {
    row * n <= j < row * n + n
  }

  method Clear<T>(a: array<T>, start: nat, n: nat, zero: T)
    requires start + n <= a.Length
    modifies a
    ensures forall j :: 0 <= j < a.Length ==> a[j] == if start <= j < start + n then zero else old(a[j])
  {
    for i := 0 to n
      invariant forall j :: 0 <= j < a.Length ==> a[j] == if start <= j < start + i then zero else old(a[j])
    {
      a[start + i] := zero;
    }
  }

  /** Copies the entries of a table in memory from number `first` on. */
  method CopyRow(a: array<nat>, base: nat, mem: Memory, table: nat, first: nat)
    requires base + ENTRIES <= a.Length && first <= ENTRIES
    modifies a
    ensures forall j :: 0 <= j < a.Length ==>
      a[j] == if base + first <= j < base + ENTRIES then Entry(mem, table, j - base) else old(a[j])
  {
    for i := first to ENTRIES
      invariant forall j :: 0 <= j < a.Length ==>
        a[j] == if base + first <= j < base + i then Entry(mem, table, j - base) else old(a[j])
    {
      a[base + i] := Entry(mem, table, i);
    }
  }

  /** The slots as values. */
  datatype Slots = Slots(l1: seq<nat>, l2: seq<nat>, l3: seq<nat>, pages: seq<Byte>, used: seq<bool>)

  predicate SlotsShaped(t: Slots) {
    && |t.l1| == SLOTS * ENTRIES && |t.l2| == SLOTS * ENTRIES && |t.l3| == SLOTS * REGIONS * ENTRIES
    && |t.pages| == SLOTS * REGIONS * PAGE_SIZE && |t.used| == SLOTS
  }

  /** Slot s has the tables that address_space_install_user_descriptors promises. */
  ghost predicate Filled(t: Slots, mem: Memory, root: nat, u: Pools, s: nat)
    requires SlotsShaped(t) && s < SLOTS
  {
    && (forall j :: InRow(s, ENTRIES, j) ==> t.l1[j] == UserL1(mem, root, u, s, j - s * ENTRIES))
    && (forall j :: InRow(s, ENTRIES, j) ==> t.l2[j] == UserL2(mem, root, u, s, j - s * ENTRIES))
    && RegionFilled(t.l3, u, s, 0) && RegionFilled(t.l3, u, s, 1) && RegionFilled(t.l3, u, s, 2)
  }

  ghost predicate RegionFilled(l3: seq<nat>, u: Pools, s: nat, r: nat)
    requires |l3| == SLOTS * REGIONS * ENTRIES && s < SLOTS && r < REGIONS
  {
    forall j :: InRow(s * REGIONS + r, ENTRIES, j) ==> l3[j] == UserL3(u, s, r, j - (s * REGIONS + r) * ENTRIES)
  }

  /** Slot s has empty tables and zero pages. */
  ghost predicate Blank(t: Slots, s: nat)
    requires SlotsShaped(t) && s < SLOTS
  {
    && (forall j :: InRow(s, ENTRIES, j) ==> t.l1[j] == 0)
    && (forall j :: InRow(s, ENTRIES, j) ==> t.l2[j] == 0)
    && (forall j :: InRow(s, REGIONS * ENTRIES, j) ==> t.l3[j] == 0)
    && PagesZero(t, s)
  }

  ghost predicate PagesZero(t: Slots, s: nat)
    requires SlotsShaped(t) && s < SLOTS
  {
    forall j :: InRow(s, REGIONS * PAGE_SIZE, j) ==> t.pages[j] == 0
  }

  /** Slot s is the same in both. */
  ghost predicate SameSlot(t: Slots, t': Slots, s: nat)
    requires SlotsShaped(t) && SlotsShaped(t') && s < SLOTS
  {
    && (forall j :: InRow(s, ENTRIES, j) ==> t'.l1[j] == t.l1[j])
    && (forall j :: InRow(s, ENTRIES, j) ==> t'.l2[j] == t.l2[j])
    && (forall j :: InRow(s, REGIONS * ENTRIES, j) ==> t'.l3[j] == t.l3[j])
    && (forall j :: InRow(s, REGIONS * PAGE_SIZE, j) ==> t'.pages[j] == t.pages[j])
    && t'.used[s] == t.used[s]
  }

  ghost predicate OthersSame(t: Slots, t': Slots, slot: nat)
    requires SlotsShaped(t) && SlotsShaped(t')
  {
    forall s: nat :: s < SLOTS && s != slot ==> SameSlot(t, t', s)
  }

  /** Used slots are filled over the kernel tables, unused ones are blank. */
  ghost predicate Inv(t: Slots, mem: Memory, root: nat, u: Pools) {
    && SlotsShaped(t)
    && forall s: nat :: s < SLOTS ==> if t.used[s] then Filled(t, mem, root, u, s) else Blank(t, s)
  }

  lemma {:induction false} SameKeeps(t: Slots, t': Slots, mem: Memory, root: nat, u: Pools, s: nat)
    requires SlotsShaped(t) && SlotsShaped(t') && s < SLOTS && SameSlot(t, t', s)
    ensures Filled(t, mem, root, u, s) ==> Filled(t', mem, root, u, s)
    ensures Blank(t, s) ==> Blank(t', s)
  {
    if Filled(t, mem, root, u, s) {
      forall r: nat | r < REGIONS ensures RegionFilled(t'.l3, u, s, r) {
        assert RegionFilled(t.l3, u, s, r);
        forall j | InRow(s * REGIONS + r, ENTRIES, j) ensures t'.l3[j] == t.l3[j] {
          assert InRow(s, REGIONS * ENTRIES, j);
        }
      }
    }
  }

  lemma OthersTwice(t: Slots, t': Slots, t'': Slots, slot: nat)
    requires SlotsShaped(t) && SlotsShaped(t') && SlotsShaped(t'') && slot < SLOTS
    requires OthersSame(t, t', slot) && OthersSame(t', t'', slot)
    ensures OthersSame(t, t'', slot)
  {
    forall s: nat | s < SLOTS && s != slot ensures SameSlot(t, t'', s) {
      assert SameSlot(t, t', s) && SameSlot(t', t'', s);
    }
  }

  lemma OnlyUsed(t: Slots, t': Slots, slot: nat, x: bool)
    requires SlotsShaped(t) && slot < SLOTS && t' == t.(used := t.used[slot := x])
    ensures OthersSame(t, t', slot)
  {
  }

  lemma RegionKept(l3: seq<nat>, l3': seq<nat>, u: Pools, s: nat, r: nat, r': nat)
    requires |l3| == |l3'| == SLOTS * REGIONS * ENTRIES && s < SLOTS && r < REGIONS && r' < REGIONS && r != r'
    requires RegionFilled(l3, u, s, r)
    requires forall j :: 0 <= j < |l3| && !InRow(s * REGIONS + r', ENTRIES, j) ==> l3'[j] == l3[j]
    ensures RegionFilled(l3', u, s, r)
  {
  }

  lemma {:induction false} InvKept(t: Slots, t': Slots, mem: Memory, root: nat, u: Pools, slot: nat)
    requires Inv(t, mem, root, u) && SlotsShaped(t') && slot < SLOTS && OthersSame(t, t', slot)
    requires if t'.used[slot] then Filled(t', mem, root, u, slot) else Blank(t', slot)
    ensures Inv(t', mem, root, u)
  {
    forall s: nat | s < SLOTS ensures if t'.used[s] then Filled(t', mem, root, u, s) else Blank(t', s) {
      if s != slot { SameKeeps(t, t', mem, root, u, s); }
    }
  }

  // ---- what the hardware sees ----

  /** Memory m holds the slots' tables at their addresses and the kernel tables of mem. */
  ghost predicate Shows(m: Memory, mem: Memory, t: Slots, u: Pools, y: Layout)
    requires SlotsShaped(t)
  {
    && (forall s: nat, i: nat :: s < SLOTS && i < ENTRIES ==> Entry(m, L1At(u, s), i) == t.l1[s * ENTRIES + i])
    && (forall s: nat, i: nat :: s < SLOTS && i < ENTRIES ==> Entry(m, L2At(u, s), i) == t.l2[s * ENTRIES + i])
    && (forall s: nat, r: nat, i: nat :: s < SLOTS && r < REGIONS && i < ENTRIES ==>
          Entry(m, L3At(u, s, r), i) == t.l3[(s * REGIONS + r) * ENTRIES + i])
    && (forall table: nat, i: nat :: KernelTable(y, table) ==> Entry(m, table, i) == Entry(mem, table, i))
  }

  lemma {:induction false} KernelShown(m: Memory, mem: Memory, t: Slots, u: Pools, y: Layout, k: Kernel)
    requires SlotsShaped(t) && Shows(m, mem, t, u, y) && KernelIn(mem, y, k)
    ensures KernelIn(m, y, k)
  {
    forall b: nat | b < 2048 ensures BlockIn(m, y, b) {
      assert BlockIn(mem, y, b);
    }
  }

  lemma {:induction false} SlotShown(m: Memory, mem: Memory, t: Slots, u: Pools, y: Layout, k: Kernel, s: nat)
    requires LayoutOk(y) && SlotsShaped(t) && s < SLOTS && Shows(m, mem, t, u, y) && KernelIn(mem, y, k)
    requires Filled(t, mem, y.l1, u, s)
    ensures SlotIn(m, y.l1, u, s)
  {
    KernelShareable(mem, y, k);
    assert BlockIn(mem, y, 0);
    assert forall i: nat :: Entry(m, y.l1, i) == Entry(mem, y.l1, i);
    forall i: nat | i < ENTRIES ensures Entry(m, L1At(u, s), i) == UserL1(m, y.l1, u, s, i) {
      assert InRow(s, ENTRIES, s * ENTRIES + i);
    }
    forall i: nat | i < ENTRIES ensures Entry(m, L2At(u, s), i) == UserL2(m, y.l1, u, s, i) {
      assert InRow(s, ENTRIES, s * ENTRIES + i);
    }
    forall r: nat, j: nat | r < REGIONS && j < ENTRIES ensures Entry(m, L3At(u, s, r), j) == UserL3(u, s, r, j) {
      assert RegionFilled(t.l3, u, s, r);
      assert InRow(s * REGIONS + r, ENTRIES, (s * REGIONS + r) * ENTRIES + j);
    }
  }

  /** Isolation, in every state the slots can be in: an address that is accessible from EL0 through a
      used slot leads into that slot's own pages, and no two used slots reach the same byte. */
  lemma {:induction false} SlotsIsolated(m: Memory, mem: Memory, t: Slots, u: Pools, y: Layout, k: Kernel, s: nat,
      s': nat, a: nat, a': nat)
    requires LayoutOk(y) && KernelPlaced(k) && KernelIn(mem, y, k) && PoolsOk(u, y) && Inv(t, mem, y.l1, u)
    requires Shows(m, mem, t, u, y)
    requires s < SLOTS && s' < SLOTS && s != s' && t.used[s] && t.used[s'] && a < 0x1_0000_0000 && a' < 0x1_0000_0000
    ensures var r, r' := Walk(m, L1At(u, s), a), Walk(m, L1At(u, s'), a');
      && (r.Mapped? && UserAccess(r.descriptor) ==>
        PageAt(u, s, 0) <= r.physical < PageAt(u, s, 0) + REGIONS * PAGE_SIZE)
      && (r.Mapped? && UserAccess(r.descriptor) && r'.Mapped? && UserAccess(r'.descriptor) ==>
        r.physical != r'.physical)
  {
    KernelShown(m, mem, t, u, y, k);
    SlotShown(m, mem, t, u, y, k, s);
    SlotShown(m, mem, t, u, y, k, s');
    OwnPages(m, y, k, u, s, a);
    OwnPages(m, y, k, u, s', a');
  }

  lemma {:induction false} OwnPages(m: Memory, y: Layout, k: Kernel, u: Pools, s: nat, a: nat)
    requires LayoutOk(y) && KernelPlaced(k) && KernelIn(m, y, k) && PoolsOk(u, y) && s < SLOTS
    requires SlotIn(m, y.l1, u, s) && a < 0x1_0000_0000
    ensures var r := Walk(m, L1At(u, s), a);
      r.Mapped? && UserAccess(r.descriptor) ==>
        u.pages + s * REGIONS * PAGE_SIZE <= r.physical < u.pages + (s + 1) * REGIONS * PAGE_SIZE
  {
    OverlayExact(m, y, k, u, s, a);
  }

  // ---- the slots in place ----

  /** address_space_init on zeroed storage. */
  function BootSlots(): (t: Slots)
    ensures SlotsShaped(t)
  {
    Slots(seq(SLOTS * ENTRIES, j => 0), seq(SLOTS * ENTRIES, j => 0), seq(SLOTS * REGIONS * ENTRIES, j => 0),
          seq(SLOTS * REGIONS * PAGE_SIZE, j => 0), seq(SLOTS, j => false))
  }

  /** A level 2 entry once the first n regions are installed. */
  function OverlayPart(u: Pools, slot: nat, n: nat, kernelEntry: nat, i: nat): nat {
    if 0 < n && i == L2Index(CODE_START) then TableDesc(L3At(u, slot, 0))
    else if 1 < n && i == L2Index(DATA_START) then TableDesc(L3At(u, slot, 1))
    else if 2 < n && i == L2Index(STACK_START) then TableDesc(L3At(u, slot, 2))
    else kernelEntry
  }

  class UserPools {
    const u: Pools
    const l1: array<nat>
    const l2: array<nat>
    const l3: array<nat>
    const pages: array<Byte>
    const used: array<bool>

    ghost predicate Valid()
      reads this
    {
      && l1.Length == SLOTS * ENTRIES && l2.Length == SLOTS * ENTRIES && l3.Length == SLOTS * REGIONS * ENTRIES
      && pages.Length == SLOTS * REGIONS * PAGE_SIZE && used.Length == SLOTS && l1 != l2 && l1 != l3 && l2 != l3
    }

    ghost function View(): (t: Slots)
      requires Valid()
      reads this, l1, l2, l3, pages, used
      ensures SlotsShaped(t)
    {
      Slots(l1[..], l2[..], l3[..], pages[..], used[..])
    }

    constructor (u: Pools)
      ensures Valid() && this.u == u && fresh(l1) && fresh(l2) && fresh(l3) && fresh(pages) && fresh(used)
      ensures View() == BootSlots() && forall mem, root :: Inv(View(), mem, root, u)
    {
      this.u := u;
      l1 := new nat[SLOTS * ENTRIES](i => 0);
      l2 := new nat[SLOTS * ENTRIES](i => 0);
      l3 := new nat[SLOTS * REGIONS * ENTRIES](i => 0);
      pages := new Byte[SLOTS * REGIONS * PAGE_SIZE](i => 0);
      used := new bool[SLOTS](i => false);
      new;
      assert View() == BootSlots();
    }

    /** Clears the tables and pages of a slot. */
    method Wipe(slot: nat)
      requires Valid() && slot < SLOTS
      modifies l1, l2, l3, pages
      ensures Blank(View(), slot) && OthersSame(old(View()), View(), slot) && used[..] == old(used[..])
    {
      Clear(l1, slot * ENTRIES, ENTRIES, 0);
      Clear(l2, slot * ENTRIES, ENTRIES, 0);
      Clear(l3, slot * REGIONS * ENTRIES, REGIONS * ENTRIES, 0);
      Clear(pages, slot * REGIONS * PAGE_SIZE, REGIONS * PAGE_SIZE, 0);
    }

    /** address_space_alloc_user_table_slot: the lowest free slot, wiped; SLOTS when none is free. */
    method AllocSlot() returns (slot: nat)
      requires Valid()
      modifies l1, l2, l3, pages, used
      ensures slot <= SLOTS && forall s :: 0 <= s < slot ==> old(used[s])
      ensures slot == SLOTS ==> View() == old(View())
      ensures slot < SLOTS ==>
        !old(used[slot]) && used[slot] && Blank(View(), slot) && OthersSame(old(View()), View(), slot)
    {
      slot := 0;
      while slot < SLOTS && used[slot]
        invariant slot <= SLOTS && forall s :: 0 <= s < slot ==> used[s]
      {
        slot := slot + 1;
      }
      if slot < SLOTS {
        ghost var t := View();
        used[slot] := true;
        ghost var t' := View();
        OnlyUsed(t, t', slot, true);
        Wipe(slot);
        OthersTwice(t, t', View(), slot);
      }
    }

    /** The first half of address_space_install_user_descriptors: the slot's level 1 and level 2
        tables become copies of the kernel's, with an own level 2 table for the first gigabyte. */
    method FillShared(mem: Memory, root: nat, slot: nat) returns (shared: bool)
      requires Valid() && slot < SLOTS
      modifies l1, l2
      ensures shared <==> Shareable(mem, root)
      ensures forall j :: 0 <= j < l1.Length ==>
        l1[j] == if InRow(slot, ENTRIES, j) then UserL1(mem, root, u, slot, j - slot * ENTRIES) else old(l1[j])
      ensures forall j :: 0 <= j < l2.Length ==>
        l2[j] == if InRow(slot, ENTRIES, j) then SharedL2(mem, root, j - slot * ENTRIES) else old(l2[j])
    {
      var base := slot * ENTRIES;
      Clear(l1, base, ENTRIES, 0);
      Clear(l2, base, ENTRIES, 0);
      shared := root != 0 && IsTable(Entry(mem, root, 0));
      if shared { CopyRow(l2, base, mem, DescAddress(Entry(mem, root, 0)), 0); }
      l1[base] := TableDesc(L2At(u, slot));
      if shared { CopyRow(l1, base, mem, root, 1); }
    }

    /** One turn of the region loop: the region's level 3 table holds its one page. */
    method FillRegion(slot: nat, r: nat)
      requires Valid() && slot < SLOTS && r < REGIONS
      modifies l2, l3
      ensures RegionFilled(l3[..], u, slot, r)
      ensures forall j :: 0 <= j < l3.Length && !InRow(slot * REGIONS + r, ENTRIES, j) ==> l3[j] == old(l3[j])
      ensures l2[..] == old(l2[..])[slot * ENTRIES + L2Index(RegionStart(r)) := TableDesc(L3At(u, slot, r))]
    {
      var base := (slot * REGIONS + r) * ENTRIES;
      Clear(l3, base, ENTRIES, 0);
      l2[slot * ENTRIES + L2Index(RegionStart(r))] := TableDesc(L3At(u, slot, r));
      l3[base + L3Index(RegionStart(r))] := PageDesc(PageAt(u, slot, r), RegionAttr(r));
    }

    /** The region loop. */
    method FillRegions(slot: nat) returns (installed: nat)
      requires Valid() && slot < SLOTS
      modifies l2, l3
      ensures installed == REGIONS && forall r: nat :: r < REGIONS ==> RegionFilled(l3[..], u, slot, r)
      ensures forall j :: 0 <= j < l3.Length && !InRow(slot, REGIONS * ENTRIES, j) ==> l3[j] == old(l3[j])
      ensures forall j :: 0 <= j < l2.Length ==>
        l2[j] == if InRow(slot, ENTRIES, j) then OverlayEntry(u, slot, old(l2[j]), j - slot * ENTRIES) else old(l2[j])
    {
      installed := 0;
      while installed < REGIONS
        invariant installed <= REGIONS && forall r: nat :: r < installed ==> RegionFilled(l3[..], u, slot, r)
        invariant forall j :: 0 <= j < l3.Length && !InRow(slot, REGIONS * ENTRIES, j) ==> l3[j] == old(l3[j])
        invariant forall j :: 0 <= j < l2.Length ==>
          l2[j] == if InRow(slot, ENTRIES, j) then OverlayPart(u, slot, installed, old(l2[j]), j - slot * ENTRIES)
          else old(l2[j])
      {
        ghost var before := l3[..];
        FillRegion(slot, installed);
        forall r: nat | r < installed ensures RegionFilled(l3[..], u, slot, r) {
          RegionKept(before, l3[..], u, slot, r, installed);
        }
        installed := installed + 1;
      }
    }

    /** address_space_install_user_descriptors. */
    method Install(mem: Memory, root: nat, slot: nat) returns (installed: nat, shared: bool)
      requires Valid() && slot < SLOTS
      modifies l1, l2, l3
      ensures Filled(View(), mem, root, u, slot) && OthersSame(old(View()), View(), slot)
      ensures installed == REGIONS && (shared <==> Shareable(mem, root))
    {
      shared := FillShared(mem, root, slot);
      installed := FillRegions(slot);
    }

    /** address_space_init_user: a slot, if one is free, filled over the kernel tables and with zero
        pages, and the record of it. Nothing changes for the other slots, or without a free one. */
    method InitUser(mem: Memory, root: nat) returns (slot: nat, r: SpaceRecord.Record)
      requires Valid() && Inv(View(), mem, root, u)
      modifies l1, l2, l3, pages, used
      ensures Inv(View(), mem, root, u)
      ensures r == SpaceRecord.InitRecord(slot, root, u, if slot < SLOTS then REGIONS else 0)
      ensures slot <= SLOTS && forall s :: 0 <= s < slot ==> old(used[s])
      ensures slot == SLOTS ==> View() == old(View())
      ensures slot != SLOTS ==>
        slot < SLOTS && !old(used[slot]) && used[slot] && PagesZero(View(), slot) &&
        OthersSame(old(View()), View(), slot)
    {
      ghost var t := View();
      slot := AllocSlot();
      r := SpaceRecord.InitRecord(slot, root, u, 0);
      if slot == SLOTS { return; }
      ghost var t' := View();
      var installed, shared := Install(mem, root, slot);
      r := SpaceRecord.InitRecord(slot, root, u, installed);
      OthersTwice(t, t', View(), slot);
      InvKept(t, View(), mem, root, u, slot);
    }

    /** The loops that copy a whole page into page r of a slot. */
    method PutPage(slot: nat, r: nat, bytes: Bytes)
      requires Valid() && slot < SLOTS && r < REGIONS && |bytes| == PAGE_SIZE
      modifies pages
      ensures pages[..] == Overwrite(old(pages[..]), (slot * REGIONS + r) * PAGE_SIZE, bytes)
    {
      var base := (slot * REGIONS + r) * PAGE_SIZE;
      ghost var before := pages[..];
      for i := 0 to PAGE_SIZE
        invariant forall j :: 0 <= j < pages.Length ==>
          pages[j] == if base <= j < base + i then bytes[j - base] else before[j]
      {
        pages[base + i] := bytes[i];
      }
      assert pages[..] == Overwrite(before, base, bytes);
    }

    /** address_space_destroy_user. */
    method Destroy(r: SpaceRecord.Record, ghost mem: Memory, ghost root: nat) returns (q: SpaceRecord.Record)
      requires Valid() && Inv(View(), mem, root, u)
      modifies l1, l2, l3, pages, used
      ensures Inv(View(), mem, root, u) && q == SpaceRecord.DestroyRecord(r)
      ensures r.slot < SLOTS ==> !used[r.slot] && Blank(View(), r.slot) && OthersSame(old(View()), View(), r.slot)
      ensures r.slot >= SLOTS ==> View() == old(View())
    {
      q := SpaceRecord.DestroyRecord(r);
      var slot := r.slot;
      if slot >= SLOTS { return; }
      ghost var t := View();
      Wipe(slot);
      ghost var t' := View();
      used[slot] := false;
      OnlyUsed(t', View(), slot, false);
      OthersTwice(t, t', View(), slot);
      InvKept(t, View(), mem, root, u, slot);
    }
  }
}
