/** The record that kernel/memory/address_space.c keeps of a user address space: which of its
    readiness flags follow from what, up to the admission test of kernel/sched/scheduler.c. */
module SpaceRecord {
  import opened Mmu
  import opened Vm
  import opened UserSpace
  import opened Bits
  import opened FileBytes
  import opened Executable

  const TABLE_COUNT := 5

  /** `slot` is SLOTS when the space has no tables. */
  datatype Record = Record(
    slot: nat,
    kernelRoot: nat,
    userRoot: nat,
    targetRoot: nat,
    tableCount: nat,
    installed: nat,
    tablesReady: bool,
    descriptorsReady: bool,
    mappingsReady: bool,
    executeReady: bool,
    imageReady: bool,
    imageEntry: nat,
    imageSize: nat,
    imageChecksum: nat,
    errors: nat,
    validationReady: bool,
    switchReady: bool)

  /** address_space_validate_user: one error for each group of facts that does not hold. The groups
      over constants, permissions and planned ranges, always hold. */
  function ValidateUser(r: Record): (errors: nat) {
    (if r.tablesReady && r.descriptorsReady && r.mappingsReady then 0 else 1) +
    (if r.userRoot != 0 && r.slot < SLOTS && r.tableCount == TABLE_COUNT then 0 else 1) +
    (if r.installed == REGIONS then 0 else 1) +
    (if r.executeReady then 0 else 1)
  }

  /** address_space_init_user once the slot is known and its descriptors are installed. */
  function InitRecord(slot: nat, root: nat, u: Pools, installed: nat): (r: Record) {
    var has := slot < SLOTS;
    var mapped := installed == REGIONS;
    var r := Record(slot, root, if has then L1At(u, slot) else 0, if has then L1At(u, slot) else root,
                    if has then TABLE_COUNT else 0, installed, has, has, mapped, mapped, false, 0, 0, 0, 0, false,
                    false);
    var errors := ValidateUser(r);
    r.(errors := errors, validationReady := errors == 0,
       switchReady := errors == 0 && r.targetRoot != 0 && r.targetRoot != root)
  }

  /** One round of address_space_checksum_bytes, in 64 bits. */
  function ImageStep(value: nat, b: Byte): nat {
    Xor(Xor(value * 32 % U64, value / 4), b)
  }

  /** address_space_checksum_bytes over the first n bytes. */
  function ImageChecksum(bytes: Bytes, n: nat): nat
    requires n <= |bytes|
  {
    if n == 0 then 0 else ImageStep(ImageChecksum(bytes, n - 1), bytes[n - 1])
  }

  /** address_space_load_user_image on the record. */
  function LoadRecord(r: Record, m: Image): (q: (Record, bool)) {
    if r.slot < SLOTS && r.mappingsReady && ValidImage(m)
    then (r.(imageReady := true, imageEntry := CODE_START + m.entry, imageSize := |m.code|,
             imageChecksum := ImageChecksum(m.code, |m.code|)), true)
    else (r, false)
  }

  /** address_space_destroy_user on the record. */
  function DestroyRecord(r: Record): (q: Record) {
    if r.slot >= SLOTS then r
    else r.(slot := SLOTS, tablesReady := false, descriptorsReady := false, mappingsReady := false, imageReady := false,
            executeReady := false, validationReady := false, switchReady := false)
  }

  datatype Entry0 = Entry0(pc: nat, sp: nat, ready: bool)

  /** scheduler_init_task_el0. */
  function InitEl0(r: Record): (e: Entry0) {
    if !r.mappingsReady || !r.executeReady then Entry0(0, 0, false)
    else Entry0(if r.imageReady then r.imageEntry else CODE_START, STACK_END / 16 * 16, true)
  }

  /** user_mode_can_enter followed by address_space_switch_stub: what scheduler_unblock_user_task asks. */
  predicate Admissible(r: Record, e: Entry0) {
    && r.validationReady && r.errors == 0 && r.imageReady
    && e.ready && e.pc != 0 && e.sp != 0 && e.sp % 16 == 0
    && r.switchReady && r.targetRoot != 0
  }

  lemma RootIsOwn(u: Pools, y: Layout, slot: nat)
    requires PoolsOk(u, y) && slot < SLOTS
    ensures L1At(u, slot) != 0 && L1At(u, slot) != y.l1
  {
    PoolAddress(u.l1, SLOTS, slot);
  }

  /** The flags of a new space are all set iff it got a slot. */
  lemma {:induction false} ReadyIff(slot: nat, u: Pools, y: Layout)
    requires PoolsOk(u, y)
    ensures var r := InitRecord(slot, y.l1, u, if slot < SLOTS then REGIONS else 0);
      r.mappingsReady == r.validationReady == r.switchReady == (slot < SLOTS)
  {
    if slot < SLOTS { RootIsOwn(u, y, slot); }
  }

  /** Admission: an image is loaded iff the space has a slot and the image is valid; then, and only
      then, the task passes the tests of scheduler_unblock_user_task, with its first instruction in
      the mapped code page. */
  lemma {:induction false} AdmissibleIff(slot: nat, u: Pools, y: Layout, m: Image)
    requires PoolsOk(u, y)
    ensures var (r, loaded) := LoadRecord(InitRecord(slot, y.l1, u, if slot < SLOTS then REGIONS else 0), m);
      && (loaded <==> slot < SLOTS && ValidImage(m))
      && (Admissible(r, InitEl0(r)) <==> loaded)
      && (loaded ==> InUserPage(0, InitEl0(r).pc) && InitEl0(r).pc == CODE_START + m.entry)
      && (loaded ==> InitEl0(r).sp == RegionEnd(2) && InitEl0(r).sp % 16 == 0)
  {
    ReadyIff(slot, u, y);
  }

  /** A destroyed space is never admitted. */
  lemma DestroyedIsRefused(r: Record, e: Entry0)
    requires r.slot < SLOTS
    ensures !Admissible(DestroyRecord(r), e) && DestroyRecord(r).slot == SLOTS
    ensures InitEl0(DestroyRecord(r)) == Entry0(0, 0, false)
  {
  }

  // ---- planned ranges and mapped pages ----

  /** address_space_user_range_valid: the range lies in one of the planned regions; `address` and
      `size` are 64-bit and their sum must not wrap. */
  predicate RangeValid(address: nat, size: nat) {
    size == 0 || (address + size < U64 && exists i: nat :: i < REGIONS && InPlan(i, address, size))
  }

  predicate InPlan(i: nat, address: nat, size: nat) {
    RegionStart(i) <= address && address + size <= RegionEnd(i)
  }

  /** Byte x belongs to planned region i. */
  predicate Planned(i: nat, x: nat) {
    RegionStart(i) <= x < RegionEnd(i)
  }

  ghost predicate AllPlanned(i: nat, address: nat, size: nat) {
    forall x: nat :: address <= x < address + size ==> Planned(i, x)
  }

  /** A range is accepted iff it is empty, or ends below 2^64 and all its bytes belong to one planned
      region. */
  lemma {:induction false} RangeValidIff(address: nat, size: nat)
    ensures RangeValid(address, size) <==>
      size == 0 || (address + size < U64 && exists i: nat :: i < REGIONS && AllPlanned(i, address, size))
  {
    if size > 0 {
      forall i: nat | i < REGIONS ensures InPlan(i, address, size) <==> AllPlanned(i, address, size) {
        if AllPlanned(i, address, size) {
          assert Planned(i, address) && Planned(i, address + size - 1);
        }
      }
    }
  }

  /** Every byte of the range is accessible from EL0 through the slot's root. */
  ghost predicate RangeMapped(m: Memory, root: nat, address: nat, size: nat) {
    forall a: nat :: address <= a < address + size ==> ByteMapped(m, root, a)
  }

  ghost predicate ByteMapped(m: Memory, root: nat, a: nat) {
    var r := Walk(m, root, a);
    r.Mapped? && UserAccess(r.descriptor)
  }

  /** The range lies in the first page of a region. */
  predicate InFirstPage(address: nat, size: nat) {
    exists i: nat :: i < REGIONS && InPlan(i, address, size) && address + size <= RegionStart(i) + PAGE_SIZE
  }

  /** A range that the kernel accepts is accessible to the program iff it lies in the first page of
      its region: the plan is wider than the map. */
  lemma {:induction false} ValidRangeMappedIff(m: Memory, y: Layout, k: Kernel, u: Pools, slot: nat, address: nat,
      size: nat)
    requires LayoutOk(y) && KernelPlaced(k) && KernelIn(m, y, k) && PoolsOk(u, y) && slot < SLOTS
    requires SlotIn(m, y.l1, u, slot)
    requires size > 0 && RangeValid(address, size)
    ensures RangeMapped(m, L1At(u, slot), address, size) <==> InFirstPage(address, size)
  {
    var i: nat :| i < REGIONS && InPlan(i, address, size);
    if address + size <= RegionStart(i) + PAGE_SIZE {
      forall a: nat | address <= a < address + size ensures ByteMapped(m, L1At(u, slot), a) {
        OverlayExact(m, y, k, u, slot, a);
      }
    } else {
      var a := address + size - 1;
      OverlayExact(m, y, k, u, slot, a);
      assert !ByteMapped(m, L1At(u, slot), a);
    }
  }

  /** In particular the first push of a program misses its stack page: the initial stack pointer is
      the end of the planned stack, fifteen pages above the end of the one page that is mapped. */
  lemma {:induction false} StackTopUnmapped(m: Memory, y: Layout, k: Kernel, u: Pools, slot: nat, a: nat)
    requires LayoutOk(y) && KernelPlaced(k) && KernelIn(m, y, k) && PoolsOk(u, y) && slot < SLOTS
    requires SlotIn(m, y.l1, u, slot)
    requires InitEl0(InitRecord(slot, y.l1, u, REGIONS)).sp - 16 <= a < InitEl0(InitRecord(slot, y.l1, u, REGIONS)).sp
    ensures Walk(m, L1At(u, slot), a) == Unmapped
  {
    ReadyIff(slot, u, y);
    OverlayExact(m, y, k, u, slot, a);
    KernelWalk(m, y, k, a);
  }
}
