/** Isolation of running programs: the tables of all slots in one memory, and what the ownership of
    slots by live tasks makes of it. */
module LiveIsolation {
  import opened Mmu
  import opened Vm
  import opened UserSpace
  import opened UserTables
  import opened ProcessSpaces
  import Scheduler
  import SchedulerRuns

  // ---- the memory that holds every slot ----

  function Row(cells: seq<nat>, row: nat): (r: seq<nat>)
    requires row * ENTRIES + ENTRIES <= |cells|
    ensures |r| == ENTRIES && forall i :: 0 <= i < ENTRIES ==> r[i] == cells[row * ENTRIES + i]
  {
    cells[row * ENTRIES..row * ENTRIES + ENTRIES]
  }

  /** Memory with the five tables of slot s written. */
  function WithSlot(m: Memory, t: Slots, u: Pools, s: nat): Memory
    requires SlotsShaped(t) && s < SLOTS
  {
    m + map[L1At(u, s) := Row(t.l1, s), L2At(u, s) := Row(t.l2, s),
            L3At(u, s, 0) := Row(t.l3, s * REGIONS), L3At(u, s, 1) := Row(t.l3, s * REGIONS + 1),
            L3At(u, s, 2) := Row(t.l3, s * REGIONS + 2)]
  }

  /** The kernel's memory with the tables of all slots. */
  function SlotsMemory(mem: Memory, t: Slots, u: Pools): Memory
    requires SlotsShaped(t)
  {
    WithSlot(WithSlot(WithSlot(WithSlot(mem, t, u, 0), t, u, 1), t, u, 2), t, u, 3)
  }

  /** A table of slot s. */
  predicate SlotTable(u: Pools, s: nat, table: nat) {
    table == L1At(u, s) || table == L2At(u, s) || table == L3At(u, s, 0) || table == L3At(u, s, 1) ||
      table == L3At(u, s, 2)
  }

  /** Tables of different slots, and the kernel's tables, have different addresses. */
  lemma TablesApart(u: Pools, y: Layout, s: nat, s': nat, table: nat)
    requires PoolsOk(u, y) && s < SLOTS && s' < SLOTS
    ensures s != s' && SlotTable(u, s, table) ==> !SlotTable(u, s', table)
    ensures KernelTable(y, table) ==> !SlotTable(u, s, table)
  {
  }

  /** What one slot's tables read as, and that nothing else changes. */
  lemma {:induction false} SlotWritten(m: Memory, t: Slots, u: Pools, y: Layout, s: nat, i: nat)
    requires PoolsOk(u, y) && SlotsShaped(t) && s < SLOTS && i < ENTRIES
    ensures var w := WithSlot(m, t, u, s);
      Entry(w, L1At(u, s), i) == t.l1[s * ENTRIES + i] && Entry(w, L2At(u, s), i) == t.l2[s * ENTRIES + i]
  {
  }

  lemma {:induction false} LowerWritten(m: Memory, t: Slots, u: Pools, y: Layout, s: nat, r: nat, i: nat)
    requires PoolsOk(u, y) && SlotsShaped(t) && s < SLOTS && r < REGIONS && i < ENTRIES
    ensures Entry(WithSlot(m, t, u, s), L3At(u, s, r), i) == t.l3[(s * REGIONS + r) * ENTRIES + i]
  {
    var w := WithSlot(m, t, u, s);
    if r == 0 {
      assert w[L3At(u, s, 0)] == Row(t.l3, s * REGIONS);
    } else if r == 1 {
      assert w[L3At(u, s, 1)] == Row(t.l3, s * REGIONS + 1);
    } else {
      assert w[L3At(u, s, 2)] == Row(t.l3, s * REGIONS + 2);
    }
  }

  lemma Untouched(m: Memory, t: Slots, u: Pools, s: nat, table: nat, i: nat)
    requires SlotsShaped(t) && s < SLOTS && !SlotTable(u, s, table)
    ensures Entry(WithSlot(m, t, u, s), table, i) == Entry(m, table, i)
  {
  }

  /** The memory up to slot s, for reading a table of slot s. */
  lemma {:induction false} ReadsSlot(mem: Memory, t: Slots, u: Pools, y: Layout, s: nat, table: nat,
      i: nat) returns (m: Memory)
    requires PoolsOk(u, y) && SlotsShaped(t) && s < SLOTS && SlotTable(u, s, table)
    ensures Entry(SlotsMemory(mem, t, u), table, i) == Entry(WithSlot(m, t, u, s), table, i)
  {
    var m0 := WithSlot(mem, t, u, 0);
    var m1 := WithSlot(m0, t, u, 1);
    var m2 := WithSlot(m1, t, u, 2);
    forall s' | 0 <= s' < SLOTS && s' != s ensures !SlotTable(u, s', table) {
      TablesApart(u, y, s, s', table);
    }
    if s < 3 { Untouched(m2, t, u, 3, table, i); }
    if s < 2 { Untouched(m1, t, u, 2, table, i); }
    if s < 1 { Untouched(m0, t, u, 1, table, i); }
    m := if s == 0 then mem else if s == 1 then m0 else if s == 2 then m1 else m2;
  }

  lemma {:induction false} ReadsUpper(mem: Memory, t: Slots, u: Pools, y: Layout, s: nat, i: nat)
    requires PoolsOk(u, y) && SlotsShaped(t) && s < SLOTS && i < ENTRIES
    ensures Entry(SlotsMemory(mem, t, u), L1At(u, s), i) == t.l1[s * ENTRIES + i]
    ensures Entry(SlotsMemory(mem, t, u), L2At(u, s), i) == t.l2[s * ENTRIES + i]
  {
    var m := ReadsSlot(mem, t, u, y, s, L1At(u, s), i);
    SlotWritten(m, t, u, y, s, i);
    m := ReadsSlot(mem, t, u, y, s, L2At(u, s), i);
    SlotWritten(m, t, u, y, s, i);
  }

  lemma {:induction false} ReadsLower(mem: Memory, t: Slots, u: Pools, y: Layout, s: nat, r: nat, i: nat)
    requires PoolsOk(u, y) && SlotsShaped(t) && s < SLOTS && r < REGIONS && i < ENTRIES
    ensures Entry(SlotsMemory(mem, t, u), L3At(u, s, r), i) == t.l3[(s * REGIONS + r) * ENTRIES + i]
  {
    var m := ReadsSlot(mem, t, u, y, s, L3At(u, s, r), i);
    LowerWritten(m, t, u, y, s, r, i);
  }

  lemma {:induction false} ReadsKernel(mem: Memory, t: Slots, u: Pools, y: Layout, table: nat, i: nat)
    requires PoolsOk(u, y) && SlotsShaped(t) && KernelTable(y, table)
    ensures Entry(SlotsMemory(mem, t, u), table, i) == Entry(mem, table, i)
  {
    var m0 := WithSlot(mem, t, u, 0);
    var m1 := WithSlot(m0, t, u, 1);
    var m2 := WithSlot(m1, t, u, 2);
    forall s | 0 <= s < SLOTS ensures !SlotTable(u, s, table) {
      TablesApart(u, y, s, s, table);
    }
    Untouched(mem, t, u, 0, table, i);
    Untouched(m0, t, u, 1, table, i);
    Untouched(m1, t, u, 2, table, i);
    Untouched(m2, t, u, 3, table, i);
  }

  /** Such a memory exists: this one shows the slots' tables beside the kernel's. */
  lemma {:induction false} MemoryShows(mem: Memory, t: Slots, u: Pools, y: Layout)
    requires PoolsOk(u, y) && SlotsShaped(t)
    ensures Shows(SlotsMemory(mem, t, u), mem, t, u, y)
  {
    var m := SlotsMemory(mem, t, u);
    forall s: nat, i: nat | s < SLOTS && i < ENTRIES
      ensures Entry(m, L1At(u, s), i) == t.l1[s * ENTRIES + i] && Entry(m, L2At(u, s), i) == t.l2[s * ENTRIES + i]
    {
      ReadsUpper(mem, t, u, y, s, i);
    }
    forall s: nat, r: nat, i: nat | s < SLOTS && r < REGIONS && i < ENTRIES
      ensures Entry(m, L3At(u, s, r), i) == t.l3[(s * REGIONS + r) * ENTRIES + i]
    {
      ReadsLower(mem, t, u, y, s, r, i);
    }
    forall table: nat, i: nat | KernelTable(y, table) ensures Entry(m, table, i) == Entry(mem, table, i) {
      ReadsKernel(mem, t, u, y, table, i);
    }
  }

  // ---- slots for any flags ----

  /** Every combination of used slots has tables that keep the invariant: those of the first n slots
      filled from boot. */
  function SlotsFor(flags: seq<bool>, mem: Memory, root: nat, u: Pools, n: nat): (t: Slots)
    requires |flags| == SLOTS && n <= SLOTS
    ensures SlotsShaped(t)
  {
    if n == 0 then BootSlots()
    else
      var t := SlotsFor(flags, mem, root, u, n - 1);
      if flags[n - 1] then FillSlot(t, mem, root, u, n - 1) else t
  }

  lemma {:induction false} SlotsExist(flags: seq<bool>, mem: Memory, root: nat, u: Pools, n: nat)
    requires |flags| == SLOTS && n <= SLOTS
    ensures var t := SlotsFor(flags, mem, root, u, n);
      Inv(t, mem, root, u) && forall s :: 0 <= s < SLOTS ==> t.used[s] == (s < n && flags[s])
  {
    if n == 0 {
      BootJoined(mem, root, u);
    } else {
      SlotsExist(flags, mem, root, u, n - 1);
      FillKeeps(SlotsFor(flags, mem, root, u, n - 1), mem, root, u, n - 1);
    }
  }

  // ---- live tasks ----

  /** Two different live user tasks reach no common byte from EL0, and each reaches only the pages of
      its own slot. */
  ghost predicate Isolated(tasks: seq<Scheduler.Task>, m: Memory, u: Pools, i: nat, j: nat, a: nat, a': nat)
    requires i < |tasks| && j < |tasks|
  {
    var r, r' := Walk(m, L1At(u, tasks[i].userSlot), a), Walk(m, L1At(u, tasks[j].userSlot), a');
    && tasks[i].userSlot < SLOTS && tasks[j].userSlot < SLOTS
    && (r.Mapped? && UserAccess(r.descriptor) ==>
      PageAt(u, tasks[i].userSlot, 0) <= r.physical < PageAt(u, tasks[i].userSlot, 0) + REGIONS * PAGE_SIZE)
    && (r.Mapped? && UserAccess(r.descriptor) && r'.Mapped? && UserAccess(r'.descriptor) ==>
      r.physical != r'.physical)
  }

  lemma {:induction false} JoinedIsolated(
      x: System, mem: Memory, u: Pools, y: Layout, k: Kernel, i: nat, j: nat, a: nat, a': nat)
    requires LayoutOk(y) && KernelPlaced(k) && KernelIn(mem, y, k) && PoolsOk(u, y) && Joined(x, mem, y.l1, u)
    requires i < Scheduler.MAX_TASKS && j < Scheduler.MAX_TASKS && i != j && a < 0x1_0000_0000 && a' < 0x1_0000_0000
    requires SchedulerRuns.LiveUser(x.sched.tasks[i]) && SchedulerRuns.LiveUser(x.sched.tasks[j])
    ensures Isolated(x.sched.tasks, SlotsMemory(mem, x.spaces, u), u, i, j, a, a')
  {
    var s, t := x.sched, x.spaces;
    OwnSlots(s, i, j);
    MemoryShows(mem, t, u, y);
    SlotsIsolated(SlotsMemory(mem, t, u), mem, t, u, y, k, s.tasks[i].userSlot, s.tasks[j].userSlot, a, a');
  }

  /** Main result: after any run from boot of scheduler entry points and writes to pages, any two
      different live user tasks are isolated in the memory that holds the tables. */
  lemma {:induction false} LiveTasksIsolated(
      events: seq<Event>, mem: Memory, u: Pools, y: Layout, k: Kernel, i: nat, j: nat, a: nat, a': nat)
    requires LayoutOk(y) && KernelPlaced(k) && KernelIn(mem, y, k) && PoolsOk(u, y)
    requires Legal(Boot(), events, mem, y.l1, u)
    requires i < Scheduler.MAX_TASKS && j < Scheduler.MAX_TASKS && i != j && a < 0x1_0000_0000 && a' < 0x1_0000_0000
    requires var x := Run(Boot(), events, mem, y.l1, u);
      SchedulerRuns.LiveUser(x.sched.tasks[i]) && SchedulerRuns.LiveUser(x.sched.tasks[j])
    ensures var x := Run(Boot(), events, mem, y.l1, u);
      Isolated(x.sched.tasks, SlotsMemory(mem, x.spaces, u), u, i, j, a, a')
  {
    BootJoined(mem, y.l1, u);
    RunKeeps(Boot(), events, mem, y.l1, u);
    JoinedIsolated(Run(Boot(), events, mem, y.l1, u), mem, u, y, k, i, j, a, a');
  }

  lemma OwnSlots(s: Scheduler.Table, i: nat, j: nat)
    requires SchedulerRuns.Inv(s) && i < Scheduler.MAX_TASKS && j < Scheduler.MAX_TASKS && i != j
    requires SchedulerRuns.LiveUser(s.tasks[i]) && SchedulerRuns.LiveUser(s.tasks[j])
    ensures s.tasks[i].userSlot < SLOTS && s.tasks[j].userSlot < SLOTS && s.tasks[i].userSlot != s.tasks[j].userSlot
    ensures s.slots[s.tasks[i].userSlot] && s.slots[s.tasks[j].userSlot]
  {
  }
}
