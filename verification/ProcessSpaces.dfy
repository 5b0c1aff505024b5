/** The task table of kernel/sched/scheduler.c and the table slots of kernel/memory/address_space.c as
    one machine: creations fill slots and clears wipe them, while programs write to their pages. */
module ProcessSpaces {
  import opened Mmu
  import opened UserSpace
  import opened UserTables
  import opened FileBytes
  import Scheduler
  import SchedulerRuns

  // ---- one slot ----

  /** Cells n * slot up to n * (slot + 1) replaced, with f numbering them from 0. */
  function WithRow<T>(cells: seq<T>, slot: nat, n: nat, f: nat -> T): (r: seq<T>)
    ensures |r| == |cells|
    ensures forall j :: 0 <= j < |r| ==> r[j] == if InRow(slot, n, j) then f(j - slot * n) else cells[j]
  {
    seq(|cells|, j requires 0 <= j < |cells| => if InRow(slot, n, j) then f(j - slot * n) else cells[j])
  }

  /** Slot `slot` taken: its tables overlay the kernel's and its pages are zero. */
  function FillSlot(t: Slots, mem: Memory, root: nat, u: Pools, slot: nat): (r: Slots)
    requires SlotsShaped(t) && slot < SLOTS
    ensures SlotsShaped(r)
  {
    Slots(WithRow(t.l1, slot, ENTRIES, i => UserL1(mem, root, u, slot, i)),
          WithRow(t.l2, slot, ENTRIES, i => UserL2(mem, root, u, slot, i)),
          WithRow(t.l3, slot, REGIONS * ENTRIES, (i: nat) => UserL3(u, slot, i / ENTRIES, i % ENTRIES)),
          WithRow(t.pages, slot, REGIONS * PAGE_SIZE, i => 0),
          t.used[slot := true])
  }

  /** Slot `slot` given back: empty tables and zero pages. */
  function WipeSlot(t: Slots, slot: nat): (r: Slots)
    requires SlotsShaped(t) && slot < SLOTS
    ensures SlotsShaped(r)
  {
    Slots(WithRow(t.l1, slot, ENTRIES, i => 0), WithRow(t.l2, slot, ENTRIES, i => 0),
          WithRow(t.l3, slot, REGIONS * ENTRIES, i => 0), WithRow(t.pages, slot, REGIONS * PAGE_SIZE, i => 0),
          t.used[slot := false])
  }

  /** Rows of different numbers share no cell. */
  lemma RowsApart(s: nat, s': nat, n: nat, j: int)
    requires s != s' && InRow(s, n, j)
    ensures !InRow(s', n, j)
  {
    if s < s' {
      assert s * n + n <= s' * n by { RowsOrdered(s, s', n); }
    } else {
      assert s' * n + n <= s * n by { RowsOrdered(s', s, n); }
    }
  }

  lemma {:induction false} RowsOrdered(s: nat, s': nat, n: nat)
    requires s < s'
    ensures s * n + n <= s' * n
  {
    assert (s' - s - 1) * n >= 0;
    assert s' * n == s * n + n + (s' - s - 1) * n;
  }

  /** The l-th row of a region table inside its slot's rows. */
  lemma RegionRow(slot: nat, r: nat, j: int)
    requires r < REGIONS && InRow(slot * REGIONS + r, ENTRIES, j)
    ensures InRow(slot, REGIONS * ENTRIES, j)
    ensures var i := j - slot * (REGIONS * ENTRIES);
      i / ENTRIES == r && i % ENTRIES == j - (slot * REGIONS + r) * ENTRIES
  {
  }

  lemma {:induction false} FillSlotFills(t: Slots, mem: Memory, root: nat, u: Pools, slot: nat)
    requires SlotsShaped(t) && slot < SLOTS
    ensures var r := FillSlot(t, mem, root, u, slot); Filled(r, mem, root, u, slot) && PagesZero(r, slot)
  {
    forall r: nat | r < REGIONS ensures RegionFilled(FillSlot(t, mem, root, u, slot).l3, u, slot, r) {
      FillSlotRegion(t, mem, root, u, slot, r);
    }
  }

  lemma {:induction false} FillSlotRegion(t: Slots, mem: Memory, root: nat, u: Pools, slot: nat, r: nat)
    requires SlotsShaped(t) && slot < SLOTS && r < REGIONS
    ensures RegionFilled(FillSlot(t, mem, root, u, slot).l3, u, slot, r)
  {
    var l3 := FillSlot(t, mem, root, u, slot).l3;
    forall j | InRow(slot * REGIONS + r, ENTRIES, j)
      ensures l3[j] == UserL3(u, slot, r, j - (slot * REGIONS + r) * ENTRIES)
    {
      RegionRow(slot, r, j);
    }
  }

  /** Two tables that differ in the rows of one slot agree on every other slot. */
  lemma {:induction false} RestSame(t: Slots, t': Slots, slot: nat)
    requires SlotsShaped(t) && SlotsShaped(t') && slot < SLOTS
    requires forall j :: 0 <= j < |t.l1| && !InRow(slot, ENTRIES, j) ==> t'.l1[j] == t.l1[j]
    requires forall j :: 0 <= j < |t.l2| && !InRow(slot, ENTRIES, j) ==> t'.l2[j] == t.l2[j]
    requires forall j :: 0 <= j < |t.l3| && !InRow(slot, REGIONS * ENTRIES, j) ==> t'.l3[j] == t.l3[j]
    requires forall j :: 0 <= j < |t.pages| && !InRow(slot, REGIONS * PAGE_SIZE, j) ==> t'.pages[j] == t.pages[j]
    requires forall s :: 0 <= s < SLOTS && s != slot ==> t'.used[s] == t.used[s]
    ensures OthersSame(t, t', slot)
  {
    forall s: nat | s < SLOTS && s != slot ensures SameSlot(t, t', s) {
      forall j | InRow(s, ENTRIES, j) ensures t'.l1[j] == t.l1[j] && t'.l2[j] == t.l2[j] {
        RowsApart(s, slot, ENTRIES, j);
      }
      forall j | InRow(s, REGIONS * ENTRIES, j) ensures t'.l3[j] == t.l3[j] {
        RowsApart(s, slot, REGIONS * ENTRIES, j);
      }
      forall j | InRow(s, REGIONS * PAGE_SIZE, j) ensures t'.pages[j] == t.pages[j] {
        RowsApart(s, slot, REGIONS * PAGE_SIZE, j);
      }
    }
  }

  lemma {:induction false} FillKeeps(t: Slots, mem: Memory, root: nat, u: Pools, slot: nat)
    requires Inv(t, mem, root, u) && slot < SLOTS
    ensures Inv(FillSlot(t, mem, root, u, slot), mem, root, u)
  {
    var r := FillSlot(t, mem, root, u, slot);
    FillSlotFills(t, mem, root, u, slot);
    RestSame(t, r, slot);
    InvKept(t, r, mem, root, u, slot);
  }

  lemma {:induction false} WipeKeeps(t: Slots, mem: Memory, root: nat, u: Pools, slot: nat)
    requires Inv(t, mem, root, u) && slot < SLOTS
    ensures Inv(WipeSlot(t, slot), mem, root, u)
  {
    var r := WipeSlot(t, slot);
    RestSame(t, r, slot);
    InvKept(t, r, mem, root, u, slot);
  }

  lemma {:induction false} RowOf(j: nat, rows: nat, n: nat) returns (s: nat)
    requires n > 0 && j < rows * n
    ensures s < rows && InRow(s, n, j)
    decreases rows
  {
    if j >= (rows - 1) * n { s := rows - 1; } else { s := RowOf(j, rows - 1, n); }
  }

  lemma {:induction false} SameEverywhere(t: Slots, t': Slots)
    requires SlotsShaped(t) && SlotsShaped(t') && forall s: nat :: s < SLOTS ==> SameSlot(t, t', s)
    ensures t == t'
  {
    forall j | 0 <= j < SLOTS * ENTRIES ensures t.l1[j] == t'.l1[j] && t.l2[j] == t'.l2[j] {
      var s := RowOf(j, SLOTS, ENTRIES);
      assert SameSlot(t, t', s);
    }
    forall j | 0 <= j < SLOTS * REGIONS * ENTRIES ensures t.l3[j] == t'.l3[j] {
      var s := RowOf(j, SLOTS, REGIONS * ENTRIES);
      assert SameSlot(t, t', s);
    }
    forall j | 0 <= j < SLOTS * REGIONS * PAGE_SIZE ensures t.pages[j] == t'.pages[j] {
      var s := RowOf(j, SLOTS, REGIONS * PAGE_SIZE);
      assert SameSlot(t, t', s);
    }
    forall s | 0 <= s < SLOTS ensures t.used[s] == t'.used[s] {
      assert SameSlot(t, t', s);
    }
  }

  lemma {:induction false} SameLower(x: seq<nat>, y: seq<nat>, u: Pools, s: nat, j: int)
    requires |x| == |y| == SLOTS * REGIONS * ENTRIES && s < SLOTS && InRow(s, REGIONS * ENTRIES, j)
    requires forall r: nat :: r < REGIONS ==> RegionFilled(x, u, s, r) && RegionFilled(y, u, s, r)
    ensures x[j] == y[j]
  {
    var r := (j - s * (REGIONS * ENTRIES)) / ENTRIES;
    assert RegionFilled(x, u, s, r) && RegionFilled(y, u, s, r);
    assert InRow(s * REGIONS + r, ENTRIES, j);
  }

  /** address_space_init_user in place gives this value, as its contract states it. */
  lemma {:induction false} FilledIs(t: Slots, t': Slots, mem: Memory, root: nat, u: Pools, slot: nat)
    requires SlotsShaped(t) && SlotsShaped(t') && slot < SLOTS && OthersSame(t, t', slot)
    requires t'.used[slot] && Filled(t', mem, root, u, slot) && PagesZero(t', slot)
    ensures t' == FillSlot(t, mem, root, u, slot)
  {
    var r := FillSlot(t, mem, root, u, slot);
    FillSlotFills(t, mem, root, u, slot);
    RestSame(t, r, slot);
    forall j | InRow(slot, REGIONS * ENTRIES, j) ensures t'.l3[j] == r.l3[j] {
      SameLower(t'.l3, r.l3, u, slot, j);
    }
    forall s: nat | s < SLOTS ensures SameSlot(t', r, s) {
      if s != slot { assert SameSlot(t, t', s) && SameSlot(t, r, s); }
    }
    SameEverywhere(t', r);
  }

  /** So does address_space_destroy_user. */
  lemma {:induction false} WipedIs(t: Slots, t': Slots, slot: nat)
    requires SlotsShaped(t) && SlotsShaped(t') && slot < SLOTS && OthersSame(t, t', slot)
    requires !t'.used[slot] && Blank(t', slot)
    ensures t' == WipeSlot(t, slot)
  {
    var r := WipeSlot(t, slot);
    RestSame(t, r, slot);
    forall s: nat | s < SLOTS ensures SameSlot(t', r, s) {
      if s != slot { assert SameSlot(t, t', s) && SameSlot(t, r, s); }
    }
    SameEverywhere(t', r);
  }

  // ---- the joint machine ----

  datatype System = System(sched: Scheduler.Table, spaces: Slots)

  /** A scheduler entry point, or writes of programs and the kernel to pages of slots in use. */
  datatype Event = Call(step: Scheduler.Step) | Write(pages: seq<Byte>)

  predicate WellShaped(a: System) {
    Scheduler.Shaped(a.sched) && SlotsShaped(a.spaces)
  }

  function Boot(): System {
    System(Scheduler.InitialTable(), BootSlots())
  }

  /** scheduler_clear_task_slot on the slots: the task's own space is destroyed. */
  function Released(t: Slots, task: Scheduler.Task): (r: Slots)
    requires SlotsShaped(t)
    ensures SlotsShaped(r)
  {
    if task.space.UserSpace? && task.userSlot < SLOTS then WipeSlot(t, task.userSlot) else t
  }

  /** address_space_init_user, and address_space_destroy_user when a later write fails. */
  function Taken(t: Slots, mem: Memory, root: nat, u: Pools, writesFit: bool): (r: Slots)
    requires SlotsShaped(t)
    ensures SlotsShaped(r)
  {
    var slot := Scheduler.FreeSlot(t.used, 0);
    if slot == SLOTS then t
    else if writesFit then FillSlot(t, mem, root, u, slot)
    else WipeSlot(FillSlot(t, mem, root, u, slot), slot)
  }

  /** The loop of scheduler_reap_zombies on the slots. */
  function SweptSpaces(s: Scheduler.Table, i: nat, t: Slots): (r: Slots)
    requires Scheduler.Shaped(s) && SlotsShaped(t) && i <= s.count
    ensures SlotsShaped(r)
    decreases s.count - i
  {
    if i == s.count then t
    else if Scheduler.Reapable(s, i) then
      SweptSpaces(Scheduler.ClearSlot(s, i), i + 1, Released(t, s.tasks[i]))
    else SweptSpaces(s, i + 1, t)
  }

  /** What a scheduler entry point does to the slots. */
  function SpacesAfter(s: Scheduler.Table, step: Scheduler.Step, t: Slots, mem: Memory, root: nat,
      u: Pools): (r: Slots)
    requires Scheduler.Shaped(s) && SlotsShaped(t)
    ensures SlotsShaped(r)
  {
    match step
    case CreateUser(accepted, writesFit) =>
      if !accepted || Scheduler.PickPid(s) == Scheduler.MAX_TASKS then t else Taken(t, mem, root, u, writesFit)
    case Reap(pid) => if Scheduler.Reapable(s, pid) then Released(t, s.tasks[pid]) else t
    case ReapAll => SweptSpaces(s, 1, t)
    case Wait(pid) =>
      (match Scheduler.WaitTask(s, pid).1
       case WaitReaped(status) => if status.pid < Scheduler.MAX_TASKS then Released(t, s.tasks[status.pid]) else t
       case _ => t)
    case _ => t
  }

  /** Pages of used slots replaced. */
  function Written(t: Slots, pages: seq<Byte>): (r: Slots)
    requires SlotsShaped(t)
    ensures SlotsShaped(r)
  {
    if |pages| != |t.pages| then t
    else t.(pages := seq(|t.pages|, j requires 0 <= j < |t.pages| =>
      if t.used[j / (REGIONS * PAGE_SIZE)] then pages[j] else t.pages[j]))
  }

  predicate Possible(a: System, e: Event) {
    e.Call? ==> Scheduler.Enabled(a.sched, e.step)
  }

  function Next(a: System, e: Event, mem: Memory, root: nat, u: Pools): (b: System)
    requires WellShaped(a)
    ensures WellShaped(b)
  {
    match e
    case Call(step) => System(Scheduler.Apply(a.sched, step), SpacesAfter(a.sched, step, a.spaces, mem, root, u))
    case Write(pages) => a.(spaces := Written(a.spaces, pages))
  }

  function Run(a: System, events: seq<Event>, mem: Memory, root: nat, u: Pools): (b: System)
    requires WellShaped(a)
    ensures WellShaped(b)
    decreases |events|
  {
    if events == [] then a else Run(Next(a, events[0], mem, root, u), events[1..], mem, root, u)
  }

  ghost predicate Legal(a: System, events: seq<Event>, mem: Memory, root: nat, u: Pools)
    requires WellShaped(a)
    decreases |events|
  {
    events == [] ||
    (Possible(a, events[0]) && Legal(Next(a, events[0], mem, root, u), events[1..], mem, root, u))
  }

  // ---- the invariant of both ----

  /** The slots keep their invariant, and their flags are the ones the scheduler goes by. */
  ghost predicate Agree(flags: seq<bool>, t: Slots, mem: Memory, root: nat, u: Pools) {
    Inv(t, mem, root, u) && t.used == flags
  }

  ghost predicate Joined(a: System, mem: Memory, root: nat, u: Pools) {
    SchedulerRuns.Inv(a.sched) && Agree(a.sched.slots, a.spaces, mem, root, u)
  }

  lemma BootJoined(mem: Memory, root: nat, u: Pools)
    ensures Joined(Boot(), mem, root, u)
  {
    SchedulerRuns.InitialInv();
    var t := BootSlots();
    forall s: nat | s < SLOTS ensures Blank(t, s) {}
  }

  lemma {:induction false} ReleasedKeeps(flags: seq<bool>, t: Slots, task: Scheduler.Task, mem: Memory, root: nat,
      u: Pools)
    requires Agree(flags, t, mem, root, u)
    ensures Agree(Scheduler.SlotsWithout(flags, task), Released(t, task), mem, root, u)
  {
    if task.space.UserSpace? && task.userSlot < SLOTS { WipeKeeps(t, mem, root, u, task.userSlot); }
  }

  lemma {:induction false} TakenKeeps(flags: seq<bool>, t: Slots, mem: Memory, root: nat, u: Pools, writesFit: bool)
    requires Agree(flags, t, mem, root, u)
    ensures var k := Scheduler.FreeSlot(flags, 0);
      Agree(if k < SLOTS && writesFit then flags[k := true] else flags, Taken(t, mem, root, u, writesFit), mem, root, u)
  {
    var k := Scheduler.FreeSlot(flags, 0);
    if k < SLOTS {
      var filled := FillSlot(t, mem, root, u, k);
      FillKeeps(t, mem, root, u, k);
      WipeKeeps(filled, mem, root, u, k);
      assert flags[k := true][k := false] == flags;
    }
  }

  lemma {:induction false} SweptKeeps(s: Scheduler.Table, i: nat, t: Slots, mem: Memory, root: nat, u: Pools)
    requires Scheduler.Shaped(s) && i <= s.count && Agree(s.slots, t, mem, root, u)
    ensures Agree(Scheduler.SweepFrom(s, i).0.slots, SweptSpaces(s, i, t), mem, root, u)
    decreases s.count - i
  {
    if i < s.count {
      if Scheduler.Reapable(s, i) {
        ReleasedKeeps(s.slots, t, s.tasks[i], mem, root, u);
        SweptKeeps(Scheduler.ClearSlot(s, i), i + 1, Released(t, s.tasks[i]), mem, root, u);
      } else {
        SweptKeeps(s, i + 1, t, mem, root, u);
      }
    }
  }

  /** The flags after a step that neither creates a user task nor clears one. */
  lemma FlagsStay(s: Scheduler.Table, step: Scheduler.Step)
    requires Scheduler.Shaped(s) && !step.CreateUser? && !step.Reap? && !step.ReapAll? && !step.Wait?
    ensures Scheduler.Apply(s, step).slots == s.slots
  {
  }

  lemma CreateFlags(s: Scheduler.Table, accepted: bool, writesFit: bool)
    requires Scheduler.Shaped(s)
    ensures var k := Scheduler.FreeSlot(s.slots, 0);
      Scheduler.CreateUserTask(s, accepted, writesFit).0.slots ==
        if accepted && Scheduler.PickPid(s) < Scheduler.MAX_TASKS && k < SLOTS && writesFit then s.slots[k := true]
        else s.slots
  {
    var k := Scheduler.FreeSlot(s.slots, 0);
    if k < SLOTS { assert s.slots[k := true][k := false] == s.slots; }
  }

  lemma WaitFlags(s: Scheduler.Table, pid: int)
    requires Scheduler.Shaped(s)
    ensures var (s', r) := Scheduler.WaitTask(s, pid);
      if r.WaitReaped? then
        r.status.pid < Scheduler.MAX_TASKS && s'.slots == Scheduler.SlotsWithout(s.slots, s.tasks[r.status.pid])
      else s'.slots == s.slots
  {
  }

  lemma {:induction false} SpacesKeep(s: Scheduler.Table, step: Scheduler.Step, t: Slots, mem: Memory, root: nat,
      u: Pools)
    requires Scheduler.Shaped(s) && Agree(s.slots, t, mem, root, u)
    ensures Agree(Scheduler.Apply(s, step).slots, SpacesAfter(s, step, t, mem, root, u), mem, root, u)
  {
    match step
    case CreateUser(accepted, writesFit) =>
      CreateFlags(s, accepted, writesFit);
      TakenKeeps(s.slots, t, mem, root, u, writesFit);
    case Reap(pid) =>
      if Scheduler.Reapable(s, pid) { ReleasedKeeps(s.slots, t, s.tasks[pid], mem, root, u); }
    case ReapAll =>
      SweptKeeps(s, 1, t, mem, root, u);
    case Wait(pid) =>
      WaitFlags(s, pid);
      var r := Scheduler.WaitTask(s, pid).1;
      if r.WaitReaped? { ReleasedKeeps(s.slots, t, s.tasks[r.status.pid], mem, root, u); }
    case _ =>
      FlagsStay(s, step);
  }

  lemma {:induction false} WrittenKeeps(t: Slots, pages: seq<Byte>, mem: Memory, root: nat, u: Pools)
    requires Inv(t, mem, root, u)
    ensures Inv(Written(t, pages), mem, root, u)
  {
    var w := Written(t, pages);
    forall s: nat | s < SLOTS ensures if w.used[s] then Filled(w, mem, root, u, s) else Blank(w, s) {
      if !w.used[s] {
        forall j | InRow(s, REGIONS * PAGE_SIZE, j) ensures w.pages[j] == 0 {
          assert j / (REGIONS * PAGE_SIZE) == s;
        }
      }
    }
  }

  lemma {:induction false} EventKeeps(a: System, e: Event, mem: Memory, root: nat, u: Pools)
    requires Joined(a, mem, root, u) && Possible(a, e)
    ensures Joined(Next(a, e, mem, root, u), mem, root, u)
  {
    match e
    case Call(step) =>
      SchedulerRuns.StepKeeps(a.sched, step);
      SpacesKeep(a.sched, step, a.spaces, mem, root, u);
    case Write(pages) =>
      WrittenKeeps(a.spaces, pages, mem, root, u);
  }

  /** Both invariants and the agreement of the flags survive every run. */
  lemma {:induction false} RunKeeps(a: System, events: seq<Event>, mem: Memory, root: nat, u: Pools)
    requires Joined(a, mem, root, u) && Legal(a, events, mem, root, u)
    ensures Joined(Run(a, events, mem, root, u), mem, root, u)
    decreases |events|
  {
    if events != [] {
      EventKeeps(a, events[0], mem, root, u);
      RunKeeps(Next(a, events[0], mem, root, u), events[1..], mem, root, u);
    }
  }
}
