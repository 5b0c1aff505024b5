/** scheduler_create_user_task_from_image as a whole (kernel/sched/scheduler.c:368-561): from the file
    and the argument string to the task table and the program's pages. */
module ProgramStart {
  import opened FileBytes
  import opened Executable
  import opened Launch
  import opened Scheduler
  import SchedulerRuns
  import TaskTable
  import Vfs
  import Mmu
  import SpaceRecord
  import SchedulerAnswers
  import Vm
  import opened UserSpace
  import opened UserTables
  import opened ProcessSpaces

  /** The file exists, is an executable, and the argument passes its checks. */
  predicate Acceptable(f: Vfs.Found, argument: Bytes) {
    && f.FileOf? && Parse(f.bytes).Accepted?
    && ArgumentAccepted(|Parse(f.bytes).image.data|, argument)
  }

  /** Whether every write to the data page is accepted: the tokens, then the two tables. */
  predicate WritesFit(m: Image, argument: Bytes)
    requires |m.data| <= PAGE && StringsOffset(|m.data|) + StringBytes(Tokens(argument)) <= PAGE
  {
    var base, strings, ts := ArgumentBase(|m.data|), StringsOffset(|m.data|), Tokens(argument);
    var (page1, ok1) := CopyTokens(LoadedPage(m.data), ts, strings);
    var (page2, ok2) := WriteData(page1, base, ArgvWords(ts, strings, ARG_MAX));
    ok1 && ok2 && WriteData(page2, base + 64, LengthWords(ts, ARG_MAX)).1
  }

  lemma {:induction false} AcceptedImage(f: Vfs.Found, argument: Bytes)
    requires Acceptable(f, argument)
    ensures var m := Parse(f.bytes).image;
      && ValidImage(m) && f.bytes == Layout(m) && StringsOffset(|m.data|) + StringBytes(Tokens(argument)) <= PAGE
      && WritesFit(m, argument)
  {
    var m := Parse(f.bytes).image;
    ParseExactlyInverse(f.bytes, m);
    var strings, ts := StringsOffset(|m.data|), Tokens(argument);
    WritesNeverFail(m.data, argument, LoadedPage(m.data));
    var page1 := CopyTokens(LoadedPage(m.data), ts, strings).0;
    WritesNeverFail(m.data, argument, page1);
    WritesNeverFail(m.data, argument, WriteData(page1, ArgumentBase(|m.data|), ArgvWords(ts, strings, ARG_MAX)).0);
  }

  /** The whole creation: the checks and the writes decide what the table step is told. */
  function CreateFromFile(s: Table, f: Vfs.Found, argument: Bytes): (r: (Table, int))
    requires Shaped(s)
    ensures Shaped(r.0)
  {
    if !Acceptable(f, argument) then CreateUserTask(s, false, false)
    else
      AcceptedImage(f, argument);
      CreateUserTask(s, true, WritesFit(Parse(f.bytes).image, argument))
  }

  /** A task is created iff the file is the layout of a valid image, the argument fits behind its
      data, and both a task slot and a page-table slot are free; otherwise no task state, count or
      slot changes. */
  lemma {:induction false} CreationIff(s: Table, f: Vfs.Found, argument: Bytes)
    requires SchedulerRuns.Inv(s)
    ensures var (s', pid) := CreateFromFile(s, f, argument);
      && SchedulerRuns.Inv(s')
      && (pid >= 0 <==> IsProgram(f, argument) && HasUnused(s) && HasFreeSlot(s))
      && (pid < 0 ==> s'.count == s.count && s'.slots == s.slots &&
                      forall i :: 0 <= i < MAX_TASKS ==> s'.tasks[i].state == s.tasks[i].state)
  {
    var accepted := Acceptable(f, argument);
    ProgramIff(f, argument);
    if accepted { AcceptedImage(f, argument); }
    SchedulerRuns.CreateUserSucceedsIff(s, accepted);
    SchedulerRuns.CreateUserKeeps(s, accepted, accepted);
    if CreateFromFile(s, f, argument).1 < 0 {
      SchedulerRuns.FailedCreateChangesNothing(s, accepted, accepted);
    }
  }

  ghost predicate IsProgram(f: Vfs.Found, argument: Bytes) {
    exists m :: ValidImage(m) && f == Vfs.FileOf(Layout(m)) && ArgumentAccepted(|m.data|, argument)
  }

  ghost predicate HasUnused(s: Table) {
    exists i :: 0 <= i < |s.tasks| && s.tasks[i].state.Unused?
  }

  ghost predicate HasFreeSlot(s: Table) {
    exists k :: 0 <= k < |s.slots| && !s.slots[k]
  }

  lemma {:induction false} ProgramIff(f: Vfs.Found, argument: Bytes)
    ensures Acceptable(f, argument) <==> IsProgram(f, argument)
  {
    if Acceptable(f, argument) {
      AcceptedImage(f, argument);
    }
    if IsProgram(f, argument) {
      var m :| ValidImage(m) && f == Vfs.FileOf(Layout(m)) && ArgumentAccepted(|m.data|, argument);
      ParseOfLayout(m);
    }
  }

  // ---- in place, in the slot that the task gets ----

  /** Page r of a slot. */
  function SlotPage(t: Slots, slot: nat, r: nat): (page: Bytes)
    requires SlotsShaped(t) && slot < SLOTS && r < REGIONS
    ensures |page| == PAGE
  {
    t.pages[(slot * REGIONS + r) * PAGE..(slot * REGIONS + r + 1) * PAGE]
  }

  /** A fresh slot with its code and data page put in: only pages of a used slot were written. */
  lemma {:induction false} Placed(t: Slots, slot: nat, code: Bytes, data: Bytes, pages: Bytes)
    requires SlotsShaped(t) && slot < SLOTS && t.used[slot] && PagesZero(t, slot) && |code| == PAGE && |data| == PAGE
    requires var base := slot * REGIONS * PAGE;
      pages == Overwrite(Overwrite(t.pages, base, code), base + PAGE, data)
    ensures var t' := t.(pages := pages);
      && t' == Written(t, pages)
      && SlotPage(t', slot, 0) == code && SlotPage(t', slot, 1) == data && SlotPage(t', slot, 2) == Zeros(PAGE)
  {
    var base := slot * REGIONS * PAGE;
    var first := Overwrite(t.pages, base, code);
    assert first[base..base + PAGE] == code;
    assert pages[base..base + PAGE] == code;
    forall j | base + 2 * PAGE <= j < base + 3 * PAGE ensures pages[j] == 0 {
      assert InRow(slot, REGIONS * PAGE, j);
    }
    forall j | 0 <= j < |pages| ensures pages[j] == Written(t, pages).pages[j] {
      if j / (REGIONS * PAGE) != slot { assert !(base <= j < base + 2 * PAGE); }
    }
  }

  lemma NothingWritten(t: Slots)
    requires SlotsShaped(t)
    ensures Written(t, t.pages) == t
  {
    assert Written(t, t.pages).pages == t.pages;
  }

  /** Which slot a created task gets, and why none is created. */
  lemma {:induction false} CreatedIn(s: Table, t: Slots, mem: Mmu.Memory, root: nat, u: Pools)
    requires Shaped(s) && SlotsShaped(t) && t.used == s.slots
    ensures var (s', pid) := CreateUserTask(s, true, true);
      var k, t' := FreeSlot(s.slots, 0), SpacesAfter(s, CreateUser(true, true), t, mem, root, u);
      if pid < 0 then t' == t
      else pid < MAX_TASKS && s'.tasks[pid].userSlot == k && k < SLOTS && t' == FillSlot(t, mem, root, u, k)
  {
  }

  lemma {:induction false} LowestIs(flags: seq<bool>, k: nat, i: nat)
    requires |flags| == TABLE_SLOTS && i <= k <= TABLE_SLOTS
    requires (forall j :: i <= j < k ==> flags[j]) && (k < TABLE_SLOTS ==> !flags[k])
    ensures FreeSlot(flags, i) == k
    decreases k - i
  {
    if i < k { LowestIs(flags, k, i + 1); }
  }

  /** address_space_load_user_image and the argument writes for a checked file. */
  method BuildPages(r: SpaceRecord.Record, m: Image, argument: Bytes, argc: nat)
    returns (q: SpaceRecord.Record, code: Bytes, data: Bytes)
    requires r.slot < SLOTS && r.mappingsReady
    requires ValidImage(m) && ArgumentAccepted(|m.data|, argument) && argc == |Tokens(argument)|
    ensures q == SpaceRecord.LoadRecord(r, m).0
    ensures code == LoadedPage(m.code) && data == FinalPage(m.data, argument)
  {
    var codePage, dataPage := new Byte[PAGE], new Byte[PAGE];
    var loaded;
    q, loaded := LoadImage(codePage, dataPage, r, m);
    var written := WriteArguments(dataPage, m.data, |m.data|, argument, argc);
    code, data := codePage[..], dataPage[..];
  }

  /** The pages in the slot. */
  method PlacePages(pools: UserPools, slot: nat, code: Bytes, data: Bytes)
    requires pools.Valid() && slot < SLOTS && pools.used[slot] && PagesZero(pools.View(), slot)
    requires |code| == PAGE && |data| == PAGE
    modifies pools.pages
    ensures pools.Valid() && pools.View() == Written(old(pools.View()), pools.pages[..])
    ensures SlotPage(pools.View(), slot, 0) == code && SlotPage(pools.View(), slot, 1) == data
    ensures SlotPage(pools.View(), slot, 2) == Zeros(PAGE)
  {
    ghost var t := pools.View();
    pools.PutPage(slot, 0, code);
    pools.PutPage(slot, 1, data);
    Placed(t, slot, code, data, pools.pages[..]);
  }

  /** address_space_init_user, address_space_load_user_image and the argument writes for a checked
      file: the slot is filled, its pages hold the program, and nothing else changes. */
  method LoadProgram(pools: UserPools, mem: Mmu.Memory, root: nat, m: Image, argument: Bytes, argc: nat)
    returns (slot: nat, r: SpaceRecord.Record)
    requires pools.Valid() && Inv(pools.View(), mem, root, pools.u) && FreeSlot(pools.used[..], 0) < SLOTS
    requires ValidImage(m) && ArgumentAccepted(|m.data|, argument) && argc == |Tokens(argument)|
    modifies pools.l1, pools.l2, pools.l3, pools.pages, pools.used
    ensures pools.Valid() && slot == old(FreeSlot(pools.used[..], 0))
    ensures pools.View() == Written(FillSlot(old(pools.View()), mem, root, pools.u, slot), pools.pages[..])
    ensures HasPages(pools.View(), slot, m, argument)
    ensures r == SpaceRecord.LoadRecord(SpaceRecord.InitRecord(slot, root, pools.u, REGIONS), m).0
  {
    ghost var t := pools.View();
    slot, r := pools.InitUser(mem, root);
    LowestIs(t.used, slot, 0);
    ghost var filled := pools.View();
    FilledIs(t, filled, mem, root, pools.u, slot);
    var code, data;
    r, code, data := BuildPages(r, m, argument, argc);
    PlacePages(pools, slot, code, data);
  }

  /** The joint state of the two objects. */
  ghost function Both(sched: TaskTable.KernelScheduler, pools: UserPools): (x: System)
    requires pools.Valid()
    reads sched, sched.tasks, sched.slots, pools, pools.l1, pools.l2, pools.l3, pools.pages, pools.used
  {
    System(sched.View(), pools.View())
  }

  /** The program's pages are in slot k. */
  ghost predicate HasPages(t: Slots, k: nat, m: Image, argument: Bytes)
    requires SlotsShaped(t)
  {
    && k < SLOTS && |m.code| <= PAGE && |m.data| <= PAGE && ArgumentAccepted(|m.data|, argument)
    && SlotPage(t, k, 0) == LoadedPage(m.code) && SlotPage(t, k, 1) == FinalPage(m.data, argument)
    && SlotPage(t, k, 2) == Zeros(PAGE)
  }

  /** The whole creation is one creation step followed by writes in the joint machine, and a created
      program finds its code page, its data page with the arguments laid out and a zero stack page in
      the slot of its own task. */
  ghost predicate Creation(x: System, x': System, pid: int, f: Vfs.Found, argument: Bytes, mem: Mmu.Memory, root: nat,
      u: Pools)
    requires WellShaped(x) && WellShaped(x')
  {
    && (x'.sched, pid) == CreateFromFile(x.sched, f, argument)
    && x' == Next(Next(x, Call(CreateUser(Acceptable(f, argument), true)), mem, root, u), Write(x'.spaces.pages),
                  mem, root, u)
    && (pid >= 0 ==>
      && Acceptable(f, argument) && pid < MAX_TASKS
      && HasPages(x'.spaces, x'.sched.tasks[pid].userSlot, Parse(f.bytes).image, argument))
  }

  lemma {:induction false} Refused(x: System, f: Vfs.Found, argument: Bytes, mem: Mmu.Memory, root: nat, u: Pools)
    requires WellShaped(x) && !Acceptable(f, argument)
    ensures Creation(x, x, -1, f, argument, mem, root, u)
  {
    NothingWritten(x.spaces);
  }

  lemma {:induction false} NotCreated(x: System, s': Table, pid: int, f: Vfs.Found, argument: Bytes, mem: Mmu.Memory,
      root: nat, u: Pools)
    requires WellShaped(x) && x.spaces.used == x.sched.slots && Acceptable(f, argument)
    requires (s', pid) == CreateUserTask(x.sched, true, true) && pid < 0
    ensures Creation(x, System(s', x.spaces), pid, f, argument, mem, root, u)
  {
    AcceptedImage(f, argument);
    CreatedIn(x.sched, x.spaces, mem, root, u);
    NothingWritten(x.spaces);
  }

  lemma {:induction false} Created(x: System, s': Table, t': Slots, pid: int, f: Vfs.Found, argument: Bytes,
      mem: Mmu.Memory, root: nat, u: Pools)
    requires WellShaped(x) && x.spaces.used == x.sched.slots && Acceptable(f, argument)
    requires (s', pid) == CreateUserTask(x.sched, true, true) && pid >= 0 && SlotsShaped(t')
    requires FreeSlot(x.spaces.used, 0) < SLOTS
    requires t' == Written(FillSlot(x.spaces, mem, root, u, FreeSlot(x.spaces.used, 0)), t'.pages)
    requires HasPages(t', FreeSlot(x.spaces.used, 0), Parse(f.bytes).image, argument)
    ensures Creation(x, System(s', t'), pid, f, argument, mem, root, u)
  {
    AcceptedImage(f, argument);
    CreatedIn(x.sched, x.spaces, mem, root, u);
  }

  /** What the joint machine's slots are once a checked program was admitted, or could not be. */
  ghost predicate Admitted(x: System, t': Slots, pid: int, m: Image, argument: Bytes, mem: Mmu.Memory, root: nat,
      u: Pools)
    requires WellShaped(x) && SlotsShaped(t')
  {
    if pid < 0 then t' == x.spaces
    else
      var k := FreeSlot(x.spaces.used, 0);
      && HasPages(t', k, m, argument)
      && t' == Written(FillSlot(x.spaces, mem, root, u, k), t'.pages)
  }

  lemma {:induction false} AdmittedIs(x: System, x': System, pid: int, f: Vfs.Found, argument: Bytes, mem: Mmu.Memory,
      root: nat, u: Pools)
    requires WellShaped(x) && WellShaped(x') && x.spaces.used == x.sched.slots && Acceptable(f, argument)
    requires (x'.sched, pid) == CreateUserTask(x.sched, true, true)
    requires Admitted(x, x'.spaces, pid, Parse(f.bytes).image, argument, mem, root, u)
    ensures Creation(x, x', pid, f, argument, mem, root, u)
  {
    if pid < 0 {
      NotCreated(x, x'.sched, pid, f, argument, mem, root, u);
    } else {
      Created(x, x'.sched, x'.spaces, pid, f, argument, mem, root, u);
    }
  }

  /** The table entry and the pages of a checked program. */
  method AdmitProgram(sched: TaskTable.KernelScheduler, pools: UserPools, mem: Mmu.Memory, root: nat, m: Image,
      argument: Bytes, argc: nat)
    returns (pid: int)
    requires sched.Valid() && pools.Valid() && sched.slots != pools.used
    requires sched.slots[..] == pools.used[..] && Inv(pools.View(), mem, root, pools.u)
    requires ValidImage(m) && ArgumentAccepted(|m.data|, argument) && argc == |Tokens(argument)|
    modifies sched, sched.tasks, sched.slots, pools.l1, pools.l2, pools.l3, pools.pages, pools.used
    ensures sched.Valid() && pools.Valid() && (sched.View(), pid) == CreateUserTask(old(sched.View()), true, true)
    ensures Admitted(old(Both(sched, pools)), pools.View(), pid, m, argument, mem, root, pools.u)
  {
    CreatedIn(sched.View(), pools.View(), mem, root, pools.u);
    pid := sched.CreateUserFrom(true, true);
    if pid >= 0 {
      var slot, r := LoadProgram(pools, mem, root, m, argument, argc);
    }
  }

  /** scheduler_create_user_task_from_image in place. */
  method CreateProgram(sched: TaskTable.KernelScheduler, pools: UserPools, mem: Mmu.Memory, root: nat, f: Vfs.Found,
      argument: Bytes)
    returns (pid: int)
    requires sched.Valid() && pools.Valid() && sched.slots != pools.used
    requires Joined(Both(sched, pools), mem, root, pools.u)
    modifies sched, sched.tasks, sched.slots, pools.l1, pools.l2, pools.l3, pools.pages, pools.used
    ensures sched.Valid() && pools.Valid()
    ensures Creation(old(Both(sched, pools)), Both(sched, pools), pid, f, argument, mem, root, pools.u)
    ensures Joined(Both(sched, pools), mem, root, pools.u)
  {
    ghost var x := Both(sched, pools);
    var accepted, m, argc := CheckFile(f, argument);
    if !accepted {
      Refused(x, f, argument, mem, root, pools.u);
      return -1;
    }
    AcceptedImage(f, argument);
    pid := AdmitProgram(sched, pools, mem, root, m, argument, argc);
    AdmittedIs(x, Both(sched, pools), pid, f, argument, mem, root, pools.u);
    CreationJoined(x, Both(sched, pools), pid, f, argument, mem, root, pools.u);
  }

  /** Whatever the writes are, the creation keeps the joint invariant. */
  lemma {:induction false} CreationJoined(x: System, x': System, pid: int, f: Vfs.Found, argument: Bytes,
      mem: Mmu.Memory, root: nat, u: Pools)
    requires Joined(x, mem, root, u) && WellShaped(x') && Creation(x, x', pid, f, argument, mem, root, u)
    ensures Joined(x', mem, root, u)
  {
    var call := Call(CreateUser(Acceptable(f, argument), true));
    EventKeeps(x, call, mem, root, u);
    EventKeeps(Next(x, call, mem, root, u), Write(x'.spaces.pages), mem, root, u);
  }

  /** The admission tests of scheduler_unblock_user_task on the record that LoadProgram left for a live
      task come down to the state of the task: it is made ready iff it is blocked and admissible. */
  lemma {:induction false} UnblockIsAdmission(s: Table, pid: nat, m: Image, u: Pools, y: Vm.Layout)
    requires SchedulerRuns.Inv(s) && pid < s.count && SchedulerRuns.LiveUser(s.tasks[pid])
    requires PoolsOk(u, y) && ValidImage(m)
    ensures var r := SpaceRecord.LoadRecord(SpaceRecord.InitRecord(s.tasks[pid].userSlot, y.l1, u, REGIONS), m).0;
      UnblockUserTask(s, pid).1 == 0 <==>
        s.tasks[pid].state.Blocked? && SpaceRecord.Admissible(r, SpaceRecord.InitEl0(r))
  {
    SpaceRecord.AdmissibleIff(s.tasks[pid].userSlot, u, y, m);
    SchedulerAnswers.UnblockUserMeaning(s, pid);
  }

  /** scheduler_reap_task in place, with the task's record r: the joint machine's reap. */
  method ReapProgram(sched: TaskTable.KernelScheduler, pools: UserPools, r: SpaceRecord.Record, ghost mem: Mmu.Memory,
      ghost root: nat, pid: int)
    returns (result: int)
    requires sched.Valid() && pools.Valid() && sched.slots != pools.used
    requires Joined(Both(sched, pools), mem, root, pools.u)
    requires 0 < pid < sched.count ==> r.slot == sched.tasks[pid].userSlot
    modifies sched, sched.tasks, sched.slots, pools.l1, pools.l2, pools.l3, pools.pages, pools.used
    ensures sched.Valid() && pools.Valid() && result == old(ReapTask(sched.View(), pid).1)
    ensures Both(sched, pools) == Next(old(Both(sched, pools)), Call(Reap(pid)), mem, root, pools.u)
  {
    ghost var t := pools.View();
    if 0 < pid < sched.count && pid != sched.current && sched.tasks[pid].state.Zombie? &&
       sched.tasks[pid].space.UserSpace?
    {
      var q := pools.Destroy(r, mem, root);
      if r.slot < SLOTS { WipedIs(t, pools.View(), r.slot); }
    }
    result := sched.ReapOne(pid);
  }

  const NO_IMAGE := Image([], [], 0)

  /** The checks on the file and the argument. */
  method CheckFile(f: Vfs.Found, argument: Bytes) returns (accepted: bool, m: Image, argc: nat)
    ensures accepted == Acceptable(f, argument)
    ensures accepted ==> m == Parse(f.bytes).image && argc == |Tokens(argument)|
  {
    if f.NoFile? {
      return false, NO_IMAGE, 0;
    }
    var parsed := ParseFile(f.bytes);
    if parsed.Rejected? {
      return false, NO_IMAGE, 0;
    }
    m := parsed.image;
    accepted, argc := CheckArgument(|m.data|, argument);
  }
}
