/** The task table of kernel/sched/scheduler.c as a value, and every scheduler entry point as a
    function from one table to the next. The page-table slot allocator of
    kernel/memory/address_space.c is part of the value, because tasks own its slots. */
module Scheduler {

  const MAX_TASKS := 8
  const TABLE_SLOTS := 4
  const U64 := 0x1_0000_0000_0000_0000

  datatype TaskState = Unused | Ready | Running | Blocked | Sleeping | Eligible | Zombie

  /** What `memory.address_space` of a task points at. */
  datatype Space = NoSpace | KernelSpace | UserSpace

  /** `userSlot` is the page-table slot of the task's own user address space;
      TABLE_SLOTS stands for "none". */
  datatype Task = Task(
    state: TaskState,
    parent: int,
    sleepUntil: nat,
    sleepMs: nat,
    space: Space,
    userSlot: nat,
    completed: bool,
    succeeded: bool,
    exitCode: nat)

  /** `halted` records that the endless "No runnable task remains" loop was entered. */
  datatype Table = Table(
    tasks: seq<Task>,
    current: nat,
    count: nat,
    started: bool,
    ticks: nat,
    slots: seq<bool>,
    halted: bool)

  /** How the body of a task ended: a kernel thread returned, or a user program finished. */
  datatype Outcome = ThreadReturned | ProgramFaulted | ProgramExited(code: nat)

  datatype WaitStatus = WaitStatus(pid: nat, exitCode: nat, succeeded: bool)

  datatype Step =
    | Start
    | CreateKernel
    | CreateUser(accepted: bool, writesFit: bool)
    | UnblockUser(pid: int)
    | Block(pid: int)
    | Unblock(pid: int)
    | Reap(pid: int)
    | ReapAll
    | Wait(pid: int)
    | SetParent(pid: int, parent: int)
    | Terminate(pid: int, code: nat)
    | Yield
    | Sleep(ms: nat, interval: nat)
    | Preempt
    | Exit(outcome: Outcome)

  /** The shape the C arrays and indices always have. */
  predicate Shaped(s: Table) {
    && |s.tasks| == MAX_TASKS
    && |s.slots| == TABLE_SLOTS
    && s.current < MAX_TASKS
    && 1 <= s.count <= MAX_TASKS
    && s.ticks < U64
    && (forall i :: 0 <= i < MAX_TASKS ==> s.tasks[i].userSlot <= TABLE_SLOTS && s.tasks[i].sleepUntil < U64)
  }

  predicate Runnable(t: Task) {
    t.state.Ready? || t.state.Running?
  }

  const IDLE_TASK := Task(Ready, -1, 0, 0, KernelSpace, 0, false, false, 0)
  const BLANK_TASK := Task(Unused, 0, 0, 0, NoSpace, 0, false, false, 0)

  /** scheduler_init on zeroed storage: only the idle task exists. */
  function InitialTable(): (s: Table)
  {
    Table([IDLE_TASK] + seq(MAX_TASKS - 1, i => BLANK_TASK), 0, 1, false, 0, seq(TABLE_SLOTS, i => false), false)
  }

  // ---- scans ----

  /** The task at index `i` after scheduler_wake_sleeping_tasks. */
  function WokenTask(tasks: seq<Task>, count: nat, ticks: nat, i: nat): Task
    requires i < |tasks|
  {
    if i < count && tasks[i].state.Sleeping? && ticks >= tasks[i].sleepUntil
    then tasks[i].(state := Ready, sleepUntil := 0, sleepMs := 0)
    else tasks[i]
  }

  function Woken(tasks: seq<Task>, count: nat, ticks: nat): (r: seq<Task>)
    ensures |r| == |tasks|
    ensures forall i :: 0 <= i < |r| ==> r[i] == WokenTask(tasks, count, ticks, i)
  {
    seq(|tasks|, i requires 0 <= i < |tasks| => WokenTask(tasks, count, ticks, i))
  }

  /** The round-robin scan of scheduler_next_runnable_task from its i-th candidate on. */
  function ScanFrom(s: Table, i: nat): (next: nat)
    requires Shaped(s)
    requires 1 <= i <= s.count + 1
    ensures next < MAX_TASKS
    decreases s.count + 1 - i
  {
    if i > s.count then
      if Runnable(s.tasks[0]) then 0 else s.current
    else
      var candidate := (s.current + i) % s.count;
      if candidate != 0 && Runnable(s.tasks[candidate]) then candidate else ScanFrom(s, i + 1)
  }

  function NextRunnable(s: Table): (next: nat)
    requires Shaped(s)
    ensures next < MAX_TASKS
  {
    ScanFrom(s, 1)
  }

  /** The first unused slot at or above `i` below task_count, or task_count. */
  function FirstHole(s: Table, i: nat): (r: nat)
    requires Shaped(s)
    requires i <= s.count
    ensures i <= r <= s.count
    ensures r < s.count ==> s.tasks[r].state.Unused?
    decreases s.count - i
  {
    if i == s.count || s.tasks[i].state.Unused? then i else FirstHole(s, i + 1)
  }

  /** The first free page-table slot at or above `k`, or TABLE_SLOTS. */
  function FreeSlot(slots: seq<bool>, k: nat): (r: nat)
    requires |slots| == TABLE_SLOTS
    requires k <= TABLE_SLOTS
    ensures k <= r <= TABLE_SLOTS
    ensures r < TABLE_SLOTS ==> !slots[r]
    ensures r == TABLE_SLOTS ==> forall j :: k <= j < TABLE_SLOTS ==> slots[j]
    decreases TABLE_SLOTS - k
  {
    if k == TABLE_SLOTS || !slots[k] then k else FreeSlot(slots, k + 1)
  }

  /** scheduler_trim_unused_tail. */
  function Trimmed(tasks: seq<Task>, count: nat): (r: nat)
    requires |tasks| == MAX_TASKS
    requires 1 <= count <= MAX_TASKS
    ensures 1 <= r <= count
    ensures r == 1 || !tasks[r - 1].state.Unused?
    ensures forall i :: r <= i < count ==> tasks[i].state.Unused?
  {
    if count > 1 && tasks[count - 1].state.Unused? then Trimmed(tasks, count - 1) else count
  }

  // ---- task creation ----

  /** scheduler_add_task's choice of pid: 8 means that the table is full. */
  function PickPid(s: Table): (pid: nat)
    requires Shaped(s)
    ensures 1 <= pid <= MAX_TASKS
  {
    FirstHole(s, 1)
  }

  function CountWith(s: Table, pid: nat): (count: nat)
    requires Shaped(s)
    requires pid < MAX_TASKS
    requires pid <= s.count
    ensures s.count <= count <= MAX_TASKS
  {
    if pid == s.count then s.count + 1 else s.count
  }

  function CreateKernelTask(s: Table): (r: (Table, int))
    requires Shaped(s)
    ensures Shaped(r.0)
  {
    var pid := PickPid(s);
    if pid == MAX_TASKS then (s, -1)
    else
      var t := Task(Ready, -1, 0, 0, KernelSpace, s.tasks[pid].userSlot, false, false, 0);
      (s.(tasks := s.tasks[pid := t], count := CountWith(s, pid)), pid as int)
  }

  /** scheduler_create_user_task_from_image. `accepted`: the file, the executable and the argument
      passed their checks. `writesFit`: every write to the data page succeeded. */
  function CreateUserTask(s: Table, accepted: bool, writesFit: bool): (r: (Table, int))
    requires Shaped(s)
    ensures Shaped(r.0)
  {
    if !accepted || PickPid(s) == MAX_TASKS then (s, -1)
    else AdmitUser(s.(count := CountWith(s, PickPid(s))), PickPid(s), writesFit)
  }

  /** The rest of the creation, with `pid` chosen and counted. */
  function AdmitUser(s: Table, pid: nat, writesFit: bool): (r: (Table, int))
    requires Shaped(s) && 1 <= pid < s.count
    ensures Shaped(r.0)
  {
    var slot := FreeSlot(s.slots, 0);
    if slot == TABLE_SLOTS then
      // No page-table slot: the image cannot be loaded and the new count is taken back.
      (s.(tasks := s.tasks[pid := s.tasks[pid].(userSlot := TABLE_SLOTS)], count := Retracted(s.count, pid)), -1)
    else
      var t := Task(Blocked, -1, 0, 0, UserSpace, slot, false, false, 0);
      if writesFit then (s.(tasks := s.tasks[pid := t], slots := s.slots[slot := true]), pid as int)
      else
        (s.(tasks := s.tasks[pid := t.(state := Unused, userSlot := TABLE_SLOTS)],
            count := Retracted(s.count, pid), slots := s.slots[slot := true][slot := false]), -1)
  }

  /** task_count after a creation that failed once `pid` was chosen and counted. */
  function Retracted(count: nat, pid: nat): (r: nat)
    requires 1 <= pid < count <= MAX_TASKS
    ensures 1 <= r <= MAX_TASKS
  {
    if pid == count - 1 then count - 1 else count
  }

  // ---- state changes on one task ----

  function UnblockUserTask(s: Table, pid: int): (r: (Table, int))
    requires Shaped(s)
    ensures Shaped(r.0)
  {
    if 0 <= pid < s.count && s.tasks[pid].state.Blocked? &&
       s.tasks[pid].space.UserSpace? && s.tasks[pid].userSlot < TABLE_SLOTS
    then (s.(tasks := s.tasks[pid := s.tasks[pid].(state := Ready)]), 0)
    else (s, -1)
  }

  function BlockTask(s: Table, pid: int): (r: (Table, int))
    requires Shaped(s)
    ensures Shaped(r.0)
  {
    if 0 < pid < s.count && pid != s.current && s.tasks[pid].space.KernelSpace? && s.tasks[pid].state.Ready?
    then (s.(tasks := s.tasks[pid := s.tasks[pid].(state := Blocked, sleepUntil := 0, sleepMs := 0)]), 0)
    else (s, -1)
  }

  function UnblockTask(s: Table, pid: int): (r: (Table, int))
    requires Shaped(s)
    ensures Shaped(r.0)
  {
    if 0 < pid < s.count && s.tasks[pid].space.KernelSpace? && s.tasks[pid].state.Blocked?
    then (s.(tasks := s.tasks[pid := s.tasks[pid].(state := Ready)]), 0)
    else (s, -1)
  }

  function SetTaskParent(s: Table, pid: int, parent: int): (r: (Table, bool))
    requires Shaped(s)
    ensures Shaped(r.0)
  {
    if 0 < pid < s.count && 0 < parent < s.count && pid != parent
    then (s.(tasks := s.tasks[pid := s.tasks[pid].(parent := parent)]), true)
    else (s, false)
  }

  function TerminateChild(s: Table, pid: int, code: nat): (r: (Table, bool))
    requires Shaped(s)
    ensures Shaped(r.0)
  {
    if 0 < pid < s.count && pid != s.current && s.tasks[pid].parent == s.current &&
       !s.tasks[pid].state.Unused? && !s.tasks[pid].state.Zombie?
    then (s.(tasks := s.tasks[pid := s.tasks[pid].(state := Zombie, completed := true, succeeded := false,
      exitCode := code)]), true)
    else (s, false)
  }

  // ---- reaping ----

  /** The task and the slot map after scheduler_clear_task_slot. */
  function ClearedTask(t: Task): Task {
    Task(Unused, -1, 0, 0, NoSpace, if t.space.UserSpace? then TABLE_SLOTS else t.userSlot, false, false, 0)
  }

  function SlotsWithout(slots: seq<bool>, t: Task): (r: seq<bool>)
    ensures |r| == |slots|
  {
    if t.space.UserSpace? && t.userSlot < |slots| then slots[t.userSlot := false] else slots
  }

  function ClearSlot(s: Table, pid: nat): (r: Table)
    requires Shaped(s)
    requires pid < MAX_TASKS
    ensures Shaped(r)
  {
    s.(tasks := s.tasks[pid := ClearedTask(s.tasks[pid])], slots := SlotsWithout(s.slots, s.tasks[pid]))
  }

  function TrimTail(s: Table): (r: Table)
    requires Shaped(s)
    ensures Shaped(r)
  {
    s.(count := Trimmed(s.tasks, s.count))
  }

  predicate Reapable(s: Table, pid: int)
    requires Shaped(s)
  {
    0 < pid < s.count && pid != s.current && s.tasks[pid].state.Zombie?
  }

  function ReapTask(s: Table, pid: int): (r: (Table, int))
    requires Shaped(s)
    ensures Shaped(r.0)
  {
    if Reapable(s, pid) then (TrimTail(ClearSlot(s, pid)), 0) else (s, -1)
  }

  /** The loop of scheduler_reap_zombies from index `i` on, before the trim. */
  function SweepFrom(s: Table, i: nat): (r: (Table, nat))
    requires Shaped(s)
    requires i <= s.count
    ensures Shaped(r.0)
    ensures r.0.count == s.count
    decreases s.count - i
  {
    if i == s.count then (s, 0)
    else if Reapable(s, i) then
      var (s', n) := SweepFrom(ClearSlot(s, i), i + 1);
      (s', n + 1)
    else SweepFrom(s, i + 1)
  }

  function ReapZombies(s: Table): (r: (Table, nat))
    requires Shaped(s)
    ensures Shaped(r.0)
  {
    var (s', n) := SweepFrom(s, 1);
    (TrimTail(s'), n)
  }

  /** The wait-for-any scan: the first zombie child at or above `i`, or 0; and whether any child was seen. */
  function AnyZombieChild(s: Table, i: nat, owned: bool): (r: (nat, bool))
    requires Shaped(s)
    requires 1 <= i <= s.count
    ensures r.0 < s.count
    ensures r.0 != 0 ==> s.tasks[r.0].parent == s.current && s.tasks[r.0].state.Zombie?
    decreases s.count - i
  {
    if i == s.count then (0, owned)
    else if s.tasks[i].parent != s.current then AnyZombieChild(s, i + 1, owned)
    else if s.tasks[i].state.Zombie? then (i, true)
    else AnyZombieChild(s, i + 1, true)
  }

  datatype WaitResult = WaitFailed | WaitPending | WaitReaped(status: WaitStatus)

  /** scheduler_wait_task_status once the pid to look at is known. */
  function WaitOne(s: Table, pid: nat): (r: (Table, WaitResult))
    requires Shaped(s)
    requires pid < s.count
    ensures Shaped(r.0)
  {
    if !s.tasks[pid].space.UserSpace? || s.tasks[pid].parent != s.current then (s, WaitFailed)
    else if !s.tasks[pid].state.Zombie? then (s, WaitPending)
    else (TrimTail(ClearSlot(s, pid)),
          WaitReaped(WaitStatus(pid, s.tasks[pid].exitCode, s.tasks[pid].succeeded)))
  }

  function WaitTask(s: Table, pid: int): (r: (Table, WaitResult))
    requires Shaped(s)
    ensures Shaped(r.0)
  {
    if pid < 0 || pid >= s.count || pid == s.current then (s, WaitFailed)
    else if pid != 0 then WaitOne(s, pid)
    else
      var (child, owned) := AnyZombieChild(s, 1, false);
      if child == 0 then (s, if owned then WaitPending else WaitFailed) else WaitOne(s, child)
  }

  // ---- selection ----

  /** scheduler_yield. */
  function YieldTask(s: Table): (r: Table)
    requires Shaped(s)
    ensures Shaped(r)
  {
    if s.count < 2 then s
    else
      var w := s.(tasks := Woken(s.tasks, s.count, s.ticks));
      var next := NextRunnable(w);
      if next == w.current then
        if Runnable(w.tasks[w.current]) then w.(tasks := w.tasks[w.current := w.tasks[w.current].(state := Running)])
        else w.(halted := true)
      else SwitchTo(w, next)
  }

  /** The state hand-over shared by scheduler_yield and scheduler_preempt. */
  function SwitchTo(s: Table, next: nat): (r: Table)
    requires Shaped(s)
    requires next < MAX_TASKS && next != s.current
    ensures Shaped(r)
  {
    var previous := if s.tasks[s.current].state.Running? then s.tasks[s.current].(state := Ready)
      else s.tasks[s.current];
    s.(tasks := s.tasks[s.current := previous][next := s.tasks[next].(state := Running)], current := next)
  }

  /** The tick counter after one tick; it wraps at 64 bits. */
  function NextTick(ticks: nat): (r: nat)
    ensures r < U64
  {
    (ticks + 1) % U64
  }

  /** scheduler_preempt: one timer interrupt. */
  function PreemptTask(s: Table): (r: Table)
    requires Shaped(s)
    ensures Shaped(r)
  {
    if !s.started || s.count < 2 then s
    else
      var w := s.(ticks := NextTick(s.ticks), tasks := Woken(s.tasks, s.count, NextTick(s.ticks)));
      var next := NextRunnable(w);
      if next == w.current then w else SwitchTo(w, next)
  }

  /** The rounded tick count of scheduler_sleep_ms; the addition wraps at 64 bits. */
  function SleepTicks(ms: nat, interval: nat): (r: nat)
    requires 0 < interval
    ensures 1 <= r < U64
  {
    var ticks := ((ms + interval - 1) % U64) / interval;
    if ticks == 0 then 1 else ticks
  }

  /** sleep_until_tick; this addition wraps at 64 bits too. */
  function Deadline(ticks: nat, ms: nat, interval: nat): (r: nat)
    requires ticks < U64 && 0 < interval
    ensures r < U64
    ensures r > ticks <==> ticks + SleepTicks(ms, interval) < U64
    ensures r > ticks ==> r == ticks + SleepTicks(ms, interval)
  {
    (ticks + SleepTicks(ms, interval)) % U64
  }

  predicate SleepBlocks(s: Table, interval: nat) {
    s.started && s.current != 0 && interval != 0
  }

  /** scheduler_sleep_ms; the busy-wait path (idle or threads not started) leaves the table alone. */
  function SleepTask(s: Table, ms: nat, interval: nat): (r: Table)
    requires Shaped(s)
    ensures Shaped(r)
  {
    if !SleepBlocks(s, interval) then s
    else
      var t := s.tasks[s.current].(state := Sleeping, sleepMs := ms, sleepUntil := Deadline(s.ticks, ms, interval));
      YieldTask(s.(tasks := s.tasks[s.current := t]))
  }

  /** The current task as it is left by the end of its body, before scheduler_exit_task. */
  function Finished(t: Task, outcome: Outcome): (r: Task)
    ensures r.userSlot == t.userSlot && r.space == t.space && r.parent == t.parent
  {
    match outcome
    case ThreadReturned => t
    case ProgramFaulted => t.(completed := true, succeeded := false)
    case ProgramExited(code) => t.(completed := true, succeeded := true, exitCode := code)
  }

  function OrphanedTask(t: Task, parent: int): Task {
    if t.parent == parent then t.(parent := -1) else t
  }

  function Orphaned(s: Table): (r: seq<Task>)
    requires Shaped(s)
    ensures |r| == |s.tasks|
    ensures forall i :: 0 <= i < |r| ==>
      r[i] == if 1 <= i < s.count then OrphanedTask(s.tasks[i], s.current) else s.tasks[i]
  {
    seq(|s.tasks|, i requires 0 <= i < |s.tasks| =>
      if 1 <= i < s.count then OrphanedTask(s.tasks[i], s.current) else s.tasks[i])
  }

  /** End of the current task's body followed by scheduler_exit_task. */
  function ExitTask(s: Table, outcome: Outcome): (r: Table)
    requires Shaped(s)
    ensures Shaped(r)
  {
    var finished := s.(tasks := s.tasks[s.current := Finished(s.tasks[s.current], outcome)]);
    var orphaned := finished.(tasks := Orphaned(finished));
    YieldTask(orphaned.(tasks := orphaned.tasks[s.current := orphaned.tasks[s.current].(state := Zombie)]))
  }

  /** scheduler_start_threads. */
  function StartThreads(s: Table): (r: Table)
    requires Shaped(s)
    ensures Shaped(r)
  {
    s.(started := true, current := 0, tasks := s.tasks[0 := s.tasks[0].(state := Running)])
  }

  // ---- the step machine ----

  /** When an entry point can be called at all: threads start once, only a started thread yields,
      and the body of the idle task never returns. */
  predicate Enabled(s: Table, step: Step) {
    match step
    case Start => !s.started
    case Yield => s.started
    case Exit(_) => s.started && s.current != 0
    case _ => true
  }

  function Apply(s: Table, step: Step): (r: Table)
    requires Shaped(s)
    ensures Shaped(r)
  {
    match step
    case Start => StartThreads(s)
    case CreateKernel => CreateKernelTask(s).0
    case CreateUser(accepted, writesFit) => CreateUserTask(s, accepted, writesFit).0
    case UnblockUser(pid) => UnblockUserTask(s, pid).0
    case Block(pid) => BlockTask(s, pid).0
    case Unblock(pid) => UnblockTask(s, pid).0
    case Reap(pid) => ReapTask(s, pid).0
    case ReapAll => ReapZombies(s).0
    case Wait(pid) => WaitTask(s, pid).0
    case SetParent(pid, parent) => SetTaskParent(s, pid, parent).0
    case Terminate(pid, code) => TerminateChild(s, pid, code).0
    case Yield => YieldTask(s)
    case Sleep(ms, interval) => SleepTask(s, ms, interval)
    case Preempt => PreemptTask(s)
    case Exit(outcome) => ExitTask(s, outcome)
  }
}
