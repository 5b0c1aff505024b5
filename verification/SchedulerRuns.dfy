/** Whole-run properties of the scheduler: one inductive invariant over every step, bounded bypass
    of a waiting task, exact sleeping, and ownership of the page-table slots. */
module SchedulerRuns {
  import opened Scheduler

  // ---- the invariant ----

  /** Exactly the current task runs once threads have started; before that nothing runs. */
  ghost predicate OneRunning(s: Table)
    requires Shaped(s)
  {
    if s.started
    then forall i :: 0 <= i < MAX_TASKS ==> (s.tasks[i].state.Running? <==> i == s.current)
    else s.current == 0 && forall i :: 0 <= i < MAX_TASKS ==> !s.tasks[i].state.Running?
  }

  /** task_count is tight: everything above it is unused and the last counted slot is not. */
  ghost predicate TightCount(s: Table)
    requires Shaped(s)
  {
    && (forall i :: s.count <= i < MAX_TASKS ==> s.tasks[i].state.Unused?)
    && !s.tasks[s.count - 1].state.Unused?
  }

  /** Every sleeper's deadline lies in the future. */
  ghost predicate SleepersWait(s: Table)
    requires Shaped(s)
  {
    forall i :: 0 <= i < MAX_TASKS && s.tasks[i].state.Sleeping? ==> s.ticks < s.tasks[i].sleepUntil
  }

  predicate LiveUser(t: Task) {
    !t.state.Unused? && t.space.UserSpace?
  }

  /** The slot `k` has an owner among the live user tasks. */
  ghost predicate Owned(tasks: seq<Task>, k: nat) {
    exists i :: 0 <= i < |tasks| && LiveUser(tasks[i]) && tasks[i].userSlot == k
  }

  /** Live user tasks own pairwise different page-table slots, these slots are marked used, and no
      other slot is. */
  ghost predicate SlotsOwned(s: Table)
    requires Shaped(s)
  {
    && (forall i :: 0 <= i < MAX_TASKS && LiveUser(s.tasks[i]) ==>
          s.tasks[i].userSlot < TABLE_SLOTS && s.slots[s.tasks[i].userSlot])
    && (forall i, j :: 0 <= i < j < MAX_TASKS && LiveUser(s.tasks[i]) && LiveUser(s.tasks[j]) ==>
          s.tasks[i].userSlot != s.tasks[j].userSlot)
    && (forall k :: 0 <= k < TABLE_SLOTS && s.slots[k] ==> Owned(s.tasks, k))
  }

  ghost predicate Inv(s: Table) {
    && Shaped(s)
    && !s.halted
    && Runnable(s.tasks[0]) && s.tasks[0].space.KernelSpace?
    && OneRunning(s)
    && TightCount(s)
    && SleepersWait(s)
    && SlotsOwned(s)
    && (forall i :: 0 <= i < MAX_TASKS ==> !s.tasks[i].state.Eligible?)
  }

  lemma InitialInv()
    ensures Inv(InitialTable())
  {
    var s := InitialTable();
    assert s.tasks[0] == IDLE_TASK;
    assert forall i :: 1 <= i < MAX_TASKS ==> s.tasks[i] == BLANK_TASK;
  }

  // ---- selection ----

  /** The i-th task the round-robin scan looks at. */
  function Candidate(s: Table, i: nat): (c: nat)
    requires Shaped(s)
    ensures c < s.count
  {
    (s.current + i) % s.count
  }

  /** The first i - 1 candidates are idle or not runnable. */
  ghost predicate Skipped(s: Table, i: nat)
    requires Shaped(s)
  {
    forall j :: 1 <= j < i ==> Candidate(s, j) == 0 || !Runnable(s.tasks[Candidate(s, j)])
  }

  lemma {:induction false} ScanResult(s: Table, i: nat) returns (d: nat)
    requires Shaped(s) && 1 <= i <= s.count + 1 && Skipped(s, i)
    ensures 1 <= d <= s.count + 1 && Skipped(s, d)
    ensures d <= s.count ==>
      ScanFrom(s, i) == Candidate(s, d) && ScanFrom(s, i) != 0 && Runnable(s.tasks[ScanFrom(s, i)])
    ensures d == s.count + 1 ==> ScanFrom(s, i) == if Runnable(s.tasks[0]) then 0 else s.current
    decreases s.count + 1 - i
  {
    if i > s.count {
      d := i;
    } else {
      var c := Candidate(s, i);
      if c != 0 && Runnable(s.tasks[c]) {
        d := i;
      } else {
        d := ScanResult(s, i + 1);
      }
    }
  }

  /** A candidate without the remainder operator. */
  lemma CandidateIs(s: Table, i: nat)
    requires Shaped(s) && s.current < s.count && i <= s.count
    ensures Candidate(s, i) == if s.current + i < s.count then s.current + i else s.current + i - s.count
  {
  }

  /** The number of candidates up to and including task t. */
  lemma Ahead(s: Table, t: nat) returns (d: nat)
    requires Shaped(s) && s.current < s.count && t < s.count
    ensures 1 <= d <= s.count && Candidate(s, d) == t
    ensures d == if t > s.current then t - s.current else t + s.count - s.current
  {
    d := if t > s.current then t - s.current else t + s.count - s.current;
    CandidateIs(s, d);
  }

  /** Idle is chosen only when no other task is runnable, and otherwise the choice is runnable. */
  lemma IdleOnlyWhenAlone(s: Table)
    requires Shaped(s) && s.current < s.count && Runnable(s.tasks[0])
    ensures NextRunnable(s) < s.count && Runnable(s.tasks[NextRunnable(s)])
    ensures NextRunnable(s) == 0 <==> forall t :: 1 <= t < s.count ==> !Runnable(s.tasks[t])
  {
    var d := ScanResult(s, 1);
    if d == s.count + 1 {
      forall t | 1 <= t < s.count
        ensures !Runnable(s.tasks[t])
      {
        var a := Ahead(s, t);
      }
    }
  }

  /** (t - current_task) mod 8: how far round-robin is from t. */
  function Distance(current: nat, t: nat): (d: nat)
    requires current < MAX_TASKS && t < MAX_TASKS
  {
    if t >= current then t - current else t + MAX_TASKS - current
  }

  /** A selection made while another task t is runnable moves strictly closer to t. */
  lemma SelectionApproaches(s: Table, t: nat)
    requires Shaped(s) && s.current < s.count && 1 <= t < s.count && t != s.current && Runnable(s.tasks[t])
    ensures NextRunnable(s) != s.current && NextRunnable(s) != 0
    ensures Distance(NextRunnable(s), t) < Distance(s.current, t)
  {
    var d := ScanResult(s, 1);
    var a := Ahead(s, t);
    assert d <= a;
    CandidateIs(s, d);
  }

  // ---- every step keeps the invariant ----

  lemma CurrentIsCounted(s: Table)
    requires Inv(s)
    ensures s.current < s.count && (s.started ==> s.tasks[s.current].state.Running?)
  {
    if s.started {
      assert s.tasks[s.current].state.Running?;
      assert !s.tasks[s.current].state.Unused?;
    }
  }

  /** Under the invariant the wake scan inside scheduler_yield never wakes anyone. */
  lemma WakeInYieldIsIdle(s: Table)
    requires Shaped(s) && SleepersWait(s)
    ensures Woken(s.tasks, s.count, s.ticks) == s.tasks
  {
  }

  /** The invariant without "the current task is running": what holds between a task giving up the
      processor and the next one being selected. */
  ghost predicate Selecting(s: Table) {
    && Shaped(s)
    && s.started && !s.halted
    && s.current < s.count
    && Runnable(s.tasks[0]) && s.tasks[0].space.KernelSpace?
    && (forall i :: 0 <= i < MAX_TASKS && i != s.current ==> !s.tasks[i].state.Running?)
    && TightCount(s)
    && SleepersWait(s)
    && SlotsOwned(s)
    && (forall i :: 0 <= i < MAX_TASKS ==> !s.tasks[i].state.Eligible?)
  }

  /** Two tables whose tasks differ only in which live state they are in own the same slots. */
  lemma SameOwners(s: Table, s': Table)
    requires Shaped(s) && Shaped(s') && SlotsOwned(s) && s'.slots == s.slots
    requires forall i :: 0 <= i < MAX_TASKS ==>
      && s'.tasks[i].space == s.tasks[i].space && s'.tasks[i].userSlot == s.tasks[i].userSlot
      && (s'.tasks[i].state.Unused? <==> s.tasks[i].state.Unused?)
    ensures SlotsOwned(s')
  {
    assert forall i :: 0 <= i < MAX_TASKS ==> (LiveUser(s'.tasks[i]) <==> LiveUser(s.tasks[i]));
    forall k | 0 <= k < TABLE_SLOTS && s'.slots[k]
      ensures Owned(s'.tasks, k)
    {
      assert Owned(s.tasks, k);
    }
  }

  lemma SwitchKeeps(s: Table, next: nat)
    requires Selecting(s) && next < s.count && next != s.current && Runnable(s.tasks[next])
    ensures Inv(SwitchTo(s, next))
  {
    SameOwners(s, SwitchTo(s, next));
  }

  /** The current task goes on running. */
  function GoOn(w: Table): (r: Table)
    requires Shaped(w)
    ensures Shaped(r)
  {
    w.(tasks := w.tasks[w.current := w.tasks[w.current].(state := Running)])
  }

  lemma GoOnKeeps(s: Table)
    requires Selecting(s) && Runnable(s.tasks[s.current])
    ensures Inv(GoOn(s))
  {
    SameOwners(s, GoOn(s));
  }

  /** The steps that run scheduler_next_runnable_task. */
  predicate Selects(s: Table, step: Step) {
    match step
    case Yield => s.count >= 2
    case Preempt => s.started && s.count >= 2
    case Sleep(_, interval) => SleepBlocks(s, interval)
    case Exit(_) => true
    case _ => false
  }

  /** The table inside scheduler_exit_task, just before its scheduler_yield. */
  function Departing(s: Table, outcome: Outcome): (z: Table)
    requires Shaped(s)
    ensures Shaped(z)
    ensures ExitTask(s, outcome) == YieldTask(z)
  {
    var finished := s.(tasks := s.tasks[s.current := Finished(s.tasks[s.current], outcome)]);
    var orphaned := finished.(tasks := Orphaned(finished));
    orphaned.(tasks := orphaned.tasks[s.current := orphaned.tasks[s.current].(state := Zombie)])
  }

  /** The table on which a selecting step makes its selection. */
  function SelectionPoint(s: Table, step: Step): (w: Table)
    requires Shaped(s) && Selects(s, step)
    ensures Shaped(w)
  {
    match step
    case Yield => s
    case Preempt => s.(ticks := NextTick(s.ticks), tasks := Woken(s.tasks, s.count, NextTick(s.ticks)))
    case Sleep(ms, interval) => s.(tasks := s.tasks[s.current := SleepingTask(s, ms, interval)])
    case Exit(outcome) => Departing(s, outcome)
  }

  /** The sleep deadline does not wrap at 64 bits. */
  predicate DeadlineFits(s: Table, ms: nat, interval: nat)
    requires 0 < interval
  {
    s.ticks + SleepTicks(ms, interval) < U64
  }

  /** The caller of scheduler_sleep_ms when the next task is selected: asleep, or, if its deadline
      wrapped, already woken again by the scan inside scheduler_yield. */
  function SleepingTask(s: Table, ms: nat, interval: nat): (t: Task)
    requires Shaped(s) && 0 < interval
    ensures t.userSlot <= TABLE_SLOTS && t.sleepUntil < U64
  {
    if DeadlineFits(s, ms, interval)
    then s.tasks[s.current].(state := Sleeping, sleepMs := ms, sleepUntil := Deadline(s.ticks, ms, interval))
    else s.tasks[s.current].(state := Ready, sleepMs := 0, sleepUntil := 0)
  }

  /** The selection point, task by task: only the current task gives up the processor, only a due
      sleeper wakes, only a parent link may be cut. */
  lemma PointTask(s: Table, step: Step, i: nat)
    requires Inv(s) && Enabled(s, step) && Selects(s, step) && i < MAX_TASKS
    ensures var t, t' := s.tasks[i], SelectionPoint(s, step).tasks[i];
      && t'.space == t.space && t'.userSlot == t.userSlot
      && (i != s.current ==>
            t' == (if step.Preempt? then WokenTask(s.tasks, s.count, NextTick(s.ticks), i)
              else t).(parent := t'.parent))
      && (i == s.current && !step.Sleep? ==> t'.state == if step.Exit? then Zombie else t.state)
      && (i == s.current && step.Sleep? ==> t' == SleepingTask(s, step.ms, step.interval))
  {
    CurrentIsCounted(s);
  }

  lemma PointIsSelecting(s: Table, step: Step)
    requires Inv(s) && Enabled(s, step) && Selects(s, step)
    ensures var w := SelectionPoint(s, step);
      && Selecting(w) && w.current == s.current && w.count == s.count && w.count >= 2
      && w.ticks == if step.Preempt? then NextTick(s.ticks) else s.ticks
  {
    var w := SelectionPoint(s, step);
    CurrentIsCounted(s);
    forall i | 0 <= i < MAX_TASKS
      ensures var t, t' := s.tasks[i], w.tasks[i];
        && t'.space == t.space && t'.userSlot == t.userSlot
        && (|| t'.state == t.state
            || (i == s.current && i != 0 && (t'.state.Sleeping? || t'.state.Zombie? || t'.state.Ready?))
            || (t.state.Sleeping? && t'.state.Ready?))
        && (t'.state.Sleeping? ==> w.ticks < t'.sleepUntil)
    {
      PointTask(s, step, i);
    }
    SameOwners(s, w);
  }

  lemma GoOnIsIdle(w: Table)
    requires Shaped(w) && w.tasks[w.current].state.Running?
    ensures GoOn(w) == w
  {
    assert w.tasks[w.current := w.tasks[w.current].(state := Running)] == w.tasks;
  }

  /** scheduler_yield on a table whose sleepers are all waiting. */
  lemma YieldSelects(w: Table)
    requires Selecting(w) && w.count >= 2
    ensures NextRunnable(w) == w.current && Runnable(w.tasks[w.current]) ==> YieldTask(w) == GoOn(w)
    ensures NextRunnable(w) != w.current ==> YieldTask(w) == SwitchTo(w, NextRunnable(w))
  {
    WakeInYieldIsIdle(w);
  }

  /** A sleep is a yield from its selection point: if the deadline wrapped, the wake scan of that
      yield wakes the caller and nobody else. */
  lemma SleepYields(s: Table, ms: nat, interval: nat)
    requires Inv(s) && SleepBlocks(s, interval)
    ensures SleepTask(s, ms, interval) == YieldTask(SelectionPoint(s, Sleep(ms, interval)))
  {
    var w := SelectionPoint(s, Sleep(ms, interval));
    CurrentIsCounted(s);
    PointIsSelecting(s, Sleep(ms, interval));
    WakeInYieldIsIdle(w);
    var t := s.tasks[s.current].(state := Sleeping, sleepMs := ms, sleepUntil := Deadline(s.ticks, ms, interval));
    var z := s.(tasks := s.tasks[s.current := t]);
    assert Woken(z.tasks, z.count, z.ticks) == w.tasks;
  }

  /** What a selecting step does: it selects on the selection point and hands over if the choice
      differs; a task that went to sleep or exited is never chosen again. */
  lemma SelectingStep(s: Table, step: Step)
    requires Inv(s) && Enabled(s, step) && Selects(s, step)
    ensures var w := SelectionPoint(s, step); var next := NextRunnable(w);
      && next < w.count && Runnable(w.tasks[next])
      && Apply(s, step) == (if next == w.current then GoOn(w) else SwitchTo(w, next))
  {
    var w := SelectionPoint(s, step);
    PointIsSelecting(s, step);
    PointTask(s, step, s.current);
    CurrentIsCounted(s);
    IdleOnlyWhenAlone(w);
    if step.Preempt? {
      GoOnIsIdle(w);
    } else {
      YieldSelects(w);
      if step.Sleep? { SleepYields(s, step.ms, step.interval); }
    }
  }

  lemma SelectKeeps(s: Table, step: Step)
    requires Inv(s) && Enabled(s, step) && Selects(s, step)
    ensures Inv(Apply(s, step))
  {
    var w := SelectionPoint(s, step);
    PointIsSelecting(s, step);
    SelectingStep(s, step);
    if NextRunnable(w) != w.current {
      SwitchKeeps(w, NextRunnable(w));
    } else {
      GoOnKeeps(w);
    }
  }

  /** A selecting step, task by task, for a task that was not running. */
  lemma TaskAfterSelection(s: Table, step: Step, i: nat)
    requires Inv(s) && Enabled(s, step) && Selects(s, step) && i < MAX_TASKS && i != s.current
    ensures var t' := Apply(s, step).tasks[i];
            var t := if step.Preempt? then WokenTask(s.tasks, s.count, NextTick(s.ticks), i) else s.tasks[i];
      || t' == t.(parent := t'.parent)
      || (Runnable(t) && t' == t.(parent := t'.parent, state := Running))
  {
    PointTask(s, step, i);
    PointIsSelecting(s, step);
    SelectingStep(s, step);
  }

  /** Changing one live task to another live, non-running state. */
  lemma RestateKeeps(s: Table, pid: nat, t: Task)
    requires Inv(s) && 0 < pid < s.count && Restates(s, pid, s.tasks[pid], t)
    ensures Inv(s.(tasks := s.tasks[pid := t]))
  {
    var s' := s.(tasks := s.tasks[pid := t]);
    assert forall i :: 0 <= i < MAX_TASKS && i != pid ==> s'.tasks[i] == s.tasks[i];
    SameOwners(s, s');
    RestateRuns(s, pid, t);
  }

  predicate Restates(s: Table, pid: nat, was: Task, t: Task) {
    && t.space == was.space && t.userSlot == was.userSlot
    && (|| t.state == was.state
        || (pid != s.current && !was.state.Unused? && !was.state.Running? &&
            (t.state.Ready? || t.state.Blocked? || t.state.Zombie?)))
    && t.sleepUntil < U64 && (t.state.Sleeping? ==> t.sleepUntil == was.sleepUntil)
  }

  lemma RestateRuns(s: Table, pid: nat, t: Task)
    requires Shaped(s) && OneRunning(s) && 0 < pid < s.count && Restates(s, pid, s.tasks[pid], t)
    ensures Shaped(s.(tasks := s.tasks[pid := t])) && OneRunning(s.(tasks := s.tasks[pid := t]))
  {
  }

  lemma UnblockKeeps(s: Table, pid: int)
    requires Inv(s)
    ensures Inv(UnblockTask(s, pid).0) && Inv(UnblockUserTask(s, pid).0)
  {
    if 0 < pid < s.count && s.tasks[pid].state.Blocked? { RestateKeeps(s, pid, s.tasks[pid].(state := Ready)); }
  }

  lemma BlockKeeps(s: Table, pid: int)
    requires Inv(s)
    ensures Inv(BlockTask(s, pid).0)
  {
    if BlockTask(s, pid).1 == 0 {
      RestateKeeps(s, pid, s.tasks[pid].(state := Blocked, sleepUntil := 0, sleepMs := 0));
    }
  }

  lemma SetParentKeeps(s: Table, pid: int, parent: int)
    requires Inv(s)
    ensures Inv(SetTaskParent(s, pid, parent).0)
  {
    if SetTaskParent(s, pid, parent).1 { RestateKeeps(s, pid, s.tasks[pid].(parent := parent)); }
  }

  lemma TerminateKeeps(s: Table, pid: int, code: nat)
    requires Inv(s)
    ensures Inv(TerminateChild(s, pid, code).0)
  {
    if TerminateChild(s, pid, code).1 { RestateKeeps(s, pid, TerminateChild(s, pid, code).0.tasks[pid]); }
  }

  /** Releasing a zombie's slot, before the tail is trimmed. */
  ghost predicate Swept(s: Table) {
    && Shaped(s)
    && !s.halted
    && Runnable(s.tasks[0]) && s.tasks[0].space.KernelSpace?
    && OneRunning(s)
    && (forall i :: s.count <= i < MAX_TASKS ==> s.tasks[i].state.Unused?)
    && SleepersWait(s)
    && SlotsOwned(s)
    && (forall i :: 0 <= i < MAX_TASKS ==> !s.tasks[i].state.Eligible?)
  }

  lemma ClearKeepsSlots(s: Table, pid: nat)
    requires Shaped(s) && SlotsOwned(s) && pid < MAX_TASKS && !s.tasks[pid].state.Unused?
    ensures SlotsOwned(ClearSlot(s, pid))
  {
    var s' := ClearSlot(s, pid);
    assert forall i :: 0 <= i < MAX_TASKS && i != pid ==> s'.tasks[i] == s.tasks[i];
    forall k | 0 <= k < TABLE_SLOTS && s'.slots[k]
      ensures Owned(s'.tasks, k)
    {
      var i :| 0 <= i < MAX_TASKS && LiveUser(s.tasks[i]) && s.tasks[i].userSlot == k;
      assert LiveUser(s'.tasks[i]);
    }
  }

  lemma ClearKeeps(s: Table, pid: nat)
    requires Swept(s) && Reapable(s, pid)
    ensures Swept(ClearSlot(s, pid))
  {
    ClearKeepsSlots(s, pid);
  }

  lemma TrimKeeps(s: Table)
    requires Swept(s)
    ensures Inv(TrimTail(s))
  {
    SameOwners(s, TrimTail(s));
  }

  lemma {:induction false} SweepKeeps(s: Table, i: nat)
    requires Swept(s) && 1 <= i <= s.count
    ensures Swept(SweepFrom(s, i).0)
    decreases s.count - i
  {
    if i < s.count {
      if Reapable(s, i) {
        ClearKeeps(s, i);
        SweepKeeps(ClearSlot(s, i), i + 1);
      } else {
        SweepKeeps(s, i + 1);
      }
    }
  }

  lemma WaitKeeps(s: Table, pid: int)
    requires Inv(s)
    ensures Inv(WaitTask(s, pid).0)
  {
    var target := if pid == 0 then AnyZombieChild(s, 1, false).0 else pid;
    if WaitTask(s, pid).0 != s {
      assert 0 <= target < s.count && s.tasks[target].state.Zombie?;
      assert target != 0 && target != s.current;
      ClearKeeps(s, target);
      TrimKeeps(ClearSlot(s, target));
    }
  }

  lemma {:induction false} HoleIsTight(s: Table, i: nat)
    requires Shaped(s) && TightCount(s) && 1 <= i <= s.count
    ensures var r := FirstHole(s, i); r < MAX_TASKS ==> s.tasks[r].state.Unused? && r != s.count - 1
    decreases s.count - i
  {
    if i < s.count && !s.tasks[i].state.Unused? {
      HoleIsTight(s, i + 1);
    }
  }

  /** Filling an unused slot with a task that owns no page-table slot, or the one just allocated. */
  lemma FillKeepsSlots(s: Table, s': Table, pid: nat)
    requires Shaped(s) && Shaped(s') && SlotsOwned(s)
    requires pid < MAX_TASKS && s.tasks[pid].state.Unused?
    requires forall i :: 0 <= i < MAX_TASKS && i != pid ==> s'.tasks[i] == s.tasks[i]
    requires var t := s'.tasks[pid];
      || (s'.slots == s.slots && !LiveUser(t))
      || (LiveUser(t) && t.userSlot < TABLE_SLOTS && !s.slots[t.userSlot] && s'.slots == s.slots[t.userSlot := true])
    ensures SlotsOwned(s')
  {
    forall k | 0 <= k < TABLE_SLOTS && s'.slots[k]
      ensures Owned(s'.tasks, k)
    {
      if s.slots[k] {
        var i :| 0 <= i < MAX_TASKS && LiveUser(s.tasks[i]) && s.tasks[i].userSlot == k;
        assert LiveUser(s'.tasks[i]);
      } else {
        assert LiveUser(s'.tasks[pid]);
      }
    }
  }

  /** Putting a fresh, not running task into the slot that task creation picks. */
  lemma FillKeeps(s: Table, s': Table)
    requires Inv(s) && Shaped(s') && PickPid(s) < MAX_TASKS
    requires s' == s.(tasks := s'.tasks, count := s'.count, slots := s'.slots)
    requires s'.tasks == s.tasks[PickPid(s) := s'.tasks[PickPid(s)]]
    requires var t := s'.tasks[PickPid(s)];
      || (t.state.Unused? && s'.count == s.count)
      || ((t.state.Ready? || t.state.Blocked?) && s'.count == CountWith(s, PickPid(s)))
    requires var t := s'.tasks[PickPid(s)];
      || (s'.slots == s.slots && !LiveUser(t))
      || (LiveUser(t) && t.userSlot < TABLE_SLOTS && !s.slots[t.userSlot] && s'.slots == s.slots[t.userSlot := true])
    ensures Inv(s')
  {
    HoleIsTight(s, 1);
    CurrentIsCounted(s);
    FillKeepsSlots(s, s', PickPid(s));
  }

  lemma CreateKernelKeeps(s: Table)
    requires Inv(s)
    ensures Inv(CreateKernelTask(s).0)
  {
    if PickPid(s) != MAX_TASKS {
      FillKeeps(s, CreateKernelTask(s).0);
    }
  }

  lemma CreateUserKeeps(s: Table, accepted: bool, writesFit: bool)
    requires Inv(s)
    ensures Inv(CreateUserTask(s, accepted, writesFit).0)
  {
    if accepted && PickPid(s) != MAX_TASKS {
      HoleIsTight(s, 1);
      FillKeeps(s, CreateUserTask(s, accepted, writesFit).0);
    }
  }

  /** A failed creation, on any of its failing paths, leaves task states, task_count and slot use as they were. */
  lemma FailedCreateChangesNothing(s: Table, accepted: bool, writesFit: bool)
    requires Inv(s) && CreateUserTask(s, accepted, writesFit).1 < 0
    ensures var s' := CreateUserTask(s, accepted, writesFit).0;
      && s'.count == s.count && s'.slots == s.slots && s'.current == s.current && s'.ticks == s.ticks
      && (forall i :: 0 <= i < MAX_TASKS ==> s'.tasks[i].state == s.tasks[i].state)
      && (forall i :: 0 <= i < MAX_TASKS && !s.tasks[i].state.Unused? ==> s'.tasks[i] == s.tasks[i])
  {
    HoleIsTight(s, 1);
    if accepted && PickPid(s) != MAX_TASKS && FreeSlot(s.slots, 0) < TABLE_SLOTS {
      assert CreateUserTask(s, accepted, writesFit).0.slots == s.slots;
    }
  }

  /** A creation succeeds exactly when its inputs are accepted and both a task slot and a
      page-table slot are free. */
  lemma CreateUserSucceedsIff(s: Table, accepted: bool)
    requires Inv(s)
    ensures CreateUserTask(s, accepted, true).1 >= 0 <==>
      && accepted
      && (exists i :: 0 <= i < MAX_TASKS && s.tasks[i].state.Unused?)
      && (exists k :: 0 <= k < TABLE_SLOTS && !s.slots[k])
  {
    HoleIsTight(s, 1);
    if PickPid(s) == MAX_TASKS {
      NoHole(s, 1);
      forall i | 0 <= i < MAX_TASKS ensures !s.tasks[i].state.Unused? {
      }
    } else {
      assert s.tasks[PickPid(s)].state.Unused?;
    }
  }

  lemma {:induction false} NoHole(s: Table, i: nat)
    requires Shaped(s) && i <= s.count && FirstHole(s, i) == s.count
    ensures forall j :: i <= j < s.count ==> !s.tasks[j].state.Unused?
    decreases s.count - i
  {
    if i < s.count {
      NoHole(s, i + 1);
    }
  }

  /** Main invariant: every enabled step keeps it. */
  lemma StepKeeps(s: Table, step: Step)
    requires Inv(s) && Enabled(s, step)
    ensures Inv(Apply(s, step))
  {
    match step
    case Start => StartKeeps(s);
    case CreateKernel => CreateKernelKeeps(s);
    case CreateUser(accepted, writesFit) => CreateUserKeeps(s, accepted, writesFit);
    case UnblockUser(pid) => UnblockKeeps(s, pid);
    case Block(pid) => BlockKeeps(s, pid);
    case Unblock(pid) => UnblockKeeps(s, pid);
    case Reap(pid) => ReapKeeps(s, pid);
    case ReapAll => ReapAllKeeps(s);
    case Wait(pid) => WaitKeeps(s, pid);
    case SetParent(pid, parent) => SetParentKeeps(s, pid, parent);
    case Terminate(pid, code) => TerminateKeeps(s, pid, code);
    case Yield => if Selects(s, step) { SelectKeeps(s, step); }
    case Sleep(_, _) => if Selects(s, step) { SelectKeeps(s, step); }
    case Preempt => if Selects(s, step) { SelectKeeps(s, step); }
    case Exit(_) => SelectKeeps(s, step);
  }

  lemma StartKeeps(s: Table)
    requires Inv(s) && !s.started
    ensures Inv(StartThreads(s))
  {
    SameOwners(s, StartThreads(s));
  }

  lemma ReapKeeps(s: Table, pid: int)
    requires Inv(s)
    ensures Inv(ReapTask(s, pid).0)
  {
    if Reapable(s, pid) {
      ClearKeeps(s, pid);
      TrimKeeps(ClearSlot(s, pid));
    }
  }

  lemma ReapAllKeeps(s: Table)
    requires Inv(s)
    ensures Inv(ReapZombies(s).0)
  {
    SweepKeeps(s, 1);
    TrimKeeps(SweepFrom(s, 1).0);
  }

  // ---- runs ----

  /** The table after a run of steps. */
  function Run(s: Table, steps: seq<Step>): (r: Table)
    requires Shaped(s)
    ensures Shaped(r)
    decreases |steps|
  {
    if steps == [] then s else Run(Apply(s, steps[0]), steps[1..])
  }

  ghost predicate Legal(s: Table, steps: seq<Step>)
    requires Shaped(s)
    decreases |steps|
  {
    steps == [] || (Enabled(s, steps[0]) && Legal(Apply(s, steps[0]), steps[1..]))
  }

  lemma {:induction false} RunKeeps(s: Table, steps: seq<Step>)
    requires Inv(s) && Legal(s, steps)
    ensures Inv(Run(s, steps))
    decreases |steps|
  {
    if steps != [] {
      StepKeeps(s, steps[0]);
      RunKeeps(Apply(s, steps[0]), steps[1..]);
    }
  }

  /** Safety of the whole system: the invariant holds after every legal run from boot, so the
      "No runnable task remains" loop is never entered. */
  lemma ReachableInv(steps: seq<Step>)
    requires Legal(InitialTable(), steps)
    ensures Inv(Run(InitialTable(), steps)) && !Run(InitialTable(), steps).halted
  {
    InitialInv();
    RunKeeps(InitialTable(), steps);
  }

  /** The slot map is exact: a page-table slot is in use iff some live user task owns it. */
  lemma SlotUsedIffOwned(steps: seq<Step>, k: nat)
    requires Legal(InitialTable(), steps) && k < TABLE_SLOTS
    ensures Run(InitialTable(), steps).slots[k] <==> Owned(Run(InitialTable(), steps).tasks, k)
  {
    ReachableInv(steps);
  }

  // ---- a zombie waits to be reaped ----

  lemma {:induction false} SweepTask(s: Table, i: nat, t: nat)
    requires Shaped(s) && 1 <= i <= s.count && t < MAX_TASKS
    ensures SweepFrom(s, i).0.tasks[t] == if i <= t && Reapable(s, t) then ClearedTask(s.tasks[t]) else s.tasks[t]
    ensures SweepFrom(s, i).0.ticks == s.ticks && SweepFrom(s, i).0.current == s.current
    decreases s.count - i
  {
    if i < s.count {
      if Reapable(s, i) {
        SweepTask(ClearSlot(s, i), i + 1, t);
      } else {
        SweepTask(s, i + 1, t);
      }
    }
  }

  /** A zombie can only become unused, only through a reap or through its parent waiting for it or for
      any child, and until then it keeps the status that its parent will be told. */
  lemma ZombieStep(s: Table, step: Step, t: nat)
    requires Inv(s) && Enabled(s, step) && t < MAX_TASKS && s.tasks[t].state.Zombie?
    ensures var t' := Apply(s, step).tasks[t];
      || (t'.state.Zombie? && t'.exitCode == s.tasks[t].exitCode && t'.succeeded == s.tasks[t].succeeded)
      || (t'.state.Unused? && (step == Reap(t) || step.ReapAll? ||
                               ((step == Wait(t) || step == Wait(0)) && s.tasks[t].parent == s.current)))
  {
    if Selects(s, step) {
      CurrentIsCounted(s);
      TaskAfterSelection(s, step, t);
    } else if step.ReapAll? {
      SweepTask(s, 1, t);
    } else if step.Wait? {
      WaitedTask(s, step.pid, t);
    } else if !step.Start? {
      PlainTask(s, step, t);
    }
  }

  /** A creation leaves the clock and every task in use alone. */
  lemma CreatedElsewhere(s: Table, accepted: bool, writesFit: bool, t: nat)
    requires Shaped(s) && t < MAX_TASKS && !s.tasks[t].state.Unused? && TightCount(s)
    ensures var s' := CreateUserTask(s, accepted, writesFit).0;
      s'.tasks[t] == s.tasks[t] && s'.ticks == s.ticks && s'.started == s.started
    ensures var s' := CreateKernelTask(s).0;
      s'.tasks[t] == s.tasks[t] && s'.ticks == s.ticks && s'.started == s.started
  {
    var pid := PickPid(s);
    assert pid == MAX_TASKS || s.tasks[pid].state.Unused?;
  }

  /** The steps that neither select nor look for zombies leave the clock and the current task alone,
      and change a task only in these ways. */
  lemma PlainTask(s: Table, step: Step, t: nat)
    requires Inv(s) && Enabled(s, step) && t < MAX_TASKS && !Selects(s, step) && !step.ReapAll? && !step.Wait?
    requires !step.Start? && !s.tasks[t].state.Unused?
    ensures Apply(s, step).ticks == s.ticks && Apply(s, step).started == s.started
    ensures var u, u' := s.tasks[t], Apply(s, step).tasks[t];
      || u' == u.(parent := u'.parent)
      || (u'.state.Unused? && step == Reap(t) && u.state.Zombie?)
      || (u'.state.Zombie? && step.Terminate? && step.pid == t && !u.state.Zombie?)
      || (u.state.Ready? && step == Block(t))
      || (u.state.Blocked? && (step == Unblock(t) || step == UnblockUser(t)))
  {
    match step
    case CreateKernel => CreatedElsewhere(s, false, false, t);
    case CreateUser(accepted, writesFit) => CreatedElsewhere(s, accepted, writesFit, t);
    case _ =>
  }

  /** A wait changes at most one task, which then is the caller's child. */
  lemma WaitedTask(s: Table, pid: int, t: nat)
    requires Shaped(s) && t < MAX_TASKS
    ensures WaitTask(s, pid).0.ticks == s.ticks && WaitTask(s, pid).0.started == s.started
    ensures var t' := WaitTask(s, pid).0.tasks[t];
      || t' == s.tasks[t]
      || (t'.state.Unused? && s.tasks[t].state.Zombie? && (pid == t || pid == 0) && s.tasks[t].parent == s.current)
  {
  }

  // ---- bounded bypass ----

  /** While t is ready, a step either keeps current_task or, if it selects, moves closer to t. */
  lemma StepApproaches(s: Table, step: Step, t: nat)
    requires Inv(s) && s.started && Enabled(s, step) && t < MAX_TASKS && t != 0 && s.tasks[t].state.Ready?
    ensures Apply(s, step).started
    ensures Selects(s, step) ==> Distance(Apply(s, step).current, t) < Distance(s.current, t)
    ensures !Selects(s, step) ==> Apply(s, step).current == s.current
  {
    CurrentIsCounted(s);
    if Selects(s, step) {
      PointIsSelecting(s, step);
      SelectingStep(s, step);
      PointTask(s, step, t);
      SelectionApproaches(SelectionPoint(s, step), t);
    } else if step.ReapAll? {
      SweepTask(s, 1, t);
      SweepStarted(s, 1);
    }
  }

  lemma {:induction false} SweepStarted(s: Table, i: nat)
    requires Shaped(s) && 1 <= i <= s.count
    ensures SweepFrom(s, i).0.started == s.started
    decreases s.count - i
  {
    if i < s.count {
      SweepStarted(if Reapable(s, i) then ClearSlot(s, i) else s, i + 1);
    }
  }

  /** How many selections a run makes. */
  function Selections(s: Table, steps: seq<Step>): (n: nat)
    requires Shaped(s)
    decreases |steps|
  {
    if steps == [] then 0
    else (if Selects(s, steps[0]) then 1 else 0) + Selections(Apply(s, steps[0]), steps[1..])
  }

  ghost predicate ReadyThroughout(s: Table, steps: seq<Step>, t: nat)
    requires Shaped(s) && t < MAX_TASKS
    decreases |steps|
  {
    s.tasks[t].state.Ready? && (steps == [] || ReadyThroughout(Apply(s, steps[0]), steps[1..], t))
  }

  ghost predicate RunnableThroughout(s: Table, steps: seq<Step>, t: nat)
    requires Shaped(s) && t < MAX_TASKS
    decreases |steps|
  {
    Runnable(s.tasks[t]) && (steps == [] || RunnableThroughout(Apply(s, steps[0]), steps[1..], t))
  }

  /** Every selection made while t waits brings round-robin strictly closer to t; hence t is passed
      over at most six times, whatever is created, reaped, blocked or terminated meanwhile. */
  lemma {:induction false} BoundedBypass(s: Table, steps: seq<Step>, t: nat)
    requires Inv(s) && s.started && Legal(s, steps) && 1 <= t < MAX_TASKS && ReadyThroughout(s, steps, t)
    ensures Selections(s, steps) + Distance(Run(s, steps).current, t) <= Distance(s.current, t)
    ensures Selections(s, steps) <= 6
    decreases |steps|
  {
    if steps != [] {
      StepKeeps(s, steps[0]);
      StepApproaches(s, steps[0], t);
      BoundedBypass(Apply(s, steps[0]), steps[1..], t);
    }
    RunKeeps(s, steps);
    assert Run(s, steps).current != t by { ReadyAtEnd(s, steps, t); StartedAtEnd(s, steps); }
  }

  lemma {:induction false} ReadyAtEnd(s: Table, steps: seq<Step>, t: nat)
    requires Shaped(s) && t < MAX_TASKS && ReadyThroughout(s, steps, t)
    ensures Run(s, steps).tasks[t].state.Ready?
    decreases |steps|
  {
    if steps != [] { ReadyAtEnd(Apply(s, steps[0]), steps[1..], t); }
  }

  lemma {:induction false} StartedAtEnd(s: Table, steps: seq<Step>)
    requires Shaped(s) && s.started
    ensures Run(s, steps).started
    decreases |steps|
  {
    if steps != [] {
      if steps[0].ReapAll? { SweepStarted(s, 1); }
      StartedAtEnd(Apply(s, steps[0]), steps[1..]);
    }
  }

  /** A task that stays runnable is running after at most seven selections. */
  lemma {:induction false} RunsWithinSevenSelections(s: Table, steps: seq<Step>, t: nat) returns (n: nat)
    requires Inv(s) && s.started && Legal(s, steps) && 1 <= t < MAX_TASKS && RunnableThroughout(s, steps, t)
    requires Selections(s, steps) >= 7 || Selections(s, steps) >= Distance(s.current, t)
    ensures n <= |steps| && Run(s, steps[..n]).current == t
    decreases |steps|
  {
    if s.current == t {
      n := 0;
    } else {
      CurrentIsCounted(s);
      StepKeeps(s, steps[0]);
      StepApproaches(s, steps[0], t);
      var n' := RunsWithinSevenSelections(Apply(s, steps[0]), steps[1..], t);
      n := n' + 1;
      assert steps[..n][1..] == steps[1..][..n - 1];
    }
  }

  // ---- sleeping ----

  /** ceil(ms / interval), at least one: the least number of whole ticks that covers ms. */
  ghost predicate CoversExactly(ticks: nat, ms: nat, interval: nat) {
    ticks >= 1 && ms <= ticks * interval && (ticks == 1 || (ticks - 1) * interval < ms)
  }

  /** The tick count is the rounded-up one exactly when the 64-bit addition does not wrap, or one
      tick is enough anyway. */
  lemma SleepTicksExactIff(ms: nat, interval: nat)
    requires ms < U64 && 0 < interval < U64
    ensures CoversExactly(SleepTicks(ms, interval), ms, interval) <==> (ms + interval - 1 < U64 || ms <= interval)
  {
    var sum := ms + interval - 1;
    var q, r := sum % U64 / interval, sum % U64 % interval;
    DivisionFacts(sum % U64, interval, q, r);
    if sum < U64 {
      assert sum % U64 == sum;
    } else {
      assert sum % U64 == sum - U64;
    }
  }

  lemma DivisionFacts(x: nat, d: nat, q: nat, r: nat)
    requires 0 < d && q == x / d && r == x % d
    ensures x == q * d + r && r < d
    ensures q >= 1 ==> (q - 1) * d == q * d - d
    ensures x < d ==> q == 0
  {
  }

  lemma SleepTicksWrapWitness()
    ensures SleepTicks(U64 - 1, 10) == 1
  {
  }

  /** Going to sleep: the caller is left sleeping, until exactly this many ticks from now, iff the
      deadline does not wrap; if it does, the sleep ends within the call. */
  lemma SleepBegins(s: Table, ms: nat, interval: nat)
    requires Inv(s) && s.started && s.current != 0 && interval != 0
    ensures var s' := Apply(s, Sleep(ms, interval)); var t := s'.tasks[s.current];
      && s'.ticks == s.ticks && s'.started
      && (t.state.Sleeping? <==> s.ticks + SleepTicks(ms, interval) < U64)
      && (t.state.Sleeping? ==> t.sleepUntil == s.ticks + SleepTicks(ms, interval) && t.sleepMs == ms)
      && (!t.state.Sleeping? ==> Runnable(t))
  {
    PointIsSelecting(s, Sleep(ms, interval));
    PointTask(s, Sleep(ms, interval), s.current);
    SelectingStep(s, Sleep(ms, interval));
  }

  /** At interval 1 the longest request wraps at every tick but the first: the call does not sleep. The
      kernel itself only sets interval 100. */
  lemma {:induction false} LongestSleepReturns(s: Table)
    requires Inv(s) && s.started && s.current != 0 && s.ticks >= 1
    ensures Runnable(Apply(s, Sleep(U64 - 1, 1)).tasks[s.current])
  {
    assert SleepTicks(U64 - 1, 1) == U64 - 1;
    SleepBegins(s, U64 - 1, 1);
  }

  /** The table with one thread, running since the first tick. */
  function OneThread(): (s: Table)
    ensures Shaped(s)
  {
    var thread := Task(Running, -1, 0, 0, KernelSpace, 0, false, false, 0);
    Table([IDLE_TASK, thread] + seq(MAX_TASKS - 2, i => BLANK_TASK), 1, 2, true, 1, seq(TABLE_SLOTS, i => false), false)
  }

  lemma {:induction false} OneThreadRuns()
    ensures Apply(Apply(Apply(InitialTable(), CreateKernel), Start), Preempt) == OneThread()
  {
    var s0 := InitialTable();
    assert FirstHole(s0, 1) == 1;
    var s2 := Apply(Apply(s0, CreateKernel), Start);
    var w := s2.(ticks := 1, tasks := Woken(s2.tasks, 2, 1));
    assert NextRunnable(w) == 1;
    assert Apply(s2, Preempt).tasks == OneThread().tasks;
  }

  lemma {:induction false} OneThreadInv()
    ensures Inv(OneThread())
  {
    var s := OneThread();
    assert forall i :: 2 <= i < MAX_TASKS ==> s.tasks[i] == BLANK_TASK;
  }

  /** Such a call from boot: one thread, started by the first tick, asks for the longest sleep and goes
      on running. */
  lemma {:induction false} SleepWrapWitness()
    ensures var s := Apply(Apply(Apply(InitialTable(), CreateKernel), Start), Preempt);
      var s' := Apply(s, Sleep(U64 - 1, 1));
      s.current == 1 && s.ticks == 1 && s'.current == 1 && s'.ticks == 1 && s'.tasks[1].state.Running?
  {
    OneThreadRuns();
    OneThreadGoesOn();
  }

  lemma {:induction false} OneThreadGoesOn()
    ensures var s' := Apply(OneThread(), Sleep(U64 - 1, 1));
      s'.current == 1 && s'.ticks == 1 && s'.tasks[1].state.Running?
  {
    var s, step := OneThread(), Sleep(U64 - 1, 1);
    OneThreadInv();
    assert SleepTicks(U64 - 1, 1) == U64 - 1 && !DeadlineFits(s, U64 - 1, 1);
    PointIsSelecting(s, step);
    PointTask(s, step, 1);
    SelectingStep(s, step);
    IdleOnlyWhenAlone(SelectionPoint(s, step));
  }

  /** One step seen by a sleeper: unless terminated it sleeps on with the same deadline, or the tick
      that reaches the deadline makes it runnable. */
  lemma SleeperStep(s: Table, step: Step, t: nat)
    requires Inv(s) && s.started && Enabled(s, step) && t < MAX_TASKS && s.tasks[t].state.Sleeping?
    requires !(step.Terminate? && step.pid == t)
    ensures var s' := Apply(s, step); var d := s.tasks[t].sleepUntil;
      && s.ticks <= s'.ticks <= s.ticks + 1 && s'.started
      && (s'.ticks < d ==> s'.tasks[t].state.Sleeping? && s'.tasks[t].sleepUntil == d)
      && (s'.ticks >= d ==> s'.ticks == d && Runnable(s'.tasks[t]) && s'.tasks[t].sleepUntil == 0)
  {
    if Selects(s, step) {
      CurrentIsCounted(s);
      SelectionTime(s, step);
      TaskAfterSelection(s, step, t);
    } else if step.ReapAll? {
      SweepTask(s, 1, t);
      SweepStarted(s, 1);
    } else if step.Wait? {
      WaitedTask(s, step.pid, t);
    } else {
      PlainTask(s, step, t);
    }
  }

  /** The clock over a selecting step. */
  lemma SelectionTime(s: Table, step: Step)
    requires Inv(s) && s.started && Enabled(s, step) && Selects(s, step)
    ensures Apply(s, step).started
    ensures Apply(s, step).ticks == if step.Preempt? then NextTick(s.ticks) else s.ticks
  {
    PointIsSelecting(s, step);
    SelectingStep(s, step);
  }

  /** Sleep is exact over whole runs: in any run that reaches tick `deadline` without terminating
      the sleeper, there is a first moment at which the tick counter equals the deadline; the task
      is runnable then and asleep at every earlier moment. */
  lemma {:induction false} WakesExactlyAtDeadline(s: Table, steps: seq<Step>, t: nat, deadline: nat) returns (n: nat)
    requires Inv(s) && s.started && Legal(s, steps) && t < MAX_TASKS
    requires s.tasks[t].state.Sleeping? && s.tasks[t].sleepUntil == deadline
    requires Spared(steps, t)
    requires Run(s, steps).ticks >= deadline
    ensures WakesAt(s, steps, t, deadline, n)
    decreases |steps|
  {
    assert s.ticks < deadline;
    var s' := Apply(s, steps[0]);
    SleeperStep(s, steps[0], t);
    StepKeeps(s, steps[0]);
    var n' := 0;
    if s'.ticks < deadline {
      n' := WakesExactlyAtDeadline(s', steps[1..], t, deadline);
    } else {
      WakesNow(s', steps[1..], t, deadline);
    }
    n := n' + 1;
    WakesLater(s, steps, t, deadline, n');
  }

  /** No step of the run terminates t. */
  ghost predicate Spared(steps: seq<Step>, t: nat) {
    forall k :: 0 <= k < |steps| ==> !(steps[k].Terminate? && steps[k].pid == t)
  }

  lemma {:induction false} WakesNow(s: Table, steps: seq<Step>, t: nat, deadline: nat)
    requires Shaped(s) && t < MAX_TASKS && s.ticks == deadline && Runnable(s.tasks[t])
    ensures WakesAt(s, steps, t, deadline, 0)
  {
    assert steps[..0] == [];
  }

  /** After n steps of the run the clock shows the deadline and t is runnable; at every earlier moment
      the deadline is ahead and t is asleep. */
  ghost predicate WakesAt(s: Table, steps: seq<Step>, t: nat, deadline: nat, n: nat)
    requires Shaped(s) && t < MAX_TASKS
  {
    && n <= |steps|
    && Run(s, steps[..n]).ticks == deadline && Runnable(Run(s, steps[..n]).tasks[t])
    && forall m :: 0 <= m < n ==>
      Run(s, steps[..m]).ticks < deadline && Run(s, steps[..m]).tasks[t].state.Sleeping?
  }

  lemma {:induction false} WakesLater(s: Table, steps: seq<Step>, t: nat, deadline: nat, n: nat)
    requires Shaped(s) && t < MAX_TASKS && steps != [] && s.ticks < deadline && s.tasks[t].state.Sleeping?
    requires WakesAt(Apply(s, steps[0]), steps[1..], t, deadline, n)
    ensures WakesAt(s, steps, t, deadline, n + 1)
  {
    forall m: nat | 1 <= m <= n + 1
      ensures Run(s, steps[..m]) == Run(Apply(s, steps[0]), steps[1..][..m - 1])
    {
      RunOfPrefix(s, steps, m);
    }
  }

  /** ceil(ms / interval), at least one, without any wrap-around. */
  function CeilTicks(ms: nat, interval: nat): (r: nat)
    requires 0 < interval
  {
    var ticks := (ms + interval - 1) / interval;
    if ticks == 0 then 1 else ticks
  }

  /** scheduler_sleep_ms over whole runs, from the call on: unless an addition wraps, in any later run
      that reaches tick T + max(1, ceil(ms / interval)) without terminating the caller, the caller is
      asleep at every moment before that tick and runnable at its first moment. */
  lemma {:induction false} SleepIsExact(s: Table, ms: nat, interval: nat, steps: seq<Step>) returns (n: nat)
    requires Inv(s) && s.started && s.current != 0 && interval != 0
    requires ms + interval - 1 < U64 && s.ticks + CeilTicks(ms, interval) < U64
    requires Legal(Apply(s, Sleep(ms, interval)), steps)
    requires Spared(steps, s.current)
    requires Run(Apply(s, Sleep(ms, interval)), steps).ticks >= s.ticks + CeilTicks(ms, interval)
    ensures WakesAt(Apply(s, Sleep(ms, interval)), steps, s.current, s.ticks + CeilTicks(ms, interval), n)
  {
    TicksAgree(ms, interval);
    SleepBegins(s, ms, interval);
    StepKeeps(s, Sleep(ms, interval));
    var s', d := Apply(s, Sleep(ms, interval)), s.ticks + CeilTicks(ms, interval);
    n := WakesExactlyAtDeadline(s', steps, s.current, d);
  }

  lemma TicksAgree(ms: nat, interval: nat)
    requires 0 < interval && ms + interval - 1 < U64
    ensures SleepTicks(ms, interval) == CeilTicks(ms, interval)
  {
    assert (ms + interval - 1) % U64 == ms + interval - 1;
  }

  lemma {:induction false} RunOfPrefix(s: Table, steps: seq<Step>, m: nat)
    requires Shaped(s) && 1 <= m <= |steps|
    ensures Run(s, steps[..m]) == Run(Apply(s, steps[0]), steps[1..][..m - 1])
  {
    assert steps[..m][1..] == steps[1..][..m - 1];
  }
}
