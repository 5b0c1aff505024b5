/** What the entry points of kernel/sched/scheduler.c answer, and what the status that a program leaves
    behind is when its parent asks for it. */
module SchedulerAnswers {
  import opened Scheduler
  import opened SchedulerRuns
  import opened SchedulerKin

  // ---- waiting ----

  /** Task t has the current task as its parent. */
  predicate Child(s: Table, t: int)
    requires Shaped(s)
  {
    0 < t < s.count && s.tasks[t].parent == s.current
  }

  /** The pid that a wait may be called with. */
  predicate MayWait(s: Table, pid: int) {
    0 <= pid < s.count && pid != s.current
  }

  /** A wait has to go on: the child that is named is a user task and lives, or no child has ended. */
  ghost predicate MustWait(s: Table, pid: int)
    requires Shaped(s)
  {
    && MayWait(s, pid)
    && if pid != 0 then Child(s, pid) && s.tasks[pid].space.UserSpace? && !s.tasks[pid].state.Zombie?
      else (exists t :: Child(s, t)) && forall t :: !ZombieChild(s, t)
  }

  /** The wait-for-any scan tells whether there is a child at all. */
  lemma {:induction false} ChildSeen(s: Table, i: nat, owned: bool)
    requires Shaped(s) && 1 <= i <= s.count
    ensures var (c, seen) := AnyZombieChild(s, i, owned);
      c == 0 ==> (seen <==> owned || exists t :: i <= t < s.count && Child(s, t))
    decreases s.count - i
  {
    if i < s.count {
      if Child(s, i) {
        ChildSeen(s, i + 1, true);
      } else {
        ChildSeen(s, i + 1, owned);
      }
    }
  }

  /** scheduler_wait_task_status, for every table and pid: it reports a child as reaped, with the
      status that child left, iff one is awaited; it asks to wait on iff a child still has to end;
      and it fails otherwise. */
  lemma {:induction false} WaitAnswers(s: Table, pid: int)
    requires Shaped(s)
    ensures var r := WaitTask(s, pid).1;
      && (r.WaitReaped? <==> exists t: nat :: Awaited(s, pid, t))
      && (forall t: nat :: Awaited(s, pid, t) ==>
            r == WaitReaped(WaitStatus(t, s.tasks[t].exitCode, s.tasks[t].succeeded)))
      && (r.WaitPending? <==> MustWait(s, pid))
  {
    if MayWait(s, pid) {
      if pid == 0 {
        WaitAnyAnswers(s);
      } else {
        WaitOneAnswers(s, pid);
      }
    }
  }

  lemma {:induction false} WaitOneAnswers(s: Table, pid: int)
    requires Shaped(s) && MayWait(s, pid) && pid != 0
    ensures var r := WaitTask(s, pid).1;
      && (r.WaitReaped? <==> Awaited(s, pid, pid))
      && (r.WaitReaped? ==> r == WaitReaped(WaitStatus(pid, s.tasks[pid].exitCode, s.tasks[pid].succeeded)))
      && (r.WaitPending? <==> MustWait(s, pid))
  {
  }

  lemma {:induction false} WaitAnyAnswers(s: Table)
    requires Shaped(s) && MayWait(s, 0)
    ensures var r := WaitTask(s, 0).1;
      && (r.WaitReaped? <==> exists t: nat :: Awaited(s, 0, t))
      && (forall t: nat :: Awaited(s, 0, t) ==>
            r == WaitReaped(WaitStatus(t, s.tasks[t].exitCode, s.tasks[t].succeeded)))
      && (r.WaitPending? <==> MustWait(s, 0))
  {
    var c := AnyZombieChild(s, 1, false).0;
    FirstZombieChild(s, 1, false);
    ChildSeen(s, 1, false);
    forall t: nat | Awaited(s, 0, t) ensures t == c {
    }
    if c != 0 && s.tasks[c].space.UserSpace? {
      assert Awaited(s, 0, c);
    }
  }

  // ---- the status on its way ----

  /** No step of the run clears t. */
  ghost predicate NeverReaped(s: Table, steps: seq<Step>, t: nat)
    requires Shaped(s)
    decreases |steps|
  {
    steps == [] || (t !in Reaped(s, steps[0]) && NeverReaped(Apply(s, steps[0]), steps[1..], t))
  }

  /** A step that does not clear a zombie changes at most its parent link. */
  lemma {:induction false} ZombieStays(s: Table, step: Step, t: nat)
    requires Inv(s) && Enabled(s, step) && t < MAX_TASKS && s.tasks[t].state.Zombie? && t !in Reaped(s, step)
    ensures var u := Apply(s, step).tasks[t]; u == s.tasks[t].(parent := u.parent)
  {
    if Selects(s, step) {
      CurrentIsCounted(s);
      TaskAfterSelection(s, step, t);
    } else if step.ReapAll? {
      SweepTask(s, 1, t);
    } else if step.Wait? {
      WaitClears(s, step.pid, t);
    } else if step.Reap? {
      ReapLeaves(s, step.pid, t);
    } else if !step.Start? {
      PlainTask(s, step, t);
    }
  }

  lemma {:induction false} ReapLeaves(s: Table, pid: int, t: nat)
    requires Shaped(s) && t < MAX_TASKS
    ensures ReapTask(s, pid).0.tasks[t] == if Reapable(s, pid) && t == pid then ClearedTask(s.tasks[t]) else s.tasks[t]
  {
  }

  lemma {:induction false} ZombieStaysThroughout(s: Table, steps: seq<Step>, t: nat)
    requires Inv(s) && Legal(s, steps) && t < MAX_TASKS && s.tasks[t].state.Zombie? && NeverReaped(s, steps, t)
    ensures Inv(Run(s, steps))
    ensures var u := Run(s, steps).tasks[t]; u == s.tasks[t].(parent := u.parent)
    decreases |steps|
  {
    if steps != [] {
      ZombieStays(s, steps[0], t);
      StepKeeps(s, steps[0]);
      ZombieStaysThroughout(Apply(s, steps[0]), steps[1..], t);
    }
  }

  /** What the end of a task's body leaves in the table. */
  lemma {:induction false} ExitLeaves(s: Table, outcome: Outcome)
    requires Inv(s) && s.started && s.current != 0
    ensures var t, u := s.tasks[s.current], Apply(s, Exit(outcome)).tasks[s.current];
      && u.state.Zombie? && u.space == t.space
      && (match outcome
          case ThreadReturned => u.exitCode == t.exitCode && u.succeeded == t.succeeded
          case ProgramFaulted => u.exitCode == t.exitCode && !u.succeeded && u.completed
          case ProgramExited(code) => u.exitCode == code && u.succeeded && u.completed)
  {
    var step := Exit(outcome);
    CurrentIsCounted(s);
    SelectingStep(s, step);
    PointIsSelecting(s, step);
    assert SelectionPoint(s, step) == Departing(s, outcome);
  }

  /** A zombie user task that is waited for by its parent: the status is the one in its entry. */
  lemma {:induction false} ParentIsTold(s: Table, t: nat)
    requires Inv(s) && t < MAX_TASKS && s.tasks[t].state.Zombie? && s.tasks[t].space.UserSpace?
    requires s.tasks[t].parent == s.current
    ensures WaitTask(s, t).1 == WaitReaped(WaitStatus(t, s.tasks[t].exitCode, s.tasks[t].succeeded))
  {
    CountedIfLive(s, t);
    CurrentIsCounted(s);
    assert t != s.current && t != 0;
    assert Awaited(s, t, t);
    WaitAnswers(s, t);
  }

  /** Main result: the code that a program exits with reaches its parent. Whatever happens between the
      exit and the wait, unless something clears the task first, the parent that waits for it is told
      that code and that it succeeded. */
  lemma {:induction false} ExitCodeArrives(s: Table, code: nat, steps: seq<Step>)
    requires Inv(s) && s.started && s.current != 0 && s.tasks[s.current].space.UserSpace?
    requires var s1 := Apply(s, Exit(ProgramExited(code))); Legal(s1, steps) && NeverReaped(s1, steps, s.current)
    requires var s2 := Run(Apply(s, Exit(ProgramExited(code))), steps); s2.tasks[s.current].parent == s2.current
    ensures var s2 := Run(Apply(s, Exit(ProgramExited(code))), steps);
      WaitTask(s2, s.current).1 == WaitReaped(WaitStatus(s.current, code, true))
  {
    var s1 := Apply(s, Exit(ProgramExited(code)));
    StepKeeps(s, Exit(ProgramExited(code)));
    ExitLeaves(s, ProgramExited(code));
    ZombieStaysThroughout(s1, steps, s.current);
    ParentIsTold(Run(s1, steps), s.current);
  }

  /** The code of a termination arrives likewise, as a failure. */
  lemma {:induction false} TerminationArrives(s: Table, t: nat, code: nat, steps: seq<Step>)
    requires Inv(s) && t < MAX_TASKS && s.tasks[t].space.UserSpace? && TerminateChild(s, t, code).1
    requires var s1 := Apply(s, Terminate(t, code)); Legal(s1, steps) && NeverReaped(s1, steps, t)
    requires var s2 := Run(Apply(s, Terminate(t, code)), steps); s2.tasks[t].parent == s2.current
    ensures var s2 := Run(Apply(s, Terminate(t, code)), steps);
      WaitTask(s2, t).1 == WaitReaped(WaitStatus(t, code, false))
  {
    var s1 := Apply(s, Terminate(t, code));
    StepKeeps(s, Terminate(t, code));
    TerminateMeaning(s, t, code);
    ZombieStaysThroughout(s1, steps, t);
    ParentIsTold(Run(s1, steps), t);
  }

  // ---- calls on one task ----

  /** The two tables differ in the entry of one task only. */
  ghost predicate OnlyTask(s: Table, s': Table, pid: int)
    requires Shaped(s) && Shaped(s')
  {
    && s'.(tasks := s.tasks) == s
    && forall i :: 0 <= i < MAX_TASKS && i != pid ==> s'.tasks[i] == s.tasks[i]
  }

  /** scheduler_terminate_child succeeds iff the pid is a living child of the caller; only that task
      changes, to a zombie that failed with the code. */
  lemma {:induction false} TerminateMeaning(s: Table, pid: int, code: nat)
    requires Inv(s)
    ensures var (s', ok) := TerminateChild(s, pid, code);
      && (ok <==> Child(s, pid) && pid != s.current && Live(s.tasks[pid]) && !s.tasks[pid].state.Zombie?)
      && OnlyTask(s, s', pid) && (!ok ==> s' == s)
      && (ok ==> var u := s'.tasks[pid];
            u == s.tasks[pid].(state := Zombie, completed := true, succeeded := false, exitCode := code))
  {
  }

  /** scheduler_block_task succeeds iff the pid is a ready kernel thread other than idle and the caller;
      it then cannot be selected and nothing else changes. */
  lemma {:induction false} BlockMeaning(s: Table, pid: int)
    requires Inv(s)
    ensures var (s', r) := BlockTask(s, pid);
      && (r == 0 <==> 0 < pid < s.count && pid != s.current && s.tasks[pid].space.KernelSpace? &&
                      s.tasks[pid].state.Ready?)
      && (r != 0 ==> r == -1 && s' == s)
      && OnlyTask(s, s', pid) && (r == 0 ==> s'.tasks[pid].state.Blocked? && !Runnable(s'.tasks[pid]))
      && (r == 0 ==> UnblockTask(s', pid).1 == 0 && UnblockTask(s', pid).0.tasks[pid].state == s.tasks[pid].state)
  {
  }

  /** scheduler_unblock_task succeeds iff the pid is a blocked kernel thread other than idle; it is
      ready then and nothing else changes. */
  lemma {:induction false} UnblockMeaning(s: Table, pid: int)
    requires Inv(s)
    ensures var (s', r) := UnblockTask(s, pid);
      && (r == 0 <==> 0 < pid < s.count && s.tasks[pid].space.KernelSpace? && s.tasks[pid].state.Blocked?)
      && (r != 0 ==> r == -1 && s' == s)
      && OnlyTask(s, s', pid) && (r == 0 ==> s'.tasks[pid] == s.tasks[pid].(state := Ready))
  {
  }

  /** scheduler_unblock_user_task succeeds iff the pid is a blocked user task, because every live user
      task owns a page-table slot; it is ready then and nothing else changes. */
  lemma {:induction false} UnblockUserMeaning(s: Table, pid: int)
    requires Inv(s)
    ensures var (s', r) := UnblockUserTask(s, pid);
      && (r == 0 <==> 0 <= pid < s.count && s.tasks[pid].space.UserSpace? && s.tasks[pid].state.Blocked?)
      && (r != 0 ==> r == -1 && s' == s)
      && OnlyTask(s, s', pid) && (r == 0 ==> s'.tasks[pid] == s.tasks[pid].(state := Ready))
  {
    if 0 <= pid < s.count && s.tasks[pid].space.UserSpace? && s.tasks[pid].state.Blocked? {
      assert LiveUser(s.tasks[pid]);
    }
  }

  /** scheduler_set_task_parent succeeds iff both are counted, neither is idle and they differ; only the
      link changes. */
  lemma {:induction false} SetParentMeaning(s: Table, pid: int, parent: int)
    requires Inv(s)
    ensures var (s', ok) := SetTaskParent(s, pid, parent);
      && (ok <==> 0 < pid < s.count && 0 < parent < s.count && pid != parent)
      && (!ok ==> s' == s)
      && OnlyTask(s, s', pid) && (ok ==> s'.tasks[pid] == s.tasks[pid].(parent := parent))
  {
  }

  // ---- creation and reaping ----

  /** A task with no parent, no deadline and no status yet. */
  predicate Fresh(t: Task) {
    t.parent == -1 && t.sleepUntil == 0 && t.sleepMs == 0 && !t.completed && !t.succeeded && t.exitCode == 0
  }

  /** A kernel thread is created iff some slot is unused; the slot it gets was unused, it is a ready
      orphan, and no other task, no slot and no clock changes. */
  lemma {:induction false} CreateKernelMeaning(s: Table)
    requires Inv(s)
    ensures var (s', pid) := CreateKernelTask(s);
      && (pid >= 0 <==> exists i :: 0 <= i < MAX_TASKS && s.tasks[i].state.Unused?)
      && (pid < 0 ==> pid == -1 && s' == s)
      && (pid >= 0 ==>
        && 0 < pid < MAX_TASKS && pid < s'.count && s.tasks[pid].state.Unused?
        && s'.tasks[pid].state.Ready? && s'.tasks[pid].space.KernelSpace? && Fresh(s'.tasks[pid])
        && (forall i :: 0 < i < pid ==> !s.tasks[i].state.Unused?)
        && s'.(tasks := s.tasks, count := s.count) == s
        && forall i :: 0 <= i < MAX_TASKS && i != pid ==> s'.tasks[i] == s.tasks[i])
  {
    HoleIsTight(s, 1);
    LowestHole(s, 1);
    if PickPid(s) == MAX_TASKS { NoHole(s, 1); }
  }

  lemma {:induction false} LowestHole(s: Table, i: nat)
    requires Shaped(s) && i <= s.count
    ensures forall j :: i <= j < FirstHole(s, i) ==> !s.tasks[j].state.Unused?
    decreases s.count - i
  {
    if i < s.count && !s.tasks[i].state.Unused? { LowestHole(s, i + 1); }
  }

  /** A created user task is a blocked orphan in an unused slot of the task table, and owns a page-table
      slot that was free; no other task and no other slot changes. */
  lemma {:induction false} CreateUserMeaning(s: Table, accepted: bool, writesFit: bool)
    requires Inv(s) && CreateUserTask(s, accepted, writesFit).1 >= 0
    ensures var (s', pid) := CreateUserTask(s, accepted, writesFit); var k := s'.tasks[pid].userSlot;
      && accepted && writesFit && 0 < pid < MAX_TASKS && pid < s'.count && s.tasks[pid].state.Unused?
      && s'.tasks[pid].state.Blocked? && s'.tasks[pid].space.UserSpace? && Fresh(s'.tasks[pid])
      && k < TABLE_SLOTS && !s.slots[k] && s'.slots == s.slots[k := true]
      && (forall j :: 0 <= j < k ==> s.slots[j]) && (forall i :: 0 < i < pid ==> !s.tasks[i].state.Unused?)
      && s'.(tasks := s.tasks, count := s.count, slots := s.slots) == s
      && forall i :: 0 <= i < MAX_TASKS && i != pid ==> s'.tasks[i] == s.tasks[i]
  {
    HoleIsTight(s, 1);
    LowestHole(s, 1);
    LowestFree(s.slots, 0);
  }

  lemma {:induction false} LowestFree(slots: seq<bool>, k: nat)
    requires |slots| == TABLE_SLOTS && k <= TABLE_SLOTS
    ensures forall j :: k <= j < FreeSlot(slots, k) ==> slots[j]
    decreases TABLE_SLOTS - k
  {
    if k < TABLE_SLOTS && slots[k] { LowestFree(slots, k + 1); }
  }

  /** A reap succeeds iff the pid is a zombie other than idle and the caller; exactly that task is
      cleared. */
  lemma {:induction false} ReapMeaning(s: Table, pid: int)
    requires Inv(s)
    ensures var (s', r) := ReapTask(s, pid);
      && (r == 0 <==> 0 < pid < s.count && pid != s.current && s.tasks[pid].state.Zombie?)
      && (r != 0 ==> r == -1 && s' == s)
      && (r == 0 ==> !Live(s'.tasks[pid]) && s'.tasks[pid].parent == -1)
      && (r == 0 ==> s'.slots == SlotsWithout(s.slots, s.tasks[pid]))
      && forall i :: 0 <= i < MAX_TASKS && i != pid ==> s'.tasks[i] == s.tasks[i]
  {
  }

  /** The zombies that a sweep from i on can reap. */
  function Zombies(s: Table, i: nat): set<nat>
    requires Shaped(s)
  {
    set t: nat | t < MAX_TASKS && i <= t && Reapable(s, t)
  }

  lemma {:induction false} OneZombieLess(s: Table, i: nat)
    requires Shaped(s) && Reapable(s, i)
    ensures Zombies(s, i) == Zombies(ClearSlot(s, i), i + 1) + {i}
  {
    forall t: nat | t < MAX_TASKS && t != i ensures Reapable(ClearSlot(s, i), t) <==> Reapable(s, t) {
    }
  }

  lemma {:induction false} SweepCounts(s: Table, i: nat)
    requires Shaped(s) && 1 <= i <= s.count
    ensures SweepFrom(s, i).1 == |Zombies(s, i)|
    decreases s.count - i
  {
    if i == s.count {
      assert Zombies(s, i) == {};
    } else if Reapable(s, i) {
      SweepCounts(ClearSlot(s, i), i + 1);
      OneZombieLess(s, i);
    } else {
      SweepCounts(s, i + 1);
      assert Zombies(s, i) == Zombies(s, i + 1);
    }
  }

  /** scheduler_reap_zombies clears every zombie but the caller, and no other task, and returns how many
      there were. */
  lemma {:induction false} ReapAllMeaning(s: Table, t: nat)
    requires Inv(s) && t < MAX_TASKS
    ensures var (s', n) := ReapZombies(s);
      && n == |Zombies(s, 1)|
      && s'.tasks[t] == if Reapable(s, t) then ClearedTask(s.tasks[t]) else s.tasks[t]
  {
    SweepCounts(s, 1);
    SweepTask(s, 1, t);
  }

  // ---- the clock ----

  /** Before threads start, in the idle task and without a timer interval a sleep leaves the table
      alone; SleepBegins says what it does otherwise. */
  lemma {:induction false} SleepWithoutTimer(s: Table, ms: nat, interval: nat)
    requires Inv(s) && (!s.started || s.current == 0 || interval == 0)
    ensures Apply(s, Sleep(ms, interval)) == s
  {
  }

  /** A timer interrupt is one tick, modulo 2^64, once there is something to schedule; no other entry
      point moves the clock. */
  lemma {:induction false} ClockMeaning(s: Table, step: Step)
    requires Inv(s) && Enabled(s, step)
    ensures Apply(s, step).ticks ==
      if step.Preempt? && s.started && s.count >= 2 then (if s.ticks == U64 - 1 then 0 else s.ticks + 1) else s.ticks
  {
    if Selects(s, step) {
      PointIsSelecting(s, step);
      SelectingStep(s, step);
    } else if step.ReapAll? {
      SweepTask(s, 1, 0);
    } else if step.Wait? {
      WaitedTask(s, step.pid, 0);
    } else if !step.Start? {
      PlainTask(s, step, 0);
    }
  }
}
