/** The static data of kernel/sched/scheduler.c as an object whose methods update it in place.
    Each method is proved to compute the corresponding function of module Scheduler. */
module TaskTable {
  import opened Scheduler

  /** The sweep of s has come to index i with table s' and `reaped` tasks cleared. */
  ghost predicate Sweeping(s: Table, s': Table, i: nat, reaped: nat) {
    Shaped(s) && Shaped(s') && 1 <= i <= s'.count &&
    ReapZombies(s) == (TrimTail(SweepFrom(s', i).0), reaped + SweepFrom(s', i).1)
  }

  lemma {:induction false} SweepsOn(s: Table, s': Table, i: nat, reaped: nat)
    requires Sweeping(s, s', i, reaped) && i < s'.count
    ensures if Reapable(s', i) then Sweeping(s, ClearSlot(s', i), i + 1, reaped + 1)
      else Sweeping(s, s', i + 1, reaped)
  {
  }

  class KernelScheduler {
    const tasks: array<Task>
    const slots: array<bool>
    var current: nat
    var count: nat
    var started: bool
    var ticks: nat
    var halted: bool

    ghost function View(): (s: Table)
      reads this, tasks, slots
    {
      Table(tasks[..], current, count, started, ticks, slots[..], halted)
    }

    ghost predicate Valid()
      reads this, tasks, slots
    {
      Shaped(View())
    }

    /** scheduler_init and the slot clearing of address_space_init. */
    constructor ()
      ensures Valid() && fresh(tasks) && fresh(slots)
      ensures View() == InitialTable()
    {
      tasks := new Task[MAX_TASKS](i => if i == 0 then IDLE_TASK else BLANK_TASK);
      slots := new bool[TABLE_SLOTS](i => false);
      current, count, started, ticks, halted := 0, 1, false, 0, false;
    }

    /** scheduler_wake_sleeping_tasks. */
    method WakeSleepers()
      requires Valid()
      modifies tasks
      ensures Valid()
      ensures View() == old(View()).(tasks := Woken(old(tasks[..]), count, ticks))
    {
      for i := 0 to count
        invariant forall j :: 0 <= j < MAX_TASKS ==>
          tasks[j] == if j < i then WokenTask(old(tasks[..]), count, ticks, j) else old(tasks[j])
      {
        if tasks[i].state.Sleeping? && ticks >= tasks[i].sleepUntil {
          tasks[i] := tasks[i].(state := Ready, sleepUntil := 0, sleepMs := 0);
        }
      }
      assert tasks[..] == Woken(old(tasks[..]), count, ticks);
    }

    /** scheduler_next_runnable_task. */
    method SelectNext() returns (next: nat)
      requires Valid()
      ensures next == NextRunnable(View())
    {
      var i := 1;
      while i <= count
        invariant 1 <= i <= count + 1
        invariant ScanFrom(View(), i) == NextRunnable(View())
      {
        var candidate := (current + i) % count;
        if candidate != 0 && Runnable(tasks[candidate]) {
          return candidate;
        }
        i := i + 1;
      }
      next := if Runnable(tasks[0]) then 0 else current;
    }

    /** scheduler_yield, with the endless loop recorded in `halted`. */
    method YieldNow()
      requires Valid()
      modifies tasks, `current, `halted
      ensures Valid() && View() == YieldTask(old(View()))
    {
      if count < 2 {
        return;
      }
      WakeSleepers();
      ghost var w := View();
      var next := SelectNext();
      if next == current {
        if Runnable(tasks[current]) {
          tasks[current] := tasks[current].(state := Running);
          assert tasks[..] == w.tasks[current := w.tasks[current].(state := Running)];
        } else {
          halted := true;
        }
        return;
      }
      HandOver(next);
    }

    /** The end of scheduler_yield and of scheduler_preempt: the context switch is the change of current. */
    method HandOver(next: nat)
      requires Valid() && next < MAX_TASKS && next != current
      modifies tasks, `current
      ensures Valid() && View() == SwitchTo(old(View()), next)
    {
      ghost var w := View();
      if tasks[current].state.Running? {
        tasks[current] := tasks[current].(state := Ready);
      }
      tasks[next] := tasks[next].(state := Running);
      current := next;
      assert tasks[..] == SwitchTo(w, next).tasks;
    }

    /** scheduler_preempt. */
    method TimerInterrupt()
      requires Valid()
      modifies tasks, `current, `ticks
      ensures Valid() && View() == PreemptTask(old(View()))
    {
      if !started || count < 2 {
        return;
      }
      ticks := NextTick(ticks);
      WakeSleepers();
      var next := SelectNext();
      if next != current {
        HandOver(next);
      }
    }

    /** scheduler_sleep_ms; `interval` is timer_get_interval_ms(). */
    method SleepFor(ms: nat, interval: nat)
      requires Valid()
      modifies tasks, `current, `halted
      ensures Valid() && View() == SleepTask(old(View()), ms, interval)
    {
      if !started || current == 0 || interval == 0 {
        return;
      }
      ghost var s := View();
      tasks[current] := tasks[current].(state := Sleeping, sleepMs := ms, sleepUntil := Deadline(ticks, ms, interval));
      assert tasks[..] == s.tasks[current := tasks[current]];
      YieldNow();
    }

    /** The end of a task body and scheduler_exit_task. */
    method ExitCurrent(outcome: Outcome)
      requires Valid()
      modifies tasks, `current, `halted
      ensures Valid() && View() == ExitTask(old(View()), outcome)
    {
      ghost var s := View();
      ghost var finished := s.(tasks := s.tasks[s.current := Finished(s.tasks[s.current], outcome)]);
      tasks[current] := Finished(tasks[current], outcome);
      assert tasks[..] == finished.tasks;
      Disown();
      tasks[current] := tasks[current].(state := Zombie);
      assert tasks[..] == Orphaned(finished)[current := Orphaned(finished)[current].(state := Zombie)];
      YieldNow();
    }

    /** The loop of scheduler_exit_task over the children. */
    method Disown()
      requires Valid()
      modifies tasks
      ensures Valid() && View() == old(View()).(tasks := Orphaned(old(View())))
    {
      for i := 1 to count
        invariant forall j :: 0 <= j < MAX_TASKS ==>
          tasks[j] == if 1 <= j < i then OrphanedTask(old(tasks[j]), current) else old(tasks[j])
      {
        if tasks[i].parent == current {
          tasks[i] := tasks[i].(parent := -1);
        }
      }
      assert tasks[..] == Orphaned(old(View()));
    }

    /** The search for an unused task slot shared by both creation paths. */
    method FindPid() returns (pid: nat)
      requires Valid()
      ensures pid == PickPid(View())
    {
      pid := 1;
      while pid < count && !tasks[pid].state.Unused?
        invariant 1 <= pid <= count
        invariant FirstHole(View(), pid) == PickPid(View())
      {
        pid := pid + 1;
      }
    }

    /** scheduler_create_kernel_thread. */
    method CreateThread() returns (pid: int)
      requires Valid()
      modifies tasks, `count
      ensures Valid() && (View(), pid) == CreateKernelTask(old(View()))
    {
      ghost var s := View();
      var p := FindPid();
      if p == MAX_TASKS {
        return -1;
      }
      if p == count {
        count := count + 1;
      }
      tasks[p] := Task(Ready, -1, 0, 0, KernelSpace, tasks[p].userSlot, false, false, 0);
      assert tasks[..] == s.tasks[p := tasks[p]];
      pid := p;
    }

    /** address_space_alloc_user_table_slot, without the clearing of the tables. */
    method AllocSlot() returns (slot: nat)
      requires Valid()
      modifies slots
      ensures Valid() && slot == FreeSlot(old(slots[..]), 0)
      ensures slot == TABLE_SLOTS ==> View() == old(View())
      ensures slot < TABLE_SLOTS ==> View() == old(View()).(slots := old(slots[..])[slot := true])
    {
      slot := 0;
      while slot < TABLE_SLOTS && slots[slot]
        invariant 0 <= slot <= TABLE_SLOTS
        invariant FreeSlot(slots[..], slot) == FreeSlot(slots[..], 0)
        invariant View() == old(View())
      {
        slot := slot + 1;
      }
      if slot < TABLE_SLOTS {
        slots[slot] := true;
        assert slots[..] == old(slots[..])[slot := true];
      }
    }

    /** scheduler_create_user_task_from_image after its input checks. */
    method CreateUserFrom(accepted: bool, writesFit: bool) returns (pid: int)
      requires Valid()
      modifies tasks, slots, `count
      ensures Valid() && (View(), pid) == CreateUserTask(old(View()), accepted, writesFit)
    {
      if !accepted {
        return -1;
      }
      var p := FindPid();
      if p == MAX_TASKS {
        return -1;
      }
      if p == count {
        count := count + 1;
      }
      pid := AdmitPid(p, writesFit);
    }

    /** The same once `p` is chosen and counted: page-table slot, task entry, and the way back. */
    method AdmitPid(p: nat, writesFit: bool) returns (pid: int)
      requires Valid() && 1 <= p < count
      modifies tasks, slots, `count
      ensures Valid() && (View(), pid) == AdmitUser(old(View()), p, writesFit)
    {
      ghost var s := View();
      var slot := AllocSlot();
      if slot == TABLE_SLOTS {
        Put(p, tasks[p].(userSlot := TABLE_SLOTS));
        RetractPid(p);
        return -1;
      }
      var t := Task(Blocked, -1, 0, 0, UserSpace, slot, false, false, 0);
      Put(p, t);
      if !writesFit {
        slots[slot] := false;
        assert slots[..] == s.slots[slot := true][slot := false];
        Put(p, t.(state := Unused, userSlot := TABLE_SLOTS));
        assert tasks[..] == s.tasks[p := t.(state := Unused, userSlot := TABLE_SLOTS)];
        RetractPid(p);
        return -1;
      }
      pid := p;
    }

    method RetractPid(pid: nat)
      requires 1 <= pid && 1 < count
      modifies `count
      ensures count == if pid == old(count) - 1 then old(count) - 1 else old(count)
    {
      if pid == count - 1 {
        count := count - 1;
      }
    }

    /** scheduler_clear_task_slot with address_space_destroy_user. */
    method ClearTask(pid: nat)
      requires Valid() && pid < MAX_TASKS
      modifies tasks, slots
      ensures Valid() && View() == ClearSlot(old(View()), pid)
    {
      ghost var s := View();
      var slot := tasks[pid].userSlot;
      if tasks[pid].space.UserSpace? {
        if slot < TABLE_SLOTS {
          slots[slot] := false;
        }
        slot := TABLE_SLOTS;
      }
      tasks[pid] := Task(Unused, -1, 0, 0, NoSpace, slot, false, false, 0);
      assert slots[..] == SlotsWithout(s.slots, s.tasks[pid]);
      assert tasks[..] == s.tasks[pid := ClearedTask(s.tasks[pid])];
    }

    /** scheduler_trim_unused_tail. */
    method TrimUnusedTail()
      requires Valid()
      modifies `count
      ensures Valid() && View() == TrimTail(old(View()))
    {
      while count > 1 && tasks[count - 1].state.Unused?
        invariant 1 <= count <= MAX_TASKS
        invariant Trimmed(tasks[..], count) == Trimmed(tasks[..], old(count))
      {
        count := count - 1;
      }
    }

    /** scheduler_reap_zombie_task. */
    method ReapOne(pid: int) returns (r: int)
      requires Valid()
      modifies tasks, slots, `count
      ensures Valid() && (View(), r) == ReapTask(old(View()), pid)
    {
      if pid <= 0 || pid >= count || pid == current || !tasks[pid].state.Zombie? {
        return -1;
      }
      ClearTask(pid);
      TrimUnusedTail();
      r := 0;
    }

    /** scheduler_reap_zombies. */
    method ReapEvery() returns (reaped: nat)
      requires Valid()
      modifies tasks, slots, `count
      ensures Valid() && (View(), reaped) == ReapZombies(old(View()))
    {
      reaped := 0;
      var i := 1;
      while i < count
        invariant 1 <= i <= count && Valid() && count == old(count)
        invariant Sweeping(old(View()), View(), i, reaped)
      {
        ghost var s := View();
        var cleared := SweepOne(i);
        SweepsOn(old(View()), s, i, reaped);
        reaped := reaped + cleared;
        i := i + 1;
      }
      TrimUnusedTail();
    }

    /** One turn of that loop. */
    method SweepOne(i: nat) returns (cleared: nat)
      requires Valid() && 1 <= i < count
      modifies tasks, slots
      ensures Valid() && View() == if Reapable(old(View()), i) then ClearSlot(old(View()), i) else old(View())
      ensures cleared == if Reapable(old(View()), i) then 1 else 0
    {
      cleared := 0;
      if i != current && tasks[i].state.Zombie? {
        ClearTask(i);
        cleared := 1;
      }
    }

    /** scheduler_wait_task_status. */
    method WaitFor(pid: int) returns (r: WaitResult)
      requires Valid()
      modifies tasks, slots, `count
      ensures Valid() && (View(), r) == WaitTask(old(View()), pid)
    {
      if pid < 0 || pid >= count || pid == current {
        return WaitFailed;
      }
      var target: nat := pid;
      if pid == 0 {
        var owned := false;
        var i := 1;
        while i < count
          invariant 1 <= i <= count && target == 0
          invariant AnyZombieChild(View(), i, owned) == AnyZombieChild(View(), 1, false)
          invariant View() == old(View())
        {
          if tasks[i].parent == current {
            owned := true;
            if tasks[i].state.Zombie? {
              target := i;
              break;
            }
          }
          i := i + 1;
        }
        if target == 0 {
          return if owned then WaitPending else WaitFailed;
        }
      }
      if !tasks[target].space.UserSpace? || tasks[target].parent != current {
        return WaitFailed;
      }
      if !tasks[target].state.Zombie? {
        return WaitPending;
      }
      r := WaitReaped(WaitStatus(target, tasks[target].exitCode, tasks[target].succeeded));
      ClearTask(target);
      TrimUnusedTail();
    }

    /** Replaces one table entry. */
    method Put(pid: nat, t: Task)
      requires Valid() && pid < MAX_TASKS && t.userSlot <= TABLE_SLOTS && t.sleepUntil < U64
      modifies tasks
      ensures Valid() && View() == old(View()).(tasks := old(tasks[..])[pid := t])
    {
      tasks[pid] := t;
      assert tasks[..] == old(tasks[..])[pid := t];
    }

    /** scheduler_unblock_user_task; user_mode_prepare passes for a blocked task that owns a page-table slot. */
    method UnblockUserPid(pid: int) returns (r: int)
      requires Valid()
      modifies tasks
      ensures Valid() && (View(), r) == UnblockUserTask(old(View()), pid)
    {
      if pid < 0 || pid >= count || !tasks[pid].state.Blocked? {
        return -1;
      }
      if !tasks[pid].space.UserSpace? || tasks[pid].userSlot >= TABLE_SLOTS {
        return -1;
      }
      Put(pid, tasks[pid].(state := Ready));
      r := 0;
    }

    /** scheduler_block_task. */
    method BlockPid(pid: int) returns (r: int)
      requires Valid()
      modifies tasks
      ensures Valid() && (View(), r) == BlockTask(old(View()), pid)
    {
      if pid <= 0 || pid >= count || pid == current || !tasks[pid].space.KernelSpace? || !tasks[pid].state.Ready? {
        return -1;
      }
      Put(pid, tasks[pid].(state := Blocked, sleepUntil := 0, sleepMs := 0));
      r := 0;
    }

    /** scheduler_unblock_task. */
    method UnblockPid(pid: int) returns (r: int)
      requires Valid()
      modifies tasks
      ensures Valid() && (View(), r) == UnblockTask(old(View()), pid)
    {
      if pid <= 0 || pid >= count || !tasks[pid].space.KernelSpace? || !tasks[pid].state.Blocked? {
        return -1;
      }
      Put(pid, tasks[pid].(state := Ready));
      r := 0;
    }

    /** scheduler_set_task_parent. */
    method SetParentOf(pid: int, parent: int) returns (ok: bool)
      requires Valid()
      modifies tasks
      ensures Valid() && (View(), ok) == SetTaskParent(old(View()), pid, parent)
    {
      if pid <= 0 || pid >= count || parent <= 0 || parent >= count || pid == parent {
        return false;
      }
      Put(pid, tasks[pid].(parent := parent));
      ok := true;
    }

    /** scheduler_terminate_child. */
    method TerminatePid(pid: int, code: nat) returns (ok: bool)
      requires Valid()
      modifies tasks
      ensures Valid() && (View(), ok) == TerminateChild(old(View()), pid, code)
    {
      if pid <= 0 || pid >= count || pid == current || tasks[pid].parent != current ||
         tasks[pid].state.Unused? || tasks[pid].state.Zombie? {
        return false;
      }
      Put(pid, tasks[pid].(completed := true, succeeded := false, exitCode := code, state := Zombie));
      ok := true;
    }

    /** scheduler_start_threads. */
    method StartAll()
      requires Valid()
      modifies tasks, `started, `current
      ensures Valid() && View() == StartThreads(old(View()))
    {
      started := true;
      current := 0;
      Put(0, tasks[0].(state := Running));
    }
  }
}
