/** Parent links of kernel/sched/scheduler.c: when they lead to a task that still exists, and what
    happens to the children of a terminated task. */
module SchedulerKin {
  import opened Scheduler
  import opened SchedulerRuns

  predicate Live(t: Task) {
    !t.state.Unused?
  }

  /** A live task has no parent or one that is live or waits to be reaped. */
  ghost predicate HasKin(s: Table, i: nat)
    requires Shaped(s) && i < MAX_TASKS
  {
    var p := s.tasks[i].parent;
    Live(s.tasks[i]) ==> p == -1 || (0 < p < MAX_TASKS && Live(s.tasks[p]))
  }

  ghost predicate KinOk(s: Table)
    requires Shaped(s)
  {
    forall i: nat :: i < MAX_TASKS ==> HasKin(s, i)
  }

  /** Task t is a zombie child of the current task. */
  predicate ZombieChild(s: Table, t: int)
    requires Shaped(s)
  {
    0 < t < s.count && s.tasks[t].parent == s.current && s.tasks[t].state.Zombie?
  }

  /** A wait for pid clears t: the pid is allowed, t is it or, for pid 0, the first zombie child, and t is
      a user task that is a zombie child. */
  predicate Awaited(s: Table, pid: int, t: nat)
    requires Shaped(s)
  {
    && 0 <= pid < s.count && pid != s.current
    && ZombieChild(s, t) && s.tasks[t].space.UserSpace?
    && (pid == t || (pid == 0 && forall i :: 1 <= i < t ==> !ZombieChild(s, i)))
  }

  /** The zombies that a step clears. */
  function Reaped(s: Table, step: Step): (r: set<nat>)
    requires Shaped(s)
  {
    match step
    case Reap(pid) => if Reapable(s, pid) then {pid as nat} else {}
    case ReapAll => set t: nat | t < MAX_TASKS && Reapable(s, t)
    case Wait(pid) => set t: nat | t < MAX_TASKS && Awaited(s, pid, t)
    case _ => {}
  }

  /** The guard of the steps that leave a live task with a parent that is gone: linking to an unused
      slot, or clearing a zombie that still has a child which is not cleared with it. */
  predicate Severs(s: Table, step: Step)
    requires Shaped(s)
  {
    || (step.SetParent? && SetTaskParent(s, step.pid, step.parent).1
        && Live(s.tasks[step.pid]) && !Live(s.tasks[step.parent]))
    || exists i: nat :: i < MAX_TASKS && IsSevered(s, step, i)
  }

  /** Task i survives the step and its parent does not. */
  predicate IsSevered(s: Table, step: Step, i: nat)
    requires Shaped(s) && i < MAX_TASKS
  {
    i !in Reaped(s, step) && Live(s.tasks[i]) && HasParentIn(s.tasks[i], Reaped(s, step))
  }

  predicate HasParentIn(t: Task, pids: set<nat>) {
    t.parent >= 0 && t.parent in pids
  }

  /** What a step does to one task as far as kinship is concerned. */
  ghost predicate KinAfter(s: Table, step: Step, i: nat, t': Task)
    requires Shaped(s) && i < MAX_TASKS
  {
    var t := s.tasks[i];
    if i in Reaped(s, step) then !Live(t')
    else if !Live(t) then Live(t') ==> t'.parent == -1
    else
      && Live(t')
      && (if step.SetParent? && step.pid == i && SetTaskParent(s, step.pid, step.parent).1 then t'.parent == step.parent
          else t'.parent == t.parent || (step.Exit? && t'.parent == -1))
  }

  lemma {:induction false} StepKin(s: Table, step: Step, i: nat)
    requires Inv(s) && Enabled(s, step) && i < MAX_TASKS
    ensures KinAfter(s, step, i, Apply(s, step).tasks[i])
  {
    if Selects(s, step) {
      SelectKin(s, step, i);
    } else {
      match step
      case Reap(_) => ReapKin(s, step, i);
      case ReapAll => ReapAllKin(s, i);
      case Wait(pid) => WaitKin(s, pid, i);
      case CreateKernel => CreateKin(s, step, i);
      case CreateUser(_, _) => CreateKin(s, step, i);
      case _ => PlainKin(s, step, i);
    }
  }

  /** Steps on one task's state or link. */
  lemma {:induction false} PlainKin(s: Table, step: Step, i: nat)
    requires Inv(s) && Enabled(s, step) && !Selects(s, step) && i < MAX_TASKS
    requires !step.Reap? && !step.ReapAll? && !step.Wait? && !step.CreateKernel? && !step.CreateUser?
    ensures KinAfter(s, step, i, Apply(s, step).tasks[i])
  {
    assert Reaped(s, step) == {};
  }

  lemma {:induction false} ReapKin(s: Table, step: Step, i: nat)
    requires Inv(s) && step.Reap? && i < MAX_TASKS
    ensures KinAfter(s, step, i, Apply(s, step).tasks[i])
  {
  }

  lemma {:induction false} ReapAllKin(s: Table, i: nat)
    requires Inv(s) && i < MAX_TASKS
    ensures KinAfter(s, ReapAll, i, Apply(s, ReapAll).tasks[i])
  {
    SweepTask(s, 1, i);
  }

  lemma {:induction false} WaitKin(s: Table, pid: int, i: nat)
    requires Inv(s) && i < MAX_TASKS
    ensures KinAfter(s, Wait(pid), i, Apply(s, Wait(pid)).tasks[i])
  {
    WaitClears(s, pid, i);
  }

  /** The wait-for-any scan finds the first zombie child at or above i, if there is one. */
  lemma {:induction false} FirstZombieChild(s: Table, i: nat, owned: bool)
    requires Shaped(s) && 1 <= i <= s.count
    ensures var c := AnyZombieChild(s, i, owned).0;
      && (c == 0 ==> forall j :: i <= j < s.count ==> !ZombieChild(s, j))
      && (c != 0 ==> i <= c && ZombieChild(s, c) && forall j :: i <= j < c ==> !ZombieChild(s, j))
    decreases s.count - i
  {
    if i < s.count && !ZombieChild(s, i) {
      FirstZombieChild(s, i + 1, owned || s.tasks[i].parent == s.current);
    }
  }

  /** scheduler_wait_task_status clears exactly the task the guard names. */
  lemma {:induction false} WaitClears(s: Table, pid: int, t: nat)
    requires Shaped(s) && t < MAX_TASKS
    ensures WaitTask(s, pid).0.tasks[t] == if Awaited(s, pid, t) then ClearedTask(s.tasks[t]) else s.tasks[t]
  {
    FirstZombieChild(s, 1, false);
    if 0 == pid < s.count && pid != s.current {
      var c := AnyZombieChild(s, 1, false).0;
      assert t < c ==> !ZombieChild(s, t);
      assert c != 0 && c < t ==> ZombieChild(s, c);
    }
  }

  /** A creation fills an unused slot with a task that has no parent, or leaves the slot unused. */
  lemma {:induction false} CreateKin(s: Table, step: Step, i: nat)
    requires Inv(s) && i < MAX_TASKS && (step.CreateKernel? || step.CreateUser?)
    ensures KinAfter(s, step, i, Apply(s, step).tasks[i])
  {
    HoleIsTight(s, 1);
  }

  /** Selecting steps change states, not links, except that an exit cuts the links to its caller. */
  lemma {:induction false} SelectKin(s: Table, step: Step, i: nat)
    requires Inv(s) && Enabled(s, step) && Selects(s, step) && i < MAX_TASKS
    ensures var t, t' := s.tasks[i], Apply(s, step).tasks[i];
      && (Live(t') <==> Live(t))
      && (t'.parent == t.parent || (step.Exit? && t.parent == s.current && t'.parent == -1))
      && (step.Exit? && 1 <= i < s.count ==> t'.parent != s.current)
  {
    PointKin(s, step, i);
    SelectingStep(s, step);
    var w := SelectionPoint(s, step);
    HandOverKin(w, NextRunnable(w), i);
  }

  lemma {:induction false} PointKin(s: Table, step: Step, i: nat)
    requires Inv(s) && Enabled(s, step) && Selects(s, step) && i < MAX_TASKS
    ensures var t, t' := s.tasks[i], SelectionPoint(s, step).tasks[i];
      && (Live(t') <==> Live(t))
      && (t'.parent == t.parent || (step.Exit? && t.parent == s.current && t'.parent == -1))
      && (step.Exit? && 1 <= i < s.count ==> t'.parent != s.current)
  {
    CurrentIsCounted(s);
  }

  /** Handing the processor over makes or ends no task and changes no link. */
  lemma {:induction false} HandOverKin(w: Table, next: nat, i: nat)
    requires Shaped(w) && next < MAX_TASKS && Runnable(w.tasks[next]) && i < MAX_TASKS
    ensures var r := if next == w.current then GoOn(w) else SwitchTo(w, next);
      (Live(r.tasks[i]) <==> Live(w.tasks[i])) && r.tasks[i].parent == w.tasks[i].parent
  {
  }

  /** Main result: from a table whose links are sound, a step leaves them sound iff it severs none. */
  lemma {:induction false} KinStepIff(s: Table, step: Step)
    requires Inv(s) && Enabled(s, step) && KinOk(s)
    ensures KinOk(Apply(s, step)) <==> !Severs(s, step)
  {
    var s' := Apply(s, step);
    forall i: nat | i < MAX_TASKS ensures KinAfter(s, step, i, s'.tasks[i]) {
      StepKin(s, step, i);
    }
    if !Severs(s, step) {
      forall i: nat | i < MAX_TASKS ensures HasKin(s', i) {
        assert KinAfter(s, step, i, s'.tasks[i]) && HasKin(s, i) && !IsSevered(s, step, i);
        var p := s'.tasks[i].parent;
        if 0 < p < MAX_TASKS { assert KinAfter(s, step, p, s'.tasks[p]); }
      }
    } else if KinOk(s') {
      SeveredShows(s, step);
    }
  }

  lemma {:induction false} SeveredShows(s: Table, step: Step)
    requires Inv(s) && Enabled(s, step) && KinOk(s) && Severs(s, step)
    ensures !KinOk(Apply(s, step))
  {
    var s' := Apply(s, step);
    if step.SetParent? {
      StepKin(s, step, step.pid);
      StepKin(s, step, step.parent);
      assert !HasKin(s', step.pid);
    } else {
      var i: nat :| i < MAX_TASKS && IsSevered(s, step, i);
      assert HasKin(s, i);
      StepKin(s, step, i);
      StepKin(s, step, s.tasks[i].parent);
      assert !HasKin(s', i);
    }
  }

  /** No step of a run severs a link. */
  ghost predicate NeverSevers(s: Table, steps: seq<Step>)
    requires Shaped(s)
    decreases |steps|
  {
    steps == [] || (!Severs(s, steps[0]) && NeverSevers(Apply(s, steps[0]), steps[1..]))
  }

  lemma {:induction false} RunKin(s: Table, steps: seq<Step>)
    requires Inv(s) && Legal(s, steps) && KinOk(s) && NeverSevers(s, steps)
    ensures KinOk(Run(s, steps))
    decreases |steps|
  {
    if steps != [] {
      KinStepIff(s, steps[0]);
      StepKeeps(s, steps[0]);
      RunKin(Apply(s, steps[0]), steps[1..]);
    }
  }

  /** From boot, every run that severs no link keeps all of them sound. */
  lemma ReachableKin(steps: seq<Step>)
    requires Legal(InitialTable(), steps) && NeverSevers(InitialTable(), steps)
    ensures KinOk(Run(InitialTable(), steps))
  {
    InitialInv();
    RunKin(InitialTable(), steps);
  }

  /** A task that exits leaves no child behind. */
  lemma ExitOrphans(s: Table, outcome: Outcome, i: nat)
    requires Inv(s) && s.started && s.current != 0 && 1 <= i < MAX_TASKS
    ensures Live(Apply(s, Exit(outcome)).tasks[i]) ==> Apply(s, Exit(outcome)).tasks[i].parent != s.current
  {
    SelectKin(s, Exit(outcome), i);
    if Live(s.tasks[i]) { CountedIfLive(s, i); }
  }

  /** A task that is terminated leaves its children with it as their parent. */
  lemma TerminateKeepsChildren(s: Table, pid: int, code: nat, i: nat)
    requires Inv(s) && TerminateChild(s, pid, code).1 && i < MAX_TASKS && i != pid
    ensures TerminateChild(s, pid, code).0.tasks[i] == s.tasks[i]
  {
  }

  /** So a stranger may inherit them: once such a zombie is reaped and the next task created gets its
      pid, the new task is the parent of the old one's children, and in any later table in which it is
      current and the child is still there it may terminate the child. */
  lemma {:induction false} StrangerInherits(s: Table, p: nat, child: nat, w: Table, code: nat)
    requires Inv(s) && Reapable(s, p) && child < MAX_TASKS && child != p && child != 0 && Live(s.tasks[child])
    requires s.tasks[child].parent == p && PickPid(ReapTask(s, p).0) == p
    requires Shaped(w) && w.current == p && child < w.count && w.tasks[child] == s.tasks[child]
    ensures var (s', pid) := CreateKernelTask(ReapTask(s, p).0);
      && pid == p && s'.tasks[p].state.Ready? && s'.tasks[p].parent == -1
      && child < s'.count && s'.tasks[child] == s.tasks[child]
    ensures TerminateChild(w, child, code).1 <==> !s.tasks[child].state.Zombie?
  {
    ReapKeeps(s, p);
    var r := ReapTask(s, p).0;
    assert r.tasks[child] == s.tasks[child];
    CountedIfLive(r, child);
    CreatedBeside(r, p, child);
  }

  lemma {:induction false} CreatedBeside(r: Table, p: nat, child: nat)
    requires Shaped(r) && p < MAX_TASKS && PickPid(r) == p && child < r.count && child != p
    ensures var (s', pid) := CreateKernelTask(r);
      && pid == p && s'.tasks[p].state.Ready? && s'.tasks[p].parent == -1
      && child < s'.count && s'.tasks[child] == r.tasks[child]
  {
  }

  /** The run from boot up to the heir: three threads in a line of descent, the first one terminates and
      reaps the second, and a new thread gets its pid. */
  const HEIR_RUN := [CreateKernel, CreateKernel, CreateKernel, Start, SetParent(2, 1), SetParent(3, 2),
                     Preempt, Terminate(2, 7), Reap(2), CreateKernel, Preempt]

  const THREAD := Task(Ready, -1, 0, 0, KernelSpace, 0, false, false, 0)

  /** A table of idle and three further tasks, started, with no slot in use. */
  function Four(idle: Task, a: Task, b: Task, c: Task, current: nat, ticks: nat): Table {
    Table([idle, a, b, c, BLANK_TASK, BLANK_TASK, BLANK_TASK, BLANK_TASK], current, 4, true, ticks,
          [false, false, false, false], false)
  }

  lemma {:induction false} ThreeThreads()
    ensures var s := InitialTable();
      Apply(Apply(Apply(Apply(s, CreateKernel), CreateKernel), CreateKernel), Start) ==
        Four(IDLE_TASK.(state := Running), THREAD, THREAD, THREAD, 0, 0)
  {
    var s0 := InitialTable();
    assert s0.tasks == [IDLE_TASK, BLANK_TASK, BLANK_TASK, BLANK_TASK, BLANK_TASK, BLANK_TASK, BLANK_TASK, BLANK_TASK];
    assert s0.slots == [false, false, false, false];
    var s1 := Apply(s0, CreateKernel);
    assert FirstHole(s0, 1) == 1;
    assert s1.tasks == [IDLE_TASK, THREAD, BLANK_TASK, BLANK_TASK, BLANK_TASK, BLANK_TASK, BLANK_TASK, BLANK_TASK];
    var s2 := Apply(s1, CreateKernel);
    assert FirstHole(s1, 2) == 2 && FirstHole(s1, 1) == 2;
    assert s2.tasks == [IDLE_TASK, THREAD, THREAD, BLANK_TASK, BLANK_TASK, BLANK_TASK, BLANK_TASK, BLANK_TASK];
    var s3 := Apply(s2, CreateKernel);
    assert FirstHole(s2, 3) == 3 && FirstHole(s2, 2) == 3 && FirstHole(s2, 1) == 3;
    assert s3.tasks == [IDLE_TASK, THREAD, THREAD, THREAD, BLANK_TASK, BLANK_TASK, BLANK_TASK, BLANK_TASK];
  }

  /** The middle of the run: links, a tick that starts the first thread, termination and reaping. */
  lemma {:induction false} SecondIsReaped()
    ensures var s := Four(IDLE_TASK.(state := Running), THREAD, THREAD, THREAD, 0, 0);
      var linked := Apply(Apply(s, SetParent(2, 1)), SetParent(3, 2));
      Apply(Apply(Apply(linked, Preempt), Terminate(2, 7)), Reap(2)) ==
        Four(IDLE_TASK, THREAD.(state := Running), ClearedTask(THREAD), THREAD.(parent := 2), 1, 1)
  {
    FirstRuns();
    FirstReaps();
  }

  lemma {:induction false} FirstRuns()
    ensures var s := Four(IDLE_TASK.(state := Running), THREAD, THREAD, THREAD, 0, 0);
      Apply(Apply(Apply(s, SetParent(2, 1)), SetParent(3, 2)), Preempt) ==
        Four(IDLE_TASK, THREAD.(state := Running), THREAD.(parent := 1), THREAD.(parent := 2), 1, 1)
  {
    var s := Four(IDLE_TASK.(state := Running), THREAD, THREAD, THREAD, 0, 0);
    var linked := Apply(Apply(s, SetParent(2, 1)), SetParent(3, 2));
    assert linked == Four(IDLE_TASK.(state := Running), THREAD, THREAD.(parent := 1), THREAD.(parent := 2), 0, 0);
    assert Woken(linked.tasks, 4, 1) == linked.tasks;
    assert NextRunnable(linked.(ticks := 1)) == 1;
  }

  lemma {:induction false} FirstReaps()
    ensures var s := Four(IDLE_TASK, THREAD.(state := Running), THREAD.(parent := 1), THREAD.(parent := 2), 1, 1);
      Apply(Apply(s, Terminate(2, 7)), Reap(2)) ==
        Four(IDLE_TASK, THREAD.(state := Running), ClearedTask(THREAD), THREAD.(parent := 2), 1, 1)
  {
    var s := Four(IDLE_TASK, THREAD.(state := Running), THREAD.(parent := 1), THREAD.(parent := 2), 1, 1);
    var ended := Apply(s, Terminate(2, 7));
    var zombie := THREAD.(parent := 1, state := Zombie, completed := true, exitCode := 7);
    assert ended == Four(IDLE_TASK, THREAD.(state := Running), zombie, THREAD.(parent := 2), 1, 1);
    var cleared := ClearSlot(ended, 2);
    assert cleared == Four(IDLE_TASK, THREAD.(state := Running), ClearedTask(THREAD), THREAD.(parent := 2), 1, 1);
    assert Trimmed(cleared.tasks, 4) == 4;
  }

  lemma {:induction false} HeirRuns()
    ensures var s := Four(IDLE_TASK, THREAD.(state := Running), ClearedTask(THREAD), THREAD.(parent := 2), 1, 1);
      Apply(Apply(s, CreateKernel), Preempt) ==
        Four(IDLE_TASK, THREAD, THREAD.(state := Running), THREAD.(parent := 2), 2, 2)
  {
    var s := Four(IDLE_TASK, THREAD.(state := Running), ClearedTask(THREAD), THREAD.(parent := 2), 1, 1);
    assert FirstHole(s, 2) == 2 && FirstHole(s, 1) == 2;
    var created := Apply(s, CreateKernel);
    assert created == Four(IDLE_TASK, THREAD.(state := Running), THREAD, THREAD.(parent := 2), 1, 1);
    var ticked := created.(ticks := 2);
    assert Woken(created.tasks, 4, 2) == created.tasks;
    assert NextRunnable(ticked) == 2;
  }

  /** From boot to a stranger that runs, has no parent itself, and may terminate the other's child. */
  lemma {:induction false} StrangerInheritsFromBoot()
    ensures Legal(InitialTable(), HEIR_RUN)
    ensures var s := Run(InitialTable(), HEIR_RUN);
      && s.current == 2 && s.tasks[2].state.Running? && s.tasks[2].parent == -1
      && s.tasks[3].parent == 2 && TerminateChild(s, 3, 9).1
  {
    var start := [CreateKernel, CreateKernel, CreateKernel, Start];
    var middle := [SetParent(2, 1), SetParent(3, 2), Preempt, Terminate(2, 7), Reap(2)];
    var end := [CreateKernel, Preempt];
    assert HEIR_RUN == start + (middle + end);
    StartRuns(start);
    MiddleRuns(middle);
    EndRuns(end);
    ThreeParts(InitialTable(), start, middle, end);
    Inherited(Run(InitialTable(), HEIR_RUN));
  }

  lemma Inherited(s: Table)
    requires s == Four(IDLE_TASK, THREAD, THREAD.(state := Running), THREAD.(parent := 2), 2, 2)
    ensures Shaped(s) && s.current == 2 && s.tasks[2].state.Running? && s.tasks[2].parent == -1
    ensures s.tasks[3].parent == 2 && TerminateChild(s, 3, 9).1
  {
  }

  lemma {:induction false} ThreeParts(s: Table, a: seq<Step>, b: seq<Step>, c: seq<Step>)
    requires Shaped(s) && Legal(s, a) && Legal(Run(s, a), b) && Legal(Run(Run(s, a), b), c)
    ensures Legal(s, a + (b + c)) && Run(s, a + (b + c)) == Run(Run(Run(s, a), b), c)
  {
    RunJoins(Run(s, a), b, c);
    RunJoins(s, a, b + c);
  }

  lemma {:induction false} StartRuns(steps: seq<Step>)
    requires steps == [CreateKernel, CreateKernel, CreateKernel, Start]
    ensures Legal(InitialTable(), steps)
    ensures Run(InitialTable(), steps) == Four(IDLE_TASK.(state := Running), THREAD, THREAD, THREAD, 0, 0)
  {
    ThreeThreads();
    Unroll4(InitialTable(), steps, CreateKernel, CreateKernel, CreateKernel, Start);
  }

  lemma {:induction false} MiddleRuns(steps: seq<Step>)
    requires steps == [SetParent(2, 1), SetParent(3, 2), Preempt, Terminate(2, 7), Reap(2)]
    ensures var s := Four(IDLE_TASK.(state := Running), THREAD, THREAD, THREAD, 0, 0);
      Legal(s, steps) &&
      Run(s, steps) == Four(IDLE_TASK, THREAD.(state := Running), ClearedTask(THREAD), THREAD.(parent := 2), 1, 1)
  {
    var s := Four(IDLE_TASK.(state := Running), THREAD, THREAD, THREAD, 0, 0);
    SecondIsReaped();
    Unroll5(s, steps, SetParent(2, 1), SetParent(3, 2), Preempt, Terminate(2, 7), Reap(2));
  }

  lemma {:induction false} EndRuns(steps: seq<Step>)
    requires steps == [CreateKernel, Preempt]
    ensures var s := Four(IDLE_TASK, THREAD.(state := Running), ClearedTask(THREAD), THREAD.(parent := 2), 1, 1);
      Legal(s, steps) && Run(s, steps) == Four(IDLE_TASK, THREAD, THREAD.(state := Running), THREAD.(parent := 2), 2, 2)
  {
    HeirRuns();
    var s := Four(IDLE_TASK, THREAD.(state := Running), ClearedTask(THREAD), THREAD.(parent := 2), 1, 1);
    Unroll2(s, steps, CreateKernel, Preempt);
  }

  // ---- short runs spelled out ----

  predicate AlwaysEnabled(step: Step) {
    !step.Start? && !step.Yield? && !step.Exit?
  }

  lemma {:induction false} Unroll2(s: Table, steps: seq<Step>, a: Step, b: Step)
    requires Shaped(s) && steps == [a, b] && AlwaysEnabled(a)
    ensures Run(s, steps) == Apply(Apply(s, a), b)
    ensures Legal(s, steps) <==> Enabled(Apply(s, a), b)
  {
    var s1 := Apply(s, a);
    assert steps[1..] == [b] && [b][1..] == [];
    assert Run(s1, [b]) == Run(Apply(s1, b), []);
    assert Legal(Apply(s1, b), []);
    assert Legal(s1, [b]) <==> Enabled(s1, b);
  }

  lemma {:induction false} Unroll4(s: Table, steps: seq<Step>, a: Step, b: Step, c: Step, d: Step)
    requires Shaped(s) && steps == [a, b, c, d] && AlwaysEnabled(a) && AlwaysEnabled(b) && AlwaysEnabled(c)
    ensures Run(s, steps) == Apply(Apply(Apply(Apply(s, a), b), c), d)
    ensures Legal(s, steps) <==> Enabled(Apply(Apply(Apply(s, a), b), c), d)
  {
    assert steps[1..] == [b, c, d] && steps[1..][1..] == [c, d];
    Unroll2(Apply(Apply(s, a), b), [c, d], c, d);
  }

  lemma {:induction false} Unroll5(s: Table, steps: seq<Step>, a: Step, b: Step, c: Step, d: Step, e: Step)
    requires Shaped(s) && steps == [a, b, c, d, e]
    requires AlwaysEnabled(a) && AlwaysEnabled(b) && AlwaysEnabled(c) && AlwaysEnabled(d) && AlwaysEnabled(e)
    ensures Run(s, steps) == Apply(Apply(Apply(Apply(Apply(s, a), b), c), d), e) && Legal(s, steps)
  {
    assert steps[1..] == [b, c, d, e];
    Unroll4(Apply(s, a), [b, c, d, e], b, c, d, e);
  }

  lemma {:induction false} RunJoins(s: Table, first: seq<Step>, second: seq<Step>)
    requires Shaped(s)
    ensures Run(s, first + second) == Run(Run(s, first), second)
    ensures Legal(s, first) && Legal(Run(s, first), second) ==> Legal(s, first + second)
    decreases |first|
  {
    if first == [] {
      assert first + second == second;
    } else {
      assert (first + second)[0] == first[0] && (first + second)[1..] == first[1..] + second;
      RunJoins(Apply(s, first[0]), first[1..], second);
    }
  }

  lemma CountedIfLive(s: Table, i: nat)
    requires Inv(s) && i < MAX_TASKS && Live(s.tasks[i])
    ensures i < s.count
  {
  }
}
