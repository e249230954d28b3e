/**
 Waiting and termination over whole runs. The scheduler falls back to the current task when
 nothing can run, so these hold of runs in which every scan finds something to run (`Live`).
 LiveIff says when a scan does, and ExitEndsIffRunnable and WaitpidSleepsIffRunnable what happens
 to the caller in both cases.
 */
module WaitRuns {
  import opened Machine
  import opened TaskTable
  import opened TaskRuns

  ghost predicate Alive(t: Table, i: int)
    requires Shape(t)
  {
    0 <= i < t.numTasks && t.tasks[i].state != Terminated
  }

  /** No two tasks still alive record the same waiter, and every recorded waiter is blocked. */
  ghost predicate Waiters(t: Table) {
    && Wf(t)
    && (forall i :: Alive(t, i) && t.tasks[i].waiting != NOBODY ==> t.tasks[t.tasks[i].waiting].state == Blocked)
    && (forall i, j :: Alive(t, i) && Alive(t, j) && i != j && t.tasks[i].waiting != NOBODY ==>
                         t.tasks[i].waiting != t.tasks[j].waiting)
  }

  ghost predicate NoneWaitsWith(t: Table, w: int)
    requires Shape(t)
  {
    forall i :: Alive(t, i) ==> t.tasks[i].waiting != w
  }

  /** The invariant of waiting: besides, the current task is alive and is nobody's waiter. */
  ghost predicate WaitInv(t: Table) {
    Waiters(t) && (0 <= t.currentTask ==> Alive(t, t.currentTask) && NoneWaitsWith(t, t.currentTask))
  }

  /** Whenever the step scans for a task to run, there is one. */
  ghost predicate Live(t: Table, s: Step)
    requires Legal(t, s)
  {
    match s
    case TimerStep(frame) => t.numTasks > 0 ==> Runnable(BeforeScan(t, frame))
    case WaitpidStep(pid, frame) => MustBlock(t, pid) ==> Runnable(BeforeScan(Await(t, pid), frame))
    case ExitStep(frame) => Runnable(BeforeScan(Ended(t), frame))
    case _ => true
  }

  ghost predicate LiveRun(t: Table, steps: seq<Step>)
    decreases |steps|
  {
    steps == [] || (Legal(t, steps[0]) && Live(t, steps[0]) && LiveRun(Apply(t, steps[0]), steps[1..]))
  }

  lemma {:induction false} LiveRunIsLegal(t: Table, steps: seq<Step>)
    requires LiveRun(t, steps)
    ensures LegalRun(t, steps)
    decreases |steps|
  {
    if steps != [] {
      LiveRunIsLegal(Apply(t, steps[0]), steps[1..]);
    }
  }

  function End(t: Table, steps: seq<Step>): (r: Table)
    requires LiveRun(t, steps)
    ensures Shape(t) ==> Shape(r) && t.numTasks <= r.numTasks
  {
    LiveRunIsLegal(t, steps);
    Run(t, steps)
  }

  // ----- one step -----

  /** `waitpid` on a task still alive: the caller becomes its one recorded waiter. */
  lemma AwaitKeepsWaiters(t: Table, pid: int)
    requires WaitInv(t) && 0 <= t.currentTask && MustBlock(t, pid)
    ensures Waiters(Await(t, pid))
  {
    AwaitKeepsWf(t, pid);
    var u := Await(t, pid);
    forall i | Alive(u, i)
      ensures Alive(t, i)
    {
    }
    assert Issued(t.tasks[t.currentTask], t.currentTask, t.numTasks);
  }

  /** The wake-up loop of `exit` wakes nobody: only the scheduler's hand-over does. */
  lemma ExitLoopIsIdle(t: Table)
    requires WaitInv(t) && 0 <= t.currentTask
    ensures Wf(Ended(t))
    ensures forall i :: 0 <= i < MAX_TASKS ==> SameIdentity(Ended(t).tasks[i], t.tasks[i])
    ensures forall i :: 0 <= i < MAX_TASKS ==>
                          Ended(t).tasks[i].state == if i == t.currentTask then Terminated else t.tasks[i].state
    ensures Ended(t).tasks == t.tasks[t.currentTask := t.tasks[t.currentTask].(state := Terminated)]
  {
    EndedKeepsWf(t);
    forall i | 0 <= i < t.numTasks && t.tasks[i].state == Blocked
      ensures t.tasks[i].waiting != t.currentTask
    {
      assert Alive(t, i);
    }
  }

  /** Schedule as the steps use it: the only task it wakes is a blocked recorded waiter. */
  lemma ScheduleKeepsWaitInv(t: Table, frame: CpuState)
    requires Waiters(t) && t.numTasks > 0 && Runnable(BeforeScan(t, frame))
    requires var w := WakeTarget(t); w >= 0 ==> w < t.numTasks && t.tasks[w].state == Blocked && NoneWaitsWith(t, w)
    ensures WaitInv(Schedule(t, frame))
  {
    var r, w := Schedule(t, frame), WakeTarget(t);
    ScheduleKeepsWf(t, frame);
    ScheduleRuns(t, frame);
    forall i | Alive(r, i)
      ensures Alive(t, i) && r.tasks[i].waiting == t.tasks[i].waiting
    {
    }
    forall i | Alive(r, i) && r.tasks[i].waiting != NOBODY
      ensures r.tasks[r.tasks[i].waiting].state == Blocked && r.tasks[i].waiting != r.currentTask
    {
      assert Issued(t.tasks[i], i, t.numTasks) && t.tasks[t.tasks[i].waiting].state == Blocked;
    }
  }

  /** The task the exiting task hands over to is its recorded waiter, blocked and recorded nowhere else. */
  lemma ExitWakes(t: Table)
    requires WaitInv(t) && 0 <= t.currentTask
    ensures var w := t.tasks[t.currentTask].waiting;
            && Waiters(Ended(t))
            && WakeTarget(Ended(t)) == (if w == NOBODY then -1 else w)
            && (w != NOBODY ==> 0 <= w < t.numTasks && w != t.currentTask
                                && Ended(t).tasks[w].state == Blocked && NoneWaitsWith(Ended(t), w))
  {
    ExitLoopIsIdle(t);
    var u, w := Ended(t), t.tasks[t.currentTask].waiting;
    assert Issued(t.tasks[t.currentTask], t.currentTask, t.numTasks);
    FindPid(u, w);
    assert Alive(t, t.currentTask);
    forall i | Alive(u, i)
      ensures Alive(t, i) && i != t.currentTask && u.tasks[i].waiting == t.tasks[i].waiting
    {
    }
    forall i | Alive(u, i) && u.tasks[i].waiting != NOBODY
      ensures u.tasks[u.tasks[i].waiting].state == Blocked
    {
      assert Issued(t.tasks[i], i, t.numTasks) && t.tasks[t.tasks[i].waiting].state == Blocked;
    }
  }

  lemma NewRowKeepsWaitInv(t: Table, r: Table, c: int)
    requires WaitInv(t) && Wf(r) && r.currentTask == t.currentTask
    requires r.numTasks == t.numTasks || (r.numTasks == t.numTasks + 1 && r.tasks[t.numTasks].waiting == NOBODY)
    requires forall i :: 0 <= i < t.numTasks ==> r.tasks[i].waiting == t.tasks[i].waiting
    requires forall i :: 0 <= i < t.numTasks && i != c ==> r.tasks[i].state == t.tasks[i].state
    requires 0 <= c < t.numTasks ==> r.tasks[c].state == t.tasks[c].state ||
                                     (c == t.currentTask && r.tasks[c].state != Terminated)
    ensures WaitInv(r)
  {
    forall i | Alive(r, i) && r.tasks[i].waiting != NOBODY
      ensures Alive(t, i) && r.tasks[i].waiting == t.tasks[i].waiting
      ensures r.tasks[r.tasks[i].waiting].state == Blocked && r.tasks[i].waiting != r.currentTask
    {
      if 0 <= t.currentTask {
        assert Alive(t, t.currentTask);
      }
      assert Issued(t.tasks[i], i, t.numTasks);
    }
    if 0 <= r.currentTask {
      assert Alive(t, t.currentTask);
    }
  }

  lemma CurrentRowKeepsWaitInv(t: Table, task: Task)
    requires WaitInv(t) && 0 <= t.currentTask && SameIdentity(task, t.tasks[t.currentTask])
    requires task.state != Terminated
    ensures WaitInv(Update(t, t.currentTask, task))
  {
    CurrentRowKeepsWf(t, task);
    NewRowKeepsWaitInv(t, Update(t, t.currentTask, task), t.currentTask);
  }

  lemma SchedulingStepKeepsWaitInv(t: Table, s: Step)
    requires WaitInv(t) && Legal(t, s) && Live(t, s)
    requires s.TimerStep? || s.WaitpidStep? || s.ExitStep?
    ensures WaitInv(Apply(t, s))
  {
    match s
    case TimerStep(frame) =>
      if t.numTasks > 0 {
        if 0 <= t.currentTask {
          assert Alive(t, t.currentTask);
        }
        ScheduleKeepsWaitInv(t, frame);
      }
    case WaitpidStep(pid, frame) =>
      if MustBlock(t, pid) {
        AwaitKeepsWaiters(t, pid);
        AwaitKeepsWf(t, pid);
        ScheduleKeepsWaitInv(Await(t, pid), frame);
      }
    case ExitStep(frame) =>
      ExitWakes(t);
      ScheduleKeepsWaitInv(Ended(t), frame);
  }

  lemma RowStepKeepsWaitInv(t: Table, s: Step)
    requires WaitInv(t) && Legal(t, s)
    requires s.AddTaskStep? || s.ForkStep? || s.SetAgingStep?
    ensures WaitInv(Apply(t, s))
  {
    match s
    case AddTaskStep(task) =>
      AddTaskExact(t, task);
      NewRowKeepsWaitInv(t, AddTask(t, task), -1);
    case ForkStep(frame) =>
      ForkExact(t, frame);
      NewRowKeepsWaitInv(t, Fork(t, frame), -1);
    case SetAgingStep(pid) =>
      NewRowKeepsWaitInv(t, t.(agingPid := pid), -1);
  }

  lemma ExecveKeepsWaitInv(t: Table, entry: int)
    requires WaitInv(t) && 0 <= t.currentTask
    ensures WaitInv(Execve(t, entry))
  {
    ExecveRow(t, entry);
    CurrentRowKeepsWaitInv(t, Execve(t, entry).tasks[t.currentTask]);
  }

  lemma SetPriorityKeepsWaitInv(t: Table, p: int)
    requires WaitInv(t) && 0 <= t.currentTask
    ensures WaitInv(SetPriority(t, p))
  {
    assert Alive(t, t.currentTask);
    CurrentRowKeepsWaitInv(t, t.tasks[t.currentTask].(priority := p));
  }

  lemma SetStateKeepsWaitInv(t: Table, code: int)
    requires WaitInv(t) && 0 <= t.currentTask
    ensures WaitInv(SetState(t, code))
  {
    if code == 0 || code == 2 {
      CurrentRowKeepsWaitInv(t, t.tasks[t.currentTask].(state := if code == 0 then Ready else Blocked));
    }
  }

  lemma StepKeepsWaitInv(t: Table, s: Step)
    requires WaitInv(t) && Legal(t, s) && Live(t, s)
    ensures WaitInv(Apply(t, s))
  {
    if s.TimerStep? || s.WaitpidStep? || s.ExitStep? {
      SchedulingStepKeepsWaitInv(t, s);
    } else if s.AddTaskStep? || s.ForkStep? || s.SetAgingStep? {
      RowStepKeepsWaitInv(t, s);
    } else if s.ExecveStep? {
      ExecveKeepsWaitInv(t, s.entry);
    } else if s.SetPriorityStep? {
      SetPriorityKeepsWaitInv(t, s.priority);
    } else {
      SetStateKeepsWaitInv(t, s.code);
    }
  }

  lemma {:induction false} RunKeepsWaitInv(t: Table, steps: seq<Step>)
    requires WaitInv(t) && LiveRun(t, steps)
    ensures WaitInv(End(t, steps))
    decreases |steps|
  {
    if steps != [] {
      StepKeepsWaitInv(t, steps[0]);
      RunKeepsWaitInv(Apply(t, steps[0]), steps[1..]);
    }
  }

  // ----- termination -----

  /** A terminated task stays so through any step that finds something to run, and is not selected. */
  lemma StepKeepsTerminated(t: Table, s: Step, i: int)
    requires WaitInv(t) && Legal(t, s) && Live(t, s) && 0 <= i < t.numTasks && t.tasks[i].state == Terminated
    ensures var r := Apply(t, s); r.tasks[i].state == Terminated && r.currentTask != i
  {
    if 0 <= t.currentTask {
      assert Alive(t, t.currentTask);
    }
    match s
    case AddTaskStep(task) => AddTaskExact(t, task);
    case ForkStep(frame) => ForkExact(t, frame);
    case TimerStep(frame) =>
      ScheduleRuns(t, frame);
    case WaitpidStep(pid, frame) =>
      if MustBlock(t, pid) {
        AwaitKeepsWf(t, pid);
        ScheduleRuns(Await(t, pid), frame);
      }
    case ExitStep(frame) =>
      ExitLoopIsIdle(t);
      ExitWakes(t);
      ScheduleRuns(Ended(t), frame);
    case _ =>
  }

  /** Termination is permanent. */
  lemma {:induction false} TerminatedForever(t: Table, steps: seq<Step>, i: int)
    requires WaitInv(t) && LiveRun(t, steps) && 0 <= i < t.numTasks && t.tasks[i].state == Terminated
    ensures var r := End(t, steps); i < r.numTasks && r.tasks[i].state == Terminated && r.currentTask != i
    decreases |steps|
  {
    if steps == [] {
      if 0 <= t.currentTask {
        assert Alive(t, t.currentTask);
      }
    } else {
      StepKeepsWaitInv(t, steps[0]);
      StepKeepsTerminated(t, steps[0], i);
      TerminatedForever(Apply(t, steps[0]), steps[1..], i);
    }
  }

  // ----- exactly when something can run -----

  lemma CanRunAfterExit(t: Table, i: int)
    requires WaitInv(t) && 0 <= t.currentTask
    ensures CanRun(Ended(t), i, WakeTarget(Ended(t))) <==>
            i != t.currentTask && CanRun(t, i, t.tasks[t.currentTask].waiting)
  {
    ExitLoopIsIdle(t);
    ExitWakes(t);
    if 0 <= i < t.numTasks {
      assert Ended(t).tasks[i].priority == t.tasks[i].priority;
    }
  }

  lemma CanRunAfterAwait(t: Table, pid: int, i: int)
    requires Wf(t) && 0 <= t.currentTask && MustBlock(t, pid)
    ensures WakeTarget(Await(t, pid)) == -1
    ensures CanRun(Await(t, pid), i, -1) <==> i != t.currentTask && CanRun(t, i, -1)
  {
    AwaitKeepsWf(t, pid);
    if 0 <= i < t.numTasks {
      assert Await(t, pid).tasks[i].priority == t.tasks[i].priority;
    }
  }

  /** Some task other than the current one can run once task `woken` is awake. */
  ghost predicate OtherCanRun(t: Table, woken: int)
    requires Shape(t)
  {
    exists i :: i != t.currentTask && CanRun(t, i, woken)
  }

  lemma RunnableAfterExit(t: Table, frame: CpuState)
    requires WaitInv(t) && 0 <= t.currentTask
    ensures Runnable(BeforeScan(Ended(t), frame)) <==> OtherCanRun(t, t.tasks[t.currentTask].waiting)
  {
    ExitLoopIsIdle(t);
    RunnableIff(Ended(t), frame);
    forall i {
      CanRunAfterExit(t, i);
    }
  }

  lemma RunnableAfterAwait(t: Table, pid: int, frame: CpuState)
    requires Wf(t) && 0 <= t.currentTask && MustBlock(t, pid)
    ensures Runnable(BeforeScan(Await(t, pid), frame)) <==> OtherCanRun(t, -1)
  {
    AwaitKeepsWf(t, pid);
    RunnableIff(Await(t, pid), frame);
    forall i {
      CanRunAfterAwait(t, pid, i);
    }
  }

  lemma RunnableAtTimer(t: Table, frame: CpuState)
    requires WaitInv(t)
    ensures Runnable(BeforeScan(t, frame)) <==> exists i :: CanRun(t, i, -1)
  {
    if 0 <= t.currentTask {
      assert Alive(t, t.currentTask);
    }
    RunnableIff(t, frame);
    assert WakeTarget(t) == -1;
  }

  /** What it takes for a step to find something to run, on the table it starts from. */
  lemma LiveIff(t: Table, s: Step)
    requires WaitInv(t) && Legal(t, s)
    ensures Live(t, s) <==>
            match s
            case TimerStep(_) => t.numTasks > 0 ==> exists i :: CanRun(t, i, -1)
            case WaitpidStep(pid, _) => MustBlock(t, pid) ==> OtherCanRun(t, -1)
            case ExitStep(_) => OtherCanRun(t, t.tasks[t.currentTask].waiting)
            case _ => true
  {
    if s.TimerStep? {
      RunnableAtTimer(t, s.frame);
    } else if s.WaitpidStep? && MustBlock(t, s.pid) {
      RunnableAfterAwait(t, s.pid, s.frame);
    } else if s.ExitStep? {
      RunnableAfterExit(t, s.frame);
    }
  }

  /**
   `exit` ends the caller if and only if some other task can run: it is awake, or is the caller's
   waiter, and has priority below 255 or is about to age. Otherwise the caller is resumed and
   Running again.
   */
  lemma ExitEndsIffRunnable(t: Table, frame: CpuState)
    requires WaitInv(t) && 0 <= t.currentTask
    ensures var r, c := Exit(t, frame), t.currentTask;
            if exists i :: i != c && CanRun(t, i, t.tasks[c].waiting) then
              r.tasks[c].state == Terminated && r.currentTask != c
            else
              r.tasks[c].state == Running && r.currentTask == c
  {
    ExitLoopIsIdle(t);
    ExitWakes(t);
    RunnableAfterExit(t, frame);
    if Runnable(BeforeScan(Ended(t), frame)) {
      ScheduleRuns(Ended(t), frame);
    } else {
      ScheduleFallsBack(Ended(t), frame);
    }
  }

  // ----- sleeping and waking -----

  ghost predicate Sleeps(t: Table, w: int)
    requires Shape(t)
  {
    0 <= w < t.numTasks && t.tasks[w].state == Blocked && t.currentTask != w
  }

  ghost predicate Wakes(t: Table, s: Step, w: int)
    requires Legal(t, s)
  {
    s.ExitStep? && t.tasks[t.currentTask].waiting == w
  }

  /** A sleeping task is woken by the exit of the task that records it as waiter, and by nothing else. */
  lemma WokenExactly(t: Table, s: Step, w: int)
    requires WaitInv(t) && Legal(t, s) && Live(t, s) && Sleeps(t, w)
    ensures !Wakes(t, s, w) ==> Sleeps(Apply(t, s), w)
    ensures Wakes(t, s, w) ==> Apply(t, s).tasks[w].state == Ready ||
                               (Apply(t, s).tasks[w].state == Running && Apply(t, s).currentTask == w)
  {
    StepKeepsWf(t, s);
    match s
    case AddTaskStep(task) => AddTaskExact(t, task);
    case ForkStep(frame) => ForkExact(t, frame);
    case TimerStep(frame) =>
      if 0 <= t.currentTask {
        assert Alive(t, t.currentTask);
      }
      ScheduleRuns(t, frame);
    case WaitpidStep(pid, frame) =>
      if MustBlock(t, pid) {
        AwaitKeepsWf(t, pid);
        ScheduleRuns(Await(t, pid), frame);
      }
    case ExitStep(frame) =>
      ExitLoopIsIdle(t);
      ExitWakes(t);
      ScheduleRuns(Ended(t), frame);
    case _ =>
  }

  /** A step records only the calling task as a waiter; so it records no sleeping one. */
  lemma RecordsOnlyCaller(t: Table, s: Step, i: int)
    requires WaitInv(t) && Legal(t, s) && Live(t, s) && Alive(Apply(t, s), i)
    ensures var r := Apply(t, s);
            r.tasks[i].waiting == NOBODY ||
            r.tasks[i].waiting == (if i < t.numTasks then t.tasks[i].waiting else NOBODY) ||
            (r.tasks[i].waiting == t.currentTask && s.WaitpidStep? && s.pid == i)
    ensures i < t.numTasks && !(s.WaitpidStep? && s.pid == i) ==> Apply(t, s).tasks[i].waiting == t.tasks[i].waiting
    ensures i < t.numTasks ==> Alive(t, i)
  {
    if i < t.numTasks && t.tasks[i].state == Terminated {
      StepKeepsTerminated(t, s, i);
    }
    match s
    case AddTaskStep(task) => AddTaskExact(t, task);
    case ForkStep(frame) => ForkExact(t, frame);
    case TimerStep(frame) =>
      ScheduleRuns(t, frame);
    case WaitpidStep(pid, frame) =>
      if MustBlock(t, pid) {
        AwaitKeepsWf(t, pid);
        ScheduleRuns(Await(t, pid), frame);
      }
    case ExitStep(frame) =>
      ExitLoopIsIdle(t);
      ScheduleRuns(Ended(t), frame);
    case _ =>
  }

  // ----- whole runs of waiting -----

  ghost predicate OnlyRecordedBy(t: Table, w: int, target: int)
    requires Shape(t)
  {
    forall i :: Alive(t, i) && t.tasks[i].waiting == w ==> i == target
  }

  lemma StepKeepsOnlyRecordedBy(t: Table, s: Step, w: int, target: int)
    requires WaitInv(t) && Legal(t, s) && Live(t, s) && Sleeps(t, w) && OnlyRecordedBy(t, w, target)
    ensures OnlyRecordedBy(Apply(t, s), w, target)
  {
    StepKeepsWf(t, s);
    forall i | Alive(Apply(t, s), i) && Apply(t, s).tasks[i].waiting == w
      ensures i == target
    {
      RecordsOnlyCaller(t, s, i);
    }
  }

  lemma AliveBefore(t: Table, steps: seq<Step>, i: int)
    requires WaitInv(t) && LiveRun(t, steps) && 0 <= i < t.numTasks
    requires Alive(End(t, steps), i)
    ensures Alive(t, i)
  {
    if !Alive(t, i) {
      TerminatedForever(t, steps, i);
    }
  }

  /** Task w sleeps, waiting for task pid, which is alive and records it; no other living task does. */
  ghost predicate WaitsFor(t: Table, w: int, pid: int) {
    && WaitInv(t) && Sleeps(t, w) && OnlyRecordedBy(t, w, pid)
    && Alive(t, pid) && t.tasks[pid].waiting == w
  }

  /** A step after which the awaited task still lives is not the exit that wakes the waiter. */
  lemma StepKeepsAsleep(t: Table, s: Step, w: int, pid: int)
    requires WaitInv(t) && Legal(t, s) && Live(t, s) && Sleeps(t, w) && OnlyRecordedBy(t, w, pid)
    requires Alive(Apply(t, s), pid)
    ensures Sleeps(Apply(t, s), w)
  {
    WokenExactly(t, s, w);
    if Wakes(t, s, w) {
      assert Alive(t, t.currentTask);
      ExitEndsIffRunnable(t, s.frame);
      RunnableAfterExit(t, s.frame);
    }
  }

  /** Wait safety: while the awaited task lives, the waiter is neither made ready nor selected. */
  lemma {:induction false} WaitSafety(t: Table, steps: seq<Step>, w: int, pid: int)
    requires WaitInv(t) && LiveRun(t, steps) && Sleeps(t, w) && OnlyRecordedBy(t, w, pid)
    requires 0 <= pid < t.numTasks && Alive(End(t, steps), pid)
    ensures Sleeps(End(t, steps), w)
    decreases |steps|
  {
    if steps != [] {
      var s, r := steps[0], Apply(t, steps[0]);
      StepKeepsWaitInv(t, s);
      AliveBefore(r, steps[1..], pid);
      StepKeepsAsleep(t, s, w, pid);
      StepKeepsOnlyRecordedBy(t, s, w, pid);
      WaitSafety(r, steps[1..], w, pid);
    }
  }

  ghost predicate AllSleep(t: Table, group: set<int>)
    requires Shape(t)
  {
    forall w :: w in group ==> Sleeps(t, w)
  }

  /** Every living task that a member of the group waits for is itself in the group. */
  ghost predicate WaitsWithin(t: Table, group: set<int>)
    requires Shape(t)
  {
    forall i :: Alive(t, i) && t.tasks[i].waiting in group ==> i in group
  }

  lemma StepKeepsDeadlock(t: Table, s: Step, group: set<int>)
    requires WaitInv(t) && Legal(t, s) && Live(t, s) && AllSleep(t, group) && WaitsWithin(t, group)
    ensures AllSleep(Apply(t, s), group) && WaitsWithin(Apply(t, s), group)
  {
    if 0 <= t.currentTask {
      assert Alive(t, t.currentTask);
    }
    forall w | w in group
      ensures Sleeps(Apply(t, s), w)
    {
      assert Sleeps(t, w);
      WokenExactly(t, s, w);
    }
    forall i | Alive(Apply(t, s), i) && Apply(t, s).tasks[i].waiting in group
      ensures i in group
    {
      RecordsOnlyCaller(t, s, i);
      assert Sleeps(t, Apply(t, s).tasks[i].waiting);
    }
  }

  /**
   Deadlock is permanent: sleeping tasks that wait only for one another, in a cycle of any length
   or for nobody alive, sleep in every run from there on.
   */
  lemma {:induction false} DeadlockForever(t: Table, steps: seq<Step>, group: set<int>)
    requires WaitInv(t) && LiveRun(t, steps) && AllSleep(t, group) && WaitsWithin(t, group)
    ensures AllSleep(End(t, steps), group)
    decreases |steps|
  {
    if steps != [] {
      StepKeepsWaitInv(t, steps[0]);
      StepKeepsDeadlock(t, steps[0], group);
      DeadlockForever(Apply(t, steps[0]), steps[1..], group);
    }
  }

  /** A sleeping task that no other living task records is never woken in any run. */
  lemma StrandedForever(t: Table, steps: seq<Step>, w: int)
    requires WaitInv(t) && LiveRun(t, steps) && Sleeps(t, w) && OnlyRecordedBy(t, w, w)
    ensures Sleeps(End(t, steps), w)
  {
    DeadlockForever(t, steps, {w});
  }

  /** `waitpid` on a living task rewrites one record, that of the task waited for. */
  lemma WaitpidRecords(t: Table, pid: int, frame: CpuState)
    requires WaitInv(t) && 0 <= t.currentTask && MustBlock(t, pid) && Live(t, WaitpidStep(pid, frame))
    ensures var r, c := Waitpid(t, pid, frame), t.currentTask;
            && Alive(r, pid) && Sleeps(r, c)
            && (forall i :: Alive(r, i) ==>
                              Alive(t, i) && r.tasks[i].waiting == if i == pid then c else t.tasks[i].waiting)
            && (forall i :: Sleeps(t, i) ==> Sleeps(r, i))
  {
    AwaitKeepsWf(t, pid);
    ScheduleRuns(Await(t, pid), frame);
  }

  /**
   What `waitpid` on a living task leaves: the caller waits for it,
   and a task that waited for it before is recorded by no other task any more.
   */
  lemma WaitpidPutsToSleep(t: Table, pid: int, frame: CpuState)
    requires WaitInv(t) && 0 <= t.currentTask && MustBlock(t, pid) && Live(t, WaitpidStep(pid, frame))
    ensures WaitsFor(Waitpid(t, pid, frame), t.currentTask, pid)
    ensures forall w :: Sleeps(t, w) && OnlyRecordedBy(t, w, pid) ==>
                          Sleeps(Waitpid(t, pid, frame), w) && OnlyRecordedBy(Waitpid(t, pid, frame), w, w)
  {
    StepKeepsWaitInv(t, WaitpidStep(pid, frame));
    WaitpidRecords(t, pid, frame);
    assert Alive(t, t.currentTask);
  }

  /**
   `waitpid` on a living task puts the caller to sleep if and only if some other task can run.
   Otherwise the caller is resumed at once and Running, although what it waits for still lives.
   */
  lemma WaitpidSleepsIffRunnable(t: Table, pid: int, frame: CpuState)
    requires WaitInv(t) && 0 <= t.currentTask && MustBlock(t, pid)
    ensures var r, c := Waitpid(t, pid, frame), t.currentTask;
            if exists i :: i != c && CanRun(t, i, -1) then
              WaitsFor(r, c, pid)
            else
              r.tasks[c].state == Running && r.currentTask == c && Alive(r, pid)
  {
    RunnableAfterAwait(t, pid, frame);
    if Live(t, WaitpidStep(pid, frame)) {
      WaitpidPutsToSleep(t, pid, frame);
    } else {
      AwaitKeepsWf(t, pid);
      CanRunAfterAwait(t, pid, 0);
      ScheduleFallsBack(Await(t, pid), frame);
    }
  }

  ghost predicate NobodyWaitsOn(steps: seq<Step>, pid: int) {
    forall s :: s in steps && s.WaitpidStep? ==> s.pid != pid
  }

  lemma {:induction false} RecordKept(t: Table, steps: seq<Step>, pid: int)
    requires WaitInv(t) && LiveRun(t, steps) && 0 <= pid < t.numTasks && NobodyWaitsOn(steps, pid)
    requires Alive(End(t, steps), pid)
    ensures End(t, steps).tasks[pid].waiting == t.tasks[pid].waiting
    decreases |steps|
  {
    if steps != [] {
      var s := steps[0];
      assert s in steps;
      StepKeepsWaitInv(t, s);
      AliveBefore(Apply(t, s), steps[1..], pid);
      RecordsOnlyCaller(t, s, pid);
      RecordKept(Apply(t, s), steps[1..], pid);
    }
  }

  /** Wake-up: if nobody has since waited on the same task, its exit makes the waiter Ready or Running. */
  lemma WaitWakeUp(t: Table, steps: seq<Step>, w: int, pid: int, frame: CpuState)
    requires WaitsFor(t, w, pid) && LiveRun(t, steps) && NobodyWaitsOn(steps, pid)
    requires Legal(End(t, steps), ExitStep(frame)) && Live(End(t, steps), ExitStep(frame))
    requires End(t, steps).currentTask == pid
    ensures var state := Exit(End(t, steps), frame).tasks[w].state; state == Ready || state == Running
  {
    var u := End(t, steps);
    RunKeepsWaitInv(t, steps);
    assert Alive(u, pid);
    WaitSafety(t, steps, w, pid);
    RecordKept(t, steps, pid);
    WokenExactly(u, ExitStep(frame), w);
  }

  lemma RunnableAfterBlock(t: Table, frame: CpuState)
    requires WaitInv(t) && 0 <= t.currentTask
    ensures WaitInv(SetState(t, 2)) && WakeTarget(SetState(t, 2)) == -1
    ensures Runnable(BeforeScan(SetState(t, 2), frame)) <==> OtherCanRun(t, -1)
  {
    var u := SetState(t, 2);
    SetStateKeepsWaitInv(t, 2);
    assert u.tasks[u.currentTask].state == Blocked;
    RunnableIff(u, frame);
    assert forall i :: CanRun(u, i, -1) <==> i != t.currentTask && CanRun(t, i, -1);
  }

  /**
   A task that makes itself Blocked is put to sleep by the next tick if and only if some other task
   can run; otherwise the tick resumes it, Running.
   */
  lemma BlockedSleepsIffRunnable(t: Table, frame: CpuState)
    requires WaitInv(t) && 0 <= t.currentTask
    ensures var r, c := Schedule(SetState(t, 2), frame), t.currentTask;
            if exists i :: i != c && CanRun(t, i, -1) then Sleeps(r, c) && OnlyRecordedBy(r, c, c) && WaitInv(r)
            else r.tasks[c].state == Running && r.currentTask == c
  {
    var u := SetState(t, 2);
    RunnableAfterBlock(t, frame);
    if Runnable(BeforeScan(u, frame)) {
      StepKeepsWaitInv(u, TimerStep(frame));
      BlockedSleeps(t, frame);
    } else {
      ScheduleFallsBack(u, frame);
    }
  }

  lemma BlockedSleeps(t: Table, frame: CpuState)
    requires WaitInv(t) && 0 <= t.currentTask && Runnable(BeforeScan(SetState(t, 2), frame))
    requires WakeTarget(SetState(t, 2)) == -1
    ensures Sleeps(Schedule(SetState(t, 2), frame), t.currentTask)
    ensures OnlyRecordedBy(Schedule(SetState(t, 2), frame), t.currentTask, t.currentTask)
  {
    var r := Schedule(SetState(t, 2), frame);
    assert Alive(t, t.currentTask);
    ScheduleRuns(SetState(t, 2), frame);
    forall i | Alive(r, i)
      ensures Alive(t, i) && r.tasks[i].waiting == t.tasks[i].waiting
    {
    }
  }

  /** And as no task records it, nothing ever wakes it. */
  lemma SelfBlockedForever(t: Table, frame: CpuState, steps: seq<Step>)
    requires WaitInv(t) && 0 <= t.currentTask && (exists i :: i != t.currentTask && CanRun(t, i, -1))
    requires LiveRun(Schedule(SetState(t, 2), frame), steps)
    ensures Sleeps(End(Schedule(SetState(t, 2), frame), steps), t.currentTask)
  {
    BlockedSleepsIffRunnable(t, frame);
    StrandedForever(Schedule(SetState(t, 2), frame), steps, t.currentTask);
  }

  /** A later `waitpid` on the same task takes the waiter's place: the earlier waiter never wakes again. */
  lemma OvertakenForever(t: Table, w: int, pid: int, frame: CpuState, steps: seq<Step>)
    requires WaitsFor(t, w, pid) && 0 <= t.currentTask && Live(t, WaitpidStep(pid, frame))
    requires LiveRun(Waitpid(t, pid, frame), steps)
    ensures Sleeps(End(Waitpid(t, pid, frame), steps), w)
  {
    FindPid(t, pid);
    WaitpidPutsToSleep(t, pid, frame);
    StrandedForever(Waitpid(t, pid, frame), steps, w);
  }

  /** A task that waits for itself never wakes again. */
  lemma SelfWaitForever(t: Table, c: int, steps: seq<Step>)
    requires WaitsFor(t, c, c) && LiveRun(t, steps)
    ensures Sleeps(End(t, steps), c)
  {
    StrandedForever(t, steps, c);
  }

  /** The constructor's table satisfies the invariant of waiting. */
  lemma BootWaits(t: Table)
    requires Boot(t)
    ensures WaitInv(t)
  {
    BootIsWf(t);
  }

  /** Every table reached from the constructor's by a run in which each scan finds something to run. */
  lemma ReachableWaitInv(t: Table, steps: seq<Step>)
    requires Boot(t) && LiveRun(t, steps)
    ensures WaitInv(End(t, steps))
  {
    BootWaits(t);
    RunKeepsWaitInv(t, steps);
  }

  // ----- a lone task can neither end nor sleep -----

  /** The first task of a fresh machine, once the timer has selected it. */
  lemma FirstTask(t: Table, task: Task, frame: CpuState) returns (r: Table)
    requires Boot(t)
    ensures LegalRun(t, [AddTaskStep(task), TimerStep(frame)]) && r == Run(t, [AddTaskStep(task), TimerStep(frame)])
    ensures WaitInv(r) && r.numTasks == 1 && r.currentTask == 0 && r.tasks[0].state == Running
    ensures r.tasks[0].waiting == NOBODY
  {
    var a := AddTask(t, task);
    BootWaits(t);
    AddTaskExact(t, task);
    AllEligibleAtFirst(a, frame);
    ScheduleRuns(a, frame);
    StepKeepsWaitInv(t, AddTaskStep(task));
    StepKeepsWaitInv(a, TimerStep(frame));
    r := Schedule(a, frame);
    RunOne(t, AddTaskStep(task));
    RunSnoc(t, [AddTaskStep(task)], TimerStep(frame));
    assert [AddTaskStep(task)] + [TimerStep(frame)] == [AddTaskStep(task), TimerStep(frame)];
  }

  /** Reachable from the constructor: the only task calls `exit` and goes on running. */
  lemma LoneTaskCannotExit(t: Table, task: Task, frame: CpuState, last: CpuState)
    requires Boot(t)
    ensures var steps := [AddTaskStep(task), TimerStep(frame), ExitStep(last)];
            LegalRun(t, steps) && Run(t, steps).currentTask == 0 && Run(t, steps).tasks[0].state == Running
  {
    var r := FirstTask(t, task, frame);
    ExitEndsIffRunnable(r, last);
    var add, tick, call := AddTaskStep(task), TimerStep(frame), ExitStep(last);
    RunSnoc(t, [add, tick], call);
    assert [add, tick] + [call] == [add, tick, call];
  }

  /** Reachable from the constructor: the only task waits for itself and goes on running. */
  lemma LoneTaskCannotWait(t: Table, task: Task, frame: CpuState, last: CpuState)
    requires Boot(t)
    ensures var steps := [AddTaskStep(task), TimerStep(frame), WaitpidStep(0, last)];
            LegalRun(t, steps) && Run(t, steps).currentTask == 0 && Run(t, steps).tasks[0].state == Running
  {
    var r := FirstTask(t, task, frame);
    FindPid(r, 0);
    WaitpidSleepsIffRunnable(r, 0, last);
    var add, tick, call := AddTaskStep(task), TimerStep(frame), WaitpidStep(0, last);
    RunSnoc(t, [add, tick], call);
    assert [add, tick] + [call] == [add, tick, call];
  }
}
