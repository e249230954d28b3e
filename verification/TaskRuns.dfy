/** What holds of the process table over whole runs. */
module TaskRuns {
  import opened Machine
  import opened TaskTable

  ghost predicate LegalRun(t: Table, steps: seq<Step>)
    decreases |steps|
  {
    steps == [] || (Legal(t, steps[0]) && LegalRun(Apply(t, steps[0]), steps[1..]))
  }

  function Run(t: Table, steps: seq<Step>): (r: Table)
    requires LegalRun(t, steps)
    ensures Shape(t) ==> Shape(r) && t.numTasks <= r.numTasks
    decreases |steps|
  {
    if steps == [] then t else Run(Apply(t, steps[0]), steps[1..])
  }

  lemma {:induction false} RunConcat(t: Table, steps: seq<Step>, more: seq<Step>)
    requires LegalRun(t, steps) && LegalRun(Run(t, steps), more)
    ensures LegalRun(t, steps + more) && Run(t, steps + more) == Run(Run(t, steps), more)
    decreases |steps|
  {
    if steps == [] {
      assert steps + more == more;
    } else {
      assert (steps + more)[0] == steps[0] && (steps + more)[1..] == steps[1..] + more;
      RunConcat(Apply(t, steps[0]), steps[1..], more);
    }
  }

  lemma RunOne(t: Table, s: Step)
    requires Legal(t, s)
    ensures LegalRun(t, [s]) && Run(t, [s]) == Apply(t, s)
  {
    assert [s][1..] == [];
    assert LegalRun(Apply(t, s), []) && Run(Apply(t, s), []) == Apply(t, s);
  }

  lemma RunSnoc(t: Table, steps: seq<Step>, s: Step)
    requires LegalRun(t, steps) && Legal(Run(t, steps), s)
    ensures LegalRun(t, steps + [s]) && Run(t, steps + [s]) == Apply(Run(t, steps), s)
  {
    RunOne(Run(t, steps), s);
    RunConcat(t, steps, [s]);
  }

  /** The table the constructor leaves: no task, every slot as `Task()` initialises it. */
  ghost predicate Boot(t: Table) {
    && |t.tasks| == MAX_TASKS && (forall task :: task in t.tasks ==> Unused(task))
    && t.numTasks == 0 && t.currentTask == -1 && t.interruptCount == 0 && t.agingPid == -1 && t.nextPid == 0
  }

  ghost predicate Runnable(t: Table)
    requires Shape(t)
  {
    exists i :: 0 <= i < t.numTasks && Eligible(t.tasks[i])
  }

  // ----- what Schedule changes -----

  ghost predicate SameIdentity(a: Task, b: Task) {
    a.pid == b.pid && a.ppid == b.ppid && a.waiting == b.waiting && a.eaxValue == b.eaxValue
  }

  lemma SavedTarget(t: Table, frame: CpuState)
    requires Shape(t)
    ensures WakeTarget(SaveFrame(t, frame)) == WakeTarget(t)
  {
    if t.currentTask >= 0 {
      SamePidsSameFind(t, SaveFrame(t, frame), t.tasks[t.currentTask].waiting, 0);
    }
  }

  lemma {:induction false} SamePidsSameFind(t: Table, u: Table, pid: int, i: nat)
    requires Shape(t) && Shape(u) && t.numTasks == u.numTasks && i <= t.numTasks
    requires forall j :: 0 <= j < t.numTasks ==> t.tasks[j].pid == u.tasks[j].pid
    ensures FindFrom(t.tasks, t.numTasks, pid, i) == FindFrom(u.tasks, u.numTasks, pid, i)
    decreases t.numTasks - i
  {
    if i < t.numTasks {
      SamePidsSameFind(t, u, pid, i + 1);
    }
  }

  /** What aging does to row i: only the aging target, on the aging tick, unless it has ended. */
  predicate Aged(t: Table, i: int)
    requires Shape(t) && 0 <= i < MAX_TASKS
  {
    && t.interruptCount == AGING_TICK && i == FindTaskByPid(t, U32(t.agingPid))
    && (t.tasks[i].state != Terminated || i == WakeTarget(t))
  }

  /** Row i as the scan sees it. */
  function Seen(t: Table, frame: CpuState, i: int): Task
    requires Shape(t) && 0 <= i < MAX_TASKS
  {
    var task := t.tasks[i];
    task.(cpu := if i == t.currentTask then frame else task.cpu,
    state := if i == WakeTarget(t) then Ready else task.state,
    priority := if Aged(t, i) then 1 else task.priority)
  }

  /** Exactly what the scan sees: one row has its registers saved, one is awake, one has aged. */
  lemma BeforeScanRow(t: Table, frame: CpuState, i: int)
    requires Shape(t) && 0 <= i < MAX_TASKS
    ensures BeforeScan(t, frame).tasks[i] == Seen(t, frame, i)
  {
    var u := SaveFrame(t, frame);
    SavedTarget(t, frame);
    SamePidsSameFind(t, Wake(u), U32(t.agingPid), 0);
  }

  lemma BeforeScanIdentity(t: Table, frame: CpuState)
    requires Shape(t)
    ensures forall i :: 0 <= i < MAX_TASKS ==> SameIdentity(BeforeScan(t, frame).tasks[i], t.tasks[i])
  {
    forall i | 0 <= i < MAX_TASKS
      ensures SameIdentity(BeforeScan(t, frame).tasks[i], t.tasks[i])
    {
      BeforeScanRow(t, frame, i);
    }
  }

  /** Before the scan only the wake-up changes a state. */
  lemma BeforeScanStates(t: Table, frame: CpuState)
    requires Shape(t)
    ensures forall i :: 0 <= i < MAX_TASKS ==>
                          BeforeScan(t, frame).tasks[i].state == (if i == WakeTarget(t) then Ready else t.tasks[i].state)
  {
    forall i | 0 <= i < MAX_TASKS
      ensures BeforeScan(t, frame).tasks[i].state == (if i == WakeTarget(t) then Ready else t.tasks[i].state)
    {
      BeforeScanRow(t, frame, i);
    }
  }

  /** Before the scan only aging changes a priority. */
  lemma BeforeScanPriorities(t: Table, frame: CpuState)
    requires Shape(t)
    ensures forall i :: 0 <= i < MAX_TASKS ==>
                          BeforeScan(t, frame).tasks[i].priority == if Aged(t, i) then 1 else t.tasks[i].priority
  {
    forall i | 0 <= i < MAX_TASKS
      ensures BeforeScan(t, frame).tasks[i].priority == if Aged(t, i) then 1 else t.tasks[i].priority
    {
      BeforeScanRow(t, frame, i);
    }
  }

  /** Before the scan only the current task's registers are saved. */
  lemma BeforeScanRegisters(t: Table, frame: CpuState)
    requires Shape(t)
    ensures forall i :: 0 <= i < MAX_TASKS ==>
                          BeforeScan(t, frame).tasks[i].cpu == if i == t.currentTask then frame else t.tasks[i].cpu
  {
    forall i | 0 <= i < MAX_TASKS
      ensures BeforeScan(t, frame).tasks[i].cpu == if i == t.currentTask then frame else t.tasks[i].cpu
    {
      BeforeScanRow(t, frame, i);
    }
  }

  lemma BeforeScanUnused(t: Table, frame: CpuState)
    requires Shape(t)
    ensures forall i :: t.numTasks <= i < MAX_TASKS ==> BeforeScan(t, frame).tasks[i] == t.tasks[i]
  {
    forall i | t.numTasks <= i < MAX_TASKS
      ensures BeforeScan(t, frame).tasks[i] == t.tasks[i]
    {
      BeforeScanRow(t, frame, i);
    }
  }

  ghost predicate Scheduled(t: Table, r: Table, w: int)
    requires Shape(t) && Shape(r)
  {
    && r.numTasks == t.numTasks && r.nextPid == t.nextPid && r.agingPid == t.agingPid
    && (forall i :: 0 <= i < MAX_TASKS ==> SameIdentity(r.tasks[i], t.tasks[i]))
    && (forall i :: 0 <= i < MAX_TASKS && i != r.currentTask ==>
                      r.tasks[i].state == (if i == w then Ready else t.tasks[i].state))
  }

  /** With something to run, Schedule selects a task that is awake, or has just been woken. */
  lemma ScheduleRuns(t: Table, frame: CpuState)
    requires Shape(t) && t.numTasks > 0 && Runnable(BeforeScan(t, frame))
    ensures var r := Schedule(t, frame);
            && Shape(r) && Scheduled(t, r, WakeTarget(t))
            && 0 <= r.currentTask && r.tasks[r.currentTask].state == Running
            && (r.currentTask == WakeTarget(t) ||
                (t.tasks[r.currentTask].state != Blocked && t.tasks[r.currentTask].state != Terminated))
  {
    BeforeScanIdentity(t, frame);
    BeforeScanStates(t, frame);
    PickSpec(BeforeScan(t, frame));
  }

  /** With nothing to run, Schedule resumes the current task and marks it Running, whatever it was. */
  lemma ScheduleFallsBack(t: Table, frame: CpuState)
    requires Shape(t) && 0 <= t.currentTask && !Runnable(BeforeScan(t, frame))
    ensures var r := Schedule(t, frame);
            && Shape(r) && Scheduled(t, r, WakeTarget(t))
            && r.currentTask == t.currentTask && r.tasks[r.currentTask].state == Running
  {
    BeforeScanIdentity(t, frame);
    BeforeScanStates(t, frame);
    PickSpec(BeforeScan(t, frame));
  }

  // ----- what makes a table runnable -----

  /**
   Task i can be selected once task `woken` is awake: it is neither blocked nor terminated, or is
   the one woken, and its priority is below 255, or is about to be raised by aging.
   */
  predicate CanRun(t: Table, i: int, woken: int)
    requires Shape(t)
  {
    && 0 <= i < t.numTasks
    && (i == woken || (t.tasks[i].state != Blocked && t.tasks[i].state != Terminated))
    && (t.tasks[i].priority < LOWEST_PRIORITY || (t.interruptCount == AGING_TICK && i == U32(t.agingPid)))
  }

  /** The scan finds something to run exactly when the table it starts from has a task that can run. */
  lemma RunnableIff(t: Table, frame: CpuState)
    requires Wf(t)
    ensures Runnable(BeforeScan(t, frame)) <==> exists i :: CanRun(t, i, WakeTarget(t))
  {
    FindPid(t, U32(t.agingPid));
    BeforeScanStates(t, frame);
    BeforeScanPriorities(t, frame);
    forall i | 0 <= i < t.numTasks
      ensures Eligible(BeforeScan(t, frame).tasks[i]) <==> CanRun(t, i, WakeTarget(t))
    {
    }
  }

  // ----- the process-table invariant -----

  lemma AllEligibleAtFirst(t: Table, frame: CpuState)
    requires Wf(t) && t.numTasks > 0 && t.currentTask == -1
    ensures Runnable(BeforeScan(t, frame))
  {
    BeforeScanStates(t, frame);
    BeforeScanPriorities(t, frame);
    assert Eligible(t.tasks[0]);
    assert Eligible(BeforeScan(t, frame).tasks[0]);
  }

  /** Wf without its clause about a machine that has not yet scheduled. */
  ghost predicate Rows(t: Table) {
    && Shape(t) && t.nextPid == t.numTasks
    && (forall i :: 0 <= i < t.numTasks ==> Issued(t.tasks[i], i, t.numTasks))
    && (forall i :: t.numTasks <= i < MAX_TASKS ==> Unused(t.tasks[i]))
  }

  lemma ScheduleKeepsWf(t: Table, frame: CpuState)
    requires Rows(t) && t.numTasks > 0 && (t.currentTask == -1 ==> Wf(t))
    ensures Wf(Schedule(t, frame)) && 0 <= Schedule(t, frame).currentTask
  {
    BeforeScanIdentity(t, frame);
    BeforeScanUnused(t, frame);
    if t.currentTask == -1 {
      AllEligibleAtFirst(t, frame);
    }
    if Runnable(BeforeScan(t, frame)) {
      ScheduleRuns(t, frame);
    } else {
      ScheduleFallsBack(t, frame);
    }
  }

  /**
   `fork` with room adds exactly one row, the child's: a copy of the caller's registers with
   eax 0, result 0, the next pid and the caller as parent; the caller's result is the child's pid.
   With a full table only the caller's result changes, to -1.
   */
  lemma ForkExact(t: Table, parent: CpuState)
    requires Wf(t) && 0 <= t.currentTask
    ensures var r, n, c := Fork(t, parent), t.numTasks, t.currentTask;
            && Wf(r) && r.currentTask == c
            && (n < MAX_TASKS ==>
                  && r.numTasks == n + 1
                  && r.tasks[n] == Task(parent.(eax := 0), 0, n, c, -1, Ready, NOBODY)
                  && r.tasks[c] == t.tasks[c].(eaxValue := n))
            && (n == MAX_TASKS ==> r.numTasks == n && r.tasks[c] == t.tasks[c].(eaxValue := -1))
            && (forall i :: 0 <= i < MAX_TASKS && i != c && i != n ==> r.tasks[i] == t.tasks[i])
  {
    if t.numTasks < MAX_TASKS {
      assert Unused(t.tasks[t.numTasks]) && Issued(t.tasks[t.currentTask], t.currentTask, t.numTasks);
    }
  }

  /** `AddTask` with room adds one parentless Ready row; on a full table it does nothing. */
  lemma AddTaskExact(t: Table, task: Task)
    requires Wf(t)
    ensures var r, n := AddTask(t, task), t.numTasks;
            && Wf(r) && r.currentTask == t.currentTask
            && (n < MAX_TASKS ==>
                  && r.numTasks == n + 1
                  && r.tasks[n] == Task(task.cpu, t.tasks[n].eaxValue, n, NOBODY, -1, Ready, NOBODY))
            && (n == MAX_TASKS ==> r == t)
            && (forall i :: 0 <= i < MAX_TASKS && i != n ==> r.tasks[i] == t.tasks[i])
  {
    if t.numTasks < MAX_TASKS {
      assert Unused(t.tasks[t.numTasks]);
    }
  }

  lemma AwaitKeepsWf(t: Table, pid: int)
    requires Wf(t) && 0 <= t.currentTask && MustBlock(t, pid)
    ensures Wf(Await(t, pid))
    ensures 0 <= pid < t.numTasks && t.tasks[pid].state != Terminated
    ensures forall i :: 0 <= i < MAX_TASKS && i != pid ==> Await(t, pid).tasks[i].waiting == t.tasks[i].waiting
    ensures Await(t, pid).tasks[pid].waiting == t.currentTask
    ensures forall i :: 0 <= i < MAX_TASKS && i != t.currentTask ==> Await(t, pid).tasks[i].state == t.tasks[i].state
    ensures Await(t, pid).tasks[t.currentTask].state == Blocked
  {
    FindPid(t, pid);
    assert Issued(t.tasks[t.currentTask], t.currentTask, t.numTasks) && Issued(t.tasks[pid], pid, t.numTasks);
  }

  lemma EndedKeepsWf(t: Table)
    requires Wf(t) && 0 <= t.currentTask
    ensures Wf(Ended(t))
    ensures forall i :: 0 <= i < MAX_TASKS ==> SameIdentity(Ended(t).tasks[i], t.tasks[i])
    ensures forall i :: 0 <= i < MAX_TASKS && i != t.currentTask ==>
                          Ended(t).tasks[i].state ==
                          if i < t.numTasks && t.tasks[i].waiting == t.currentTask && t.tasks[i].state == Blocked
                          then Ready else t.tasks[i].state
    ensures Ended(t).tasks[t.currentTask].state == Terminated
  {
    assert Issued(t.tasks[t.currentTask], t.currentTask, t.numTasks);
    forall i | 0 <= i < t.numTasks
      ensures Issued(Ended(t).tasks[i], i, t.numTasks)
    {
      assert Issued(t.tasks[i], i, t.numTasks);
    }
  }

  /** A system call that rewrites only the current row, without its identity. */
  lemma CurrentRowKeepsWf(t: Table, task: Task)
    requires Wf(t) && 0 <= t.currentTask && SameIdentity(task, t.tasks[t.currentTask])
    ensures Wf(Update(t, t.currentTask, task))
  {
    assert Issued(t.tasks[t.currentTask], t.currentTask, t.numTasks);
  }

  /** `execve` rebuilds the current row with the identity it had. */
  lemma ExecveRow(t: Table, entry: int)
    requires Wf(t) && 0 <= t.currentTask
    ensures var c := t.tasks[t.currentTask];
            Execve(t, entry).tasks[t.currentTask] == c.(cpu := CpuState(0, 0, 0, 0, entry, 0), state := Ready)
  {
    var c := t.tasks[t.currentTask];
    assert Issued(c, t.currentTask, t.numTasks);
    assert U32(c.pid) == c.pid && U32(c.ppid) == c.ppid;
  }

  lemma SchedulingStepKeepsWf(t: Table, s: Step)
    requires Wf(t) && Legal(t, s) && (s.TimerStep? || s.WaitpidStep? || s.ExitStep?)
    ensures Wf(Apply(t, s))
  {
    match s
    case TimerStep(frame) =>
      if t.numTasks > 0 {
        ScheduleKeepsWf(t, frame);
      }
    case WaitpidStep(pid, frame) =>
      if MustBlock(t, pid) {
        AwaitKeepsWf(t, pid);
        ScheduleKeepsWf(Await(t, pid), frame);
      }
    case ExitStep(frame) =>
      EndedKeepsWf(t);
      ScheduleKeepsWf(Ended(t), frame);
  }

  lemma CurrentRowStepKeepsWf(t: Table, s: Step)
    requires Wf(t) && Legal(t, s) && (s.ExecveStep? || s.SetPriorityStep? || s.SetStateStep?)
    ensures Wf(Apply(t, s))
  {
    match s
    case ExecveStep(entry) =>
      ExecveRow(t, entry);
      CurrentRowKeepsWf(t, Execve(t, entry).tasks[t.currentTask]);
    case SetPriorityStep(p) => CurrentRowKeepsWf(t, SetPriority(t, p).tasks[t.currentTask]);
    case SetStateStep(code) => CurrentRowKeepsWf(t, SetState(t, code).tasks[t.currentTask]);
  }

  /** Every step keeps the process-table invariant, whether or not something can run. */
  lemma StepKeepsWf(t: Table, s: Step)
    requires Wf(t) && Legal(t, s)
    ensures Wf(Apply(t, s))
  {
    match s
    case AddTaskStep(task) => AddTaskExact(t, task);
    case ForkStep(frame) => ForkExact(t, frame);
    case SetAgingStep(pid) =>
    case ExecveStep(_) => CurrentRowStepKeepsWf(t, s);
    case SetPriorityStep(_) => CurrentRowStepKeepsWf(t, s);
    case SetStateStep(_) => CurrentRowStepKeepsWf(t, s);
    case _ => SchedulingStepKeepsWf(t, s);
  }

  lemma {:induction false} RunKeepsWf(t: Table, steps: seq<Step>)
    requires Wf(t) && LegalRun(t, steps)
    ensures Wf(Run(t, steps))
    decreases |steps|
  {
    if steps != [] {
      StepKeepsWf(t, steps[0]);
      RunKeepsWf(Apply(t, steps[0]), steps[1..]);
    }
  }

  /** The parents of task i, nearest first. */
  function Ancestors(t: Table, i: int): seq<int>
    requires Wf(t) && 0 <= i < t.numTasks
    decreases i
  {
    assert Issued(t.tasks[i], i, t.numTasks);
    if t.tasks[i].ppid == NOBODY then [] else [t.tasks[i].ppid] + Ancestors(t, t.tasks[i].ppid)
  }

  /** The k-th task of the chain is the parent of the one before it, and older. */
  ghost predicate ParentAt(t: Table, chain: seq<int>, k: int)
    requires Shape(t)
  {
    0 < k < |chain| && 0 <= chain[k] < chain[k - 1] < t.numTasks && t.tasks[chain[k - 1]].ppid == chain[k]
  }

  /** Parent chains have no cycle: they descend in pid and end at a task without parent. */
  lemma {:induction false} ParentChainEnds(t: Table, i: int)
    requires Wf(t) && 0 <= i < t.numTasks
    ensures var chain := [i] + Ancestors(t, i);
            && (forall k :: 0 < k < |chain| ==> ParentAt(t, chain, k))
            && 0 <= chain[|chain| - 1] < t.numTasks && t.tasks[chain[|chain| - 1]].ppid == NOBODY
    decreases i
  {
    assert Issued(t.tasks[i], i, t.numTasks);
    var p := t.tasks[i].ppid;
    if p != NOBODY {
      ParentChainEnds(t, p);
      var chain, rest := [i] + Ancestors(t, i), [p] + Ancestors(t, p);
      assert chain == [i] + rest;
      forall k | 0 < k < |chain|
        ensures ParentAt(t, chain, k)
      {
        assert k > 1 ==> ParentAt(t, rest, k - 1);
      }
    }
  }

  lemma BootIsWf(t: Table)
    requires Boot(t)
    ensures Wf(t)
  {
    forall i | 0 <= i < MAX_TASKS
      ensures Unused(t.tasks[i])
    {
      assert t.tasks[i] in t.tasks;
    }
  }
}
