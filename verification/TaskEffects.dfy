/** What each transition of the process table does to every field, and what lasts over whole runs. */
module TaskEffects {
  import opened Machine
  import opened TaskTable
  import opened TaskRuns

  // ----- each transition, field by field -----

  /** `waitpid` has to wait exactly for a pid that was issued to a task still alive. */
  lemma MustBlockIff(t: Table, pid: int)
    requires Wf(t)
    ensures MustBlock(t, pid) <==> 0 <= pid < t.numTasks && t.tasks[pid].state != Terminated
  {
    FindPid(t, pid);
  }

  /** The waiter a terminated current task hands over to. */
  lemma WakeTargetIs(t: Table)
    requires Wf(t)
    ensures WakeTarget(t) ==
            if 0 <= t.currentTask && t.tasks[t.currentTask].state == Terminated
               && t.tasks[t.currentTask].waiting != 0xFFFF_FFFF
            then t.tasks[t.currentTask].waiting else -1
  {
    if 0 <= t.currentTask {
      assert Issued(t.tasks[t.currentTask], t.currentTask, t.numTasks);
      FindPid(t, t.tasks[t.currentTask].waiting);
    }
  }

  /** The task that ages: the one named, on the scan that finds the interrupt count at 20. */
  lemma AgedIs(t: Table, i: int)
    requires Wf(t) && 0 <= i < MAX_TASKS
    ensures Aged(t, i) <==>
            && t.interruptCount == 20 && i < t.numTasks && i == U32(t.agingPid)
            && (t.tasks[i].state != Terminated || i == WakeTarget(t))
  {
    FindPid(t, U32(t.agingPid));
  }

  /** Two tables that differ in their rows alone. */
  ghost predicate SameCounters(a: Table, b: Table) {
    a.(tasks := b.tasks) == b
  }

  ghost predicate OtherRowsSame(a: Table, b: Table, c: int)
    requires Shape(a) && Shape(b)
  {
    forall i :: 0 <= i < MAX_TASKS && i != c ==> a.tasks[i] == b.tasks[i]
  }

  /** `set_priority` stores the number it is given, in the caller's row, and does nothing else. */
  lemma SetPriorityExact(t: Table, p: int)
    requires Shape(t) && 0 <= t.currentTask
    ensures var r, c := SetPriority(t, p), t.currentTask;
            && Shape(r) && SameCounters(r, t) && OtherRowsSame(r, t, c)
            && r.tasks[c].priority == p
            && r.tasks[c].(priority := t.tasks[c].priority) == t.tasks[c]
  {
  }

  /** `set_state` makes the caller Ready for 0 and Blocked for 2; any other code changes nothing. */
  lemma SetStateExact(t: Table, code: int)
    requires Shape(t) && 0 <= t.currentTask
    ensures var r, c := SetState(t, code), t.currentTask;
            && Shape(r) && SameCounters(r, t) && OtherRowsSame(r, t, c)
            && (code == 0 ==> r.tasks[c].state == Ready)
            && (code == 2 ==> r.tasks[c].state == Blocked)
            && (code != 0 && code != 2 ==> r.tasks[c].state == t.tasks[c].state)
            && r.tasks[c].(state := t.tasks[c].state) == t.tasks[c]
  {
  }

  /** `execve` starts the caller afresh at the entry point, with the identity and priority it had. */
  lemma ExecveExact(t: Table, entry: int)
    requires Wf(t) && 0 <= t.currentTask
    ensures var r, c := Execve(t, entry), t.currentTask;
            && Shape(r) && SameCounters(r, t) && OtherRowsSame(r, t, c)
            && r.tasks[c].cpu == CpuState(0, 0, 0, 0, entry, 0) && r.tasks[c].state == Ready
            && r.tasks[c].priority == t.tasks[c].priority && SameIdentity(r.tasks[c], t.tasks[c])
  {
    ExecveRow(t, entry);
  }

  /**
   One scan: every row is as the scan saw it, but the task selected is Running; the count of
   scans goes up by one and no other counter changes.
   */
  lemma ScheduleExact(t: Table, frame: CpuState)
    requires Rows(t) && t.numTasks > 0 && (t.currentTask == -1 ==> Wf(t))
    ensures var r := Schedule(t, frame);
            && 0 <= r.currentTask < t.numTasks
            && r.interruptCount == t.interruptCount + 1
            && r.numTasks == t.numTasks && r.agingPid == t.agingPid && r.nextPid == t.nextPid
            && (forall i :: 0 <= i < MAX_TASKS && i != r.currentTask ==> r.tasks[i] == Seen(t, frame, i))
            && r.tasks[r.currentTask] == Seen(t, frame, r.currentTask).(state := Running)
  {
    ScheduleKeepsWf(t, frame);
    forall i | 0 <= i < MAX_TASKS
      ensures BeforeScan(t, frame).tasks[i] == Seen(t, frame, i)
    {
      BeforeScanRow(t, frame, i);
    }
  }

  /** The registers resumed are those the selected task had saved; for the current task, the frame just saved. */
  lemma ResumesSavedFrame(t: Table, frame: CpuState)
    requires Rows(t) && t.numTasks > 0 && (t.currentTask == -1 ==> Wf(t))
    ensures var r := Schedule(t, frame);
            && 0 <= r.currentTask < t.numTasks
            && r.tasks[r.currentTask].cpu == if r.currentTask == t.currentTask then frame else t.tasks[r.currentTask].cpu
  {
    ScheduleExact(t, frame);
  }

  // ----- the counters -----

  /** How often a step runs the scheduler. */
  function Scans(t: Table, s: Step): nat
    requires Legal(t, s)
  {
    match s
    case TimerStep(_) => if t.numTasks > 0 then 1 else 0
    case WaitpidStep(pid, _) => if 0 <= pid < t.numTasks && t.tasks[pid].state != Terminated then 1 else 0
    case ExitStep(_) => 1
    case _ => 0
  }

  /** Rows a step adds. */
  function NewRows(t: Table, s: Step): nat
    requires Legal(t, s)
  {
    if (s.AddTaskStep? || s.ForkStep?) && t.numTasks < 256 then 1 else 0
  }

  /** The interrupt count counts scans, numTasks counts rows, and only `set_aging` names another target. */
  lemma StepCounts(t: Table, s: Step)
    requires Wf(t) && Legal(t, s)
    ensures var r := Apply(t, s);
            && r.interruptCount == t.interruptCount + Scans(t, s)
            && r.numTasks == t.numTasks + NewRows(t, s)
            && r.agingPid == if s.SetAgingStep? then s.pid else t.agingPid
  {
    match s
    case TimerStep(frame) =>
    case WaitpidStep(pid, frame) => MustBlockIff(t, pid);
    case _ =>
  }

  function TotalScans(t: Table, steps: seq<Step>): nat
    requires LegalRun(t, steps)
    decreases |steps|
  {
    if steps == [] then 0 else Scans(t, steps[0]) + TotalScans(Apply(t, steps[0]), steps[1..])
  }

  lemma {:induction false} RunCounts(t: Table, steps: seq<Step>)
    requires Wf(t) && LegalRun(t, steps)
    ensures Run(t, steps).interruptCount == t.interruptCount + TotalScans(t, steps)
    decreases |steps|
  {
    if steps != [] {
      StepCounts(t, steps[0]);
      StepKeepsWf(t, steps[0]);
      RunCounts(Apply(t, steps[0]), steps[1..]);
    }
  }

  /** From the constructor on, the interrupt count is the number of scans so far. */
  lemma CountFromBoot(t: Table, steps: seq<Step>)
    requires Boot(t) && LegalRun(t, steps)
    ensures Run(t, steps).interruptCount == TotalScans(t, steps)
  {
    BootIsWf(t);
    RunCounts(t, steps);
  }

  // ----- what lasts -----

  /** A task's priority changes only when it sets it, or when it ages. */
  ghost predicate ChangesPriority(t: Table, s: Step, i: int)
    requires Legal(t, s)
  {
    || (s.SetPriorityStep? && i == t.currentTask)
    || (Scans(t, s) == 1 && t.interruptCount == 20 && i == U32(t.agingPid))
  }

  lemma ScanKeepsValues(t: Table, frame: CpuState, i: int)
    requires Wf(t) && t.numTasks > 0 && 0 <= i < t.numTasks
    ensures Schedule(t, frame).tasks[i].eaxValue == t.tasks[i].eaxValue
    ensures !(t.interruptCount == 20 && i == U32(t.agingPid)) ==>
              Schedule(t, frame).tasks[i].priority == t.tasks[i].priority
  {
    ScheduleExact(t, frame);
    AgedIs(t, i);
  }

  lemma PriorityLasts(t: Table, s: Step, i: int)
    requires Wf(t) && Legal(t, s) && 0 <= i < t.numTasks && !ChangesPriority(t, s, i)
    ensures Apply(t, s).tasks[i].priority == t.tasks[i].priority
  {
    match s
    case AddTaskStep(task) => AddTaskExact(t, task);
    case ForkStep(frame) => ForkExact(t, frame);
    case TimerStep(frame) =>
      if t.numTasks > 0 {
        ScanKeepsValues(t, frame, i);
      }
    case WaitpidStep(pid, frame) =>
      MustBlockIff(t, pid);
      if MustBlock(t, pid) {
        AwaitKeepsWf(t, pid);
        ScanKeepsValues(Await(t, pid), frame, i);
      }
    case ExitStep(frame) =>
      EndedKeepsWf(t);
      ScanKeepsValues(Ended(t), frame, i);
    case ExecveStep(entry) => ExecveExact(t, entry);
    case _ =>
  }

  ghost predicate PriorityUntouched(t: Table, steps: seq<Step>, i: int)
    requires LegalRun(t, steps)
    decreases |steps|
  {
    steps == [] || (!ChangesPriority(t, steps[0], i) && PriorityUntouched(Apply(t, steps[0]), steps[1..], i))
  }

  lemma {:induction false} RunKeepsPriority(t: Table, steps: seq<Step>, i: int)
    requires Wf(t) && LegalRun(t, steps) && 0 <= i < t.numTasks && PriorityUntouched(t, steps, i)
    ensures Run(t, steps).tasks[i].priority == t.tasks[i].priority
    decreases |steps|
  {
    if steps != [] {
      PriorityLasts(t, steps[0], i);
      StepKeepsWf(t, steps[0]);
      RunKeepsPriority(Apply(t, steps[0]), steps[1..], i);
    }
  }

  ghost predicate Forks(t: Table, s: Step, i: int) {
    s.ForkStep? && i == t.currentTask
  }

  /** The value for the double return of `fork` changes only when the task itself forks. */
  lemma ForkValueLasts(t: Table, s: Step, i: int)
    requires Wf(t) && Legal(t, s) && 0 <= i < t.numTasks && !Forks(t, s, i)
    ensures Apply(t, s).tasks[i].eaxValue == t.tasks[i].eaxValue
  {
    match s
    case AddTaskStep(task) => AddTaskExact(t, task);
    case ForkStep(frame) => ForkExact(t, frame);
    case TimerStep(frame) =>
      if t.numTasks > 0 {
        ScanKeepsValues(t, frame, i);
      }
    case WaitpidStep(pid, frame) =>
      if MustBlock(t, pid) {
        AwaitKeepsWf(t, pid);
        ScanKeepsValues(Await(t, pid), frame, i);
      }
    case ExitStep(frame) =>
      EndedKeepsWf(t);
      ScanKeepsValues(Ended(t), frame, i);
    case ExecveStep(entry) => ExecveExact(t, entry);
    case _ =>
  }

  ghost predicate NoForkBy(t: Table, steps: seq<Step>, i: int)
    requires LegalRun(t, steps)
    decreases |steps|
  {
    steps == [] || (!Forks(t, steps[0], i) && NoForkBy(Apply(t, steps[0]), steps[1..], i))
  }

  lemma {:induction false} RunKeepsForkValue(t: Table, steps: seq<Step>, i: int)
    requires Wf(t) && LegalRun(t, steps) && 0 <= i < t.numTasks && NoForkBy(t, steps, i)
    ensures Run(t, steps).tasks[i].eaxValue == t.tasks[i].eaxValue
    decreases |steps|
  {
    if steps != [] {
      ForkValueLasts(t, steps[0], i);
      StepKeepsWf(t, steps[0]);
      RunKeepsForkValue(Apply(t, steps[0]), steps[1..], i);
    }
  }

  /** Once a task has been selected there is always a current one. */
  lemma StepKeepsCurrent(t: Table, s: Step)
    requires Wf(t) && Legal(t, s) && 0 <= t.currentTask
    ensures 0 <= Apply(t, s).currentTask
  {
    match s
    case TimerStep(frame) =>
      if t.numTasks > 0 {
        ScheduleKeepsWf(t, frame);
      }
    case WaitpidStep(pid, frame) =>
      if MustBlock(t, pid) {
        AwaitKeepsWf(t, pid);
        ScheduleKeepsWf(Await(t, pid), frame);
      }
    case ExitStep(frame) =>
      EndedKeepsWf(t);
      ScheduleKeepsWf(Ended(t), frame);
    case _ =>
  }
}
