/** The task manager, updating the process table in place. */
module TaskManager {
  import opened Machine
  import opened TaskTable
  import opened TaskRuns

  class TaskManager {
    const tasks: array<Task>
    var numTasks: int
    var currentTask: int
    var interruptCount: int
    var agingPid: int
    var nextPid: int

    function View(): Table
      reads this, tasks
    {
      Table(tasks[..], numTasks, currentTask, interruptCount, agingPid, nextPid)
    }

    ghost predicate Valid()
      reads this, tasks
    {
      Wf(View())
    }

    /** `eax_value` starts as whatever is in memory. */
    constructor (garbage: int)
      ensures Valid() && Boot(View()) && fresh(tasks)
    {
      tasks := new Task[MAX_TASKS](_ => Task(CpuState(0, 0, 0, 0, 0, 0), garbage, U32(-1), U32(-1), -1, Ready, U32(-1)));
      numTasks, currentTask, interruptCount, agingPid, nextPid := 0, -1, 0, -1, 0;
      new;
      BootIsWf(View());
    }

    /** Also fills in the caller's task record, as the source does. */
    method AddTask(task: Task) returns (ok: bool, filled: Task)
      requires Valid()
      modifies this, tasks
      ensures Valid() && View() == TaskTable.AddTask(old(View()), task)
      ensures ok <==> old(numTasks) < MAX_TASKS
      ensures filled == if ok then task.(pid := old(nextPid), ppid := NOBODY, priority := -1, state := Ready) else task
    {
      filled := task;
      AddTaskExact(View(), task);
      if numTasks >= MAX_TASKS {
        return false, task;
      }
      filled := filled.(pid := nextPid);
      filled := filled.(ppid := U32(-1));
      filled := filled.(priority := -1);
      filled := filled.(state := Ready);
      tasks[numTasks] := tasks[numTasks].(pid := filled.pid);
      tasks[numTasks] := tasks[numTasks].(ppid := filled.ppid);
      tasks[numTasks] := tasks[numTasks].(state := filled.state);
      tasks[numTasks] := tasks[numTasks].(cpu := task.cpu);
      numTasks := numTasks + 1;
      nextPid := U32(nextPid + 1);
      ok := true;
    }

    /** Returns the caller's registers, whose eax receives the child's pid. */
    method Fork(parentState: CpuState) returns (after: CpuState)
      requires Valid() && 0 <= currentTask
      modifies this, tasks
      ensures Valid() && View() == TaskTable.Fork(old(View()), parentState)
      ensures after == if old(numTasks) < MAX_TASKS then parentState.(eax := old(numTasks)) else parentState
    {
      ghost var t := View();
      ForkExact(t, parentState);
      after := parentState;
      if numTasks >= MAX_TASKS {
        tasks[currentTask] := tasks[currentTask].(eaxValue := -1);
        return;
      }
      var child := numTasks;
      tasks[child] := CreateProcess(tasks[child], tasks[currentTask].cpu.eip, nextPid, tasks[currentTask].pid, -1);
      tasks[child] := tasks[child].(cpu := parentState);
      tasks[child] := tasks[child].(cpu := tasks[child].cpu.(eax := 0));
      after := after.(eax := tasks[child].pid);
      tasks[child] := tasks[child].(eaxValue := 0);
      assert tasks[..] == t.tasks[child := ForkChild(t, parentState)];
      tasks[currentTask] := tasks[currentTask].(eaxValue := I32(tasks[child].pid));
      numTasks := numTasks + 1;
      nextPid := U32(nextPid + 1);
    }

    method FindTaskByPID(pid: int) returns (index: int)
      requires Shape(View())
      ensures index == FindTaskByPid(View(), pid)
    {
      var i := 0;
      while i < numTasks
        invariant 0 <= i <= numTasks
        invariant FindTaskByPid(View(), pid) == FindFrom(tasks[..], numTasks, pid, i)
      {
        if tasks[i].pid == pid {
          return i;
        }
        i := i + 1;
      }
      return -1;
    }

    method Execve(entry: int) returns (frame: CpuState)
      requires Valid() && 0 <= currentTask
      modifies this, tasks
      ensures Valid() && View() == TaskTable.Execve(old(View()), entry)
      ensures frame == View().tasks[currentTask].cpu
    {
      StepKeepsWf(View(), ExecveStep(entry));
      var c := tasks[currentTask];
      tasks[currentTask] := CreateProcess(c, entry, c.pid, c.ppid, c.priority);
      frame := tasks[currentTask].cpu;
    }

    /** The restarting scan of `Schedule`: every improvement begins a new round after itself. */
    method Scan() returns (next: int)
      requires Shape(View()) && 0 < numTasks
      ensures next == Pick(View())
    {
      ghost var t := View();
      var highest := LOWEST_PRIORITY;
      next := currentTask;
      var startIndex := Remainder(next + 1, numTasks);
      ghost var best: int := -1;
      var i := 0;
      while i < numTasks
        invariant 0 <= i <= numTasks && Leads(t, best, i, highest)
        invariant next == Chosen(t, best) && startIndex == Wrapped(next + 1, numTasks) && 0 <= startIndex < numTasks
        decreases numTasks - best, numTasks - i
      {
        var idx := Remainder(startIndex + i, numTasks);
        ScanStep(t, best, i, highest, idx);
        if Better(tasks[idx], highest) {
          highest := tasks[idx].priority;
          next := idx;
          best := Place(t, best, i);
          i := -1;
          startIndex := Remainder(next + 1, numTasks);
        }
        i := i + 1;
      }
    }

    /** The waitpid part of `Schedule`. */
    method WakeWaiter()
      requires Shape(View())
      modifies tasks
      ensures View() == Wake(old(View()))
    {
      if currentTask >= 0 && tasks[currentTask].state == Terminated && tasks[currentTask].waiting != U32(-1) {
        var waitingIndex := FindTaskByPID(tasks[currentTask].waiting);
        if waitingIndex != -1 {
          tasks[waitingIndex] := tasks[waitingIndex].(state := Ready);
        }
      }
    }

    /** The aging part of `Schedule`. */
    method ApplyAging()
      requires Shape(View())
      modifies tasks
      ensures View() == Age(old(View()))
    {
      var index := FindTaskByPID(U32(agingPid));
      if interruptCount == AGING_TICK && index != -1 && tasks[index].state != Terminated {
        tasks[index] := tasks[index].(priority := 1);
      }
    }

    method Schedule(cpustate: CpuState) returns (resumed: CpuState)
      requires Rows(View()) && (currentTask == -1 ==> Valid())
      modifies this, tasks
      ensures View() == TaskTable.Schedule(old(View()), cpustate)
      ensures old(numTasks) <= 0 ==> resumed == cpustate
      ensures old(numTasks) > 0 ==> Valid() && 0 <= currentTask && resumed == View().tasks[currentTask].cpu
    {
      if numTasks <= 0 {
        return cpustate;
      }
      ghost var t := View();
      ScheduleKeepsWf(t, cpustate);
      if currentTask >= 0 {
        tasks[currentTask] := tasks[currentTask].(cpu := cpustate);
      }
      WakeWaiter();
      ApplyAging();
      assert View() == BeforeScan(t, cpustate);
      var next := Scan();
      currentTask := next;
      tasks[currentTask] := tasks[currentTask].(state := Running);
      interruptCount := interruptCount + 1;
      resumed := tasks[currentTask].cpu;
    }

    /** `nested` is the frame that the software interrupt inside `waitpid` pushes. */
    method Waitpid(pid: int, nested: CpuState) returns (result: int, switched: bool, resumed: CpuState)
      requires Valid() && 0 <= currentTask
      modifies this, tasks
      ensures Valid() && 0 <= currentTask && View() == TaskTable.Waitpid(old(View()), pid, nested)
      ensures result == if 0 <= pid < old(numTasks) then 0 else -1
      ensures switched <==> MustBlock(old(View()), pid)
      ensures resumed == if switched then View().tasks[currentTask].cpu else nested
    {
      ghost var t := View();
      FindPid(t, pid);
      result, switched, resumed := 0, false, nested;
      var index := FindTaskByPID(pid);
      if index == -1 {
        return -1, false, nested;
      }
      if tasks[index].state == Terminated {
        return 0, false, nested;
      }
      AwaitKeepsWf(t, pid);
      tasks[currentTask] := tasks[currentTask].(state := Blocked);
      tasks[index] := tasks[index].(waiting := tasks[currentTask].pid);
      assert View() == Await(t, pid);
      resumed := Schedule(nested);
      switched := true;
    }

    method Exit(nested: CpuState) returns (resumed: CpuState)
      requires Valid() && 0 <= currentTask
      modifies this, tasks
      ensures Valid() && 0 <= currentTask && View() == TaskTable.Exit(old(View()), nested)
      ensures resumed == View().tasks[currentTask].cpu
    {
      ghost var t := View();
      EndedKeepsWf(t);
      tasks[currentTask] := tasks[currentTask].(state := Terminated);
      ghost var marked := tasks[..];
      var pid := tasks[currentTask].pid;
      var i := 0;
      while i < numTasks
        invariant 0 <= i <= numTasks
        invariant tasks[..] == WakeWaiting(marked, i, pid)
        invariant tasks[currentTask].pid == pid
        modifies tasks
      {
        if tasks[i].waiting == tasks[currentTask].pid && tasks[i].state == Blocked {
          tasks[i] := tasks[i].(state := Ready);
        }
        i := i + 1;
      }
      assert View() == Ended(t);
      resumed := Schedule(nested);
    }

    method SetCurrentTaskPriority(priority: int)
      requires Valid() && 0 <= currentTask
      modifies tasks
      ensures Valid() && View() == SetPriority(old(View()), priority)
    {
      StepKeepsWf(View(), SetPriorityStep(priority));
      tasks[currentTask] := tasks[currentTask].(priority := priority);
    }

    method SetCurrentTaskState(state: State)
      requires Valid() && 0 <= currentTask && (state == Ready || state == Blocked)
      modifies tasks
      ensures Valid() && View() == SetState(old(View()), if state == Ready then 0 else 2)
    {
      StepKeepsWf(View(), SetStateStep(if state == Ready then 0 else 2));
      tasks[currentTask] := tasks[currentTask].(state := state);
    }

    method SetAgingPid(pid: int)
      requires Valid()
      modifies this`agingPid
      ensures Valid() && View() == old(View()).(agingPid := pid)
    {
      agingPid := pid;
    }
  }

  // ----- the scan -----

  /** The test of the scan. */
  predicate Better(task: Task, highest: int) {
    task.state != Blocked && task.state != Terminated && task.priority < highest
  }

  function Wrapped(x: int, n: int): int {
    if x < n then x else x - n
  }

  /** `x % n` as the scheduler uses it: the dividend is less than twice the divisor. */
  method Remainder(x: int, n: int) returns (r: int)
    requires 0 <= x < 2 * n
    ensures r == Wrapped(x, n) && 0 <= r < n
  {
    r := x % n;
  }

  /** Where the scan looks next: i + 1 places after place `best`, cyclically. */
  function Place(t: Table, best: int, i: nat): (k: nat)
    requires Shape(t) && -1 <= best < t.numTasks && i < t.numTasks
    ensures k < t.numTasks
  {
    if best + 1 + i < t.numTasks then best + 1 + i else best + 1 + i - t.numTasks
  }

  /** The task selected so far: that at place `best`, or at first the current one. */
  function Chosen(t: Table, best: int): (i: int)
    requires Shape(t) && -1 <= best < t.numTasks
    ensures -1 <= i < t.numTasks
  {
    if best == -1 then t.currentTask else At(t, best)
  }

  /** The scan starts over just after the task selected, and place by place goes up the indices. */
  lemma PlaceIsIndex(t: Table, best: int, i: nat)
    requires Shape(t) && -1 <= best < t.numTasks && i < t.numTasks
    ensures At(t, Place(t, best, i)) == Wrapped(Wrapped(Chosen(t, best) + 1, t.numTasks) + i, t.numTasks)
  {
  }

  /** How many places of the cycle have been looked at once the scan is i places after `best`. */
  function Passed(t: Table, best: int, i: nat): (k: nat)
    requires Shape(t) && -1 <= best < t.numTasks
    ensures k <= t.numTasks
  {
    if best + 1 + i < t.numTasks then best + 1 + i else t.numTasks
  }

  /** Invariant of the scan: `best` (or -1) is what a single pass over the places passed would have found. */
  ghost predicate Leads(t: Table, best: int, i: nat, highest: int) {
    && Shape(t) && -1 <= best < t.numTasks && Best(t, Passed(t, best, i)) == best
    && highest == if best == -1 then LOWEST_PRIORITY else t.tasks[At(t, best)].priority
  }

  /** One iteration: places already passed never win again, so a restart always moves forward. */
  lemma LeadsStep(t: Table, best: int, i: nat, highest: int)
    requires Leads(t, best, i, highest) && i < t.numTasks
    ensures var k := Place(t, best, i);
            var task := t.tasks[At(t, k)];
            if Better(task, highest) then
              best < k && Leads(t, k, 0, task.priority)
            else
              Leads(t, best, i + 1, highest)
  {
    BestSpec(t, Passed(t, best, i));
  }

  /** The same iteration at the index the loop computes. */
  lemma ScanStep(t: Table, best: int, i: nat, highest: int, idx: int)
    requires Leads(t, best, i, highest) && i < t.numTasks
    requires idx == Wrapped(Wrapped(Chosen(t, best) + 1, t.numTasks) + i, t.numTasks)
    ensures 0 <= idx < t.numTasks
    ensures Better(t.tasks[idx], highest) ==>
              var k := Place(t, best, i);
              best < k && Leads(t, k, 0, t.tasks[idx].priority) && Chosen(t, k) == idx
    ensures !Better(t.tasks[idx], highest) ==> Leads(t, best, i + 1, highest)
  {
    PlaceIsIndex(t, best, i);
    LeadsStep(t, best, i, highest);
  }
}
