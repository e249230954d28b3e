/**
 System calls: the number in eax, the argument in ebx and the register of the answer, as the library
 wrappers use them, and the handler that dispatches them in place.
 */
module SystemCalls {
  import opened Machine
  import opened TaskTable
  import opened TaskRuns
  import opened TaskEffects
  import opened WaitRuns
  import M = TaskManager

  const SYS_FORK := 2
  const SYS_GETPID := 3
  const SYS_DOUBLE_RETURN := 5
  const SYS_WAITPID := 6
  const SYS_EXIT := 7
  const SYS_EXECVE := 8
  const SYS_SET_PRIORITY := 9
  const SYS_INTRPT_COUNT := 10
  const SYS_ADD_AGING := 11
  const SYS_GET_PRIORITY := 12
  const SYS_SET_STATE := 13

  datatype Request = Transition(step: Step) | Query

  /** The transition a system call asks for; every other number leaves the table alone. */
  function Decode(cpu: CpuState, nested: CpuState): Request {
    if cpu.eax == SYS_FORK then Transition(ForkStep(cpu))
    else if cpu.eax == SYS_WAITPID then Transition(WaitpidStep(cpu.ebx, nested))
    else if cpu.eax == SYS_EXIT then Transition(ExitStep(nested))
    else if cpu.eax == SYS_EXECVE then Transition(ExecveStep(cpu.ebx))
    else if cpu.eax == SYS_SET_PRIORITY then Transition(SetPriorityStep(I32(cpu.ebx)))
    else if cpu.eax == SYS_ADD_AGING then Transition(SetAgingStep(I32(cpu.ebx)))
    else if cpu.eax == SYS_SET_STATE then Transition(SetStateStep(cpu.ebx))
    else Query
  }

  /** What a read-only system call answers, in the register its library wrapper reads. */
  function Answer(t: Table, cpu: CpuState): CpuState
    requires Shape(t) && 0 <= t.currentTask
  {
    var task := t.tasks[t.currentTask];
    if cpu.eax == SYS_DOUBLE_RETURN then cpu.(ebx := U32(task.eaxValue))
    else if cpu.eax == SYS_GETPID then cpu.(ecx := task.pid)
    else if cpu.eax == SYS_GET_PRIORITY then cpu.(edx := U32(task.priority))
    else if cpu.eax == SYS_INTRPT_COUNT then cpu.(edx := U32(t.interruptCount))
    else cpu
  }

  /** The registers with which the processor goes on after a transition from t to u. */
  function Resumed(t: Table, s: Step, u: Table, cpu: CpuState): CpuState
    requires Shape(t) && Shape(u) && 0 <= u.currentTask
  {
    match s
    case ForkStep(_) => if t.numTasks < MAX_TASKS then cpu.(eax := U32(t.nextPid)) else cpu
    case WaitpidStep(pid, _) => if MustBlock(t, pid) then u.tasks[u.currentTask].cpu else cpu
    case ExitStep(_) => u.tasks[u.currentTask].cpu
    case ExecveStep(_) => u.tasks[u.currentTask].cpu
    case _ => cpu
  }

  /** The table and the registers after a system call made with registers cpu. */
  function Serve(t: Table, cpu: CpuState, nested: CpuState): (r: (Table, CpuState))
    requires Wf(t) && 0 <= t.currentTask
    ensures Wf(r.0) && 0 <= r.0.currentTask
  {
    match Decode(cpu, nested)
    case Query => (t, Answer(t, cpu))
    case Transition(step) =>
      StepKeepsWf(t, step);
      StepKeepsCurrent(t, step);
      var u := Apply(t, step);
      (u, Resumed(t, step, u, cpu))
  }

  // ----- what each call number does, in terms of its registers -----

  /** Call 3, `getpid`: ecx receives the pid by which the caller is found, and nothing else happens. */
  lemma GetPidCall(t: Table, cpu: CpuState, nested: CpuState)
    requires Wf(t) && 0 <= t.currentTask && cpu.eax == 3
    ensures var r := Serve(t, cpu, nested).1;
            && Serve(t, cpu, nested).0 == t && r.(ecx := cpu.ecx) == cpu
            && FindTaskByPid(t, r.ecx) == t.currentTask
  {
    assert Issued(t.tasks[t.currentTask], t.currentTask, t.numTasks);
    FindPid(t, t.currentTask);
  }

  /**
   Call 2, `fork`, with room: eax receives a pid nobody had, by which one more task is found. That task
   has the caller's registers with eax 0, and the caller as its parent; no other register changes.
   With a full table no register changes and no task is added.
   */
  lemma ForkCall(t: Table, cpu: CpuState, nested: CpuState)
    requires Wf(t) && 0 <= t.currentTask && cpu.eax == 2
    ensures var u, r := Serve(t, cpu, nested).0, Serve(t, cpu, nested).1;
            && u.currentTask == t.currentTask
            && (t.numTasks < 256 ==>
                  var child := FindTaskByPid(u, r.eax);
                  && r.(eax := cpu.eax) == cpu && FindTaskByPid(t, r.eax) == -1
                  && u.numTasks == t.numTasks + 1 && child == t.numTasks
                  && u.tasks[child].cpu == cpu.(eax := 0) && u.tasks[child].state == Ready
                  && FindTaskByPid(u, u.tasks[child].ppid) == t.currentTask)
            && (t.numTasks == 256 ==>
                  && r == cpu && SameCounters(u, t) && OtherRowsSame(u, t, t.currentTask)
                  && u.tasks[t.currentTask].(eaxValue := t.tasks[t.currentTask].eaxValue) == t.tasks[t.currentTask])
  {
    ForkExact(t, cpu);
    var u := Fork(t, cpu);
    FindPid(t, t.numTasks);
    FindPid(u, t.numTasks);
    FindPid(u, t.currentTask);
  }

  /**
   Call 5, the double return: after any run in which the task did not fork again, ebx receives 0 in the
   child of the fork and the child's pid in its parent. Nothing else happens.
   */
  lemma DoubleReturnCall(t: Table, cpu: CpuState, nested: CpuState, steps: seq<Step>, me: int,
                         ask: CpuState, frame: CpuState)
    requires Wf(t) && 0 <= t.currentTask && cpu.eax == 2 && t.numTasks < 256
    requires me == t.currentTask || me == t.numTasks
    requires LegalRun(Serve(t, cpu, nested).0, steps) && NoForkBy(Serve(t, cpu, nested).0, steps, me)
    requires Run(Serve(t, cpu, nested).0, steps).currentTask == me && ask.eax == 5
    ensures Wf(Run(Serve(t, cpu, nested).0, steps))
    ensures var u := Run(Serve(t, cpu, nested).0, steps);
            var answer := if me == t.currentTask then Serve(t, cpu, nested).1.eax else 0;
            Serve(u, ask, frame) == (u, ask.(ebx := answer))
  {
    ForkExact(t, cpu);
    var u := Fork(t, cpu);
    RunKeepsWf(u, steps);
    RunKeepsForkValue(u, steps, me);
  }

  /** After a `fork` that failed, the double return is -1 as a 32-bit word. */
  lemma FailedForkCall(t: Table, cpu: CpuState, nested: CpuState, steps: seq<Step>, ask: CpuState, frame: CpuState)
    requires Wf(t) && 0 <= t.currentTask && cpu.eax == 2 && t.numTasks == 256
    requires LegalRun(Serve(t, cpu, nested).0, steps) && NoForkBy(Serve(t, cpu, nested).0, steps, t.currentTask)
    requires Run(Serve(t, cpu, nested).0, steps).currentTask == t.currentTask && ask.eax == 5
    ensures Wf(Run(Serve(t, cpu, nested).0, steps))
    ensures var u := Run(Serve(t, cpu, nested).0, steps); Serve(u, ask, frame) == (u, ask.(ebx := 0xFFFF_FFFF))
  {
    ForkExact(t, cpu);
    var u := Fork(t, cpu);
    RunKeepsWf(u, steps);
    RunKeepsForkValue(u, steps, t.currentTask);
  }

  /** The 32-bit word w read as a signed number. */
  ghost predicate SignedWord(n: int, w: int) {
    -0x8000_0000 <= n < 0x8000_0000 && 0 <= w < 0x1_0000_0000 && (n == w || n == w - 0x1_0000_0000)
  }

  lemma WordToSigned(w: int)
    requires IsU32(w)
    ensures SignedWord(I32(w), w) && U32(I32(w)) == w
  {
  }

  lemma SignedToWord(n: int)
    requires IsI32(n)
    ensures SignedWord(n, U32(n))
  {
  }

  /** Call 9, `set_priority`: the caller's priority becomes ebx, read as signed, and nothing else changes. */
  lemma SetPriorityCall(t: Table, cpu: CpuState, nested: CpuState)
    requires Wf(t) && 0 <= t.currentTask && cpu.eax == 9 && IsU32(cpu.ebx)
    ensures var u, c := Serve(t, cpu, nested).0, t.currentTask;
            && Serve(t, cpu, nested).1 == cpu && SameCounters(u, t) && OtherRowsSame(u, t, c)
            && SignedWord(u.tasks[c].priority, cpu.ebx)
            && u.tasks[c].(priority := t.tasks[c].priority) == t.tasks[c]
  {
    WordToSigned(cpu.ebx);
    SetPriorityExact(t, I32(cpu.ebx));
  }

  /**
   Call 12 gives back in edx what call 9 was given in ebx, after any run in which the caller neither set
   its priority again nor aged. Nothing else happens.
   */
  lemma GetPriorityCall(t: Table, cpu: CpuState, nested: CpuState, steps: seq<Step>, ask: CpuState, frame: CpuState)
    requires Wf(t) && 0 <= t.currentTask && cpu.eax == 9 && IsU32(cpu.ebx)
    requires LegalRun(Serve(t, cpu, nested).0, steps) && PriorityUntouched(Serve(t, cpu, nested).0, steps, t.currentTask)
    requires Run(Serve(t, cpu, nested).0, steps).currentTask == t.currentTask && ask.eax == 12
    ensures Wf(Run(Serve(t, cpu, nested).0, steps))
    ensures var u := Run(Serve(t, cpu, nested).0, steps); Serve(u, ask, frame) == (u, ask.(edx := cpu.ebx))
  {
    var u := Serve(t, cpu, nested).0;
    WordToSigned(cpu.ebx);
    SetPriorityExact(t, I32(cpu.ebx));
    RunKeepsWf(u, steps);
    RunKeepsPriority(u, steps, t.currentTask);
  }

  /** Call 10: edx receives the number of scans since the constructor, modulo 2^32. Nothing else happens. */
  lemma InterruptCountCall(t: Table, steps: seq<Step>, cpu: CpuState, nested: CpuState)
    requires Boot(t) && LegalRun(t, steps) && 0 <= Run(t, steps).currentTask && cpu.eax == 10
    ensures Wf(Run(t, steps))
    ensures var u := Run(t, steps);
            Serve(u, cpu, nested) == (u, cpu.(edx := TotalScans(t, steps) % 0x1_0000_0000))
  {
    BootIsWf(t);
    RunKeepsWf(t, steps);
    CountFromBoot(t, steps);
  }

  /** Call 11: the task found by the pid in ebx, if any, is the aging target; nothing else changes. */
  lemma SetAgingCall(t: Table, cpu: CpuState, nested: CpuState)
    requires Wf(t) && 0 <= t.currentTask && cpu.eax == 11 && IsU32(cpu.ebx)
    ensures var u := Serve(t, cpu, nested).0;
            && Serve(t, cpu, nested).1 == cpu && u.(agingPid := t.agingPid) == t && SignedWord(u.agingPid, cpu.ebx)
            && (forall i :: 0 <= i < MAX_TASKS ==>
                              (Aged(u, i) <==>
                               && t.interruptCount == 20 && i == FindTaskByPid(t, cpu.ebx)
                               && (t.tasks[i].state != Terminated || i == WakeTarget(t))))
  {
    WordToSigned(cpu.ebx);
    assert Serve(t, cpu, nested).0.tasks == t.tasks;
  }

  /** Call 13, `set_state`: 0 makes the caller Ready, 2 makes it Blocked, and other codes change nothing. */
  lemma SetStateCall(t: Table, cpu: CpuState, nested: CpuState)
    requires Wf(t) && 0 <= t.currentTask && cpu.eax == 13
    ensures var u, c := Serve(t, cpu, nested).0, t.currentTask;
            && Serve(t, cpu, nested).1 == cpu && SameCounters(u, t) && OtherRowsSame(u, t, c)
            && u.tasks[c].(state := t.tasks[c].state) == t.tasks[c]
            && u.tasks[c].state == if cpu.ebx == 0 then Ready else if cpu.ebx == 2 then Blocked else t.tasks[c].state
  {
    ServeSetState(t, cpu, nested);
    SetStateExact(t, cpu.ebx);
  }

  lemma ServeSetState(t: Table, cpu: CpuState, nested: CpuState)
    requires Wf(t) && 0 <= t.currentTask && cpu.eax == 13
    ensures Serve(t, cpu, nested) == (SetState(t, cpu.ebx), cpu)
  {
  }

  /** Call 8, `execve`: the caller goes on at the entry point in ebx with all other registers fresh. */
  lemma ExecveCall(t: Table, cpu: CpuState, nested: CpuState)
    requires Wf(t) && 0 <= t.currentTask && cpu.eax == 8
    ensures var u, r, c := Serve(t, cpu, nested).0, Serve(t, cpu, nested).1, t.currentTask;
            && r == CpuState(0, 0, 0, 0, cpu.ebx, 0) && u.tasks[c].cpu == r && u.tasks[c].state == Ready
            && SameCounters(u, t) && OtherRowsSame(u, t, c) && SameIdentity(u.tasks[c], t.tasks[c])
            && u.tasks[c].priority == t.tasks[c].priority
  {
    ExecveExact(t, cpu.ebx);
  }

  /** The processor went from task c to another one, with the registers that one had saved. */
  ghost predicate SwitchedTo(t: Table, u: Table, r: CpuState, c: int)
    requires Shape(t) && Shape(u)
  {
    u.currentTask != c && 0 <= u.currentTask < t.numTasks && r == t.tasks[u.currentTask].cpu
  }

  /**
   Call 6, `waitpid`: for a pid in ebx that no living task has, nothing happens. Else the caller waits and
   the processor goes on with the saved registers of another task, if one can run; if none can, the
   caller goes on from the nested interrupt.
   */
  lemma WaitpidCall(t: Table, cpu: CpuState, nested: CpuState)
    requires WaitInv(t) && 0 <= t.currentTask && cpu.eax == 6
    ensures var u, r, c := Serve(t, cpu, nested).0, Serve(t, cpu, nested).1, t.currentTask;
            if !Alive(t, cpu.ebx) then u == t && r == cpu
            else if OtherCanRun(t, -1) then
              WaitsFor(u, c, cpu.ebx) && u.tasks[c].cpu == nested && SwitchedTo(t, u, r, c)
            else u.currentTask == c && u.tasks[c].state == Running && r == nested
  {
    MustBlockIff(t, cpu.ebx);
    if MustBlock(t, cpu.ebx) {
      WaitpidSleepsIffRunnable(t, cpu.ebx, nested);
      WaitpidFrames(t, cpu.ebx, nested);
    }
  }

  /** The frames after a `waitpid` that has to wait: the caller's is saved, that of the task selected resumed. */
  lemma WaitpidFrames(t: Table, pid: int, nested: CpuState)
    requires Wf(t) && 0 <= t.currentTask && MustBlock(t, pid)
    ensures var u := Waitpid(t, pid, nested);
            && 0 <= u.currentTask < t.numTasks && u.tasks[t.currentTask].cpu == nested
            && (u.currentTask != t.currentTask ==> u.tasks[u.currentTask].cpu == t.tasks[u.currentTask].cpu)
  {
    AwaitKeepsWf(t, pid);
    ResumesSavedFrame(Await(t, pid), nested);
    SavesFrame(Await(t, pid), nested);
    AwaitKeepsFrames(t, pid);
  }

  lemma SavesFrame(t: Table, frame: CpuState)
    requires Wf(t) && 0 <= t.currentTask
    ensures Schedule(t, frame).tasks[t.currentTask].cpu == frame
  {
    ScheduleExact(t, frame);
  }

  lemma AwaitKeepsFrames(t: Table, pid: int)
    requires Wf(t) && 0 <= t.currentTask && MustBlock(t, pid)
    ensures forall i :: 0 <= i < MAX_TASKS ==> Await(t, pid).tasks[i].cpu == t.tasks[i].cpu
  {
  }

  /**
   Call 7, `exit`: the caller ends and the processor goes on with the saved registers of another task, if
   one can run once the caller's waiter is awake; if none can, the caller goes on from the nested interrupt.
   */
  lemma ExitCall(t: Table, cpu: CpuState, nested: CpuState)
    requires WaitInv(t) && 0 <= t.currentTask && cpu.eax == 7
    ensures var u, r, c := Serve(t, cpu, nested).0, Serve(t, cpu, nested).1, t.currentTask;
            if OtherCanRun(t, t.tasks[c].waiting) then
              u.tasks[c].state == Terminated && u.tasks[c].cpu == nested && SwitchedTo(t, u, r, c)
            else u.currentTask == c && u.tasks[c].state == Running && r == nested
  {
    ServeExit(t, cpu, nested);
    ExitEndsIffRunnable(t, nested);
    ExitFrames(t, nested);
  }

  lemma ServeExit(t: Table, cpu: CpuState, nested: CpuState)
    requires Wf(t) && 0 <= t.currentTask && cpu.eax == 7
    ensures var u := Exit(t, nested);
            0 <= u.currentTask < t.numTasks && Serve(t, cpu, nested) == (u, u.tasks[u.currentTask].cpu)
  {
    assert Serve(t, cpu, nested).0 == Exit(t, nested);
  }

  lemma ExitFrames(t: Table, nested: CpuState)
    requires WaitInv(t) && 0 <= t.currentTask
    ensures var u := Exit(t, nested);
            && 0 <= u.currentTask < t.numTasks && u.tasks[t.currentTask].cpu == nested
            && (u.currentTask != t.currentTask ==> u.tasks[u.currentTask].cpu == t.tasks[u.currentTask].cpu)
  {
    ExitLoopIsIdle(t);
    ResumesSavedFrame(Ended(t), nested);
    SavesFrame(Ended(t), nested);
  }

  /** Every other number, that of the process table's printout among them, changes nothing. */
  lemma OtherCall(t: Table, cpu: CpuState, nested: CpuState)
    requires Wf(t) && 0 <= t.currentTask && (cpu.eax < 2 || cpu.eax == 4 || 13 < cpu.eax)
    ensures Serve(t, cpu, nested) == (t, cpu)
  {
  }

  class SyscallHandler {
    const taskManager: M.TaskManager

    constructor (tm: M.TaskManager)
      ensures taskManager == tm
    {
      taskManager := tm;
    }

    method HandleInterrupt(cpu: CpuState, nested: CpuState) returns (resumed: CpuState)
      requires taskManager.Valid() && 0 <= taskManager.currentTask
      modifies taskManager, taskManager.tasks
      ensures taskManager.Valid() && 0 <= taskManager.currentTask
      ensures (taskManager.View(), resumed) == Serve(old(taskManager.View()), cpu, nested)
    {
      if cpu.eax in {SYS_FORK, SYS_EXECVE} {
        resumed := HandleProcess(cpu);
      } else if cpu.eax in {SYS_WAITPID, SYS_EXIT} {
        resumed := HandleSwitch(cpu, nested);
      } else {
        resumed := HandleSmall(cpu);
      }
    }

    /** The system calls that create or replace a process. */
    method HandleProcess(cpu: CpuState) returns (resumed: CpuState)
      requires taskManager.Valid() && 0 <= taskManager.currentTask
      requires cpu.eax in {SYS_FORK, SYS_EXECVE}
      modifies taskManager, taskManager.tasks
      ensures taskManager.Valid() && 0 <= taskManager.currentTask
      ensures var step := Decode(cpu, cpu).step;
              && taskManager.View() == Apply(old(taskManager.View()), step)
              && resumed == Resumed(old(taskManager.View()), step, taskManager.View(), cpu)
    {
      if cpu.eax == SYS_FORK {
        resumed := taskManager.Fork(cpu);
      } else {
        resumed := taskManager.Execve(cpu.ebx);
      }
    }

    /** The system calls that give up the processor. */
    method HandleSwitch(cpu: CpuState, nested: CpuState) returns (resumed: CpuState)
      requires taskManager.Valid() && 0 <= taskManager.currentTask
      requires cpu.eax in {SYS_WAITPID, SYS_EXIT}
      modifies taskManager, taskManager.tasks
      ensures taskManager.Valid() && 0 <= taskManager.currentTask
      ensures var step := Decode(cpu, nested).step;
              && taskManager.View() == Apply(old(taskManager.View()), step)
              && resumed == Resumed(old(taskManager.View()), step, taskManager.View(), cpu)
    {
      resumed := cpu;
      if cpu.eax == SYS_WAITPID {
        var result, switched, next := taskManager.Waitpid(cpu.ebx, nested);
        if switched {
          resumed := next;
        }
      } else {
        resumed := taskManager.Exit(nested);
      }
    }

    /** The system calls that neither create, switch nor replace a process. */
    method HandleSmall(cpu: CpuState) returns (resumed: CpuState)
      requires taskManager.Valid() && 0 <= taskManager.currentTask
      requires cpu.eax !in {SYS_FORK, SYS_WAITPID, SYS_EXIT, SYS_EXECVE}
      modifies taskManager, taskManager.tasks
      ensures taskManager.Valid() && 0 <= taskManager.currentTask
      ensures match Decode(cpu, cpu)
              case Transition(step) =>
                && taskManager.View() == Apply(old(taskManager.View()), step)
                && resumed == cpu
              case Query =>
                && taskManager.View() == old(taskManager.View())
                && resumed == Answer(taskManager.View(), cpu)
    {
      resumed := cpu;
      if cpu.eax == SYS_DOUBLE_RETURN {
        resumed := cpu.(ebx := U32(taskManager.tasks[taskManager.currentTask].eaxValue));
      } else if cpu.eax == SYS_GETPID {
        resumed := cpu.(ecx := taskManager.tasks[taskManager.currentTask].pid);
      } else if cpu.eax == SYS_SET_PRIORITY {
        taskManager.SetCurrentTaskPriority(I32(cpu.ebx));
      } else if cpu.eax == SYS_GET_PRIORITY {
        resumed := cpu.(edx := U32(taskManager.tasks[taskManager.currentTask].priority));
      } else if cpu.eax == SYS_INTRPT_COUNT {
        resumed := cpu.(edx := U32(taskManager.interruptCount));
      } else if cpu.eax == SYS_ADD_AGING {
        taskManager.SetAgingPid(I32(cpu.ebx));
      } else if cpu.eax == SYS_SET_STATE {
        if cpu.ebx == 0 {
          taskManager.SetCurrentTaskState(Ready);
        }
        if cpu.ebx == 2 {
          taskManager.SetCurrentTaskState(Blocked);
        }
      }
    }
  }
}
