/**
 The process table and its transitions: one function for each entry point of the task
 manager, over the whole state of that manager. Class TaskManager refines them in place.
 */
module TaskTable {
  import opened Machine

  datatype State = Ready | Running | Blocked | Terminated

  /** The registers the kernel reads or writes; `rest` stands for the others, never inspected. */
  datatype CpuState = CpuState(eax: int, ebx: int, ecx: int, edx: int, eip: int, rest: int)

  datatype Task = Task(cpu: CpuState, eaxValue: int, pid: int, ppid: int, priority: int,
                       state: State, waiting: int)

  datatype Table = Table(tasks: seq<Task>, numTasks: int, currentTask: int,
                         interruptCount: int, agingPid: int, nextPid: int)

  /** `(uint32_t)-1`: no pid, no parent, no waiter. */
  const NOBODY := 0xFFFF_FFFF
  const MAX_TASKS := 256
  const LOWEST_PRIORITY := 255
  const AGING_TICK := 20

  ghost predicate Shape(t: Table) {
    |t.tasks| == MAX_TASKS && 0 <= t.numTasks <= MAX_TASKS && -1 <= t.currentTask < t.numTasks
  }

  function Update(t: Table, i: int, task: Task): Table
    requires 0 <= i < |t.tasks|
  {
    t.(tasks := t.tasks[i := task])
  }

  function CreateProcess(task: Task, entry: int, pid: int, ppid: int, priority: int): Task {
    task.(cpu := CpuState(0, 0, 0, 0, entry, 0), pid := U32(pid), ppid := U32(ppid),
    priority := priority, state := Ready)
  }

  function FindFrom(tasks: seq<Task>, n: int, pid: int, i: nat): (r: int)
    requires i <= n <= |tasks|
    ensures r == -1 || (i <= r < n && tasks[r].pid == pid)
    decreases n - i
  {
    if i == n then -1 else if tasks[i].pid == pid then i else FindFrom(tasks, n, pid, i + 1)
  }

  function FindTaskByPid(t: Table, pid: int): int
    requires Shape(t)
  {
    FindFrom(t.tasks, t.numTasks, pid, 0)
  }

  // ----- processes come and go -----

  function AddTask(t: Table, task: Task): Table
    requires Shape(t)
  {
    if t.numTasks >= MAX_TASKS then t
    else
      Update(t, t.numTasks,
             t.tasks[t.numTasks].(pid := t.nextPid, ppid := U32(-1), state := Ready, cpu := task.cpu))
      .(numTasks := t.numTasks + 1, nextPid := U32(t.nextPid + 1))
  }

  function ForkChild(t: Table, parent: CpuState): Task
    requires Shape(t) && 0 <= t.currentTask && t.numTasks < MAX_TASKS
  {
    CreateProcess(t.tasks[t.numTasks], t.tasks[t.currentTask].cpu.eip, t.nextPid, t.tasks[t.currentTask].pid, -1)
    .(cpu := parent.(eax := 0), eaxValue := 0)
  }

  function Fork(t: Table, parent: CpuState): Table
    requires Shape(t) && 0 <= t.currentTask
  {
    if t.numTasks >= MAX_TASKS then
      Update(t, t.currentTask, t.tasks[t.currentTask].(eaxValue := -1))
    else
      var child := ForkChild(t, parent);
      var t1 := Update(t, t.numTasks, child);
      Update(t1, t.currentTask, t1.tasks[t.currentTask].(eaxValue := I32(child.pid)))
      .(numTasks := t.numTasks + 1, nextPid := U32(t.nextPid + 1))
  }

  function Execve(t: Table, entry: int): Table
    requires Shape(t) && 0 <= t.currentTask
  {
    var c := t.tasks[t.currentTask];
    Update(t, t.currentTask, CreateProcess(c, entry, c.pid, c.ppid, c.priority))
  }

  // ----- the scheduler -----

  predicate Eligible(task: Task) {
    task.state != Blocked && task.state != Terminated && task.priority < LOWEST_PRIORITY
  }

  function SaveFrame(t: Table, frame: CpuState): Table
    requires Shape(t)
  {
    if t.currentTask >= 0 then Update(t, t.currentTask, t.tasks[t.currentTask].(cpu := frame)) else t
  }

  /** The task a terminated current task has to wake, or -1. */
  function WakeTarget(t: Table): int
    requires Shape(t)
  {
    if t.currentTask >= 0 && t.tasks[t.currentTask].state == Terminated
       && t.tasks[t.currentTask].waiting != NOBODY then
      FindTaskByPid(t, t.tasks[t.currentTask].waiting)
    else -1
  }

  function Wake(t: Table): Table
    requires Shape(t)
  {
    var w := WakeTarget(t);
    if w >= 0 then Update(t, w, t.tasks[w].(state := Ready)) else t
  }

  predicate AgingFires(t: Table)
    requires Shape(t)
  {
    var i := FindTaskByPid(t, U32(t.agingPid));
    t.interruptCount == AGING_TICK && i >= 0 && t.tasks[i].state != Terminated
  }

  function Age(t: Table): Table
    requires Shape(t)
  {
    if AgingFires(t) then
      var i := FindTaskByPid(t, U32(t.agingPid));
      Update(t, i, t.tasks[i].(priority := 1))
    else t
  }

  /** The table the scan of `Schedule` looks at. */
  function BeforeScan(t: Table, frame: CpuState): (r: Table)
    requires Shape(t)
    ensures Shape(r) && r.numTasks == t.numTasks && r.currentTask == t.currentTask
    ensures r.interruptCount == t.interruptCount && r.agingPid == t.agingPid && r.nextPid == t.nextPid
  {
    Age(Wake(SaveFrame(t, frame)))
  }

  /** Index of the task k places after the one that follows the current task, cyclically. */
  function At(t: Table, k: nat): (i: nat)
    requires Shape(t) && k < t.numTasks
    ensures i < t.numTasks
  {
    if t.currentTask + 1 + k < t.numTasks then t.currentTask + 1 + k else t.currentTask + 1 + k - t.numTasks
  }

  /** One cyclic pass: offset of the first task of least priority among the first k, or -1. */
  function Best(t: Table, k: nat): (o: int)
    requires Shape(t) && k <= t.numTasks
    ensures -1 <= o < k
  {
    if k == 0 then -1
    else
      var o, task := Best(t, k - 1), t.tasks[At(t, k - 1)];
      if Eligible(task) && (o == -1 || task.priority < t.tasks[At(t, o)].priority) then k - 1 else o
  }

  function Pick(t: Table): int
    requires Shape(t)
  {
    var o := Best(t, t.numTasks);
    if o == -1 then t.currentTask else At(t, o)
  }

  function Dispatch(t: Table): Table
    requires Shape(t)
  {
    var next := Pick(t);
    if next < 0 then t.(interruptCount := t.interruptCount + 1)
    else Update(t, next, t.tasks[next].(state := Running)).(currentTask := next, interruptCount := t.interruptCount + 1)
  }

  function Schedule(t: Table, frame: CpuState): (r: Table)
    requires Shape(t)
    ensures Shape(r) && r.numTasks == t.numTasks
  {
    if t.numTasks <= 0 then t else Dispatch(BeforeScan(t, frame))
  }

  // ----- waiting and ending -----

  predicate MustBlock(t: Table, pid: int)
    requires Shape(t)
  {
    var i := FindTaskByPid(t, pid);
    i >= 0 && t.tasks[i].state != Terminated
  }

  /** The current task blocked and recorded as the waiter of the task found. */
  function Await(t: Table, pid: int): Table
    requires Shape(t) && 0 <= t.currentTask && MustBlock(t, pid)
  {
    var i := FindTaskByPid(t, pid);
    var t1 := Update(t, t.currentTask, t.tasks[t.currentTask].(state := Blocked));
    Update(t1, i, t1.tasks[i].(waiting := t1.tasks[t.currentTask].pid))
  }

  function Waitpid(t: Table, pid: int, frame: CpuState): Table
    requires Shape(t) && 0 <= t.currentTask
  {
    if MustBlock(t, pid) then Schedule(Await(t, pid), frame) else t
  }

  function WakeWaiting(tasks: seq<Task>, n: int, pid: int): (r: seq<Task>)
    ensures |r| == |tasks|
  {
    seq(|tasks|, i requires 0 <= i < |tasks| =>
      if i < n && tasks[i].waiting == pid && tasks[i].state == Blocked then tasks[i].(state := Ready) else tasks[i])
  }

  /** The table of an exiting task just before it gives up the processor. */
  function Ended(t: Table): Table
    requires Shape(t) && 0 <= t.currentTask
  {
    var c := t.tasks[t.currentTask];
    t.(tasks := WakeWaiting(t.tasks[t.currentTask := c.(state := Terminated)], t.numTasks, c.pid))
  }

  function Exit(t: Table, frame: CpuState): Table
    requires Shape(t) && 0 <= t.currentTask
  {
    Schedule(Ended(t), frame)
  }

  // ----- small system calls -----

  function SetPriority(t: Table, p: int): Table
    requires Shape(t) && 0 <= t.currentTask
  {
    Update(t, t.currentTask, t.tasks[t.currentTask].(priority := p))
  }

  function SetState(t: Table, code: int): Table
    requires Shape(t) && 0 <= t.currentTask
  {
    if code == 0 then Update(t, t.currentTask, t.tasks[t.currentTask].(state := Ready))
    else if code == 2 then Update(t, t.currentTask, t.tasks[t.currentTask].(state := Blocked))
    else t
  }

  // ----- the state machine -----

  datatype Step =
    | AddTaskStep(task: Task)
    | TimerStep(frame: CpuState)
    | ForkStep(frame: CpuState)
    | WaitpidStep(pid: int, frame: CpuState)
    | ExitStep(frame: CpuState)
    | ExecveStep(entry: int)
    | SetPriorityStep(priority: int)
    | SetAgingStep(pid: int)
    | SetStateStep(code: int)

  /** System calls come from a running task; `AddTask` and the timer need none. */
  ghost predicate Legal(t: Table, s: Step) {
    Shape(t) && (s.AddTaskStep? || s.TimerStep? || 0 <= t.currentTask)
  }

  function Apply(t: Table, s: Step): (r: Table)
    requires Legal(t, s)
    ensures Shape(r) && t.numTasks <= r.numTasks
  {
    match s
    case AddTaskStep(task) => AddTask(t, task)
    case TimerStep(frame) => Schedule(t, frame)
    case ForkStep(frame) => Fork(t, frame)
    case WaitpidStep(pid, frame) => Waitpid(t, pid, frame)
    case ExitStep(frame) => Exit(t, frame)
    case ExecveStep(entry) => Execve(t, entry)
    case SetPriorityStep(p) => SetPriority(t, p)
    case SetAgingStep(pid) => t.(agingPid := pid)
    case SetStateStep(code) => SetState(t, code)
  }

  // ----- what every step keeps -----

  ghost predicate Unused(task: Task) {
    && task.pid == NOBODY && task.ppid == NOBODY && task.priority == -1
    && task.state == Ready && task.waiting == NOBODY
  }

  ghost predicate Issued(task: Task, i: int, n: int) {
    && task.pid == i
    && (task.ppid == NOBODY || 0 <= task.ppid < i)
    && (task.waiting == NOBODY || 0 <= task.waiting < n)
  }

  /** The process-table invariant. */
  ghost predicate Wf(t: Table) {
    && Shape(t)
    && t.nextPid == t.numTasks
    && (forall i :: 0 <= i < t.numTasks ==> Issued(t.tasks[i], i, t.numTasks))
    && (forall i :: t.numTasks <= i < MAX_TASKS ==> Unused(t.tasks[i]))
    && (t.currentTask == -1 ==> forall i :: 0 <= i < t.numTasks ==> Eligible(t.tasks[i]))
  }

  /** `findTaskByPID` is the identity on issued pids and fails on all others. */
  lemma {:induction false} FindIsIdentity(t: Table, pid: int, i: nat)
    requires Wf(t) && i <= t.numTasks
    ensures FindFrom(t.tasks, t.numTasks, pid, i) == if i <= pid < t.numTasks then pid else -1
    decreases t.numTasks - i
  {
    if i < t.numTasks {
      FindIsIdentity(t, pid, i + 1);
    }
  }

  lemma FindPid(t: Table, pid: int)
    requires Wf(t)
    ensures FindTaskByPid(t, pid) == if 0 <= pid < t.numTasks then pid else -1
  {
    FindIsIdentity(t, pid, 0);
  }

  lemma {:induction false} BestSpec(t: Table, k: nat)
    requires Shape(t) && k <= t.numTasks
    ensures Best(t, k) == -1 ==> forall j :: 0 <= j < k ==> !Eligible(t.tasks[At(t, j)])
    ensures Best(t, k) >= 0 ==>
              var m := t.tasks[At(t, Best(t, k))];
              && Eligible(m)
              && (forall j :: 0 <= j < k && Eligible(t.tasks[At(t, j)]) ==> m.priority <= t.tasks[At(t, j)].priority)
              && (forall j :: 0 <= j < Best(t, k) && Eligible(t.tasks[At(t, j)]) ==> m.priority < t.tasks[At(t, j)].priority)
  {
    if k > 0 {
      BestSpec(t, k - 1);
    }
  }

  /** Every index is some number of places after the current task. */
  lemma Reached(t: Table, i: nat) returns (k: nat)
    requires Shape(t) && i < t.numTasks
    ensures k < t.numTasks && At(t, k) == i
  {
    k := if i > t.currentTask then i - t.currentTask - 1 else i - t.currentTask - 1 + t.numTasks;
  }

  /**
   The scan picks the first task after the current one, in cyclic order, that has the least
   priority below 255 among the tasks neither blocked nor terminated; with none it keeps the
   current task, whatever its state.
   */
  lemma PickSpec(t: Table)
    requires Shape(t)
    ensures (forall i :: 0 <= i < t.numTasks ==> !Eligible(t.tasks[i])) ==> Pick(t) == t.currentTask
    ensures (exists i :: 0 <= i < t.numTasks && Eligible(t.tasks[i])) ==>
              && 0 <= Pick(t) < t.numTasks && Eligible(t.tasks[Pick(t)])
              && (forall i :: 0 <= i < t.numTasks && Eligible(t.tasks[i]) ==>
                                t.tasks[Pick(t)].priority <= t.tasks[i].priority)
              && (exists k :: 0 <= k < t.numTasks && At(t, k) == Pick(t) &&
                              forall j :: 0 <= j < k && Eligible(t.tasks[At(t, j)]) ==>
                                            t.tasks[Pick(t)].priority < t.tasks[At(t, j)].priority)
  {
    BestSpec(t, t.numTasks);
    forall i | 0 <= i < t.numTasks && Eligible(t.tasks[i])
      ensures Best(t, t.numTasks) >= 0 && t.tasks[Pick(t)].priority <= t.tasks[i].priority
    {
      var k := Reached(t, i);
    }
  }
}
