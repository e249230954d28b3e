/** Round-robin among the most urgent tasks, and what a switched-out task gets back. */
module Fairness {
  import opened Machine
  import opened TaskTable
  import opened TaskRuns

  /** A runnable task of least priority. */
  ghost predicate Urgent(t: Table, i: int)
    requires Shape(t)
  {
    && 0 <= i < t.numTasks && Eligible(t.tasks[i])
    && forall j :: 0 <= j < t.numTasks && Eligible(t.tasks[j]) ==> t.tasks[i].priority <= t.tasks[j].priority
  }

  /** The most urgent tasks from index i on, in index order. */
  ghost function Members(t: Table, i: nat): seq<int>
    requires Shape(t) && i <= t.numTasks
    decreases t.numTasks - i
  {
    if i == t.numTasks then [] else (if Urgent(t, i) then [i] else []) + Members(t, i + 1)
  }

  lemma {:induction false} MembersSpec(t: Table, i: nat)
    requires Shape(t) && i <= t.numTasks
    ensures forall k :: 0 <= k < |Members(t, i)| ==> i <= Members(t, i)[k] && Urgent(t, Members(t, i)[k])
    ensures forall j, k :: 0 <= j < k < |Members(t, i)| ==> Members(t, i)[j] < Members(t, i)[k]
    ensures forall m :: Urgent(t, m) && i <= m ==> m in Members(t, i)
    decreases t.numTasks - i
  {
    if i < t.numTasks {
      MembersSpec(t, i + 1);
    }
  }

  // ----- ticks -----

  /** A tick that wakes nobody and ages nobody. */
  ghost predicate Quiet(t: Table)
    requires Shape(t)
  {
    t.numTasks > 0 && WakeTarget(t) == -1 && !AgingFires(t)
  }

  ghost predicate QuietRun(t: Table, frames: seq<CpuState>)
    requires Wf(t)
    decreases |frames|
  {
    frames == [] ||
    (Quiet(t) && (ScheduleKeepsWf(t, frames[0]); QuietRun(Schedule(t, frames[0]), frames[1..])))
  }

  /** The tasks selected by successive timer ticks. */
  ghost function Picks(t: Table, frames: seq<CpuState>): (r: seq<int>)
    requires Wf(t) && QuietRun(t, frames)
    ensures |r| == |frames|
    decreases |frames|
  {
    if frames == [] then []
    else
      ScheduleKeepsWf(t, frames[0]);
      [Schedule(t, frames[0]).currentTask] + Picks(Schedule(t, frames[0]), frames[1..])
  }

  lemma QuietScan(t: Table, frame: CpuState)
    requires Shape(t) && Quiet(t)
    ensures BeforeScan(t, frame) == SaveFrame(t, frame)
  {
    SavedTarget(t, frame);
    SamePidsSameFind(t, SaveFrame(t, frame), U32(t.agingPid), 0);
  }

  lemma PickIsUrgent(t: Table) returns (k: nat)
    requires Shape(t) && exists i :: 0 <= i < t.numTasks && Eligible(t.tasks[i])
    ensures k < t.numTasks && At(t, k) == Pick(t) && Urgent(t, Pick(t))
    ensures forall j :: 0 <= j < k ==> !Urgent(t, At(t, j))
  {
    PickSpec(t);
    k :| 0 <= k < t.numTasks && At(t, k) == Pick(t) &&
         forall j :: 0 <= j < k && Eligible(t.tasks[At(t, j)]) ==> t.tasks[Pick(t)].priority < t.tasks[At(t, j)].priority;
  }

  lemma SameUrgency(t: Table, u: Table)
    requires Shape(t) && Shape(u) && t.numTasks == u.numTasks
    requires forall i :: 0 <= i < t.numTasks ==>
                           && t.tasks[i].priority == u.tasks[i].priority
                           && (Eligible(t.tasks[i]) <==> Eligible(u.tasks[i]))
    ensures forall i :: Urgent(t, i) <==> Urgent(u, i)
  {
  }

  /** A quiet tick selects the first urgent task in cyclic order and leaves the same tasks urgent. */
  lemma QuietTick(t: Table, frame: CpuState, m: int) returns (k: nat)
    requires Wf(t) && Quiet(t) && Urgent(t, m)
    ensures Wf(Schedule(t, frame)) && Schedule(t, frame).numTasks == t.numTasks
    ensures k < t.numTasks && At(t, k) == Schedule(t, frame).currentTask && Urgent(t, At(t, k))
    ensures forall j :: 0 <= j < k ==> !Urgent(t, At(t, j))
    ensures forall i :: Urgent(Schedule(t, frame), i) <==> Urgent(t, i)
  {
    var u := SaveFrame(t, frame);
    QuietScan(t, frame);
    ScheduleKeepsWf(t, frame);
    SameUrgency(t, u);
    assert Eligible(u.tasks[m]);
    k := PickIsUrgent(u);
    SameUrgency(t, Dispatch(u));
    forall j | 0 <= j < k
      ensures !Urgent(t, At(t, j))
    {
      assert At(u, j) == At(t, j);
    }
  }

  lemma {:induction false} SameMembers(t: Table, u: Table, i: nat)
    requires Shape(t) && Shape(u) && t.numTasks == u.numTasks && i <= t.numTasks
    requires forall j :: Urgent(t, j) <==> Urgent(u, j)
    ensures Members(t, i) == Members(u, i)
    decreases t.numTasks - i
  {
    if i < t.numTasks {
      SameMembers(t, u, i + 1);
    }
  }

  /** Ticks before or after the aging tick are quiet once no wake-up is pending. */
  lemma {:induction false} StaysQuiet(t: Table, frames: seq<CpuState>)
    requires Wf(t) && t.numTasks > 0 && WakeTarget(t) == -1
    requires t.interruptCount > AGING_TICK || t.interruptCount + |frames| <= AGING_TICK
    ensures QuietRun(t, frames)
    decreases |frames|
  {
    if frames != [] {
      ScheduleKeepsWf(t, frames[0]);
      if Runnable(BeforeScan(t, frames[0])) {
        ScheduleRuns(t, frames[0]);
      } else if 0 <= t.currentTask {
        ScheduleFallsBack(t, frames[0]);
      } else {
        AllEligibleAtFirst(t, frames[0]);
      }
      StaysQuiet(Schedule(t, frames[0]), frames[1..]);
    }
  }

  // ----- rotation -----

  /** Position k places after p in a cycle of n. */
  function Turn(p: int, k: int, n: int): int {
    if p + k < n then p + k else p + k - n
  }

  ghost predicate Ascending(members: seq<int>) {
    forall j, k :: 0 <= j < k < |members| ==> members[j] < members[k]
  }

  lemma SuccessorIndex(members: seq<int>, p: int, q: int)
    requires Ascending(members) && 0 <= p < |members| && 0 <= q < |members|
    requires if q + 1 < |members| then members[q] < members[p] <= members[q + 1] else members[p] <= members[0]
    ensures p == Turn(q, 1, |members|)
  {
  }

  /** The first urgent task after the current one, if any is after it, or else the first of all. */
  lemma FirstAfter(t: Table, k: nat, e: int)
    requires Shape(t) && 0 <= t.currentTask && k < t.numTasks && Urgent(t, e)
    requires forall j :: 0 <= j < k ==> !Urgent(t, At(t, j))
    ensures t.currentTask < e ==> t.currentTask < At(t, k) <= e
    ensures e <= t.currentTask ==> t.currentTask < At(t, k) || At(t, k) <= e
  {
    var d := Reached(t, e);
    assert k <= d;
  }

  /** The element found after the q-th member, first going up and then around, is the next member. */
  lemma NextMember(members: seq<int>, q: int, found: int)
    requires Ascending(members) && 0 <= q < |members| && found in members
    requires var e := members[Turn(q, 1, |members|)];
             if members[q] < e then members[q] < found <= e else members[q] < found || found <= e
    ensures found == members[Turn(q, 1, |members|)]
  {
    var p :| 0 <= p < |members| && members[p] == found;
    if q + 1 == |members| {
      assert members[0] <= members[q];
      assert p < q ==> members[p] < members[q];
    }
    SuccessorIndex(members, p, q);
  }

  /** From the q-th urgent task the next tick goes to the (q+1)-th, cyclically. */
  lemma NextInTurn(t: Table, frame: CpuState, q: int)
    requires Wf(t) && Quiet(t) && 0 <= q < |Members(t, 0)| && t.currentTask == Members(t, 0)[q]
    ensures Schedule(t, frame).currentTask == Members(t, 0)[Turn(q, 1, |Members(t, 0)|)]
  {
    var members := Members(t, 0);
    MembersSpec(t, 0);
    var k := QuietTick(t, frame, members[q]);
    FirstAfter(t, k, members[Turn(q, 1, |members|)]);
    NextMember(members, q, At(t, k));
  }

  /** A quiet tick selects one of the urgent tasks and leaves their list as it is. */
  lemma PickFromMembers(t: Table, frame: CpuState) returns (p: int)
    requires Wf(t) && Quiet(t) && Members(t, 0) != []
    ensures Wf(Schedule(t, frame)) && Members(Schedule(t, frame), 0) == Members(t, 0)
    ensures 0 <= p < |Members(t, 0)| && Schedule(t, frame).currentTask == Members(t, 0)[p]
  {
    var members := Members(t, 0);
    MembersSpec(t, 0);
    var k := QuietTick(t, frame, members[0]);
    SameMembers(t, Schedule(t, frame), 0);
    assert At(t, k) in members;
    p :| 0 <= p < |members| && members[p] == At(t, k);
  }

  lemma UnfoldRun(t: Table, frames: seq<CpuState>)
    requires Wf(t) && QuietRun(t, frames) && frames != []
    ensures Quiet(t) && Wf(Schedule(t, frames[0])) && QuietRun(Schedule(t, frames[0]), frames[1..])
    ensures Picks(t, frames) == [Schedule(t, frames[0]).currentTask] + Picks(Schedule(t, frames[0]), frames[1..])
  {
    ScheduleKeepsWf(t, frames[0]);
  }

  lemma {:induction false} Rotation(t: Table, frames: seq<CpuState>, members: seq<int>, q: int)
    requires Wf(t) && QuietRun(t, frames) && members == Members(t, 0)
    requires 0 <= q < |members| && t.currentTask == members[q] && |frames| <= |members|
    ensures forall k :: 0 <= k < |frames| ==> Picks(t, frames)[k] == members[Turn(q, k + 1, |members|)]
    decreases |frames|
  {
    if frames != [] {
      var r, p := Schedule(t, frames[0]), Turn(q, 1, |members|);
      UnfoldRun(t, frames);
      var any := PickFromMembers(t, frames[0]);
      NextInTurn(t, frames[0], q);
      Rotation(r, frames[1..], members, p);
      RotateOn(Picks(t, frames), Picks(r, frames[1..]), members, q);
    }
  }

  lemma RotateOn(picks: seq<int>, rest: seq<int>, members: seq<int>, q: int)
    requires 0 <= q < |members| && |rest| < |members| && picks == [members[Turn(q, 1, |members|)]] + rest
    requires forall k :: 0 <= k < |rest| ==> rest[k] == members[Turn(Turn(q, 1, |members|), k + 1, |members|)]
    ensures forall k :: 0 <= k < |picks| ==> picks[k] == members[Turn(q, k + 1, |members|)]
  {
    forall k | 0 < k < |picks|
      ensures picks[k] == members[Turn(q, k + 1, |members|)]
    {
      assert picks[k] == rest[k - 1];
    }
  }

  ghost predicate InCyclicOrder(picks: seq<int>, members: seq<int>, p: int) {
    && 0 <= p < |members| == |picks|
    && forall k :: 0 <= k < |picks| ==> picks[k] == members[Turn(p, k, |members|)]
  }

  lemma CyclicOrderIsExact(picks: seq<int>, members: seq<int>, p: int)
    requires InCyclicOrder(picks, members, p) && Ascending(members)
    ensures forall j, k :: 0 <= j < k < |picks| ==> picks[j] != picks[k]
    ensures forall m :: m in picks <==> m in members
  {
    var n := |members|;
    forall j, k | 0 <= j < k < n
      ensures picks[j] != picks[k]
    {
      var a, b := Turn(p, j, n), Turn(p, k, n);
      assert a != b && picks[j] == members[a] && picks[k] == members[b];
      assert if a < b then members[a] < members[b] else members[b] < members[a];
    }
    forall m | m in members
      ensures m in picks
    {
      var i :| 0 <= i < n && members[i] == m;
      assert picks[if i >= p then i - p else i - p + n] == m;
    }
  }

  lemma CyclicFrom(picks: seq<int>, rest: seq<int>, members: seq<int>, p: int)
    requires 0 <= p < |members| == |picks| && picks == [members[p]] + rest
    requires forall k :: 0 <= k < |rest| ==> rest[k] == members[Turn(p, k + 1, |members|)]
    ensures InCyclicOrder(picks, members, p)
  {
    forall k | 0 < k < |picks|
      ensures picks[k] == members[Turn(p, k, |members|)]
    {
      assert picks[k] == rest[k - 1];
    }
  }

  lemma PicksRotate(t: Table, frames: seq<CpuState>, members: seq<int>) returns (p: int)
    requires Wf(t) && QuietRun(t, frames) && members == Members(t, 0) && |frames| == |members| > 0
    ensures InCyclicOrder(Picks(t, frames), members, p)
  {
    UnfoldRun(t, frames);
    p := PickFromMembers(t, frames[0]);
    var r := Schedule(t, frames[0]);
    Rotation(r, frames[1..], members, p);
    CyclicFrom(Picks(t, frames), Picks(r, frames[1..]), members, p);
  }

  /**
   Fairness: over as many quiet ticks as there are urgent tasks, each urgent task is selected
   exactly once, in cyclic index order, and no other task is selected.
   */
  lemma RoundRobin(t: Table, frames: seq<CpuState>) returns (p: int)
    requires Wf(t) && QuietRun(t, frames) && |frames| == |Members(t, 0)| > 0
    ensures InCyclicOrder(Picks(t, frames), Members(t, 0), p)
    ensures forall j, k :: 0 <= j < k < |frames| ==> Picks(t, frames)[j] != Picks(t, frames)[k]
    ensures forall m :: Urgent(t, m) <==> m in Picks(t, frames)
  {
    p := PicksRotate(t, frames, Members(t, 0));
    MembersSpec(t, 0);
    CyclicOrderIsExact(Picks(t, frames), Members(t, 0), p);
  }

  // ----- starvation and aging -----

  /** While something more urgent can run, a task is never selected, however many ticks pass. */
  lemma {:induction false} LessUrgentStarves(t: Table, frames: seq<CpuState>, i: int, m: int)
    requires Wf(t) && QuietRun(t, frames) && Urgent(t, m) && !Urgent(t, i)
    ensures i !in Picks(t, frames)
    decreases |frames|
  {
    if frames != [] {
      UnfoldRun(t, frames);
      var k := QuietTick(t, frames[0], m);
      LessUrgentStarves(Schedule(t, frames[0]), frames[1..], i, m);
    }
  }

  /**
   Aging lets its target run if and only if the target is not blocked and no other runnable
   task has a priority below 1, the value aging gives; the default priority is -1.
   */
  lemma AgingHelpsIff(t: Table, frame: CpuState)
    requires Wf(t) && AgingFires(t) && WakeTarget(t) == -1
    ensures var g := FindTaskByPid(t, U32(t.agingPid));
            Urgent(BeforeScan(t, frame), g) <==>
            t.tasks[g].state != Blocked &&
            forall j :: 0 <= j < t.numTasks && j != g && Eligible(t.tasks[j]) ==> 1 <= t.tasks[j].priority
  {
    var g, r := FindTaskByPid(t, U32(t.agingPid)), BeforeScan(t, frame);
    BeforeScanStates(t, frame);
    BeforeScanPriorities(t, frame);
    assert forall j :: 0 <= j < t.numTasks && j != g ==>
                         r.tasks[j].priority == t.tasks[j].priority && (Eligible(r.tasks[j]) <==> Eligible(t.tasks[j]));
    if forall j :: 0 <= j < t.numTasks && j != g && Eligible(t.tasks[j]) ==> 1 <= t.tasks[j].priority {
    } else {
      var j :| 0 <= j < t.numTasks && j != g && Eligible(t.tasks[j]) && t.tasks[j].priority < 1;
      assert Eligible(r.tasks[j]);
    }
  }

  lemma FoldRun(t: Table, frames: seq<CpuState>)
    requires Wf(t) && Quiet(t) && frames != []
    requires Wf(Schedule(t, frames[0])) && QuietRun(Schedule(t, frames[0]), frames[1..])
    ensures QuietRun(t, frames)
    ensures Picks(t, frames) == [Schedule(t, frames[0]).currentTask] + Picks(Schedule(t, frames[0]), frames[1..])
  {
  }

  lemma PrefixCons(x: int, s: seq<int>, r: seq<int>)
    requires s <= r
    ensures [x] + s <= [x] + r
  {
  }

  lemma {:induction false} QuietPrefix(t: Table, frames: seq<CpuState>, more: seq<CpuState>)
    requires Wf(t) && QuietRun(t, frames + more)
    ensures QuietRun(t, frames) && Picks(t, frames) <= Picks(t, frames + more)
    decreases |frames|
  {
    if frames == [] {
      assert Picks(t, frames) == [];
    } else {
      var r, all := Schedule(t, frames[0]), frames + more;
      assert all[0] == frames[0] && all[1..] == frames[1..] + more;
      UnfoldRun(t, all);
      QuietPrefix(r, frames[1..], more);
      FoldRun(t, frames);
      PrefixCons(r.currentTask, Picks(r, frames[1..]), Picks(r, all[1..]));
    }
  }

  lemma UrgentAmongFirst(t: Table, first: seq<CpuState>, more: seq<CpuState>, i: int)
    requires Wf(t) && QuietRun(t, first + more) && |first| == |Members(t, 0)| > 0 && Urgent(t, i)
    ensures i in Picks(t, first + more)
  {
    QuietPrefix(t, first, more);
    var p := RoundRobin(t, first);
    assert i in Picks(t, first);
  }

  lemma SomeMember(t: Table) returns (m: int)
    requires Shape(t) && Members(t, 0) != []
    ensures Urgent(t, m)
  {
    MembersSpec(t, 0);
    m := Members(t, 0)[0];
  }

  /** Over enough quiet ticks to serve every urgent task, exactly the urgent tasks are selected. */
  lemma UrgentServed(t: Table, frames: seq<CpuState>, i: int)
    requires Wf(t) && QuietRun(t, frames) && |frames| >= |Members(t, 0)| > 0
    ensures i in Picks(t, frames) <==> Urgent(t, i)
  {
    if Urgent(t, i) {
      var n := |Members(t, 0)|;
      assert frames[..n] + frames[n..] == frames;
      UrgentAmongFirst(t, frames[..n], frames[n..], i);
    } else {
      var m := SomeMember(t);
      LessUrgentStarves(t, frames, i, m);
    }
  }

  lemma ScanKeepsUrgent(t: Table)
    requires Shape(t) && Runnable(t)
    ensures forall i :: Urgent(Dispatch(t), i) <==> Urgent(t, i)
    ensures Members(Dispatch(t), 0) != []
  {
    var r := Dispatch(t);
    var k := PickIsUrgent(t);
    SameUrgency(t, r);
    MembersSpec(r, 0);
  }

  /** After the aging tick no wake-up is pending and the aging tick is past, so the next ticks are quiet. */
  lemma QuietAfterAging(t: Table, frame: CpuState, frames: seq<CpuState>)
    requires Wf(t) && AgingFires(t) && Runnable(BeforeScan(t, frame))
    ensures Wf(Schedule(t, frame)) && QuietRun(Schedule(t, frame), frames)
  {
    ScheduleKeepsWf(t, frame);
    ScheduleRuns(t, frame);
    StaysQuiet(Schedule(t, frame), frames);
  }

  /** The aging tick itself: what is urgent before its scan is urgent after it, and the next ticks are quiet. */
  lemma AfterAgingTick(t: Table, frame: CpuState, frames: seq<CpuState>)
    requires Wf(t) && AgingFires(t) && WakeTarget(t) == -1 && exists i :: CanRun(t, i, -1)
    ensures Wf(Schedule(t, frame)) && QuietRun(Schedule(t, frame), frames) && Members(Schedule(t, frame), 0) != []
    ensures forall i :: Urgent(Schedule(t, frame), i) <==> Urgent(BeforeScan(t, frame), i)
  {
    RunnableIff(t, frame);
    QuietAfterAging(t, frame, frames);
    ScanKeepsUrgent(BeforeScan(t, frame));
  }

  /**
   What aging achieves: over the ticks that follow, however many once each urgent task has had its
   turn, the target is selected if and only if it is not blocked and no other runnable task has a
   priority below 1.
   */
  lemma AgedIsServedIff(t: Table, frame: CpuState, frames: seq<CpuState>)
    requires Wf(t) && AgingFires(t) && WakeTarget(t) == -1 && exists i :: CanRun(t, i, -1)
    requires |frames| >= |Members(Schedule(t, frame), 0)|
    ensures Wf(Schedule(t, frame)) && QuietRun(Schedule(t, frame), frames)
    ensures var g := FindTaskByPid(t, U32(t.agingPid));
            g in Picks(Schedule(t, frame), frames) <==>
            t.tasks[g].state != Blocked &&
            forall j :: 0 <= j < t.numTasks && j != g && Eligible(t.tasks[j]) ==> 1 <= t.tasks[j].priority
  {
    AfterAgingTick(t, frame, frames);
    UrgentServed(Schedule(t, frame), frames, FindTaskByPid(t, U32(t.agingPid)));
    AgingHelpsIff(t, frame);
  }

  // ----- what setting a priority achieves -----

  /** A task that can run makes itself one of the most urgent exactly by a priority no other runnable task undercuts. */
  lemma SetPriorityUrgentIff(t: Table, p: int)
    requires Shape(t) && 0 <= t.currentTask
    requires t.tasks[t.currentTask].state == Ready || t.tasks[t.currentTask].state == Running
    ensures Urgent(SetPriority(t, p), t.currentTask) <==>
            p < 255 && forall j :: 0 <= j < t.numTasks && j != t.currentTask && Eligible(t.tasks[j]) ==>
                                     p <= t.tasks[j].priority
  {
    var r, c := SetPriority(t, p), t.currentTask;
    assert Eligible(r.tasks[c]) <==> p < 255;
    if Urgent(r, c) {
      forall j | 0 <= j < t.numTasks && j != c && Eligible(t.tasks[j])
        ensures p <= t.tasks[j].priority
      {
        assert Eligible(r.tasks[j]);
      }
    }
  }

  /** So over enough quiet ticks it is selected exactly then. */
  lemma SetPriorityServedIff(t: Table, p: int, frames: seq<CpuState>)
    requires Wf(t) && 0 <= t.currentTask
    requires t.tasks[t.currentTask].state == Ready || t.tasks[t.currentTask].state == Running
    requires Wf(SetPriority(t, p)) && QuietRun(SetPriority(t, p), frames)
    requires |frames| >= |Members(SetPriority(t, p), 0)| > 0
    ensures t.currentTask in Picks(SetPriority(t, p), frames) <==>
            p < 255 && forall j :: 0 <= j < t.numTasks && j != t.currentTask && Eligible(t.tasks[j]) ==>
                                     p <= t.tasks[j].priority
  {
    SetPriorityUrgentIff(t, p);
    UrgentServed(SetPriority(t, p), frames, t.currentTask);
  }

  // ----- a reachable table in which aging starves its target -----

  /** Two tasks that can run, of the default priority. */
  ghost predicate TwoTasks(t: Table) {
    && Wf(t) && t.numTasks == 2
    && forall i :: 0 <= i < 2 ==> t.tasks[i].priority == -1 && Eligible(t.tasks[i])
  }

  lemma TickOfTwo(t: Table, frame: CpuState)
    requires TwoTasks(t) && t.interruptCount < AGING_TICK
    ensures TwoTasks(Schedule(t, frame)) && 0 <= Schedule(t, frame).currentTask
    ensures Schedule(t, frame).interruptCount == t.interruptCount + 1 && Schedule(t, frame).agingPid == t.agingPid
  {
    QuietScan(t, frame);
    ScheduleKeepsWf(t, frame);
    PickSpec(SaveFrame(t, frame));
  }

  function Ticks(frames: seq<CpuState>): seq<Step> {
    if frames == [] then [] else [TimerStep(frames[0])] + Ticks(frames[1..])
  }

  lemma {:induction false} TicksOfTwo(t: Table, frames: seq<CpuState>)
    requires TwoTasks(t) && t.interruptCount + |frames| <= AGING_TICK
    ensures LegalRun(t, Ticks(frames))
    ensures var r := Run(t, Ticks(frames));
            && TwoTasks(r) && r.interruptCount == t.interruptCount + |frames| && r.agingPid == t.agingPid
    decreases |frames|
  {
    if frames != [] {
      TickOfTwo(t, frames[0]);
      TicksOfTwo(Schedule(t, frames[0]), frames[1..]);
      assert Ticks(frames)[1..] == Ticks(frames[1..]);
    }
  }

  lemma TwoTasksStart(t: Table, task: Task, frame: CpuState) returns (r: Table)
    requires Boot(t)
    ensures var steps := [AddTaskStep(task), AddTaskStep(task), TimerStep(frame), SetAgingStep(1)];
            LegalRun(t, steps) && Run(t, steps) == r
    ensures TwoTasks(r) && r.interruptCount == 1 && r.agingPid == 1
  {
    var one := AddTask(t, task);
    var two := AddTask(one, task);
    BootIsWf(t);
    AddTaskExact(t, task);
    AddTaskExact(one, task);
    TickOfTwo(two, frame);
    r := Schedule(two, frame).(agingPid := 1);
    RunOne(t, AddTaskStep(task));
    var add, tick, name := AddTaskStep(task), TimerStep(frame), SetAgingStep(1);
    RunSnoc(t, [add], add);
    assert [add] + [add] == [add, add];
    RunSnoc(t, [add, add], tick);
    assert [add, add] + [tick] == [add, add, tick];
    RunSnoc(t, [add, add, tick], name);
    assert [add, add, tick] + [name] == [add, add, tick, name];
  }

  lemma AgedOfTwo(t: Table, frame: CpuState, after: seq<CpuState>)
    requires TwoTasks(t) && t.interruptCount == AGING_TICK && t.agingPid == 1
    ensures Urgent(t, 1) && AgingFires(t)
    ensures Wf(Schedule(t, frame)) && QuietRun(Schedule(t, frame), after) && 1 !in Picks(Schedule(t, frame), after)
  {
    FindPid(t, 1);
    assert U32(t.agingPid) == 1 && Eligible(t.tasks[0]) && Eligible(t.tasks[1]);
    assert CanRun(t, 0, -1);
    AgingHelpsIff(t, frame);
    AfterAgingTick(t, frame, after);
    var m := SomeMember(Schedule(t, frame));
    LessUrgentStarves(Schedule(t, frame), after, 1, m);
  }

  /**
   Reachable from the constructor: of two tasks of the default priority one is named for aging. It is
   among the most urgent just before the aging tick, and is never selected in the ticks after it.
   */
  lemma AgingStarvesItsTarget(t: Table, task: Task, frame: CpuState, before: seq<CpuState>, after: seq<CpuState>)
    requires Boot(t) && |before| == 19
    ensures var steps := [AddTaskStep(task), AddTaskStep(task), TimerStep(frame), SetAgingStep(1)] + Ticks(before);
            && LegalRun(t, steps) && Wf(Run(t, steps)) && Urgent(Run(t, steps), 1) && AgingFires(Run(t, steps))
            && Wf(Schedule(Run(t, steps), frame)) && QuietRun(Schedule(Run(t, steps), frame), after)
            && 1 !in Picks(Schedule(Run(t, steps), frame), after)
  {
    var first := [AddTaskStep(task), AddTaskStep(task), TimerStep(frame), SetAgingStep(1)];
    var r := TwoTasksStart(t, task, frame);
    TicksOfTwo(r, before);
    RunConcat(t, first, Ticks(before));
    var u := Run(t, first + Ticks(before));
    AgedOfTwo(u, frame, after);
  }

  // ----- context switches -----

  ghost predicate NeverCurrent(t: Table, steps: seq<Step>, i: int)
    requires LegalRun(t, steps)
    decreases |steps|
  {
    steps == [] || (t.currentTask != i && NeverCurrent(Apply(t, steps[0]), steps[1..], i))
  }

  lemma ScheduleKeepsOtherFrame(t: Table, frame: CpuState, i: int)
    requires Shape(t) && 0 <= i < t.numTasks && i != t.currentTask
    ensures Schedule(t, frame).tasks[i].cpu == t.tasks[i].cpu
  {
    BeforeScanRegisters(t, frame);
  }

  lemma StepKeepsOtherFrames(t: Table, s: Step, i: int)
    requires Wf(t) && Legal(t, s) && 0 <= i < t.numTasks && i != t.currentTask
    ensures Apply(t, s).tasks[i].cpu == t.tasks[i].cpu
  {
    StepKeepsWf(t, s);
    match s
    case AddTaskStep(task) => AddTaskExact(t, task);
    case ForkStep(frame) => ForkExact(t, frame);
    case TimerStep(frame) => ScheduleKeepsOtherFrame(t, frame, i);
    case WaitpidStep(pid, frame) =>
      if MustBlock(t, pid) {
        AwaitKeepsWf(t, pid);
        ScheduleKeepsOtherFrame(Await(t, pid), frame, i);
      }
    case ExitStep(frame) => ScheduleKeepsOtherFrame(Ended(t), frame, i);
    case _ =>
  }

  lemma {:induction false} FrameUntouched(t: Table, steps: seq<Step>, i: int)
    requires Wf(t) && LegalRun(t, steps) && 0 <= i < t.numTasks && NeverCurrent(t, steps, i)
    ensures Run(t, steps).tasks[i].cpu == t.tasks[i].cpu
    decreases |steps|
  {
    if steps != [] {
      StepKeepsOtherFrames(t, steps[0], i);
      StepKeepsWf(t, steps[0]);
      FrameUntouched(Apply(t, steps[0]), steps[1..], i);
    }
  }

  /** A task switched out with some registers has those registers whenever it is next selected. */
  lemma ContextRestored(t: Table, frame: CpuState, steps: seq<Step>)
    requires Wf(t) && 0 <= t.currentTask && t.numTasks > 0 && LegalRun(Schedule(t, frame), steps)
    requires NeverCurrent(Schedule(t, frame), steps, t.currentTask)
    ensures Run(Schedule(t, frame), steps).tasks[t.currentTask].cpu == frame
  {
    ScheduleKeepsWf(t, frame);
    BeforeScanRegisters(t, frame);
    FrameUntouched(Schedule(t, frame), steps, t.currentTask);
  }
}
