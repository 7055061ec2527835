/** The library itself: threads are objects whose state and quantum fields change in place, the
    queues hold references to them, and each method is proved against a step of SchedulerModel. */
module Uthreads {
  import opened Collections
  import opened SchedulerModel
  import opened SchedulerRuns
  import opened SchedulerEffects

  class Thread {
    const tid: int
    const pr: Priority
    var state: RunState
    var quantum: nat

    constructor (tid: int, pr: Priority, state: RunState)
      ensures this.tid == tid && this.pr == pr && this.state == state && quantum == 0
    {
      this.tid, this.pr, this.state, quantum := tid, pr, state, 0;
    }

    method SetState(s: RunState)
      modifies this`state
      ensures state == s
    {
      state := s;
    }

    method IncreaseQuantum()
      modifies this`quantum
      ensures quantum == old(quantum) + 1
    {
      quantum := quantum + 1;
    }
  }

  function Tids(q: seq<Thread>): (r: seq<int>)
    ensures |r| == |q| && forall i :: 0 <= i < |q| ==> r[i] == q[i].tid
  {
    seq(|q|, i requires 0 <= i < |q| => q[i].tid)
  }

  function QueueTids(qs: seq<seq<Thread>>): (r: seq<seq<int>>)
    ensures |r| == |qs| && forall i :: 0 <= i < |qs| ==> r[i] == Tids(qs[i])
  {
    seq(|qs|, i requires 0 <= i < |qs| => Tids(qs[i]))
  }

  /** Marking the running thread READY before the choice does not disturb the choice. */
  lemma SwitchIsTick(m: Sched)
    requires Inv(m)
    ensures var m1 := SetState(m, m.running, READY);
      if SomeReady(m) then
        SomeReady(m1) && Next(m1) in m1.threads && TickStep(m) == Enqueue(Promote(m1), m.running)
      else
        !SomeReady(m1) && TickStep(m) == Grant(m1, m.running)
  {
    if SomeReady(m) {
      NextIsReady(m);
    }
  }

  /** Putting the dying thread back, finding it and erasing it again is the same as never
      having queued it. */
  lemma SelfTerminateIsPromote(m: Sched)
    requires Inv(m) && m.running != MAIN_THREAD
    ensures var t := m.running; var m1 := TickStep(m);
      && t in m1.threads && m1.running != t && t !in m1.blocked
      && (forall l :: 0 <= l < NUM_OF_QUEUE ==> t !in LeaveReady(m1, t).ready[l])
      && LeaveBlocked(LeaveReady(m1, t), t) == LeaveReady(m1, t)
      && Drop(LeaveReady(m1, t), t) == TerminateStep(m, t)
  {
    var t := m.running;
    MainWaits(m);
    NextIsReady(m);
    RemoveAbsent(m.blocked, t);
    var p := Promote(SetState(m, t, READY));
    var l := Level(m.threads[t].pr);
    PopFront(m.ready[Top(m.ready)]);
    assert forall i :: 0 <= i < NUM_OF_QUEUE ==> !IsReady(m, t, i);
    RemoveLast(p.ready[l], t);
    var m1 := TickStep(m);
    assert m1.ready[l] == p.ready[l] + [t];
    assert LeaveReady(m1, t).ready == p.ready;
    assert Drop(p, t).threads == Drop(Promote(m), t).threads;
  }

  /** The running thread marked and listed as blocked, with nobody running yet. */
  function Blocking(m: Sched): Sched
    requires m.running in m.threads
  {
    SetState(m, m.running, BLOCK).(blocked := m.blocked + [m.running], running := -1)
  }

  lemma SelfSuspendIsPromote(m: Sched)
    requires Inv(m) && m.running != MAIN_THREAD
    ensures var m1 := Blocking(m);
      SomeReady(m) && SomeReady(m1) && Next(m1) in m1.threads && Promote(m1) == SuspendStep(m, m.running)
  {
    MainWaits(m);
    NextIsReady(m);
  }

  /** A live thread that is not running is on one list only, so erasing it there erases it. */
  lemma OffList(m: Sched, t: int)
    requires Inv(m) && t in m.threads && t != m.running
    ensures m.threads[t].state == READY ==>
      t !in m.blocked && forall l :: 0 <= l < NUM_OF_QUEUE ==> t !in LeaveReady(m, t).ready[l]
    ensures m.threads[t].state != READY ==>
      t !in LeaveBlocked(m, t).blocked && forall l :: 0 <= l < NUM_OF_QUEUE ==> t !in m.ready[l]
  {
    assert forall l :: 0 <= l < NUM_OF_QUEUE && t in m.ready[l] ==> IsReady(m, t, l);
    RemoveNoDup(m.ready[Level(m.threads[t].pr)], t);
    RemoveNoDup(m.blocked, t);
  }

  class Library {
    var ready: seq<seq<Thread>>
    var blocked: seq<Thread>
    var running: Thread?
    var threads: map<int, Thread>
    var quantumCounter: nat
    var exited: bool

    // ---------------------------------------------------------------- abstraction

    /** `x` is the object the table holds under its id. */
    ghost predicate Known(x: Thread)
      reads this`threads
    {
      x.tid in threads && threads[x.tid] == x
    }

    ghost predicate Linked()
      reads this`ready, this`blocked, this`running, this`threads
    {
      && |ready| == NUM_OF_QUEUE
      && (forall t :: t in threads ==> threads[t].tid == t)
      && (forall i, j :: 0 <= i < NUM_OF_QUEUE && 0 <= j < |ready[i]| ==> Known(ready[i][j]))
      && (forall j :: 0 <= j < |blocked| ==> Known(blocked[j]))
      && (running != null ==> Known(running))
    }

    ghost function Table(): map<int, Info>
      reads this`threads, threads.Values
    {
      map t | t in threads :: Info(threads[t].pr, threads[t].state, threads[t].quantum)
    }

    ghost function Model(): Sched
      reads this, threads.Values
    {
      Sched(QueueTids(ready), Tids(blocked), if running == null then -1 else running.tid, Table(), quantumCounter)
    }

    ghost predicate Valid()
      reads this, threads.Values
    {
      !exited && Linked() && running != null && Inv(Model())
    }

    lemma InList(q: seq<Thread>, x: Thread)
      requires Known(x) && forall j :: 0 <= j < |q| ==> Known(q[j])
      ensures x in q <==> x.tid in Tids(q)
    {
      if x in q {
        var j :| 0 <= j < |q| && q[j] == x;
        assert Tids(q)[j] == x.tid;
      }
    }

    lemma InBlocked(x: Thread)
      requires Linked() && Known(x)
      ensures x in blocked <==> x.tid in Model().blocked
    {
      InList(blocked, x);
    }

    // ---------------------------------------------------------------- start

    constructor ()
      ensures ready == [[], [], []] && blocked == [] && running == null && threads == map[]
      ensures quantumCounter == 0 && !exited
    {
      ready, blocked, running, threads := [[], [], []], [], null, map[];
      quantumCounter, exited := 0, false;
    }

    lemma Started(th: Thread)
      requires ready == [[], [], []] && blocked == [] && running == th && threads == map[MAIN_THREAD := th]
      requires th.tid == MAIN_THREAD && th.pr == ORANGE && th.state == RUNNING && th.quantum == 1
      requires quantumCounter == 1
      ensures Model() == Init()
    {
      assert Table() == map[MAIN_THREAD := Info(ORANGE, RUNNING, 1)];
      assert QueueTids(ready) == [[], [], []];
    }

    method UthreadInit(quantumUsecs: int) returns (r: int)
      requires ready == [[], [], []] && blocked == [] && running == null && threads == map[]
      requires quantumCounter == 0 && !exited
      modifies this
      ensures r == (if quantumUsecs <= 0 then FAIL else SUCCESS)
      ensures r == SUCCESS ==> Valid() && Model() == Init() && fresh(threads.Values)
      ensures r == SUCCESS ==>
        && threads.Keys == {MAIN_THREAD} && running == threads[MAIN_THREAD] && quantumCounter == 1
        && running.pr == ORANGE && running.state == RUNNING && running.quantum == 1
        && ready == [[], [], []] && blocked == []
      ensures r == FAIL ==> unchanged(this)
    {
      if quantumUsecs <= 0 {
        return FAIL;
      }
      var mainTh := new Thread(0, ORANGE, READY);
      threads := threads[0 := mainTh];
      running := mainTh;
      mainTh.SetState(RUNNING);
      mainTh.IncreaseQuantum();
      quantumCounter := quantumCounter + 1;
      Started(mainTh);
      InitInv();
      return SUCCESS;
    }

    // ---------------------------------------------------------------- queues

    /** The table is scanned in ascending order of its ids, as a `std::map` is. */
    method GetNextId() returns (id: int)
      requires Valid()
      ensures id == LeastFree(threads.Keys)
    {
      var ids := InOrder(threads.Keys);
      id := 0;
      assert forall i :: 0 <= i < |ids| ==> ids[i] in ToSet(ids) && ids[i] in Model().threads;
      while id < |ids|
        invariant 0 <= id <= |ids|
        invariant forall i :: 0 <= i < id ==> ids[i] == i
      {
        if ids[id] != id {
          break;
        }
        id := id + 1;
      }
      ScanFindsLeastFree(ids, id);
    }

    method AddToReady(th: Thread?)
      requires Linked() && (th != null ==> Known(th))
      modifies this`ready
      ensures Linked()
      ensures Model() == if th == null then old(Model()) else Enqueue(old(Model()), th.tid)
      ensures th != null ==> ready == old(ready)[Level(th.pr) := old(ready)[Level(th.pr)] + [th]]
    {
      if th == null {
        return;
      }
      var l := Level(th.pr);
      ready := ready[l := ready[l] + [th]];
      assert Tids(ready[l]) == old(Tids(ready[l])) + [th.tid];
      assert QueueTids(ready) == old(QueueTids(ready))[l := Tids(ready[l])];
    }

    method GetReady(l: nat) returns (th: Thread)
      requires Linked() && l < NUM_OF_QUEUE && ready[l] != []
      modifies this`ready
      ensures Linked() && Known(th) && th == old(ready[l][0])
      ensures Model() == old(Model()).(ready := old(Model()).ready[l := old(Model()).ready[l][1..]])
    {
      th := ready[l][0];
      ready := ready[l := ready[l][1..]];
      assert Tids(ready[l]) == old(Tids(ready[l]))[1..];
      assert QueueTids(ready) == old(QueueTids(ready))[l := Tids(ready[l])];
    }

    /** The first thread of the highest non-empty queue; the sole thread when there is only one. */
    method PopReady() returns (th: Thread?)
      requires Linked()
      modifies this`ready
      ensures Linked() && (th != null ==> Known(th))
      ensures var m := old(Model());
        if |threads| > 1 && SomeReady(m) then
          && th != null && th.tid == Next(m)
          && Model() == m.(ready := m.ready[Top(m.ready) := m.ready[Top(m.ready)][1..]])
        else
          Model() == m && (th != null <==> |threads| == 1)
    {
      th := null;
      if |threads| > 1 {
        if ready[0] != [] {
          th := GetReady(0);
        } else if ready[1] != [] {
          th := GetReady(1);
        } else if ready[2] != [] {
          th := GetReady(2);
        }
      } else if |threads| == 1 {
        var ids := InOrder(threads.Keys);
        assert ids[0] in ToSet(ids);
        th := threads[ids[0]];
      }
    }

    /** The queue without the thread, found and erased by iterating. */
    method RemoveFromReady(tid: int) returns (r: int)
      requires Linked() && tid in threads
      modifies this`ready
      ensures Linked() && Model() == LeaveReady(old(Model()), tid)
      ensures r == if tid in old(Model()).ready[Level(threads[tid].pr)] then SUCCESS else FAIL
    {
      var l := Level(threads[tid].pr);
      var i := 0;
      ghost var ids := Tids(ready[l]);
      while i < |ready[l]|
        invariant i <= |ready[l]| && tid !in ids[..i]
        invariant ready == old(ready)
      {
        if ready[l][i] == threads[tid] {
          assert tid == ids[i];
          RemoveAt(ids, tid, i);
          EraseReady(l, i);
          return SUCCESS;
        }
        assert ids[i] != tid;
        assert ids[..i + 1] == ids[..i] + [ids[i]];
        i := i + 1;
      }
      assert ids[..i] == ids;
      RemoveAbsent(ids, tid);
      assert QueueTids(ready)[l := ids] == QueueTids(ready);
      return FAIL;
    }

    method EraseReady(l: nat, i: nat)
      requires Linked() && l < NUM_OF_QUEUE && i < |ready[l]|
      modifies this`ready
      ensures Linked()
      ensures var m := old(Model());
        Model() == m.(ready := m.ready[l := m.ready[l][..i] + m.ready[l][i + 1..]])
    {
      ready := ready[l := ready[l][..i] + ready[l][i + 1..]];
      assert Tids(ready[l]) == old(Tids(ready[l]))[..i] + old(Tids(ready[l]))[i + 1..];
      assert QueueTids(ready) == old(QueueTids(ready))[l := Tids(ready[l])];
    }

    method RemoveFromBlock(tid: int)
      requires Linked() && tid in threads
      modifies this`blocked
      ensures Linked() && Model() == LeaveBlocked(old(Model()), tid)
    {
      var i := 0;
      ghost var ids := Tids(blocked);
      while i < |blocked|
        invariant i <= |blocked| && tid !in ids[..i]
        invariant blocked == old(blocked)
      {
        if blocked[i] == threads[tid] {
          RemoveAt(ids, tid, i);
          EraseBlocked(i);
          return;
        }
        assert ids[i] != tid;
        assert ids[..i + 1] == ids[..i] + [ids[i]];
        i := i + 1;
      }
      assert ids[..i] == ids;
      RemoveAbsent(ids, tid);
    }

    method EraseBlocked(i: nat)
      requires Linked() && i < |blocked|
      modifies this`blocked
      ensures Linked()
      ensures var m := old(Model()); Model() == m.(blocked := m.blocked[..i] + m.blocked[i + 1..])
    {
      blocked := blocked[..i] + blocked[i + 1..];
      assert Tids(blocked) == old(Tids(blocked))[..i] + old(Tids(blocked))[i + 1..];
    }

    // ---------------------------------------------------------------- switching

    method SetThreadState(th: Thread, state: RunState)
      requires Linked() && Known(th)
      modifies th`state
      ensures Linked() && Model() == SetState(old(Model()), th.tid, state)
    {
      assert forall t :: t in threads && t != th.tid ==> threads[t] != th;
      th.SetState(state);
      assert Table() == old(Table())[th.tid := old(Table())[th.tid].(state := state)];
    }

    /** One quantum for the thread that now runs. */
    method StartQuantum()
      requires Linked() && running != null
      modifies this`quantumCounter, running
      ensures Linked() && running == old(running)
      ensures Model() == Grant(old(Model()), running.tid)
    {
      ghost var t, table := running.tid, Table();
      assert forall t :: t in threads && t != running.tid ==> threads[t] != running;
      running.SetState(RUNNING);
      running.IncreaseQuantum();
      quantumCounter := quantumCounter + 1;
      assert Table() == table[t := Info(table[t].pr, RUNNING, table[t].quanta + 1)];
    }

    /** Hands the processor to the next ready thread, or leaves it where it is. */
    method RunThread()
      requires Linked() && threads != map[]
      requires |threads| == 1 ==> !SomeReady(Model()) && running != null
      requires running == null ==> SomeReady(Model())
      modifies this`ready, this`running, this`quantumCounter, threads.Values
      ensures Linked() && running != null
      ensures var m := old(Model());
        if SomeReady(m) then Next(m) in m.threads && Model() == Promote(m)
        else m.running in m.threads && Model() == Grant(m, m.running)
    {
      PickNext();
      assert running in threads.Values by {
        assert Known(running);
      }
      StartQuantum();
    }

    /** The next ready thread becomes the running one, if there is one. */
    method PickNext()
      requires Linked() && threads != map[]
      requires |threads| == 1 ==> !SomeReady(Model()) && running != null
      requires running == null ==> SomeReady(Model())
      modifies this`ready, this`running
      ensures Linked() && running != null
      ensures var m := old(Model());
        if SomeReady(m) then
          Model() == m.(ready := m.ready[Top(m.ready) := m.ready[Top(m.ready)][1..]], running := Next(m))
        else
          Model() == m
    {
      NeedsTwo();
      var tmp := PopReady();
      if tmp != null {
        if running != null {
          SoleThread(tmp, running);
        }
        running := tmp;
      }
    }

    lemma NeedsTwo()
      requires Linked() && threads != map[] && (|threads| == 1 ==> !SomeReady(Model()))
      ensures SomeReady(Model()) ==> |threads| > 1
    {
      assert |threads| != 0;
    }

    lemma SoleThread(a: Thread, b: Thread)
      requires Known(a) && Known(b)
      ensures |threads| == 1 ==> a == b
    {
      if |threads| == 1 {
        assert |threads.Keys| == 1;
        SubsetIsAll({a.tid}, threads.Keys);
      }
    }

    lemma TableSameSize()
      ensures |Model().threads| == |threads| && |Model().blocked| == |blocked|
      ensures Model().threads.Keys == threads.Keys
    {
      assert Table().Keys == threads.Keys;
      assert |Table()| == |Table().Keys| && |threads| == |threads.Keys|;
    }

    /** The timer's switch: whether the preempted thread is queued again is decided by comparing
        the size of the table with the number of blocked threads. */
    method SwitchThreads()
      requires Valid()
      modifies this`ready, this`running, this`quantumCounter, threads.Values
      ensures Valid() && Model() == TickStep(old(Model()))
    {
      ghost var m := Model();
      SizeTest(m);
      SwitchIsTick(m);
      TableSameSize();
      Preempt();
      TickInv(m);
    }

    method Preempt()
      requires Linked() && running != null && SomeReady(Model()) == SomeReady(SetState(Model(), running.tid, READY))
      requires |threads| - 1 != |blocked| <==> SomeReady(Model())
      requires threads != map[] && (|threads| == 1 ==> !SomeReady(Model()))
      modifies this`ready, this`running, this`quantumCounter, threads.Values
      ensures Linked() && running != null
      ensures var m := old(Model()); var m1 := SetState(m, m.running, READY);
        if SomeReady(m)
        then Next(m1) in m1.threads && m.running in Promote(m1).threads && Model() == Enqueue(Promote(m1), m.running)
        else Model() == Grant(m1, m.running)
    {
      var tmp := running;
      if tmp != null {
        SetThreadState(tmp, READY);
      }
      RunThread();
      if |threads| - 1 != |blocked| {
        AddToReady(tmp);
      }
    }

    // ---------------------------------------------------------------- library calls
    // A call returns None when control passes to another thread instead of to the caller.

    /** The SIGVTALRM handler. */
    method TimeHandler()
      requires Valid()
      modifies this`ready, this`running, this`quantumCounter, threads.Values
      ensures Valid() && Model() == Step(old(Model()), Tick)
    {
      SwitchThreads();
    }

    method Register(tid: int, pr: Priority) returns (th: Thread)
      requires Linked() && tid !in threads
      modifies this`threads
      ensures Linked() && threads == old(threads)[tid := th]
      ensures th.tid == tid && th.pr == pr && th.state == READY && th.quantum == 0
      ensures fresh(threads.Values - old(threads.Values))
      ensures Model() == old(Model()).(threads := old(Model()).threads[tid := Info(pr, READY, 0)])
    {
      th := new Thread(tid, pr, READY);
      threads := threads[tid := th];
      assert Table() == old(Table())[tid := Info(pr, READY, 0)];
      assert threads.Values <= old(threads.Values) + {th};
    }

    method UthreadSpawn(pr: Priority) returns (r: Option<int>)
      requires Valid()
      modifies this`ready, this`threads
      ensures Valid() && Model() == Step(old(Model()), Spawn(pr))
      ensures r == Some(if |old(threads)| == MAX_THREAD_NUM then FAIL else LeastFree(old(threads).Keys))
      ensures fresh(threads.Values - old(threads.Values))
      ensures if |old(threads)| == MAX_THREAD_NUM then threads == old(threads) && ready == old(ready)
              else Spawned(old(threads), old(ready), r.value, pr)
    {
      ghost var m := Model();
      TableSameSize();
      if |threads| == 100 {
        return Some(FAIL);
      }
      var tid := SpawnNew(pr);
      SpawnInv(m, pr);
      return Some(tid);
    }

    /** The table has one thread more, ready, without a quantum and last in the queue of its priority. */
    ghost predicate Spawned(threads0: map<int, Thread>, ready0: seq<seq<Thread>>, tid: int, pr: Priority)
      reads this, threads.Values
    {
      && tid !in threads0 && tid in threads && threads == threads0[tid := threads[tid]]
      && threads[tid].pr == pr && threads[tid].state == READY && threads[tid].quantum == 0
      && |ready0| == NUM_OF_QUEUE && ready == ready0[Level(pr) := ready0[Level(pr)] + [threads[tid]]]
    }

    method SpawnNew(pr: Priority) returns (tid: int)
      requires Valid() && |threads| != MAX_THREAD_NUM
      modifies this`ready, this`threads
      ensures Spawned(old(threads), old(ready), tid, pr)
      ensures Linked() && running == old(running) && tid == LeastFree(old(threads).Keys)
      ensures fresh(threads.Values - old(threads.Values))
      ensures var m := old(Model());
        Model() == Enqueue(m.(threads := m.threads[tid := Info(pr, READY, 0)]), tid)
    {
      tid := GetNextId();
      var th := Register(tid, pr);
      AddToReady(th);
    }

    method Erase(tid: int)
      requires Linked() && tid in threads && tid !in Tids(blocked)
      requires running != null && running.tid != tid
      requires forall l :: 0 <= l < NUM_OF_QUEUE ==> tid !in Tids(ready[l])
      modifies this`threads
      ensures Linked() && Model() == Drop(old(Model()), tid)
      ensures threads == old(threads) - {tid}
    {
      assert forall l, j :: 0 <= l < NUM_OF_QUEUE && 0 <= j < |ready[l]| ==> ready[l][j].tid == Tids(ready[l])[j];
      assert forall j :: 0 <= j < |blocked| ==> blocked[j].tid == Tids(blocked)[j];
      threads := threads - {tid};
      assert Table() == old(Table()) - {tid};
    }

    method UthreadTerminate(tid: int) returns (r: Option<int>)
      requires Valid()
      modifies this`ready, this`running, this`quantumCounter, this`blocked, this`threads, this`exited, threads.Values
      ensures exited <==> tid == MAIN_THREAD
      ensures tid == MAIN_THREAD ==> threads == map[]
      ensures tid != MAIN_THREAD ==> Valid() && Model() == Step(old(Model()), Terminate(tid))
      ensures tid != MAIN_THREAD ==> threads.Keys == old(threads.Keys) - {tid}
      ensures r == if tid == MAIN_THREAD || tid == old(running.tid) then None
                   else if tid !in old(threads) then Some(FAIL) else Some(SUCCESS)
      ensures threads.Values <= old(threads.Values)
    {
      if tid == MAIN_THREAD {
        threads := map[];
        exited := true;
        return None;
      }
      if tid !in threads {
        return Some(FAIL);
      }
      if tid == running.tid {
        TerminateSelf();
        return None;
      }
      TerminateOther(tid);
      return Some(SUCCESS);
    }

    method TerminateSelf()
      requires Valid() && running.tid != MAIN_THREAD
      modifies this`ready, this`running, this`quantumCounter, this`blocked, this`threads, threads.Values
      ensures Valid() && Model() == TerminateStep(old(Model()), old(running.tid))
      ensures threads.Values <= old(threads.Values) && threads.Keys == old(threads.Keys) - {old(running.tid)}
    {
      ghost var m := Model();
      TableSameSize();
      TerminateSelfEffect(m);
      SwitchAndErase();
      TableSameSize();
      TerminateInv(m, m.running);
    }

    method SwitchAndErase()
      requires Valid() && running.tid != MAIN_THREAD
      modifies this`ready, this`running, this`quantumCounter, this`blocked, this`threads, threads.Values
      ensures Linked() && running != null && Model() == TerminateStep(old(Model()), old(running.tid))
      ensures threads.Values <= old(threads.Values)
    {
      ghost var m := Model();
      var temp := running;
      SwitchThreads();
      EraseAfterSwitch(m, temp.tid);
    }

    method EraseAfterSwitch(ghost m: Sched, tid: int)
      requires Inv(m) && tid == m.running != MAIN_THREAD
      requires Linked() && running != null && Model() == TickStep(m)
      modifies this`ready, this`blocked, this`threads
      ensures Linked() && running != null && Model() == TerminateStep(m, tid)
      ensures threads.Values <= old(threads.Values)
    {
      SelfTerminateIsPromote(m);
      TableSameSize();
      var found := RemoveFromReady(tid);
      RemoveFromBlock(tid);
      assert Model() == LeaveReady(TickStep(m), tid);
      Erase(tid);
    }

    method TerminateOther(tid: int)
      requires Valid() && tid in threads && tid != running.tid && tid != MAIN_THREAD
      modifies this`ready, this`blocked, this`threads
      ensures threads == old(threads) - {tid}
      ensures Valid() && Model() == TerminateStep(old(Model()), tid)
      ensures threads.Values <= old(threads.Values)
    {
      ghost var m := Model();
      TerminateInv(m, tid);
      OffList(m, tid);
      if threads[tid].state == READY {
        var found := RemoveFromReady(tid);
        Erase(tid);
      } else {
        RemoveFromBlock(tid);
        Erase(tid);
      }
    }

    method UthreadSuspend(tid: int) returns (r: Option<int>)
      requires Valid()
      modifies this`ready, this`running, this`quantumCounter, this`blocked, threads.Values
      ensures Valid() && Model() == Step(old(Model()), Suspend(tid))
      ensures tid != MAIN_THREAD && tid in threads ==> threads[tid].state == BLOCK && threads[tid] in blocked
      ensures r == if tid == MAIN_THREAD || tid !in threads then Some(FAIL)
                   else if tid == old(running.tid) then None
                   else if old(Model()).threads[tid].state == BLOCK then Some(FAIL) else Some(SUCCESS)
    {
      if tid == MAIN_THREAD {
        return Some(FAIL);
      }
      if tid !in threads {
        return Some(FAIL);
      }
      if tid == running.tid {
        SuspendSelf();
        return None;
      }
      var found := SuspendOther(tid);
      return Some(found);
    }

    method SuspendSelf()
      requires Valid() && running.tid != MAIN_THREAD
      modifies this`ready, this`running, this`quantumCounter, this`blocked, threads.Values
      ensures Valid() && Model() == SuspendStep(old(Model()), old(running.tid))
    {
      ghost var m, tid := Model(), running.tid;
      SelfSuspendIsPromote(m);
      TableSameSize();
      assert |threads| != 1 by {
        SizeTest(m);
      }
      BlockAndRun();
      SuspendInv(m, tid);
    }

    method BlockAndRun()
      requires Linked() && running != null && |threads| != 1 && threads != map[] && SomeReady(Blocking(Model()))
      modifies this`ready, this`running, this`quantumCounter, this`blocked, threads.Values
      ensures Linked() && running != null
      ensures var m := Blocking(old(Model())); Next(m) in m.threads && Model() == Promote(m)
    {
      assert Known(running);
      BlockRunning();
      RunThread();
    }

    method BlockRunning()
      requires Linked() && running != null
      modifies this`running, this`blocked, running
      ensures Linked() && running == null && Model() == Blocking(old(Model()))
    {
      SetThreadState(running, BLOCK);
      PushBlocked(running);
      running := null;
    }

    method SuspendOther(tid: int) returns (r: int)
      requires Valid() && tid in threads && tid != running.tid && tid != MAIN_THREAD
      modifies this`ready, this`blocked, threads.Values
      ensures Valid() && Model() == SuspendStep(old(Model()), tid)
      ensures r == if old(Model()).threads[tid].state == BLOCK then FAIL else SUCCESS
    {
      ghost var m := Model();
      SuspendInv(m, tid);
      assert tid in m.ready[Level(m.threads[tid].pr)] <==> IsReady(m, tid, Level(m.threads[tid].pr));
      r := RemoveFromReady(tid);
      if r == FAIL {
        RemoveAbsent(m.ready[Level(m.threads[tid].pr)], tid);
        assert Model() == m;
        return;
      }
      SetThreadState(threads[tid], BLOCK);
      PushBlocked(threads[tid]);
    }

    method PushBlocked(th: Thread)
      requires Linked() && Known(th)
      modifies this`blocked
      ensures Linked() && Model() == old(Model()).(blocked := old(Model()).blocked + [th.tid])
    {
      blocked := blocked + [th];
      assert Tids(blocked) == old(Tids(blocked)) + [th.tid];
    }

    method UthreadResume(tid: int) returns (r: Option<int>)
      requires Valid()
      modifies this`ready, this`blocked, threads.Values
      ensures Valid() && Model() == Step(old(Model()), Resume(tid))
      ensures tid in threads && old(threads[tid].state) == BLOCK ==>
        var th := threads[tid];
        th.state == READY && th !in blocked && ready == old(ready)[Level(th.pr) := old(ready)[Level(th.pr)] + [th]]
      ensures r == Some(if tid in threads && old(Model()).threads[tid].state == BLOCK then SUCCESS else FAIL)
    {
      ghost var m := Model();
      ResumeInv(m, tid);
      if tid !in threads {
        return Some(FAIL);
      }
      InBlocked(threads[tid]);
      if threads[tid] in blocked {
        var pos := IndexOf(blocked, threads[tid]);
        var th := blocked[pos];
        SetThreadState(th, READY);
        AddToReady(th);
        RemoveFromBlock(tid);
        return Some(SUCCESS);
      } else {
        return Some(FAIL);
      }
    }

    method UthreadGetTid() returns (tid: int)
      requires Valid()
      ensures tid == running.tid == Model().running && tid in threads
    {
      tid := running.tid;
    }

    method UthreadGetQuantums(tid: int) returns (q: int)
      requires Valid()
      ensures q == if tid in threads then threads[tid].quantum else FAIL
      ensures tid in threads ==> q == Quanta(Model().threads, tid)
    {
      if tid !in threads {
        return FAIL;
      }
      return threads[tid].quantum;
    }
  }
}
