/** The user-level thread library of ex2 as a state machine: what a timer tick and each
    library call do to the ready queues, the blocked list, the running thread, the thread
    table and the quantum counters. Every step runs with SIGVTALRM masked, so it is atomic,
    and ends when the chosen thread's context is loaded. */
module SchedulerModel {
  import opened Collections

  const MAIN_THREAD := 0
  const MAX_THREAD_NUM := 100
  const NUM_OF_QUEUE := 3
  const FAIL := -1
  const SUCCESS := 0

  datatype Priority = RED | ORANGE | GREEN

  /** The index of the priority's queue: 0 is served first. */
  function Level(pr: Priority): (l: nat)
    ensures l < NUM_OF_QUEUE
  {
    match pr
    case RED => 0
    case ORANGE => 1
    case GREEN => 2
  }

  datatype RunState = READY | RUNNING | BLOCK

  datatype Info = Info(pr: Priority, state: RunState, quanta: nat)

  /** `running` is a thread id; between steps it always names a live thread. */
  datatype Sched = Sched(
    ready: seq<seq<int>>,
    blocked: seq<int>,
    running: int,
    threads: map<int, Info>,
    total: nat)

  datatype Event =
    | Tick
    | Spawn(pr: Priority)
    | Terminate(tid: int)
    | Suspend(tid: int)
    | Resume(tid: int)

  /** Terminating the main thread exits the process: no step follows it. */
  predicate Exits(e: Event) {
    e == Terminate(MAIN_THREAD)
  }

  // ------------------------------------------------------------------ pieces of a step

  /** The highest non-empty queue, or NUM_OF_QUEUE when nothing is ready. */
  function Top(ready: seq<seq<int>>): (l: nat)
    requires |ready| == NUM_OF_QUEUE
    ensures l <= NUM_OF_QUEUE
    ensures forall i :: 0 <= i < l ==> ready[i] == []
    ensures l < NUM_OF_QUEUE ==> ready[l] != []
  {
    if ready[0] != [] then 0
    else if ready[1] != [] then 1
    else if ready[2] != [] then 2
    else 3
  }

  predicate SomeReady(s: Sched)
    requires |s.ready| == NUM_OF_QUEUE
  {
    Top(s.ready) < NUM_OF_QUEUE
  }

  function SetState(s: Sched, t: int, state: RunState): Sched
    requires t in s.threads
  {
    s.(threads := s.threads[t := s.threads[t].(state := state)])
  }

  function Enqueue(s: Sched, t: int): Sched
    requires |s.ready| == NUM_OF_QUEUE && t in s.threads
  {
    var l := Level(s.threads[t].pr);
    s.(ready := s.ready[l := s.ready[l] + [t]])
  }

  /** Thread `t` gets the processor for one quantum. */
  function Grant(s: Sched, t: int): Sched
    requires t in s.threads
  {
    var i := s.threads[t];
    s.(running := t, threads := s.threads[t := Info(i.pr, RUNNING, i.quanta + 1)], total := s.total + 1)
  }

  /** The thread at the front of the highest non-empty queue. */
  function Next(s: Sched): int
    requires |s.ready| == NUM_OF_QUEUE && SomeReady(s)
  {
    s.ready[Top(s.ready)][0]
  }

  /** That thread leaves its queue and runs; the thread it replaces is put nowhere. */
  function Promote(s: Sched): Sched
    requires |s.ready| == NUM_OF_QUEUE && SomeReady(s) && Next(s) in s.threads
  {
    var l := Top(s.ready);
    Grant(s.(ready := s.ready[l := s.ready[l][1..]]), Next(s))
  }

  // ------------------------------------------------------------------ steps

  /** What holds between steps. Each live thread is running, or waits in the ready queue of
      its own priority, or is blocked - just one of the three, once - and its state field
      says which. The main thread is alive and never blocked. */
  ghost predicate Inv(s: Sched) {
    && |s.ready| == NUM_OF_QUEUE
    && s.running in s.threads && s.threads[s.running].state == RUNNING
    && (forall t :: t in s.threads && s.threads[t].state == RUNNING ==> t == s.running)
    && (forall i :: 0 <= i < NUM_OF_QUEUE ==> NoDup(s.ready[i]))
    && NoDup(s.blocked)
    && (forall i, t :: 0 <= i < NUM_OF_QUEUE ==> (t in s.ready[i] <==> IsReady(s, t, i)))
    && (forall t :: t in s.blocked <==> t in s.threads && s.threads[t].state == BLOCK)
    && MAIN_THREAD in s.threads && s.threads[MAIN_THREAD].state != BLOCK
    && s.threads[MAIN_THREAD].pr == ORANGE
    && (forall t :: t in s.threads ==> 0 <= t < MAX_THREAD_NUM)
  }

  ghost predicate IsReady(s: Sched, t: int, i: int) {
    t in s.threads && s.threads[t].state == READY && Level(s.threads[t].pr) == i
  }

  /** The main thread running alone, as `uthread_init` leaves it. */
  function Init(): Sched {
    Sched([[], [], []], [], MAIN_THREAD, map[MAIN_THREAD := Info(ORANGE, RUNNING, 1)], 1)
  }

  /** A tick preempts the running thread only if another one is ready. */
  function TickStep(s: Sched): Sched
    requires Inv(s)
  {
    if SomeReady(s) then
      NextIsReady(s);
      Enqueue(Promote(SetState(s, s.running, READY)), s.running)
    else
      Grant(s, s.running)
  }

  function SpawnStep(s: Sched, pr: Priority): Sched
    requires Inv(s)
  {
    if |s.threads| == MAX_THREAD_NUM then s
    else
      var tid := LeastFree(s.threads.Keys);
      Enqueue(s.(threads := s.threads[tid := Info(pr, READY, 0)]), tid)
  }

  function Drop(s: Sched, t: int): Sched {
    s.(threads := s.threads - {t})
  }

  function LeaveReady(s: Sched, t: int): Sched
    requires |s.ready| == NUM_OF_QUEUE && t in s.threads
  {
    var l := Level(s.threads[t].pr);
    s.(ready := s.ready[l := Remove(s.ready[l], t)])
  }

  function LeaveBlocked(s: Sched, t: int): Sched {
    s.(blocked := Remove(s.blocked, t))
  }

  function TerminateStep(s: Sched, tid: int): Sched
    requires Inv(s) && tid != MAIN_THREAD
  {
    if tid !in s.threads then s
    else if tid == s.running then
      MainWaits(s);
      NextIsReady(s);
      Drop(Promote(s), tid)
    else if s.threads[tid].state == READY then Drop(LeaveReady(s, tid), tid)
    else Drop(LeaveBlocked(s, tid), tid)
  }

  function SuspendStep(s: Sched, tid: int): Sched
    requires Inv(s)
  {
    if tid == MAIN_THREAD || tid !in s.threads || s.threads[tid].state == BLOCK then s
    else if tid == s.running then
      MainWaits(s);
      NextIsReady(s);
      Promote(SetState(s, tid, BLOCK).(blocked := s.blocked + [tid]))
    else
      SetState(LeaveReady(s, tid), tid, BLOCK).(blocked := s.blocked + [tid])
  }

  function ResumeStep(s: Sched, tid: int): Sched
    requires Inv(s)
  {
    if tid !in s.threads || s.threads[tid].state != BLOCK then s
    else LeaveBlocked(Enqueue(SetState(s, tid, READY), tid), tid)
  }

  function Step(s: Sched, e: Event): Sched
    requires Inv(s) && !Exits(e)
  {
    match e
    case Tick => TickStep(s)
    case Spawn(pr) => SpawnStep(s, pr)
    case Terminate(tid) => TerminateStep(s, tid)
    case Suspend(tid) => SuspendStep(s, tid)
    case Resume(tid) => ResumeStep(s, tid)
  }

  // ------------------------------------------------------------------ always someone to run

  lemma NextIsReady(s: Sched)
    requires Inv(s) && SomeReady(s)
    ensures IsReady(s, Next(s), Top(s.ready)) && Next(s) != s.running
  {
    assert Next(s) in s.ready[Top(s.ready)];
  }

  /** While any other thread runs, the main thread waits in the ORANGE queue. */
  lemma MainWaits(s: Sched)
    requires Inv(s) && s.running != MAIN_THREAD
    ensures MAIN_THREAD in s.ready[Level(ORANGE)] && SomeReady(s)
  {
    assert IsReady(s, MAIN_THREAD, 1);
  }

  // ------------------------------------------------------------------ the invariant is kept

  lemma InitInv()
    ensures Inv(Init())
  {
  }

  lemma TickInv(s: Sched)
    requires Inv(s)
    ensures Inv(TickStep(s))
  {
    if SomeReady(s) {
      NextIsReady(s);
      PopFront(s.ready[Top(s.ready)]);
      var s1 := Promote(SetState(s, s.running, READY));
      Append(s1.ready[Level(s.threads[s.running].pr)], s.running);
    }
  }

  lemma SpawnInv(s: Sched, pr: Priority)
    requires Inv(s)
    ensures Inv(SpawnStep(s, pr))
  {
    TableSize(s);
    var tid := LeastFree(s.threads.Keys);
    Append(s.ready[Level(pr)], tid);
  }

  lemma TerminateInv(s: Sched, tid: int)
    requires Inv(s) && tid != MAIN_THREAD
    ensures Inv(TerminateStep(s, tid))
  {
    if tid in s.threads {
      if tid == s.running {
        MainWaits(s);
        NextIsReady(s);
        PopFront(s.ready[Top(s.ready)]);
      } else if s.threads[tid].state == READY {
        RemoveNoDup(s.ready[Level(s.threads[tid].pr)], tid);
      } else {
        RemoveNoDup(s.blocked, tid);
      }
    }
  }

  lemma SuspendInv(s: Sched, tid: int)
    requires Inv(s)
    ensures Inv(SuspendStep(s, tid))
  {
    if tid != MAIN_THREAD && tid in s.threads && s.threads[tid].state != BLOCK {
      Append(s.blocked, tid);
      if tid == s.running {
        MainWaits(s);
        NextIsReady(s);
        PopFront(s.ready[Top(s.ready)]);
      } else {
        RemoveNoDup(s.ready[Level(s.threads[tid].pr)], tid);
      }
    }
  }

  lemma ResumeInv(s: Sched, tid: int)
    requires Inv(s)
    ensures Inv(ResumeStep(s, tid))
  {
    if tid in s.threads && s.threads[tid].state == BLOCK {
      assert !IsReady(s, tid, Level(s.threads[tid].pr));
      Append(s.ready[Level(s.threads[tid].pr)], tid);
      RemoveNoDup(s.blocked, tid);
    }
  }

  /** The main result on single steps: every step the library can take keeps the partition. */
  lemma StepInv(s: Sched, e: Event)
    requires Inv(s) && !Exits(e)
    ensures Inv(Step(s, e))
  {
    match e
    case Tick => TickInv(s);
    case Spawn(pr) => SpawnInv(s, pr);
    case Terminate(tid) => TerminateInv(s, tid);
    case Suspend(tid) => SuspendInv(s, tid);
    case Resume(tid) => ResumeInv(s, tid);
  }

  /** At most MAX_THREAD_NUM threads are alive, and unless the table is full the next
      thread id is a fresh one below MAX_THREAD_NUM. */
  lemma TableSize(s: Sched)
    requires Inv(s)
    ensures |s.threads| <= MAX_THREAD_NUM
    ensures |s.threads| < MAX_THREAD_NUM ==> LeastFree(s.threads.Keys) < MAX_THREAD_NUM
  {
    SubsetOfRange(s.threads.Keys, MAX_THREAD_NUM);
    assert |s.threads.Keys| == |s.threads|;
  }
}
