/** What holds over whole runs of the thread library. A run is a list of events none of which
    terminates the main thread. */
module SchedulerRuns {
  import opened Collections
  import opened SchedulerModel

  predicate Lives(es: seq<Event>) {
    forall e :: e in es ==> !Exits(e)
  }

  /** The state that a run of events leaves. */
  function Run(s: Sched, es: seq<Event>): (r: Sched)
    requires Inv(s) && Lives(es)
    ensures Inv(r)
    decreases |es|
  {
    if es == [] then s
    else
      StepInv(s, es[0]);
      Run(Step(s, es[0]), es[1..])
  }

  // ------------------------------------------------------------------ the size test

  /** The thread table counts the running thread and every list once. */
  lemma TableCount(s: Sched)
    requires Inv(s)
    ensures |s.threads| == 1 + |s.ready[0]| + |s.ready[1]| + |s.ready[2]| + |s.blocked|
  {
    forall i, t | 0 <= i < NUM_OF_QUEUE && t in s.ready[i]
      ensures t != s.running && t !in s.blocked && forall j :: 0 <= j < NUM_OF_QUEUE && t in s.ready[j] ==> j == i
    {
      assert IsReady(s, t, i);
      assert forall j :: 0 <= j < NUM_OF_QUEUE && t in s.ready[j] ==> IsReady(s, t, j);
    }
    var q := [s.running];
    NoDupConcat(q, s.ready[0]);
    NoDupConcat(q + s.ready[0], s.ready[1]);
    NoDupConcat(q + s.ready[0] + s.ready[1], s.ready[2]);
    NoDupConcat(q + s.ready[0] + s.ready[1] + s.ready[2], s.blocked);
    var all := q + s.ready[0] + s.ready[1] + s.ready[2] + s.blocked;
    forall t ensures t in s.threads <==> t in all {
      if t in s.threads && s.threads[t].state == READY {
        assert IsReady(s, t, Level(s.threads[t].pr));
      }
    }
    assert s.threads.Keys == ToSet(all);
    NoDupCard(all);
  }

  /** The guard that decides whether a preempted thread goes back to a queue compares two
      sizes that the switch does not change; it holds just when some thread was ready. */
  lemma SizeTest(s: Sched)
    requires Inv(s)
    ensures |s.threads| - 1 != |s.blocked| <==> SomeReady(s)
    ensures |s.threads| == 1 ==> s.running == MAIN_THREAD && s.blocked == []
  {
    TableCount(s);
    if |s.threads| == 1 && s.running != MAIN_THREAD {
      MainWaits(s);
    }
  }

  /** A tick hands the processor on if and only if some other thread is ready, so nobody gets
      two quanta in a row from ticks while another thread waits. */
  lemma TickSwitches(s: Sched)
    requires Inv(s)
    ensures TickStep(s).running != s.running <==> SomeReady(s)
  {
    if SomeReady(s) {
      NextIsReady(s);
    }
  }

  /** A thread that suspends or terminates itself always leaves a different live thread running. */
  lemma SelfLeaveSwitches(s: Sched, e: Event)
    requires Inv(s) && s.running != MAIN_THREAD
    requires e == Suspend(s.running) || e == Terminate(s.running)
    ensures SomeReady(s) && Step(s, e).running == Next(s) != s.running
    ensures Step(s, e).running in Step(s, e).threads
  {
    MainWaits(s);
    NextIsReady(s);
    StepInv(s, e);
  }

  // ------------------------------------------------------------------ quantum conservation

  function Quanta(m: map<int, Info>, t: int): nat {
    if t in m then m[t].quanta else 0
  }

  /** The quanta of all threads with ids below `n`. */
  function Sum(m: map<int, Info>, n: nat): nat {
    if n == 0 then 0 else Sum(m, n - 1) + Quanta(m, n - 1)
  }

  lemma {:induction false} SumChange(m: map<int, Info>, m': map<int, Info>, t: int, n: nat)
    requires forall u :: u != t ==> Quanta(m', u) == Quanta(m, u)
    ensures Sum(m', n) == Sum(m, n) + (if 0 <= t < n then Quanta(m', t) - Quanta(m, t) else 0)
  {
    if n == 0 {
    } else {
      SumChange(m, m', t, n - 1);
    }
  }

  /** The quanta a thread holds when the step removes it from the table. */
  function Retires(s: Sched, e: Event): nat {
    if e.Terminate? then Quanta(s.threads, e.tid) else 0
  }

  function Retired(s: Sched, es: seq<Event>): nat
    requires Inv(s) && Lives(es)
    decreases |es|
  {
    if es == [] then 0
    else
      StepInv(s, es[0]);
      Retires(s, es[0]) + Retired(Step(s, es[0]), es[1..])
  }

  /** The steps that choose who runs next. */
  predicate Decides(s: Sched, e: Event) {
    e == Tick || ((e == Terminate(s.running) || e == Suspend(s.running)) && s.running != MAIN_THREAD)
  }

  function Decisions(s: Sched, es: seq<Event>): nat
    requires Inv(s) && Lives(es)
    decreases |es|
  {
    if es == [] then 0
    else
      StepInv(s, es[0]);
      (if Decides(s, es[0]) then 1 else 0) + Decisions(Step(s, es[0]), es[1..])
  }

  ghost predicate Conserves(s: Sched, e: Event)
    requires Inv(s) && !Exits(e)
  {
    var s', d := Step(s, e), if Decides(s, e) then 1 else 0;
    && s'.total == s.total + d
    && Sum(s'.threads, MAX_THREAD_NUM) + Retires(s, e) == Sum(s.threads, MAX_THREAD_NUM) + d
  }

  lemma ConservationDecision(s: Sched, e: Event)
    requires Inv(s) && !Exits(e) && Decides(s, e)
    ensures Conserves(s, e)
  {
    var s' := Step(s, e);
    StepInv(s, e);
    if e != Tick {
      SelfLeaveSwitches(s, e);
      NextIsReady(s);
    } else if SomeReady(s) {
      NextIsReady(s);
    }
    var n := s'.running;
    match e {
      case Tick => assert Quanta(s'.threads, n) == Quanta(s.threads, n) + 1;
      case Terminate(t) =>
        assert s' == Drop(Promote(s), t) && n == Next(s) && n != t;
        assert Quanta(s'.threads, n) == Quanta(s.threads, n) + 1;
      case Suspend(t) => assert Quanta(s'.threads, n) == Quanta(s.threads, n) + 1;
    }
    var m := s.threads[n := s'.threads[n]];
    SumChange(s.threads, m, n, MAX_THREAD_NUM);
    SumChange(m, s'.threads, s.running, MAX_THREAD_NUM);
  }

  lemma ConservationOther(s: Sched, e: Event)
    requires Inv(s) && !Exits(e) && !Decides(s, e)
    ensures Conserves(s, e)
  {
    var t := match e case Spawn(_) => LeastFree(s.threads.Keys) case Tick => 0
             case Terminate(t) => t case Suspend(t) => t case Resume(t) => t;
    StepInv(s, e);
    SumChange(s.threads, Step(s, e).threads, t, MAX_THREAD_NUM);
  }

  /** Over any run the global counter is the quanta of the live threads plus those that
      terminated threads took with them; it counts the scheduling decisions, one each. */
  lemma {:induction false} QuantumConservation(s: Sched, es: seq<Event>)
    requires Inv(s) && Lives(es)
    ensures var r := Run(s, es);
      && r.total == s.total + Decisions(s, es)
      && Sum(r.threads, MAX_THREAD_NUM) + Retired(s, es) + s.total == Sum(s.threads, MAX_THREAD_NUM) + r.total
    decreases |es|
  {
    if es == [] {
    } else {
      StepInv(s, es[0]);
      if Decides(s, es[0]) {
        ConservationDecision(s, es[0]);
      } else {
        ConservationOther(s, es[0]);
      }
      QuantumConservation(Step(s, es[0]), es[1..]);
    }
  }

  lemma {:induction false} SumZero(m: map<int, Info>, n: nat)
    requires forall t :: 0 <= t < n ==> t !in m
    ensures Sum(m, n) == 0
  {
    if n == 0 {
    } else {
      SumZero(m, n - 1);
    }
  }

  lemma QuantumConservationFromInit(es: seq<Event>)
    requires Lives(es)
    ensures Inv(Init())
    ensures var r := Run(Init(), es);
      r.total == Sum(r.threads, MAX_THREAD_NUM) + Retired(Init(), es) == 1 + Decisions(Init(), es)
  {
    InitInv();
    QuantumConservation(Init(), es);
    SumZero(map[], MAX_THREAD_NUM);
    SumChange(map[], Init().threads, MAIN_THREAD, MAX_THREAD_NUM);
  }
}
