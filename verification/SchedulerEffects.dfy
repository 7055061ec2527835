/** What each step of the thread library changes, field by field, and what it leaves alone. */
module SchedulerEffects {
  import opened Collections
  import opened SchedulerModel
  import opened SchedulerRuns
  import opened SchedulerFairness

  // ------------------------------------------------------------------ priorities

  /** Priority `a` is served before priority `b`. */
  predicate Before(a: Priority, b: Priority) {
    match a
    case RED => b == ORANGE || b == GREEN
    case ORANGE => b == GREEN
    case GREEN => false
  }

  lemma LevelsInOrder(a: Priority, b: Priority)
    ensures Before(a, b) <==> Level(a) < Level(b)
    ensures a == b <==> Level(a) == Level(b)
  {
  }

  function QueueOf(s: Sched, pr: Priority): seq<int>
    requires |s.ready| == NUM_OF_QUEUE
  {
    match pr
    case RED => s.ready[0]
    case ORANGE => s.ready[1]
    case GREEN => s.ready[2]
  }

  predicate Ready(s: Sched, t: int) {
    t in s.threads && s.threads[t].state == READY
  }

  /** Whoever is chosen, by a tick, a self-suspend or a self-terminate, was ready, and no ready thread
      has a priority that is served before its own; among its equals it was first in line. */
  lemma BestIsPromoted(s: Sched, e: Event)
    requires Inv(s) && !Exits(e) && Decides(s, e) && exists t :: Ready(s, t)
    ensures var n := Step(s, e).running;
      && Ready(s, n) && QueueOf(s, s.threads[n].pr) != [] && QueueOf(s, s.threads[n].pr)[0] == n
      && forall t :: Ready(s, t) ==> !Before(s.threads[t].pr, s.threads[n].pr)
  {
    forall t | Ready(s, t) ensures SomeReady(s) && Top(s.ready) <= Level(s.threads[t].pr) {
      assert IsReady(s, t, Level(s.threads[t].pr));
    }
    NextIsReady(s);
    if e != Tick {
      SelfLeaveSwitches(s, e);
    }
    var n := Next(s);
    assert Step(s, e).running == n;
    forall t | Ready(s, t) ensures !Before(s.threads[t].pr, s.threads[n].pr) {
      LevelsInOrder(s.threads[t].pr, s.threads[n].pr);
    }
  }

  // ------------------------------------------------------------------ frames

  /** All queues but that of `pr` are as before. */
  predicate OtherQueues(s: Sched, s': Sched, pr: Priority)
    requires |s.ready| == NUM_OF_QUEUE
  {
    |s'.ready| == NUM_OF_QUEUE && forall p: Priority :: p != pr ==> QueueOf(s', p) == QueueOf(s, p)
  }

  /** `q'` is `q` without its one occurrence of `t`, the others in the same order. */
  ghost predicate Loses(q: seq<int>, q': seq<int>, t: int) {
    t !in q' && exists i :: 0 <= i < |q| && q[i] == t && q' == q[..i] + q[i + 1..]
  }

  lemma RemoveLoses(q: seq<int>, t: int)
    requires NoDup(q) && t in q
    ensures Loses(q, Remove(q, t), t)
  {
    var i := FirstIndex(q, t);
    RemoveAt(q, t, i);
    RemoveNoDup(q, t);
  }

  // ------------------------------------------------------------------ spawn

  /** A new thread, unless there are 100: its id is the least that no thread has, it is ready, last in
      the queue of its priority, with no quantum yet; and nothing else changes. */
  lemma SpawnEffect(s: Sched, pr: Priority) returns (t: int)
    requires Inv(s)
    ensures t == LeastFree(s.threads.Keys)
    ensures |s.threads| == 100 ==> SpawnStep(s, pr) == s
    ensures |s.threads| != 100 ==>
      var s' := SpawnStep(s, pr);
      && 0 <= t < 100 && t !in s.threads && (forall u :: 0 <= u < t ==> u in s.threads)
      && s'.threads == s.threads[t := Info(pr, READY, 0)]
      && OtherQueues(s, s', pr) && QueueOf(s', pr) == QueueOf(s, pr) + [t]
      && s'.running == s.running && s'.blocked == s.blocked && s'.total == s.total
  {
    t := LeastFree(s.threads.Keys);
    TableSize(s);
  }

  // ------------------------------------------------------------------ resume

  /** Resuming a blocked thread makes it ready, last in the queue of its priority, and takes it off the
      blocked list; and nothing else changes. Any other thread stays as it is. */
  lemma ResumeEffect(s: Sched, t: int)
    requires Inv(s)
    ensures var s' := ResumeStep(s, t);
      if t in s.threads && s.threads[t].state == BLOCK then
        var i := s.threads[t];
        && s'.threads == s.threads[t := Info(i.pr, READY, i.quanta)]
        && OtherQueues(s, s', i.pr) && QueueOf(s', i.pr) == QueueOf(s, i.pr) + [t]
        && Loses(s.blocked, s'.blocked, t) && s'.running == s.running && s'.total == s.total
      else
        s' == s
  {
    if t in s.threads && s.threads[t].state == BLOCK {
      RemoveLoses(s.blocked, t);
    }
  }

  /** So a resumed RED thread runs no later than the decision after those for the threads that were
      in the queue before it. */
  lemma ResumedRuns(s: Sched, t: int, es: seq<Event>) returns (n: nat)
    requires Inv(s) && t in s.threads && s.threads[t].state == BLOCK && s.threads[t].pr == RED
    requires Inv(ResumeStep(s, t)) && Lives(es) && SparesAll(es, t)
    requires Decisions(ResumeStep(s, t), es) > |QueueOf(s, RED)|
    ensures n <= |es| && Lives(es[..n]) && Run(ResumeStep(s, t), es[..n]).running == t
    ensures Decisions(ResumeStep(s, t), es[..n]) <= |QueueOf(s, RED)| + 1
  {
    ResumeEffect(s, t);
    var s' := ResumeStep(s, t);
    IndexOfUnique(s'.ready[0], t, |QueueOf(s, RED)|);
    n := BoundedWaiting(s', es, t);
  }

  // ------------------------------------------------------------------ suspend

  /** Suspending a ready thread, but main, takes it out of its queue and blocks it; and nothing else
      changes. Suspending main, a missing or a blocked thread changes nothing. */
  lemma SuspendEffect(s: Sched, t: int)
    requires Inv(s) && t != s.running
    ensures var s' := SuspendStep(s, t);
      if t != MAIN_THREAD && Ready(s, t) then
        var i := s.threads[t];
        && s'.threads == s.threads[t := Info(i.pr, BLOCK, i.quanta)]
        && OtherQueues(s, s', i.pr) && Loses(QueueOf(s, i.pr), QueueOf(s', i.pr), t)
        && s'.blocked == s.blocked + [t] && s'.running == s.running && s'.total == s.total
      else
        s' == s
  {
    if t != MAIN_THREAD && Ready(s, t) {
      assert IsReady(s, t, Level(s.threads[t].pr));
      RemoveLoses(s.ready[Level(s.threads[t].pr)], t);
    }
  }

  /** `n` runs in place of whoever ran, from the front of its queue, one quantum richer. */
  predicate Takes(s: Sched, s': Sched, n: int)
    requires |s.ready| == NUM_OF_QUEUE && |s'.ready| == NUM_OF_QUEUE && n in s.threads
  {
    var q := QueueOf(s, s.threads[n].pr);
    && s'.running == n && s'.total == s.total + 1
    && n in s'.threads && s'.threads[n] == Info(s.threads[n].pr, RUNNING, s.threads[n].quanta + 1)
    && q != [] && q[0] == n
  }

  /** The running thread that suspends itself is blocked, last on the list, and another takes over. */
  lemma SuspendSelfEffect(s: Sched)
    requires Inv(s) && s.running != MAIN_THREAD
    ensures var s', t := SuspendStep(s, s.running), s.running; var n := s'.running;
      && Inv(s') && n in s.threads && n != t && Takes(s, s', n)
      && s'.threads == s.threads[t := s.threads[t].(state := BLOCK)][n := s'.threads[n]]
      && s'.blocked == s.blocked + [t]
      && OtherQueues(s, s', s.threads[n].pr) && QueueOf(s', s.threads[n].pr) == QueueOf(s, s.threads[n].pr)[1..]
  {
    SuspendInv(s, s.running);
    MainWaits(s);
    NextIsReady(s);
  }

  // ------------------------------------------------------------------ terminate

  /** Terminating another thread takes it out of the table and off its list; and nothing else changes. */
  lemma TerminateEffect(s: Sched, t: int)
    requires Inv(s) && t != MAIN_THREAD && t != s.running
    ensures var s' := TerminateStep(s, t);
      if t !in s.threads then s' == s
      else
        && s'.threads == s.threads - {t} && s'.running == s.running && s'.total == s.total
        && OtherQueues(s, s', s.threads[t].pr)
        && var q, q' := QueueOf(s, s.threads[t].pr), QueueOf(s', s.threads[t].pr);
           if s.threads[t].state == READY then Loses(q, q', t) && s'.blocked == s.blocked
           else q' == q && Loses(s.blocked, s'.blocked, t)
  {
    if t in s.threads {
      if s.threads[t].state == READY {
        assert IsReady(s, t, Level(s.threads[t].pr));
        RemoveLoses(s.ready[Level(s.threads[t].pr)], t);
      } else {
        RemoveLoses(s.blocked, t);
      }
    }
  }

  /** The running thread that terminates itself leaves the table, and another takes over. */
  lemma TerminateSelfEffect(s: Sched)
    requires Inv(s) && s.running != MAIN_THREAD
    ensures var s', t := TerminateStep(s, s.running), s.running; var n := s'.running;
      && Inv(s') && n in s.threads && n != t && Takes(s, s', n)
      && s'.threads == s.threads[n := s'.threads[n]] - {t} && s'.blocked == s.blocked
      && OtherQueues(s, s', s.threads[n].pr) && QueueOf(s', s.threads[n].pr) == QueueOf(s, s.threads[n].pr)[1..]
  {
    TerminateInv(s, s.running);
    MainWaits(s);
    NextIsReady(s);
  }

  // ------------------------------------------------------------------ tick

  /** With nobody ready a tick gives the running thread one more quantum and changes nothing else. */
  lemma TickAloneEffect(s: Sched)
    requires Inv(s) && forall t :: !Ready(s, t)
    ensures var s', i := TickStep(s), s.threads[s.running];
      && s' == s.(threads := s.threads[s.running := Info(i.pr, RUNNING, i.quanta + 1)], total := s.total + 1)
  {
    if SomeReady(s) {
      NextIsReady(s);
      assert Ready(s, Next(s));
    }
  }

  /** Otherwise another thread takes over, and the one that ran is ready, last in its own queue, with the
      quanta it had; and nothing else changes. */
  lemma TickEffect(s: Sched)
    requires Inv(s) && exists t :: Ready(s, t)
    ensures var s', t := TickStep(s), s.running; var n := s'.running;
      && Inv(s') && n in s.threads && n != t && Takes(s, s', n)
      && s'.threads == s.threads[t := s.threads[t].(state := READY)][n := s'.threads[n]]
      && s'.blocked == s.blocked
      && forall pr: Priority ::
           var q := if pr == s.threads[n].pr then QueueOf(s, pr)[1..] else QueueOf(s, pr);
           QueueOf(s', pr) == if pr == s.threads[t].pr then q + [t] else q
  {
    var t :| Ready(s, t);
    assert IsReady(s, t, Level(s.threads[t].pr));
    TickInv(s);
    NextIsReady(s);
  }
}
