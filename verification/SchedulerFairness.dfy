/** Who gets the processor, and when: bounded waiting over arbitrary runs, exact round-robin,
    and exactly which threads starve under ticks alone. */
module SchedulerFairness {
  import opened Collections
  import opened SchedulerModel
  import opened SchedulerRuns

  // ------------------------------------------------------------------ waiting in a queue

  ghost predicate Waits(s: Sched, t: int, l: nat)
    requires Inv(s)
  {
    l < NUM_OF_QUEUE && t in s.ready[l]
  }

  function Position(s: Sched, t: int, l: nat): nat
    requires Inv(s) && Waits(s, t, l)
  {
    IndexOf(s.ready[l], t)
  }

  /** Nothing the event does is addressed to `t`. */
  predicate Spares(e: Event, t: int) {
    e != Terminate(t) && e != Suspend(t)
  }

  lemma IndexAfterAppend(q: seq<int>, x: int, t: int)
    requires t in q
    ensures t in q + [x] && IndexOf(q + [x], t) == IndexOf(q, t)
  {
    var i := IndexOf(q, t);
    assert (q + [x])[..i] == q[..i];
    assert (q + [x])[i] == t;
    assert t !in (q + [x])[..i];
    FirstOccurrence(q + [x], t, i);
  }

  lemma IndexAfterPop(q: seq<int>, t: int)
    requires NoDup(q) && t in q && q[0] != t
    ensures t in q[1..] && IndexOf(q[1..], t) == IndexOf(q, t) - 1
  {
    var i := IndexOf(q, t);
    assert q[1..][i - 1] == t;
    PopFront(q);
    IndexOfUnique(q[1..], t, i - 1);
  }

  lemma IndexAfterRemove(q: seq<int>, x: int, t: int)
    requires NoDup(q) && t in q && x != t
    ensures t in Remove(q, x) && IndexOf(Remove(q, x), t) <= IndexOf(q, t)
  {
    RemoveNoDup(q, x);
    if x in q {
      var k := FirstIndex(q, x);
      RemoveAt(q, x, k);
      var i := IndexOf(q, t);
      var i' := if k < i then i - 1 else i;
      assert (q[..k] + q[k + 1..])[i'] == t;
      IndexOfUnique(Remove(q, x), t, i');
    } else {
      RemoveAbsent(q, x);
    }
  }

  /** When the processor is handed on, a thread in the queue being served either runs, if it
      was first, or moves up by one; a thread in a lower queue keeps its place. */
  lemma WaitPromote(s: Sched, t: int, l: nat, q: seq<seq<int>>)
    requires Inv(s) && Waits(s, t, l)
    requires q == s.ready[Top(s.ready) := s.ready[Top(s.ready)][1..]]
    ensures Top(s.ready) <= l
    ensures Next(s) != t ==>
              t in q[l] && IndexOf(q[l], t) == Position(s, t, l) - (if Top(s.ready) == l then 1 else 0)
    ensures Next(s) == t <==> Top(s.ready) == l && Position(s, t, l) == 0
  {
    assert IsReady(s, t, l);
    NextIsReady(s);
    if Top(s.ready) == l && Next(s) != t {
      IndexAfterPop(s.ready[l], t);
    }
  }

  ghost predicate StillWaits(s: Sched, s': Sched, t: int, l: nat)
    requires Inv(s) && Inv(s') && Waits(s, t, l)
  {
    Waits(s', t, l) && Position(s', t, l) <= Position(s, t, l)
  }

  ghost predicate MovesUp(s: Sched, s': Sched, t: int, l: nat)
    requires Inv(s) && Inv(s') && Waits(s, t, l)
  {
    if Position(s, t, l) == 0 then s'.running == t
    else Waits(s', t, l) && Position(s', t, l) == Position(s, t, l) - 1
  }

  lemma WaitTick(s: Sched, t: int, l: nat)
    requires Inv(s) && Waits(s, t, l) && Inv(TickStep(s))
    ensures TickStep(s).running == t || StillWaits(s, TickStep(s), t, l)
    ensures Top(s.ready) == l ==> MovesUp(s, TickStep(s), t, l)
    ensures Top(s.ready) < l ==> TickStep(s).running != t && Position(TickStep(s), t, l) == Position(s, t, l)
  {
    var q := s.ready[Top(s.ready) := s.ready[Top(s.ready)][1..]];
    NextIsReady(s);
    WaitPromote(s, t, l, q);
    if Next(s) != t {
      IndexAfterAppend(q[l], s.running, t);
    }
  }

  lemma WaitSelfLeave(s: Sched, e: Event, t: int, l: nat)
    requires Inv(s) && Waits(s, t, l) && Decides(s, e) && e != Tick && Inv(Step(s, e))
    ensures Step(s, e).running == t || StillWaits(s, Step(s, e), t, l)
    ensures Top(s.ready) == l ==> MovesUp(s, Step(s, e), t, l)
  {
    var q := s.ready[Top(s.ready) := s.ready[Top(s.ready)][1..]];
    MainWaits(s);
    NextIsReady(s);
    WaitPromote(s, t, l, q);
    assert Step(s, e).ready == q;
  }

  lemma WaitOther(s: Sched, e: Event, t: int, l: nat)
    requires Inv(s) && !Exits(e) && Waits(s, t, l) && Spares(e, t) && !Decides(s, e) && Inv(Step(s, e))
    ensures StillWaits(s, Step(s, e), t, l)
  {
    assert IsReady(s, t, l);
    match e
    case Tick =>
    case Spawn(pr) =>
      IndexAfterAppend(s.ready[l], LeastFree(s.threads.Keys), t);
    case Terminate(u) =>
      IndexAfterRemove(s.ready[l], u, t);
    case Suspend(u) =>
      IndexAfterRemove(s.ready[l], u, t);
    case Resume(u) =>
      IndexAfterAppend(s.ready[l], u, t);
  }

  /** One event, any event that is not addressed to `t`: `t` runs now, or still waits in the same
      queue at the same place or closer to its front. If the event chose who runs and
      nobody waits in a higher queue, `t` moved up. */
  lemma WaitStep(s: Sched, e: Event, t: int, l: nat)
    requires Inv(s) && !Exits(e) && Waits(s, t, l) && Spares(e, t)
    ensures Inv(Step(s, e))
    ensures Step(s, e).running == t || StillWaits(s, Step(s, e), t, l)
    ensures Decides(s, e) && Top(s.ready) == l ==> MovesUp(s, Step(s, e), t, l)
  {
    StepInv(s, e);
    if e == Tick {
      WaitTick(s, t, l);
    } else if Decides(s, e) {
      WaitSelfLeave(s, e, t, l);
    } else {
      WaitOther(s, e, t, l);
    }
  }

  // ------------------------------------------------------------------ bounded waiting

  predicate SparesAll(es: seq<Event>, t: int) {
    forall e :: e in es ==> Spares(e, t)
  }

  lemma RunPrefix(s: Sched, es: seq<Event>, n: nat)
    requires Inv(s) && Lives(es) && 0 < n <= |es|
    ensures Lives(es[..n]) && Lives(es[1..]) && Lives(es[1..][..n - 1])
    ensures Inv(Step(s, es[0]))
    ensures Run(s, es[..n]) == Run(Step(s, es[0]), es[1..][..n - 1])
    ensures Decisions(s, es[..n]) == (if Decides(s, es[0]) then 1 else 0) + Decisions(Step(s, es[0]), es[1..][..n - 1])
  {
    StepInv(s, es[0]);
    assert es[..n][1..] == es[1..][..n - 1];
    assert es[..n][0] == es[0];
  }

  /** No later arrival ever overtakes: over any run that does not terminate or suspend `t`
      itself, `t` runs at some point or is still in its queue, no further from the front. */
  lemma {:induction false} NeverOvertaken(s: Sched, es: seq<Event>, t: int, l: nat)
    requires Inv(s) && Lives(es) && Waits(s, t, l) && SparesAll(es, t)
    ensures (exists n :: 0 <= n <= |es| && Lives(es[..n]) && Run(s, es[..n]).running == t)
         || (Waits(Run(s, es), t, l) && Position(Run(s, es), t, l) <= Position(s, t, l))
    decreases |es|
  {
    if es == [] {
    } else {
      var s' := Step(s, es[0]);
      WaitStep(s, es[0], t, l);
      if s'.running == t {
        assert es[..1] == [es[0]];
        assert Run(s, es[..1]) == Run(s', es[..1][1..]) == s';
      } else {
        NeverOvertaken(s', es[1..], t, l);
        if n :| 0 <= n <= |es[1..]| && Lives(es[1..][..n]) && Run(s', es[1..][..n]).running == t {
          RunPrefix(s, es, n + 1);
        }
      }
    }
  }

  /** The decisions of the run that were taken with no thread ready above level `l`. */
  function DecisionsAt(s: Sched, es: seq<Event>, l: nat): nat
    requires Inv(s) && Lives(es)
    decreases |es|
  {
    if es == [] then 0
    else
      StepInv(s, es[0]);
      (if Decides(s, es[0]) && l <= Top(s.ready) then 1 else 0) + DecisionsAt(Step(s, es[0]), es[1..], l)
  }

  lemma {:induction false} AllDecisionsAtTop(s: Sched, es: seq<Event>)
    requires Inv(s) && Lives(es)
    ensures DecisionsAt(s, es, 0) == Decisions(s, es)
    decreases |es|
  {
    if es == [] {
    } else {
      StepInv(s, es[0]);
      AllDecisionsAtTop(Step(s, es[0]), es[1..]);
    }
  }

  lemma DecisionsAtPrefix(s: Sched, es: seq<Event>, n: nat, l: nat)
    requires Inv(s) && Lives(es) && 0 < n <= |es| && Lives(es[..n]) && Lives(es[1..][..n - 1]) && Inv(Step(s, es[0]))
    ensures DecisionsAt(s, es[..n], l) ==
      (if Decides(s, es[0]) && l <= Top(s.ready) then 1 else 0) + DecisionsAt(Step(s, es[0]), es[1..][..n - 1], l)
  {
    assert es[..n][1..] == es[1..][..n - 1];
    assert es[..n][0] == es[0];
  }

  /** Bounded waiting. Over any run that does not terminate or suspend it, a thread of any priority
      with `k` threads in front of it runs no later than the (k+1)-st scheduling decision taken
      with nobody of a higher priority ready, whatever else is spawned, resumed, suspended or
      terminated meanwhile. */
  lemma {:induction false} BoundedWaitingAt(s: Sched, es: seq<Event>, t: int, l: nat) returns (n: nat)
    requires Inv(s) && Lives(es) && Waits(s, t, l) && SparesAll(es, t)
    requires DecisionsAt(s, es, l) > Position(s, t, l)
    ensures n <= |es| && Lives(es[..n]) && Run(s, es[..n]).running == t
    ensures DecisionsAt(s, es[..n], l) <= Position(s, t, l) + 1
    decreases |es|
  {
    var s' := Step(s, es[0]);
    WaitStep(s, es[0], t, l);
    if s'.running == t {
      n := 1;
      assert es[..1] == [es[0]];
      RunPrefix(s, es, 1);
      DecisionsAtPrefix(s, es, 1, l);
    } else {
      WaitsAtOrAbove(s, t, l);
      n := BoundedWaitingAt(s', es[1..], t, l);
      n := n + 1;
      RunPrefix(s, es, n);
      DecisionsAtPrefix(s, es, n, l);
    }
  }

  lemma WaitsAtOrAbove(s: Sched, t: int, l: nat)
    requires Inv(s) && Waits(s, t, l)
    ensures Top(s.ready) <= l
  {
  }

  /** For a RED thread every decision counts: it runs no later than the (k+1)-st of all. */
  lemma BoundedWaiting(s: Sched, es: seq<Event>, t: int) returns (n: nat)
    requires Inv(s) && Lives(es) && Waits(s, t, Level(RED)) && SparesAll(es, t)
    requires Decisions(s, es) > Position(s, t, Level(RED))
    ensures n <= |es| && Lives(es[..n]) && Run(s, es[..n]).running == t
    ensures Decisions(s, es[..n]) <= Position(s, t, Level(RED)) + 1
  {
    AllDecisionsAtTop(s, es);
    n := BoundedWaitingAt(s, es, t, Level(RED));
    AllDecisionsAtTop(s, es[..n]);
  }

  // ------------------------------------------------------------------ ticks alone

  /** The state after `n` timer ticks with no library call between them. */
  function Ticks(s: Sched, n: nat): (r: Sched)
    requires Inv(s)
    ensures Inv(r)
  {
    if n == 0 then s
    else
      TickInv(Ticks(s, n - 1));
      TickStep(Ticks(s, n - 1))
  }

  lemma {:induction false} TicksShift(s: Sched, n: nat)
    requires Inv(s)
    ensures Inv(TickStep(s)) && Ticks(s, n + 1) == Ticks(TickStep(s), n)
  {
    TickInv(s);
    if n == 0 {
      assert Ticks(s, 0) == s;
    } else {
      TicksShift(s, n - 1);
      assert Ticks(s, n) == Ticks(TickStep(s), n - 1);
    }
  }

  // ------------------------------------------------------------------ round-robin

  /** All runnable threads have the running thread's priority. */
  ghost predicate OnePriority(s: Sched)
    requires Inv(s)
  {
    forall i :: 0 <= i < NUM_OF_QUEUE && i != Level(s.threads[s.running].pr) ==> s.ready[i] == []
  }

  /** The runnable threads in the order they will run, the running one first. */
  function Circle(s: Sched): seq<int>
    requires Inv(s)
  {
    [s.running] + s.ready[Level(s.threads[s.running].pr)]
  }

  function Rotate(c: seq<int>): seq<int>
    requires c != []
  {
    c[1..] + [c[0]]
  }

  lemma CircleTick(s: Sched)
    requires Inv(s) && OnePriority(s)
    ensures Inv(TickStep(s)) && OnePriority(TickStep(s)) && Circle(TickStep(s)) == Rotate(Circle(s))
    ensures TickStep(s).blocked == s.blocked && TickStep(s).threads.Keys == s.threads.Keys
    ensures forall t :: t in s.threads && t !in Circle(s) ==> TickStep(s).threads[t] == s.threads[t]
    ensures var c := Circle(s); var m := TickStep(s).threads;
      forall t :: t in c ==> t in m && m[t].quanta == s.threads[t].quanta + (if t == c[1 % |c|] then 1 else 0)
  {
    TickInv(s);
    var l := Level(s.threads[s.running].pr);
    if SomeReady(s) {
      NextIsReady(s);
      assert Top(s.ready) == l;
      var q := s.ready[l];
      assert Circle(s)[1..] == q && 1 % |Circle(s)| == 1;
      assert [q[0]] + (q[1..] + [s.running]) == q + [s.running];
    }
    forall t | t in Circle(s) ensures t in s.threads {
      assert t in s.ready[l] ==> IsReady(s, t, l);
    }
  }

  lemma CircleNoDup(s: Sched)
    requires Inv(s)
    ensures NoDup(Circle(s))
  {
    var l := Level(s.threads[s.running].pr);
    forall t | t in s.ready[l] ensures t != s.running {
      assert IsReady(s, t, l);
    }
    NoDupConcat([s.running], s.ready[l]);
  }

  /** After `j` ticks the thread at place `k` of the circle has had its turn or not. */
  ghost predicate Gained(s: Sched, r: Sched, c: seq<int>, k: nat, j: nat)
    requires k < |c|
  {
    c[k] in s.threads && c[k] in r.threads &&
    r.threads[c[k]].quanta == s.threads[c[k]].quanta + (if 1 <= k <= j || (k == 0 && j == |c|) then 1 else 0)
  }

  lemma RotateTurns(c: seq<int>, d: seq<int>, j: nat)
    requires 1 <= j <= |c| && d == c[j - 1..] + c[..j - 1]
    ensures Rotate(d) == c[j..] + c[..j]
  {
    assert d[1..] == c[j..] + c[..j - 1];
  }

  lemma RotateSecond(c: seq<int>, d: seq<int>, j: nat)
    requires 1 <= j <= |c| && d == c[j - 1..] + c[..j - 1]
    ensures |d| == |c| && d[1 % |d|] == c[if j == |c| then 0 else j]
  {
    if |c| > 1 {
      assert 1 % |d| == 1;
    }
  }

  lemma RotateMembers(c: seq<int>, d: seq<int>, j: nat)
    requires 1 <= j <= |c| && d == c[j - 1..] + c[..j - 1]
    ensures forall t :: t in d <==> t in c
  {
    assert c == c[..j - 1] + c[j - 1..];
  }

  lemma GainedNext(s: Sched, u: Sched, r: Sched, c: seq<int>, k: nat, j: nat)
    requires k < |c| && 1 <= j <= |c| && Gained(s, u, c, k, j - 1) && c[k] in r.threads
    requires r.threads[c[k]].quanta == u.threads[c[k]].quanta + (if k == (if j == |c| then 0 else j) then 1 else 0)
    ensures Gained(s, r, c, k, j)
  {
  }

  /** After `j` ticks the circle has turned `j` places and the threads it passed have run once each. */
  lemma {:induction false} RoundRobinAt(s: Sched, j: nat)
    requires Inv(s) && OnePriority(s) && j <= |Circle(s)|
    ensures OnePriority(Ticks(s, j)) && Circle(Ticks(s, j)) == Circle(s)[j..] + Circle(s)[..j]
    ensures Ticks(s, j).blocked == s.blocked && Ticks(s, j).threads.Keys == s.threads.Keys
    ensures forall t :: t in s.threads && t !in Circle(s) ==> Ticks(s, j).threads[t] == s.threads[t]
    ensures forall k :: 0 <= k < |Circle(s)| ==> Gained(s, Ticks(s, j), Circle(s), k, j)
  {
    var c := Circle(s);
    if j == 0 {
      forall k | 0 <= k < |c| ensures c[k] in s.threads {
        assert k > 0 ==> IsReady(s, c[k], Level(s.threads[s.running].pr));
      }
    } else {
      var u := Ticks(s, j - 1);
      RoundRobinAt(s, j - 1);
      CircleTick(u);
      CircleNoDup(s);
      var d := Circle(u);
      RotateTurns(c, d, j);
      RotateSecond(c, d, j);
      RotateMembers(c, d, j);
      forall k | 0 <= k < |c| ensures Gained(s, Ticks(s, j), c, k, j) {
        assert Gained(s, u, c, k, j - 1);
        assert c[k] in c;
        GainedNext(s, u, Ticks(s, j), c, k, j);
      }
    }
  }

  /** Exact round-robin. When all `n` runnable threads share one priority, `n` ticks bring back
      the same running thread and the same queues, and each of the `n` has run exactly once. */
  lemma RoundRobin(s: Sched)
    requires Inv(s) && OnePriority(s)
    ensures var n := |Circle(s)|; var r := Ticks(s, n);
      && r.running == s.running && r.ready == s.ready && r.blocked == s.blocked
      && r.threads.Keys == s.threads.Keys
      && forall t :: t in s.threads ==>
           r.threads[t] == s.threads[t].(quanta := s.threads[t].quanta + (if t in Circle(s) then 1 else 0))
  {
    var c := Circle(s);
    var r := Ticks(s, |c|);
    RoundRobinAt(s, |c|);
    assert c[|c|..] + c[..|c|] == c;
    TicksSameThreads(s, |c|);
    var l := Level(s.threads[s.running].pr);
    assert Circle(r)[0] == c[0] && Circle(r)[1..] == c[1..];
    assert r.ready[l] == s.ready[l];
    assert forall i :: 0 <= i < NUM_OF_QUEUE ==> r.ready[i] == s.ready[i];
    assert r.ready == s.ready;
    forall t | t in s.threads
      ensures r.threads[t] == s.threads[t].(quanta := s.threads[t].quanta + (if t in c then 1 else 0))
    {
      if t in c {
        var k :| 0 <= k < |c| && c[k] == t;
        assert Gained(s, r, c, k, |c|);
        assert t == s.running || IsReady(s, t, l);
        assert t == s.running || IsReady(r, t, l);
      }
    }
  }

  /** The same threads, with the same priorities, and the same of them blocked. */
  ghost predicate SameThreads(s: Sched, r: Sched) {
    && r.threads.Keys == s.threads.Keys
    && forall t :: t in s.threads ==>
         && r.threads[t].pr == s.threads[t].pr
         && (r.threads[t].state == BLOCK <==> s.threads[t].state == BLOCK)
  }

  lemma TickSameThreads(s: Sched, u: Sched)
    requires Inv(u) && SameThreads(s, u)
    ensures SameThreads(s, TickStep(u))
  {
    if SomeReady(u) {
      NextIsReady(u);
    }
  }

  lemma {:induction false} TicksSameThreads(s: Sched, n: nat)
    requires Inv(s)
    ensures SameThreads(s, Ticks(s, n))
  {
    if n == 0 {
    } else {
      TicksSameThreads(s, n - 1);
      TickSameThreads(s, Ticks(s, n - 1));
    }
  }

  // ------------------------------------------------------------------ starvation

  /** The runnable threads served strictly before priority level `l`. */
  ghost function Above(s: Sched, l: nat): set<int> {
    set t | t in s.threads && s.threads[t].state != BLOCK && Level(s.threads[t].pr) < l
  }

  lemma AboveTick(s: Sched, l: nat)
    requires Inv(s)
    ensures Inv(TickStep(s)) && Above(TickStep(s), l) == Above(s, l)
  {
    TickInv(s);
    if SomeReady(s) {
      NextIsReady(s);
    }
  }

  /** Two runnable threads above level `l`: one of them is always ready. */
  lemma TwoAboveBlock(s: Sched, l: nat)
    requires Inv(s) && l < NUM_OF_QUEUE && |Above(s, l)| >= 2
    ensures Top(s.ready) < l
  {
    if s.running in Above(s, l) {
      assert |Above(s, l) - {s.running}| >= 1;
    } else {
      assert Above(s, l) - {s.running} == Above(s, l);
    }
    SomeMember(Above(s, l) - {s.running});
    var t :| t in Above(s, l) - {s.running};
    assert IsReady(s, t, Level(s.threads[t].pr));
  }

  lemma {:induction false} Starves(s: Sched, t: int, l: nat, n: nat)
    requires Inv(s) && Waits(s, t, l) && |Above(s, l)| >= 2
    ensures Waits(Ticks(s, n), t, l) && Position(Ticks(s, n), t, l) == Position(s, t, l)
    ensures Ticks(s, n).running != t && |Above(Ticks(s, n), l)| >= 2
  {
    if n == 0 {
      assert IsReady(s, t, l);
    } else {
      Starves(s, t, l, n - 1);
      var u := Ticks(s, n - 1);
      TwoAboveBlock(u, l);
      AboveTick(u, l);
      WaitTick(u, t, l);
    }
  }

  /** One runnable thread above level `l`: after it is picked, nobody above waits. */
  lemma OneAbovePicked(s: Sched, l: nat)
    requires Inv(s) && l < NUM_OF_QUEUE && |Above(s, l)| <= 1 && Top(s.ready) < l
    ensures Inv(TickStep(s)) && Top(TickStep(s).ready) >= l
  {
    AboveTick(s, l);
    var s' := TickStep(s);
    NextIsReady(s);
    if Top(s'.ready) < l {
      NextIsReady(s');
      assert {s'.running, Next(s')} <= Above(s', l);
      SubsetCard({s'.running, Next(s')}, Above(s', l));
    }
  }

  lemma {:induction false} SubsetCard(a: set<int>, b: set<int>)
    requires a <= b
    ensures |a| <= |b|
  {
    assert b == a + (b - a);
  }

  /** With at most one runnable thread above it, a thread with `k` threads in front of it in its
      queue runs within 2(k+1) ticks. */
  lemma {:induction false} RunsSoon(s: Sched, t: int, l: nat) returns (n: nat)
    requires Inv(s) && Waits(s, t, l) && |Above(s, l)| <= 1
    ensures Ticks(s, n).running == t
    ensures n <= 2 * Position(s, t, l) + (if Top(s.ready) < l then 2 else 1)
    decreases Position(s, t, l), if Top(s.ready) < l then 1 else 0
  {
    var s' := TickStep(s);
    AboveTick(s, l);
    WaitTick(s, t, l);
    WaitPromote(s, t, l, s.ready[Top(s.ready) := s.ready[Top(s.ready)][1..]]);
    if s'.running == t {
      n := 1;
      assert Ticks(s, 0) == s;
    } else {
      if Top(s.ready) < l {
        OneAbovePicked(s, l);
      }
      n := RunsSoon(s', t, l);
      TicksShift(s, n);
      n := n + 1;
    }
  }

  /** Starvation, exactly: under timer ticks alone a waiting thread ever runs if and only if at
      most one runnable thread has a strictly higher priority; and then it runs within
      2(k+1) ticks, `k` being the number of threads in front of it. */
  lemma StarvationExactly(s: Sched, t: int, l: nat)
    requires Inv(s) && Waits(s, t, l)
    ensures |Above(s, l)| <= 1 <==> exists n :: Ticks(s, n).running == t
    ensures |Above(s, l)| <= 1 <==> exists n: nat :: n <= 2 * (Position(s, t, l) + 1) && Ticks(s, n).running == t
  {
    if |Above(s, l)| <= 1 {
      var n := RunsSoon(s, t, l);
      assert n <= 2 * (Position(s, t, l) + 1) && Ticks(s, n).running == t;
    } else {
      forall n: nat ensures Ticks(s, n).running != t {
        Starves(s, t, l, n);
      }
    }
  }
}
