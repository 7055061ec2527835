/** What `attach_now` does to the order of attachments, over runs: which block is attached first
    after a call. */
module ChainCalls {
  import opened Collections
  import opened ChainModel
  import opened ChainRuns

  /** The call finds its block pending and moves it to the front. */
  predicate Moves(s: Chain, e: Event) {
    e.AttachNow? && IsOpen(s) && e.num !in s.attached && e.num != s.inDaemon && e.num in Indices(s.pending)
  }

  /** The block of the last call of the run that moved one. */
  ghost function LastMoved(s: Chain, es: seq<Event>): Option<int>
    requires Inv(s) && Possible(s, es)
    decreases |es|
  {
    if es == [] then None
    else
      StepInv(s, es[0]);
      var later := LastMoved(Step(s, es[0]), es[1..]);
      if later.Some? then later else if Moves(s, es[0]) then Some(es[0].num) else None
  }

  predicate NoAttachment(es: seq<Event>) {
    forall e :: e in es ==> !(e.Daemon? || e.Drain?)
  }

  /** An event that attaches nothing changes the front of the queue only by moving a block there. */
  lemma StepFront(s: Chain, e: Event)
    requires Inv(s) && Enabled(s, e) && s.initiated && s.pending != [] && !Attaches(e)
    ensures var s' := Step(s, e);
      && s'.initiated && s'.inDaemon == s.inDaemon && s'.attached.Keys == s.attached.Keys
      && s'.pending != [] && First(s').index == (if Moves(s, e) then e.num else First(s).index)
      && (forall k :: Pending(s, k) ==> Pending(s', k))
  {
    match e
    case InitChain =>
    case AddBlock(data, father) =>
      if IsOpen(s) {
        AddFront(s, data, father);
      }
    case ToLongest(num) =>
      FlagInv(s, num);
      assert Indices(Step(s, e).pending)[0] == Indices(s.pending)[0];
    case AttachNow(num) =>
      CallFront(s, num);
    case Daemon(father, salt) =>
    case Prune(leaf) =>
    case Close =>
    case Drain(father, salt) =>
    case Reset =>
  }

  lemma AddFront(s: Chain, data: Data, father: int)
    requires Inv(s) && s.initiated && s.pending != [] && father in s.attached
    ensures var s' := AddStep(s, data, father);
      s'.pending != [] && First(s') == First(s) && forall k :: Pending(s, k) ==> Pending(s', k)
  {
    var b := NewBlock(NextIndex(s), data, father, s.attached[father].depth + 1);
    AddInv(s, data, father);
    assert b.index in Indices(s.pending) ==> b.index in s.used;
    AddPending(s.attached, s.pending, b);
  }

  lemma CallFront(s: Chain, num: int)
    requires Inv(s) && s.initiated && s.pending != []
    ensures var s' := AttachNowStep(s, num);
      && s'.pending != [] && First(s').index == (if Moves(s, AttachNow(num)) then num else First(s).index)
      && (forall k :: Pending(s, k) ==> Pending(s', k))
  {
    if Moves(s, AttachNow(num)) {
      ToFrontIndices(s.pending, Place(s.pending, num));
    }
  }

  /** Until the next attachment, the front of the queue is the block that was moved there last, or
      the one that was there before. */
  lemma {:induction false} FrontAfterCalls(s: Chain, es: seq<Event>)
    requires Inv(s) && Possible(s, es) && s.initiated && s.pending != [] && NoAttachment(es)
    ensures var r := Run(s, es);
      && r.initiated && r.attached.Keys == s.attached.Keys
      && r.pending != []
      && First(r).index == (match LastMoved(s, es) case Some(m) => m case None => First(s).index)
      && (forall k :: Pending(s, k) ==> Pending(r, k))
    decreases |es|
  {
    if es == [] {
    } else {
      StepFront(s, es[0]);
      StepInv(s, es[0]);
      FrontAfterCalls(Step(s, es[0]), es[1..]);
    }
  }

  /** `attach_now(n)` promises that `n` is attached before any other block. Over any run from the
      call to the next attachment, that is kept if and only if the last call of the run that moved
      a block moved `n`, or none did and `n` was first all along. */
  lemma AttachNowKept(s: Chain, n: int, es: seq<Event>, e: Event)
    requires Inv(s) && IsOpen(s) && Pending(s, n)
    requires Possible(s, [AttachNow(n)] + es) && NoAttachment(es)
    requires Enabled(Run(s, [AttachNow(n)] + es), e) && Attaches(e)
    ensures var calls := [AttachNow(n)] + es;
      n in Step(Run(s, calls), e).attached <==>
        match LastMoved(s, calls) case Some(m) => m == n case None => First(s).index == n
  {
    var calls := [AttachNow(n)] + es;
    FrontAfterCalls(s, calls);
    var r := Run(s, calls);
    AttachOne(r, e);
    var i := Place(s.pending, n);
    assert Waiting(s.attached, s.pending[i]);
  }

  lemma {:induction false} OnlyCallsFor(s: Chain, n: int, es: seq<Event>)
    requires Inv(s) && Possible(s, es) && s.initiated && s.pending != [] && NoAttachment(es)
    requires forall e :: e in es && e.AttachNow? ==> e.num == n
    ensures LastMoved(s, es).Some? ==> LastMoved(s, es).value == n && n != s.inDaemon
    decreases |es|
  {
    if es == [] {
    } else {
      StepFront(s, es[0]);
      StepInv(s, es[0]);
      OnlyCallsFor(Step(s, es[0]), n, es[1..]);
    }
  }

  /** So when nobody calls another block forward meanwhile, as when each caller waits until its
      block is attached and there is one caller, the promise is kept if and only if `n` is not the
      number the daemon attached last, or `n` is first anyway. */
  lemma AttachNowAlone(s: Chain, n: int, es: seq<Event>, e: Event)
    requires Inv(s) && IsOpen(s) && Pending(s, n)
    requires Possible(s, [AttachNow(n)] + es) && NoAttachment(es)
    requires forall a :: a in es && a.AttachNow? ==> a.num == n
    requires Enabled(Run(s, [AttachNow(n)] + es), e) && Attaches(e)
    ensures n in Step(Run(s, [AttachNow(n)] + es), e).attached <==> n != s.inDaemon || First(s).index == n
  {
    var calls := [AttachNow(n)] + es;
    AttachNowKept(s, n, es, e);
    OnlyCallsFor(s, n, calls);
    assert calls[0] == AttachNow(n) && calls[1..] == es;
    var i := Place(s.pending, n);
    assert Waiting(s.attached, s.pending[i]);
    assert n != s.inDaemon ==> Moves(s, AttachNow(n));
  }
}
