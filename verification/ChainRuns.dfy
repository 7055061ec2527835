/** What holds over every interleaving of API calls, daemon rounds and closing rounds, across any
    number of init/close cycles. */
module ChainRuns {
  import opened Collections
  import opened ChainModel
  import opened ChainPrune

  /** The tree invariant and the index bookkeeping survive every event. */
  lemma StepInv(s: Chain, e: Event)
    requires Inv(s) && Enabled(s, e)
    ensures Inv(Step(s, e))
  {
    match e
    case InitChain =>
    case AddBlock(data, father) =>
      if IsOpen(s) {
        AddInv(s, data, father);
      }
    case ToLongest(num) => FlagInv(s, num);
    case AttachNow(num) => MoveInv(s, num);
    case Daemon(father, salt) => AttachInv(s, father, salt);
    case Prune(leaf) =>
      if IsOpen(s) {
        PruneInv(s, leaf);
      }
    case Close =>
    case Drain(father, salt) => AttachInv(s, father, salt);
    case Reset =>
  }

  ghost predicate Possible(s: Chain, es: seq<Event>)
    requires Inv(s)
    decreases |es|
  {
    es == [] || (Enabled(s, es[0]) && (StepInv(s, es[0]); Possible(Step(s, es[0]), es[1..])))
  }

  ghost function Run(s: Chain, es: seq<Event>): (r: Chain)
    requires Inv(s) && Possible(s, es)
    ensures Inv(r)
    decreases |es|
  {
    if es == [] then s
    else
      StepInv(s, es[0]);
      Run(Step(s, es[0]), es[1..])
  }

  /** One more event at the end of a run. */
  lemma {:induction false} RunAppend(s: Chain, es: seq<Event>, e: Event)
    requires Inv(s) && Possible(s, es) && Enabled(Run(s, es), e)
    ensures Possible(s, es + [e]) && Run(s, es + [e]) == Step(Run(s, es), e)
    decreases |es|
  {
    if es == [] {
      StepInv(s, e);
      assert (es + [e])[1..] == [];
    } else {
      StepInv(s, es[0]);
      assert (es + [e])[1..] == es[1..] + [e];
      RunAppend(Step(s, es[0]), es[1..], e);
    }
  }

  // ------------------------------------------------------------------ depth of the tree

  lemma HasDeepest(t: Tree)
    ensures t == map[] || exists f :: Deepest(t, f)
  {
    if t != map[] {
      var f := SomeDeepest(t);
    }
  }

  ghost function MaxDepth(t: Tree): int
    requires t != map[]
  {
    HasDeepest(t);
    var f :| Deepest(t, f);
    t[f].depth
  }

  lemma DeepestIsMax(t: Tree, f: int)
    requires Deepest(t, f)
    ensures t != map[] && MaxDepth(t) == t[f].depth
  {
    HasDeepest(t);
  }

  ghost predicate Attaches(e: Event) {
    e.Daemon? || e.Drain?
  }

  /** The block that the daemon or the closing thread attaches next. */
  function First(s: Chain): Block
    requires s.pending != []
  {
    s.pending[0]
  }

  /** One attachment: the new block hangs on its father, which for a flagged block is a deepest
      block of the moment, and nothing else in the tree changes. */
  lemma AttachOne(s: Chain, e: Event)
    requires Inv(s) && Enabled(s, e) && Attaches(e)
    ensures var t := s.attached; var t' := Step(s, e).attached; var k := First(s).index;
      && k !in t && k in t' && t'.Keys == t.Keys + {k} && HangsOn(t, t'[k])
      && (forall j :: j in t ==> t'[j] == t[j])
      && (if First(s).toLongest then Deepest(t, t'[k].father) else t'[k].father == First(s).father)
  {
    NoOrphans(s, e.father, e.salt);
  }

  /** The tree grows by at most one level with each attachment, and by exactly one when the block
      was flagged to take the longest chain. */
  lemma AttachDepth(s: Chain, e: Event)
    requires Inv(s) && Enabled(s, e) && Attaches(e)
    ensures var t := s.attached; var t' := Step(s, e).attached; var k := First(s).index;
      && k in t' && t != map[]
      && MaxDepth(t) <= MaxDepth(t') <= MaxDepth(t) + 1
      && (First(s).toLongest ==> MaxDepth(t') == t'[k].depth == MaxDepth(t) + 1)
  {
    AttachOne(s, e);
    var t := s.attached;
    var t' := Step(s, e).attached;
    var f := SomeDeepest(t);
    var f' := SomeDeepest(t');
    DeepestIsMax(t, f);
    DeepestIsMax(t', f');
    if First(s).toLongest {
      DeepestIsMax(t, t'[First(s).index].father);
    }
  }

  lemma DepthStep(s: Chain, e: Event)
    requires Inv(s) && Enabled(s, e) && s.initiated && e != Reset
    ensures var s' := Step(s, e);
      && s'.initiated && s.attached != map[] && s'.attached != map[]
      && MaxDepth(s.attached) <= MaxDepth(s'.attached) <= MaxDepth(s.attached) + (if Attaches(e) then 1 else 0)
  {
    StepInv(s, e);
    if Attaches(e) {
      AttachDepth(s, e);
    } else if e.Prune? && IsOpen(s) {
      PruneLeavesOnePath(s, e.leaf);
      DeepestIsMax(s.attached, e.leaf);
      DeepestIsMax(Step(s, e).attached, e.leaf);
    }
  }

  function Attachments(es: seq<Event>): nat {
    if es == [] then 0 else (if es[0].Daemon? || es[0].Drain? then 1 else 0) + Attachments(es[1..])
  }

  /** Between init and the end of closing the longest chain never gets shorter, and grows by at
      most one block per attachment. */
  lemma {:induction false} DepthNeverDrops(s: Chain, es: seq<Event>)
    requires Inv(s) && Possible(s, es) && s.initiated && Reset !in es
    ensures var r := Run(s, es);
      && r.initiated && s.attached != map[] && r.attached != map[]
      && MaxDepth(s.attached) <= MaxDepth(r.attached) <= MaxDepth(s.attached) + Attachments(es)
    decreases |es|
  {
    if es == [] {
    } else {
      StepInv(s, es[0]);
      DepthStep(s, es[0]);
      DepthNeverDrops(Step(s, es[0]), es[1..]);
    }
  }

  // ------------------------------------------------------------------ the queue

  ghost predicate Pending(s: Chain, n: int) {
    n in Indices(s.pending)
  }

  /** `n` is pending now and after every event of the run. */
  ghost predicate StaysPending(s: Chain, es: seq<Event>, n: int)
    requires Inv(s) && Possible(s, es)
    decreases |es|
  {
    Pending(s, n) && (es == [] || (StepInv(s, es[0]); StaysPending(Step(s, es[0]), es[1..], n)))
  }

  ghost predicate Ahead(s: Chain, x: int, y: int) {
    Pending(s, x) && Pending(s, y) && Place(s.pending, x) < Place(s.pending, y)
  }

  lemma PlaceOfAt(s: Chain, n: int, i: nat)
    requires NoDup(Indices(s.pending)) && i < |s.pending| && s.pending[i].index == n
    ensures Pending(s, n) && Place(s.pending, n) == i
  {
    IndexOfUnique(Indices(s.pending), n, i);
  }

  /** Where a block stands after block `num` was called forward. */
  lemma PlaceAfterMove(s: Chain, num: int, z: int)
    requires NoDup(Indices(s.pending)) && Pending(s, num) && Pending(s, z)
    ensures var i := Place(s.pending, num); var p := Place(s.pending, z);
      var s' := s.(pending := ToFront(s.pending, i));
      Pending(s', z) && Place(s'.pending, z) == if p == i then 0 else if p < i then p + 1 else p
  {
    var i := Place(s.pending, num);
    var p := Place(s.pending, z);
    ToFrontIndices(s.pending, i);
    PlaceOfAt(s.(pending := ToFront(s.pending, i)), z, if p == i then 0 else if p < i then p + 1 else p);
  }

  /** Moving block `num` to the front keeps the relative order of all the others. */
  lemma MoveKeepsOrder(s: Chain, num: int, x: int, y: int)
    requires Inv(s) && s.initiated && Ahead(s, x, y) && num != y
    ensures Ahead(AttachNowStep(s, num), x, y)
  {
    if AttachNowStep(s, num) != s {
      PlaceAfterMove(s, num, x);
      PlaceAfterMove(s, num, y);
      PlaceOfAt(s, num, Place(s.pending, num));
      assert Place(s.pending, y) != Place(s.pending, num);
    }
  }

  lemma AttachShifts(s: Chain, e: Event, n: int)
    requires Inv(s) && Enabled(s, e) && Attaches(e) && Pending(s, n) && Place(s.pending, n) > 0
    ensures Pending(Step(s, e), n) && Place(Step(s, e).pending, n) == Place(s.pending, n) - 1
  {
    StepInv(s, e);
    assert Step(s, e).pending == s.pending[1..];
    PlaceOfAt(Step(s, e), n, Place(s.pending, n) - 1);
  }

  lemma FirstLeaves(s: Chain, e: Event)
    requires Inv(s) && Enabled(s, e) && Attaches(e)
    ensures !Pending(Step(s, e), First(s).index)
  {
    PopFront(Indices(s.pending));
    assert Indices(s.pending[1..]) == Indices(s.pending)[1..];
  }

  /** Being ahead in the queue lasts until attachment, unless `y` itself is called forward. */
  lemma AheadStep(s: Chain, e: Event, x: int, y: int)
    requires Inv(s) && Enabled(s, e) && e != AttachNow(y) && Ahead(s, x, y)
    ensures Ahead(Step(s, e), x, y) || (x in Step(s, e).attached && Pending(Step(s, e), y))
  {
    StepInv(s, e);
    var s' := Step(s, e);
    match e
    case InitChain =>
    case AddBlock(data, father) =>
      PlaceOfAt(s', x, Place(s.pending, x));
      PlaceOfAt(s', y, Place(s.pending, y));
    case ToLongest(num) =>
      FlagInv(s, num);
    case AttachNow(num) =>
      MoveKeepsOrder(s, num, x, y);
    case Daemon(father, salt) =>
      AheadAttach(s, e, x, y);
    case Prune(leaf) =>
    case Close =>
    case Drain(father, salt) =>
      AheadAttach(s, e, x, y);
    case Reset =>
  }

  lemma AheadAttach(s: Chain, e: Event, x: int, y: int)
    requires Inv(s) && Enabled(s, e) && Attaches(e) && Ahead(s, x, y)
    ensures Ahead(Step(s, e), x, y) || (x in Step(s, e).attached && Pending(Step(s, e), y))
  {
    AttachShifts(s, e, y);
    if Place(s.pending, x) > 0 {
      AttachShifts(s, e, x);
    } else {
      AttachOne(s, e);
    }
  }

  /** While `y` is pending, what is attached stays attached: nothing can be pruned. */
  lemma AttachedStays(s: Chain, e: Event, x: int, y: int)
    requires Inv(s) && Enabled(s, e) && Pending(s, y) && x in s.attached
    ensures x in Step(s, e).attached
  {
    if Attaches(e) {
      AttachOne(s, e);
    }
  }

  /** First in, first out, except for blocks called forward: over any run in which `y` waits and
      is not called forward, a block that was ahead of `y` is still ahead of it or is attached.
      So when `y` reaches the front, every block that was ahead of it is attached. */
  lemma {:induction false} FirstInFirstOut(s: Chain, es: seq<Event>, x: int, y: int)
    requires Inv(s) && Possible(s, es) && StaysPending(s, es, y) && AttachNow(y) !in es
    requires Ahead(s, x, y) || x in s.attached
    ensures var r := Run(s, es);
      && (Ahead(r, x, y) || x in r.attached)
      && (r.pending != [] && First(r).index == y ==> x in r.attached)
    decreases |es|
  {
    if es == [] {
      if s.pending != [] && First(s).index == y && s.initiated {
        PlaceOfAt(s, y, 0);
      }
    } else {
      StepInv(s, es[0]);
      if x in s.attached {
        AttachedStays(s, es[0], x, y);
      } else {
        AheadStep(s, es[0], x, y);
      }
      FirstInFirstOut(Step(s, es[0]), es[1..], x, y);
    }
  }

  /** Calling a pending block forward makes it the next one to be attached just when its number is
      not the one the daemon attached last, or it is first already; and always keeps the
      relative order of the other blocks. */
  lemma AttachNowIsNext(s: Chain, n: int)
    requires Inv(s) && s.initiated && !s.closing && Pending(s, n)
    ensures var s' := AttachNowStep(s, n);
      && (First(s').index == n <==> n != s.inDaemon || First(s).index == n)
      && (forall x, y :: y != n && Ahead(s, x, y) ==> Ahead(s', x, y))
  {
    MoveInv(s, n);
    forall x, y | y != n && Ahead(s, x, y) ensures Ahead(AttachNowStep(s, n), x, y) {
      MoveKeepsOrder(s, n, x, y);
    }
    assert Waiting(s.attached, s.pending[Place(s.pending, n)]);
  }

  ghost predicate Flagged(s: Chain, n: int) {
    Pending(s, n) && s.pending[Place(s.pending, n)].toLongest
  }

  lemma FlagStep(s: Chain, e: Event, n: int)
    requires Inv(s) && Enabled(s, e) && Flagged(s, n) && Pending(Step(s, e), n)
    ensures Flagged(Step(s, e), n)
  {
    if Attaches(e) {
      FlagAttach(s, e, n);
    } else if e.AttachNow? {
      FlagMove(s, e.num, n);
    } else if e.AddBlock? {
      if IsOpen(s) {
        FlagAdd(s, e.data, e.father, n);
      }
    } else if e.ToLongest? {
      FlagInv(s, e.num);
    }
  }

  lemma FlagAdd(s: Chain, data: Data, father: int, n: int)
    requires Inv(s) && s.initiated && father in s.attached && Flagged(s, n)
    ensures Flagged(AddStep(s, data, father), n)
  {
    AddInv(s, data, father);
    PlaceOfAt(AddStep(s, data, father), n, Place(s.pending, n));
  }

  lemma FlagMove(s: Chain, num: int, n: int)
    requires Inv(s) && Flagged(s, n)
    ensures Flagged(AttachNowStep(s, num), n)
  {
    if num in Indices(s.pending) {
      MoveKeepsBlock(s, num, n);
    }
  }

  lemma MoveKeepsBlock(s: Chain, num: int, n: int)
    requires NoDup(Indices(s.pending)) && Pending(s, num) && Pending(s, n)
    ensures var q' := ToFront(s.pending, Place(s.pending, num));
      n in Indices(q') && q'[Place(q', n)] == s.pending[Place(s.pending, n)]
  {
    var i, p := Place(s.pending, num), Place(s.pending, n);
    PlaceAfterMove(s, num, n);
    assert ToFront(s.pending, i)[if p == i then 0 else if p < i then p + 1 else p] == s.pending[p];
  }

  lemma FlagAttach(s: Chain, e: Event, n: int)
    requires Inv(s) && Enabled(s, e) && Attaches(e) && Flagged(s, n) && Pending(Step(s, e), n)
    ensures Flagged(Step(s, e), n)
  {
    FirstLeaves(s, e);
    AttachShifts(s, e, n);
  }

  lemma {:induction false} FlagSticks(s: Chain, es: seq<Event>, n: int)
    requires Inv(s) && Possible(s, es) && StaysPending(s, es, n) && Flagged(s, n)
    ensures Flagged(Run(s, es), n)
    decreases |es|
  {
    if es == [] {
    } else {
      StepInv(s, es[0]);
      FlagStep(s, es[0], n);
      FlagSticks(Step(s, es[0]), es[1..], n);
    }
  }

  /** `to_longest` is honoured: whatever happens between the call and the attachment of the
      block, the attachment makes the longest chain exactly one block longer, ending in it. */
  lemma ToLongestIsHonoured(s: Chain, n: int, es: seq<Event>, e: Event)
    requires Inv(s) && s.initiated && Pending(s, n)
    requires Inv(ToLongestStep(s, n)) && Possible(ToLongestStep(s, n), es) && StaysPending(ToLongestStep(s, n), es, n)
    requires var r := Run(ToLongestStep(s, n), es); Enabled(r, e) && Attaches(e) && First(r).index == n
    ensures var r := Run(ToLongestStep(s, n), es); var r' := Step(r, e);
      && r.attached != map[] && n in r'.attached && Deepest(r'.attached, n)
      && MaxDepth(r'.attached) == r'.attached[n].depth == MaxDepth(r.attached) + 1
  {
    var s' := ToLongestStep(s, n);
    FlagInv(s, n);
    assert Waiting(s.attached, s.pending[Place(s.pending, n)]);
    assert Flagged(s', n);
    FlagSticks(s', es, n);
    var r := Run(s', es);
    PlaceOfAt(r, n, 0);
    AttachDepth(r, e);
    var f := SomeDeepest(Step(r, e).attached);
    DeepestIsMax(Step(r, e).attached, f);
  }

  // ------------------------------------------------------------------ counting

  ghost function Pruned(s: Chain, es: seq<Event>): int
    requires Inv(s) && Possible(s, es)
    decreases |es|
  {
    if es == [] then 0
    else
      StepInv(s, es[0]);
      (if es[0].Prune? then |s.attached| - |Step(s, es[0]).attached| else 0) + Pruned(Step(s, es[0]), es[1..])
  }

  lemma AttachCount(s: Chain, e: Event)
    requires Inv(s) && Enabled(s, e) && Attaches(e)
    ensures |Step(s, e).attached| == |s.attached| + 1
    ensures |Step(s, e).pending| == |s.pending| - 1
  {
    AttachOne(s, e);
    var t, t', k := s.attached, Step(s, e).attached, First(s).index;
    assert |t'| == |t'.Keys| && |t| == |t.Keys| && |t.Keys + {k}| == |t.Keys| + 1;
  }

  /** While the chain is open, `chain_size` counts the attachments, which are the blocks now
      attached, genesis apart, and those pruned meanwhile. */
  lemma {:induction false} ChainSizeCounts(s: Chain, es: seq<Event>)
    requires Inv(s) && Possible(s, es) && s.initiated && !s.closing && Close !in es
    ensures var r := Run(s, es);
      && r.initiated && !r.closing
      && r.counter == s.counter + Attachments(es)
      && r.counter - s.counter == |r.attached| - |s.attached| + Pruned(s, es)
    decreases |es|
  {
    if es == [] {
    } else {
      StepInv(s, es[0]);
      assert es[0] in es;
      if Attaches(es[0]) {
        AttachCount(s, es[0]);
      }
      ChainSizeCounts(Step(s, es[0]), es[1..]);
    }
  }

  lemma ChainSizeFromInit(es: seq<Event>)
    requires var s := InitStep(Uninitiated()); Inv(s) && Possible(s, es) && Close !in es
    ensures var s := InitStep(Uninitiated()); var r := Run(s, es);
      r.counter == |r.attached| - 1 + Pruned(s, es) == Attachments(es)
  {
    ChainSizeCounts(InitStep(Uninitiated()), es);
  }

  /** Closing: no new block enters the queue, each drain round attaches one, so after as many
      rounds as blocks were pending all of them are attached and the chain can be reset. */
  lemma {:induction false} ClosingAttachesAll(s: Chain, es: seq<Event>)
    requires Inv(s) && Possible(s, es) && s.initiated && s.closing && Reset !in es
    ensures var r := Run(s, es);
      && r.initiated && r.closing && r.counter == s.counter
      && |r.pending| + Attachments(es) == |s.pending|
      && (forall k :: k in s.attached || Pending(s, k) <==> k in r.attached || Pending(r, k))
      && (Attachments(es) == |s.pending| ==> r.pending == [] && forall k :: Pending(s, k) ==> k in r.attached)
    decreases |es|
  {
    if es == [] {
    } else {
      StepInv(s, es[0]);
      ClosingStep(s, es[0]);
      ClosingAttachesAll(Step(s, es[0]), es[1..]);
    }
  }

  lemma ClosingStep(s: Chain, e: Event)
    requires Inv(s) && Enabled(s, e) && s.initiated && s.closing && e != Reset
    ensures var s' := Step(s, e);
      && s'.initiated && s'.closing && s'.counter == s.counter
      && |s'.pending| + (if Attaches(e) then 1 else 0) == |s.pending|
      && (forall k :: k in s.attached || Pending(s, k) <==> k in s'.attached || Pending(s', k))
  {
    if Attaches(e) {
      AttachCount(s, e);
      AttachOne(s, e);
      PopFront(Indices(s.pending));
      assert Indices(s.pending[1..]) == Indices(s.pending)[1..];
    } else if e.ToLongest? {
      FlagInv(s, e.num);
    }
  }

  // ------------------------------------------------------------------ indices

  /** The index given to a new block is the least positive one not in use. */
  lemma NextIndexIsLeast(s: Chain)
    requires Inv(s) && s.initiated
    ensures NextIndex(s) > 0 && NextIndex(s) !in s.used
    ensures forall j :: 0 <= j < NextIndex(s) ==> j in s.used
  {
    assert GENESIS in s.used;
    assert forall k :: k in s.used <==> k in ToSet(s.used);
  }

  /** Unless something is pruned, indices stay in use and new ones only go up; so the indices
      that a prune freed are given out again in ascending order, without gaps. */
  lemma {:induction false} IndicesAscend(s: Chain, es: seq<Event>)
    requires Inv(s) && Possible(s, es) && s.initiated
    requires forall e :: e in es ==> !e.Prune? && e != Reset
    ensures var r := Run(s, es);
      && r.initiated && (forall k :: k in s.used ==> k in r.used)
      && NextIndex(r) >= NextIndex(s)
      && (es != [] && es[0].AddBlock? && !s.closing ==> NextIndex(s) in r.used && NextIndex(r) > NextIndex(s))
    decreases |es|
  {
    NextIndexIsLeast(s);
    if es != [] {
      var e := es[0];
      StepInv(s, e);
      var s' := Step(s, e);
      if e.AddBlock? {
        SortNoDup(s.used);
        assert forall k :: k in s.used <==> k in ToSet(s.used);
        assert forall k :: k in Sort(s.used) <==> k in ToSet(Sort(s.used));
      }
      IndicesAscend(s', es[1..]);
      var r := Run(s, es);
      NextIndexIsLeast(r);
      assert NextIndex(r) < NextIndex(s) ==> NextIndex(r) in s.used;
    }
  }
}
