/** What each event of the chain manager changes, field by field, and what it leaves alone; and what
    becomes of the data that a caller hands in. */
module ChainEffects {
  import opened Collections
  import opened ChainModel
  import opened ChainPrune
  import opened ChainRuns

  // ------------------------------------------------------------------ init, close, reset

  lemma InitEffect(s: Chain)
    requires Inv(s)
    ensures var s' := Step(s, InitChain);
      if s.initiated || s.closing then s' == s
      else
        && s'.attached.Keys == {GENESIS} && s'.pending == [] && s'.used == [GENESIS] && s'.counter == 0
        && s'.initiated && !s'.closing && s'.inDaemon == s.inDaemon
        && var g := s'.attached[GENESIS];
           g.index == 0 && g.father == -1 && g.depth == 0 && g.next == None && g.hash == None && !g.marked
  {
  }

  /** Closing raises one flag, on an initialised chain only. */
  lemma CloseEffect(s: Chain)
    requires Inv(s)
    ensures var s' := Step(s, Close);
      && s'.closing == (s.initiated || s.closing) && s'.initiated == s.initiated
      && s'.attached == s.attached && s'.pending == s.pending && s'.used == s.used
      && s'.counter == s.counter && s'.inDaemon == s.inDaemon
  {
  }

  lemma ResetEffect(s: Chain)
    requires Inv(s) && Enabled(s, Reset)
    ensures var s' := Step(s, Reset);
      && s'.attached == map[] && s'.pending == [] && s'.used == [] && s'.counter == 0
      && !s'.initiated && !s'.closing && s'.inDaemon == s.inDaemon
  {
  }

  /** Before init, and while closing, nothing can be added, called forward or pruned. */
  lemma RefusedUnlessOpen(s: Chain, e: Event)
    requires Inv(s) && Enabled(s, e) && (!s.initiated || s.closing)
    requires e.AddBlock? || e.AttachNow? || e.Prune?
    ensures Step(s, e) == s
  {
  }

  // ------------------------------------------------------------------ add

  /** The block that was just added is the last one pending. */
  function Newest(s: Chain): Block
    requires s.pending != []
  {
    s.pending[|s.pending| - 1]
  }

  /** A block is added with the caller's data, the least free number, and one level below a deepest
      block; it joins the end of the queue, its number the numbers in use; nothing else changes. */
  lemma AddEffect(s: Chain, data: Data, father: int)
    requires Inv(s) && s.initiated && !s.closing && Deepest(s.attached, father)
    ensures var s' := Step(s, AddBlock(data, father));
      && s'.pending != [] && s'.pending[..|s'.pending| - 1] == s.pending
      && var b := Newest(s');
      && b.data == data && b.father == father && b.depth == s.attached[father].depth + 1
      && b.hash == None && b.next == None && !b.marked && !b.toLongest
      && b.index > 0 && b.index !in s.used && (forall j :: 0 <= j < b.index ==> j in s.used)
      && (forall k :: k in s'.used <==> k in s.used || k == b.index)
      && s'.attached == s.attached && s'.counter == s.counter && s'.inDaemon == s.inDaemon
      && s'.initiated && !s'.closing
  {
    NextIndexIsLeast(s);
    UseIndex(s.used, NextIndex(s));
  }

  // ------------------------------------------------------------------ flag and call forward

  /** Flagging sets the flag of the one pending block with that number and changes nothing else; for an
      attached or an unknown number, or before init, it changes nothing at all. */
  lemma FlagEffect(s: Chain, num: int)
    requires Inv(s)
    ensures var s' := Step(s, ToLongest(num));
      && s'.attached == s.attached && s'.used == s.used && s'.counter == s.counter
      && s'.inDaemon == s.inDaemon && s'.initiated == s.initiated && s'.closing == s.closing
      && |s'.pending| == |s.pending|
      && forall i :: 0 <= i < |s.pending| ==>
           var b := s.pending[i];
           s'.pending[i] == if b.index == num then b.(toLongest := true) else b
  {
    if s.initiated && Pending(s, num) {
      var p := Place(s.pending, num);
      assert Waiting(s.attached, s.pending[p]);
      forall i | 0 <= i < |s.pending| && s.pending[i].index == num ensures i == p {
        assert Indices(s.pending)[i] == Indices(s.pending)[p];
      }
    } else {
      forall i | 0 <= i < |s.pending| ensures s.pending[i].index != num {
        assert Indices(s.pending)[i] == s.pending[i].index;
      }
    }
  }

  /** Calling a pending block forward, unless its number is the one attached last, moves that block to the
      front and leaves the others in their order; it changes no block and nothing else. */
  lemma CallEffect(s: Chain, num: int)
    requires Inv(s)
    ensures var s' := Step(s, AttachNow(num));
      && s'.attached == s.attached && s'.used == s.used && s'.counter == s.counter
      && s'.inDaemon == s.inDaemon && s'.initiated == s.initiated && s'.closing == s.closing
      && if s.initiated && !s.closing && num != s.inDaemon && num in Indices(s.pending) then
           exists i :: 0 <= i < |s.pending| && s.pending[i].index == num
             && s'.pending == [s.pending[i]] + s.pending[..i] + s.pending[i + 1..]
         else
           s'.pending == s.pending
  {
    if s.initiated && !s.closing && num != s.inDaemon && num in Indices(s.pending) {
      var i := Place(s.pending, num);
      assert Waiting(s.attached, s.pending[i]);
      assert ToFront(s.pending, i) == [s.pending[i]] + s.pending[..i] + s.pending[i + 1..];
    }
  }

  // ------------------------------------------------------------------ attach

  /** Attaching takes the first pending block, with its number, data and flag as they were; its hash is made
      from that data, for that number and the father it hangs on. The tree gains that block, the queue loses
      it, the number is remembered, and only the daemon counts it. */
  lemma AttachEffect(s: Chain, e: Event)
    requires Inv(s) && Enabled(s, e) && Attaches(e)
    ensures var s', b := Step(s, e), s.pending[0];
      && b.index in s'.attached && s'.attached == s.attached[b.index := s'.attached[b.index]]
      && s'.pending == s.pending[1..] && s'.used == s.used && s'.inDaemon == b.index
      && s'.counter == s.counter + (if e.Daemon? then 1 else 0)
      && s'.initiated == s.initiated && s'.closing == s.closing
      && var c := s'.attached[b.index];
      && c.index == b.index && c.data == b.data && c.toLongest == b.toLongest && !c.marked
      && c.father in s.attached && c.next == Some(c.father) && c.depth == s.attached[c.father].depth + 1
      && c.hash == Some(Hash(b.data, Nonce(b.index, c.father, e.salt)))
      && (if b.toLongest then c.father == e.father && Deepest(s.attached, e.father) else c.father == b.father)
  {
    NoOrphans(s, e.father, e.salt);
    assert Waiting(s.attached, s.pending[0]);
  }

  // ------------------------------------------------------------------ prune

  /** The numbers that are left keep their order. */
  ghost predicate Subsequence(a: seq<int>, b: seq<int>)
    decreases |b|
  {
    a == [] || (b != [] && ((a[0] == b[0] && Subsequence(a[1..], b[1..])) || Subsequence(a, b[1..])))
  }

  lemma {:induction false} FilterInOrder(s: seq<int>, keep: set<int>)
    ensures Subsequence(Filter(s, keep), s)
    decreases |s|
  {
    if s == [] {
    } else {
      FilterInOrder(s[1..], keep);
    }
  }

  /** Beside tree and numbers in use, which keep their order, a prune changes nothing. */
  lemma PruneEffect(s: Chain, leaf: int)
    requires Inv(s) && Enabled(s, Prune(leaf))
    ensures var s' := Step(s, Prune(leaf));
      && s'.pending == s.pending && s'.counter == s.counter && s'.inDaemon == s.inDaemon
      && s'.initiated == s.initiated && s'.closing == s.closing && Subsequence(s'.used, s.used)
  {
    if s.initiated && !s.closing {
      FilterInOrder(s.used, ToSet(Path(s.attached, leaf)));
    } else {
      SubsequenceOfItself(s.used);
    }
  }

  lemma {:induction false} SubsequenceOfItself(a: seq<int>)
    ensures Subsequence(a, a)
    decreases |a|
  {
    if a == [] {
    } else {
      SubsequenceOfItself(a[1..]);
    }
  }

  // ------------------------------------------------------------------ the data of a block, over runs

  /** Block `n`, pending or attached, has this data, and once attached a hash of this data. */
  ghost predicate Carries(s: Chain, n: int, data: Data) {
    && (forall i :: 0 <= i < |s.pending| && s.pending[i].index == n ==> s.pending[i].data == data)
    && (n in s.attached ==>
          s.attached[n].data == data && s.attached[n].hash.Some? && s.attached[n].hash.value.data == data)
  }

  /** The number stays in use all along: the block is not pruned, and the chain is not reset. */
  ghost predicate StaysUsed(s: Chain, es: seq<Event>, n: int)
    requires Inv(s) && Possible(s, es)
    decreases |es|
  {
    n in s.used && (es == [] || (StepInv(s, es[0]); StaysUsed(Step(s, es[0]), es[1..], n)))
  }

  lemma CarriesStep(s: Chain, e: Event, n: int, data: Data)
    requires Inv(s) && Enabled(s, e) && s.initiated && n in s.used && Carries(s, n, data)
    requires e != Reset
    ensures Carries(Step(s, e), n, data)
  {
    match e
    case InitChain =>
    case AddBlock(d, father) =>
      if IsOpen(s) {
        CarriesAdd(s, d, father, n, data);
      }
    case ToLongest(num) =>
      FlagEffect(s, num);
    case AttachNow(num) =>
      CarriesCall(s, num, n, data);
    case Daemon(father, salt) =>
      CarriesAttach(s, e, n, data);
    case Prune(leaf) =>
    case Close =>
    case Drain(father, salt) =>
      CarriesAttach(s, e, n, data);
    case Reset =>
  }

  lemma CarriesAdd(s: Chain, d: Data, father: int, n: int, data: Data)
    requires Inv(s) && s.initiated && !s.closing && Deepest(s.attached, father)
    requires n in s.used && Carries(s, n, data)
    ensures Carries(Step(s, AddBlock(d, father)), n, data)
  {
    AddEffect(s, d, father);
    var s' := Step(s, AddBlock(d, father));
    forall i | 0 <= i < |s'.pending| && s'.pending[i].index == n ensures s'.pending[i].data == data {
      assert i < |s.pending| ==> s'.pending[i] == s'.pending[..|s'.pending| - 1][i];
    }
  }

  lemma CarriesCall(s: Chain, num: int, n: int, data: Data)
    requires Inv(s) && Carries(s, n, data)
    ensures Carries(Step(s, AttachNow(num)), n, data)
  {
    CallEffect(s, num);
  }

  lemma CarriesAttach(s: Chain, e: Event, n: int, data: Data)
    requires Inv(s) && Enabled(s, e) && Attaches(e) && Carries(s, n, data)
    ensures Carries(Step(s, e), n, data)
  {
    AttachEffect(s, e);
  }

  /** What `add_block` was given is what the new block carries. */
  lemma CarriesNew(s: Chain, data: Data, father: int)
    requires Inv(s) && s.initiated && !s.closing && Deepest(s.attached, father)
    ensures Carries(Step(s, AddBlock(data, father)), NextIndex(s), data)
  {
    var s', n := Step(s, AddBlock(data, father)), NextIndex(s);
    AddEffect(s, data, father);
    forall i | 0 <= i < |s.pending| ensures s.pending[i].index != n {
      assert Indices(s.pending)[i] in s.used;
    }
    forall i | 0 <= i < |s'.pending| ensures s'.pending[i].index == n ==> s'.pending[i].data == data {
      if i < |s.pending| {
        assert s'.pending[i] == s'.pending[..|s'.pending| - 1][i];
      }
    }
  }

  lemma {:induction false} CarriesOn(s: Chain, es: seq<Event>, n: int, data: Data)
    requires Inv(s) && Possible(s, es) && StaysUsed(s, es, n) && Carries(s, n, data)
    ensures Carries(Run(s, es), n, data) && n in Run(s, es).used
    decreases |es|
  {
    if es == [] {
    } else {
      StepInv(s, es[0]);
      assert n in Step(s, es[0]).used;
      CarriesStep(s, es[0], n, data);
      CarriesOn(Step(s, es[0]), es[1..], n, data);
    }
  }

  /** What is handed in is what is stored and hashed: over any run after a call that was given `data` and
      returned `n`, as long as the number stays in use, the block `n` is pending with this data, or it is
      attached with this data and a hash of this data. */
  lemma DataIsKept(s: Chain, data: Data, father: int, es: seq<Event>)
    requires Inv(s) && s.initiated && !s.closing && Deepest(s.attached, father)
    requires Inv(Step(s, AddBlock(data, father))) && Possible(Step(s, AddBlock(data, father)), es)
    requires StaysUsed(Step(s, AddBlock(data, father)), es, NextIndex(s))
    ensures var n, r := NextIndex(s), Run(Step(s, AddBlock(data, father)), es);
      if n in r.attached then
        r.attached[n].data == data && r.attached[n].hash.Some? && r.attached[n].hash.value.data == data
      else
        exists i :: 0 <= i < |r.pending| && r.pending[i].index == n && r.pending[i].data == data
  {
    var s', n := Step(s, AddBlock(data, father)), NextIndex(s);
    CarriesNew(s, data, father);
    CarriesOn(s', es, n, data);
    var r := Run(s', es);
    if n !in r.attached {
      assert n in Indices(r.pending);
      var i := IndexOf(Indices(r.pending), n);
      assert r.pending[i].index == n;
    }
  }
}
