/** A run in which `attach_now` does not do what it promises, although each call is made only after
    the one before has returned: the number of the block that the daemon attached last is pruned
    and given out again, and the call for the new block with that number leaves another block in
    front of it. */
module ChainStaleNumber {
  import opened Collections
  import opened ChainModel
  import opened ChainPrune
  import opened ChainRuns

  function Waits(i: int, father: int, depth: int): Block {
    NewBlock(i, [], father, depth)
  }

  function Hangs(i: int): Block {
    Block(i, [], GENESIS, 1, Some(Hash([], Nonce(i, GENESIS, 0))), Some(GENESIS), false, false)
  }

  const ROOT: Block := NewBlock(GENESIS, [], -1, 0)

  ghost predicate Goes(s: Chain, e: Event, s': Chain) {
    Inv(s) && Enabled(s, e) && Step(s, e) == s'
  }

  ghost predicate Reaches(s: Chain, es: seq<Event>, r: Chain) {
    Inv(s) && Possible(s, es) && Run(s, es) == r
  }

  lemma GoesInv(s: Chain, e: Event, s': Chain)
    requires Goes(s, e, s')
    ensures Inv(s')
  {
    StepInv(s, e);
  }

  lemma Extend(s: Chain, e: Event, s': Chain, es: seq<Event>, r: Chain)
    requires Goes(s, e, s') && Reaches(s', es, r)
    ensures Reaches(s, [e] + es, r)
  {
    StepInv(s, e);
    assert ([e] + es)[1..] == es;
  }

  lemma NextIndexIs(s: Chain, n: nat)
    requires n !in s.used && forall j :: 0 <= j < n ==> j in s.used
    ensures NextIndex(s) == n
  {
    assert forall k :: k in s.used <==> k in ToSet(s.used);
  }

  const T1: Tree := map[0 := ROOT, 1 := Hangs(1)]
  const T2: Tree := map[0 := ROOT, 1 := Hangs(1), 2 := Hangs(2)]
  const T3: Tree := map[0 := ROOT, 1 := Hangs(1), 2 := Hangs(2), 3 := Hangs(3)]
  const W1: Block := Waits(1, 0, 1)
  const W2: Block := Waits(2, 0, 1)
  const W3: Block := Waits(3, 0, 1)

  const S0: Chain := Chain(map[0 := ROOT], [], [0], 0, -1, true, false)
  const S1: Chain := Chain(map[0 := ROOT], [W1], [0, 1], 0, -1, true, false)
  const S2: Chain := Chain(map[0 := ROOT], [W1, W2], [0, 1, 2], 0, -1, true, false)
  const S3: Chain := Chain(map[0 := ROOT], [W1, W2, W3], [0, 1, 2, 3], 0, -1, true, false)
  const S4: Chain := Chain(T1, [W2, W3], [0, 1, 2, 3], 1, 1, true, false)
  const S5: Chain := Chain(T2, [W3], [0, 1, 2, 3], 2, 2, true, false)
  const S6: Chain := Chain(T3, [], [0, 1, 2, 3], 3, 3, true, false)
  const S7: Chain := Chain(T1, [], [0, 1], 3, 3, true, false)
  const S8: Chain := Chain(T1, [Waits(2, 1, 2)], [0, 1, 2], 3, 3, true, false)
  const S9: Chain := Chain(T1, [Waits(2, 1, 2), Waits(3, 1, 2)], [0, 1, 2, 3], 3, 3, true, false)

  lemma SortedIsSort(s: seq<int>)
    requires Ascending(s)
    ensures Sort(s) == s
  {
    if s != [] {
      SortedIsSort(s[1..]);
      assert s[1..] != [] ==> s[0] <= s[1..][0];
    }
  }

  lemma AddGoes(s: Chain, father: int, n: nat, s': Chain)
    requires Inv(s) && s.initiated && !s.closing && Deepest(s.attached, father)
    requires NextIndex(s) == n && Ascending(s.used)
    requires s' == s.(used := s.used + [n], pending := s.pending + [Waits(n, father, s.attached[father].depth + 1)])
    ensures Goes(s, AddBlock([], father), s')
  {
    SortedIsSort(s.used);
  }

  lemma Goes1()
    ensures InitStep(Uninitiated()) == S0 && Goes(S0, AddBlock([], 0), S1)
  {
    NextIndexIs(S0, 1);
    AddGoes(S0, 0, 1, S1);
  }

  lemma Goes2()
    requires Inv(S1)
    ensures Goes(S1, AddBlock([], 0), S2)
  {
    NextIndexIs(S1, 2);
    AddGoes(S1, 0, 2, S2);
  }

  lemma Goes3()
    requires Inv(S2)
    ensures Goes(S2, AddBlock([], 0), S3)
  {
    NextIndexIs(S2, 3);
    AddGoes(S2, 0, 3, S3);
  }

  lemma Goes4()
    requires Inv(S3)
    ensures Goes(S3, Daemon(0, 0), S4)
  {
  }

  lemma Goes5()
    requires Inv(S4)
    ensures Goes(S4, Daemon(0, 0), S5)
  {
  }

  lemma Goes6()
    requires Inv(S5)
    ensures Goes(S5, Daemon(0, 0), S6)
  {
  }

  lemma Goes7()
    requires Inv(S6)
    ensures Goes(S6, Prune(1), S7)
  {
    var p := Path(T3, 1);
    PathAt(T3, 1, 0);
    PathAt(T3, 1, 1);
    assert p == [1, 0];
    var keep := ToSet(p);
    assert [3][1..] == [] && Filter([3], keep) == [];
    assert [2, 3][1..] == [3] && Filter([2, 3], keep) == [];
    assert [1, 2, 3][1..] == [2, 3] && Filter([1, 2, 3], keep) == [1];
    assert [0, 1, 2, 3][1..] == [1, 2, 3] && Filter([0, 1, 2, 3], keep) == [0, 1];
    assert PruneStep(S6, 1).attached == T1;
  }

  lemma Goes8()
    requires Inv(S7)
    ensures Goes(S7, AddBlock([], 1), S8)
  {
    NextIndexIs(S7, 2);
    AddGoes(S7, 1, 2, S8);
  }

  lemma Goes9()
    requires Inv(S8)
    ensures Goes(S8, AddBlock([], 1), S9)
  {
    NextIndexIs(S8, 3);
    AddGoes(S8, 1, 3, S9);
  }

  /** Three events in a row. */
  lemma InThree(s: Chain, e: Event, s1: Chain, e1: Event, s2: Chain, e2: Event, s3: Chain)
    requires Goes(s, e, s1) && Goes(s1, e1, s2) && Goes(s2, e2, s3)
    ensures Reaches(s, [e, e1, e2], s3) && Inv(s3)
  {
    StepInv(s2, e2);
    assert Reaches(s3, [], s3);
    Extend(s2, e2, s3, [], s3);
    Extend(s1, e1, s2, [e2], s3);
    Extend(s, e, s1, [e1, e2], s3);
    assert [e2] + [] == [e2] && [e1] + [e2] == [e1, e2] && [e] + [e1, e2] == [e, e1, e2];
  }

  predicate NoCalls(es: seq<Event>) {
    forall e :: e in es ==> !e.AttachNow?
  }

  lemma ThreeAdded() returns (es: seq<Event>)
    ensures InitStep(Uninitiated()) == S0 && Inv(S3) && Reaches(S0, es, S3) && NoCalls(es)
  {
    Goes1();
    GoesInv(S0, AddBlock([], 0), S1);
    Goes2();
    GoesInv(S1, AddBlock([], 0), S2);
    Goes3();
    InThree(S0, AddBlock([], 0), S1, AddBlock([], 0), S2, AddBlock([], 0), S3);
    es := [AddBlock([], 0), AddBlock([], 0), AddBlock([], 0)];
  }

  lemma ThreeAttached() returns (es: seq<Event>)
    requires Inv(S3)
    ensures Inv(S6) && Reaches(S3, es, S6) && NoCalls(es)
  {
    Goes4();
    GoesInv(S3, Daemon(0, 0), S4);
    Goes5();
    GoesInv(S4, Daemon(0, 0), S5);
    Goes6();
    InThree(S3, Daemon(0, 0), S4, Daemon(0, 0), S5, Daemon(0, 0), S6);
    es := [Daemon(0, 0), Daemon(0, 0), Daemon(0, 0)];
  }

  lemma PruneAndAdds() returns (es: seq<Event>)
    requires Inv(S6)
    ensures Inv(S9) && Reaches(S6, es, S9) && NoCalls(es)
  {
    Goes7();
    GoesInv(S6, Prune(1), S7);
    Goes8();
    GoesInv(S7, AddBlock([], 1), S8);
    Goes9();
    InThree(S6, Prune(1), S7, AddBlock([], 1), S8, AddBlock([], 1), S9);
    es := [Prune(1), AddBlock([], 1), AddBlock([], 1)];
  }

  lemma {:induction false} Join(s: Chain, es: seq<Event>, u: Chain, fs: seq<Event>, r: Chain)
    requires Reaches(s, es, u) && Reaches(u, fs, r)
    ensures Reaches(s, es + fs, r)
    decreases |es|
  {
    if es == [] {
      assert es + fs == fs;
    } else {
      StepInv(s, es[0]);
      Join(Step(s, es[0]), es[1..], u, fs, r);
      assert es + fs == [es[0]] + (es[1..] + fs);
      Extend(s, es[0], Step(s, es[0]), es[1..] + fs, r);
    }
  }

  /** No call waits for another: no block is ever called forward before. Then `attach_now(3)`, with
      2 and 3 pending, is followed by the attachment of 2. */
  lemma StaleNumberIsNotMoved() returns (es: seq<Event>)
    ensures Reaches(InitStep(Uninitiated()), es, S9) && NoCalls(es)
    ensures Pending(S9, 3) && Enabled(S9, AttachNow(3)) && Step(S9, AttachNow(3)) == S9
    ensures Enabled(S9, Daemon(1, 0))
    ensures 2 in Step(S9, Daemon(1, 0)).attached && 3 !in Step(S9, Daemon(1, 0)).attached
  {
    es := Whole();
    assert Indices(S9.pending) == [2, 3];
    assert Indices(S9.pending)[1] == 3;
  }

  lemma Whole() returns (es: seq<Event>)
    ensures InitStep(Uninitiated()) == S0 && Inv(S9) && Reaches(S0, es, S9) && NoCalls(es)
  {
    var front := ThreeAdded();
    var middle := ThreeAttached();
    var back := PruneAndAdds();
    JoinThree(S0, front, S3, middle, S6, back, S9);
    es := front + (middle + back);
  }

  lemma JoinThree(s: Chain, es: seq<Event>, u: Chain, fs: seq<Event>, v: Chain, gs: seq<Event>, r: Chain)
    requires Reaches(s, es, u) && Reaches(u, fs, v) && Reaches(v, gs, r)
    ensures Reaches(s, es + (fs + gs), r)
  {
    Join(u, fs, v, gs, r);
    Join(s, es, u, fs + gs, r);
  }
}
