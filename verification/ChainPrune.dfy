/** Pruning: from any reachable tree it leaves exactly one path, from genesis to a deepest block. */
module ChainPrune {
  import opened Collections
  import opened ChainModel

  // ------------------------------------------------------------------ the path to genesis

  /** Place `i` of a path is `i` levels up, and each place is the father of the one before. */
  lemma {:induction false} PathAt(t: Tree, k: int, i: nat)
    requires TreeInv(t) && k in t && i < |Path(t, k)|
    ensures Path(t, k)[i] in t && t[Path(t, k)[i]].depth == t[k].depth - i
    ensures i + 1 < |Path(t, k)| ==> Path(t, k)[i] != GENESIS && Path(t, k)[i + 1] == t[Path(t, k)[i]].father
    ensures i + 1 == |Path(t, k)| ==> Path(t, k)[i] == GENESIS
    decreases i
  {
    if k == GENESIS {
    } else {
      assert HangsOn(t, t[k]);
      if i > 0 {
        PathAt(t, t[k].father, i - 1);
      }
    }
  }

  /** A member of a path is attached, its depth says where on the path it stands, and its father
      is on the path too. */
  lemma PathMember(t: Tree, k: int, m: int)
    requires TreeInv(t) && k in t && m in Path(t, k)
    ensures m in t && 0 <= t[m].depth <= t[k].depth && Path(t, k)[t[k].depth - t[m].depth] == m
    ensures m != GENESIS ==> t[m].father in Path(t, k)
  {
    var p := Path(t, k);
    var i :| 0 <= i < |p| && p[i] == m;
    PathAt(t, k, i);
    if m != GENESIS {
      assert p[i + 1] in p;
    }
  }

  lemma PathEnds(t: Tree, k: int)
    requires TreeInv(t) && k in t
    ensures GENESIS in Path(t, k) && k in Path(t, k)
  {
    var p := Path(t, k);
    PathAt(t, k, |p| - 1);
    assert p[0] == k && p[|p| - 1] == GENESIS;
  }

  /** `m` is reached from `k` by following father links. */
  ghost predicate Ancestor(t: Tree, m: int, k: int)
    requires TreeInv(t) && k in t
    decreases t[k].depth
  {
    m == k || (k != GENESIS && (assert HangsOn(t, t[k]); Ancestor(t, m, t[k].father)))
  }

  lemma {:induction false} PathIsAncestors(t: Tree, k: int)
    requires TreeInv(t) && k in t
    ensures forall m :: m in Path(t, k) <==> Ancestor(t, m, k)
    decreases t[k].depth
  {
    if k == GENESIS {
    } else {
      assert HangsOn(t, t[k]);
      PathIsAncestors(t, t[k].father);
    }
  }

  // ------------------------------------------------------------------ pruning

  ghost function Kept(t: Tree, leaf: int): Tree
    requires TreeInv(t) && leaf in t
  {
    map k | k in t && k in ToSet(Path(t, leaf)) :: t[k]
  }

  lemma KeptKeys(t: Tree, leaf: int)
    requires TreeInv(t) && leaf in t
    ensures forall k :: k in Kept(t, leaf) <==> k in Path(t, leaf)
  {
    forall k | k in Path(t, leaf) ensures k in t {
      PathMember(t, leaf, k);
    }
  }

  lemma KeptTree(t: Tree, leaf: int)
    requires TreeInv(t) && leaf in t
    ensures TreeInv(Kept(t, leaf))
  {
    var u := Kept(t, leaf);
    KeptKeys(t, leaf);
    PathEnds(t, leaf);
    forall k | k in u && k != GENESIS ensures HangsOn(u, u[k]) {
      assert HangsOn(t, t[k]);
      PathMember(t, leaf, k);
    }
  }

  lemma PruneInv(s: Chain, leaf: int)
    requires Inv(s) && s.initiated && s.pending == [] && Deepest(s.attached, leaf)
    ensures Inv(PruneStep(s, leaf))
  {
    KeptTree(s.attached, leaf);
    KeptKeys(s.attached, leaf);
    FilterMembers(s.used, ToSet(Path(s.attached, leaf)));
  }

  /** Exactly one block at depth `d`. */
  ghost predicate OneAt(t: Tree, d: int) {
    (exists k :: k in t && t[k].depth == d) &&
    forall j, k :: j in t && k in t && t[j].depth == d && t[k].depth == d ==> j == k
  }

  lemma KeptOneAt(t: Tree, leaf: int, d: int)
    requires TreeInv(t) && leaf in t && 0 <= d <= t[leaf].depth
    ensures OneAt(Kept(t, leaf), d)
  {
    var u := Kept(t, leaf);
    KeptKeys(t, leaf);
    var i := t[leaf].depth - d;
    PathAt(t, leaf, i);
    assert Path(t, leaf)[i] in u;
    forall k | k in u && u[k].depth == d ensures k == Path(t, leaf)[i] {
      PathMember(t, leaf, k);
    }
  }

  /** The result of pruning, stated without the path. With `D` the depth of the deepest blocks:
      one kept block at each depth 0..D and none deeper, so the kept blocks form one chain;
      every kept block is kept as it was, father included; exactly the ancestors of the chosen
      deepest block are kept; and the used indices are exactly the kept ones. */
  lemma PruneLeavesOnePath(s: Chain, leaf: int)
    requires Inv(s) && IsOpen(s) && s.pending == [] && Deepest(s.attached, leaf)
    ensures var t := s.attached; var s' := PruneStep(s, leaf); var D := t[leaf].depth;
      && Inv(s') && s'.pending == [] && Deepest(s'.attached, leaf)
      && (forall d :: 0 <= d <= D ==> OneAt(s'.attached, d))
      && (forall k :: k in s'.attached ==> 0 <= s'.attached[k].depth <= D)
      && (forall k :: k in s'.attached ==> k in t && s'.attached[k] == t[k])
      && (forall k :: k in s'.attached && k != GENESIS ==> t[k].father in s'.attached)
      && (forall k :: k in s'.attached <==> k in t && Ancestor(t, k, leaf))
      && NoDup(s'.used) && forall k :: k in s'.used <==> k in s'.attached
  {
    var t := s.attached;
    var u := PruneStep(s, leaf).attached;
    assert u == Kept(t, leaf);
    PruneInv(s, leaf);
    PathIsAncestors(t, leaf);
    KeptKeys(t, leaf);
    PathEnds(t, leaf);
    forall k | k in u ensures 0 <= u[k].depth <= t[leaf].depth && (k != GENESIS ==> t[k].father in u) {
      PathMember(t, leaf, k);
    }
    forall d | 0 <= d <= t[leaf].depth ensures OneAt(u, d) {
      KeptOneAt(t, leaf, d);
    }
  }

  // ------------------------------------------------------------------ there is a deepest block

  lemma {:induction false} DeepestOf(t: Tree, ks: set<int>) returns (f: int)
    requires ks != {} && ks <= t.Keys
    ensures f in ks && forall k :: k in ks ==> t[k].depth <= t[f].depth
    decreases |ks|
  {
    SomeMember(ks);
    f :| f in ks;
    if ks != {f} {
      var g := DeepestOf(t, ks - {f});
      if t[g].depth > t[f].depth {
        f := g;
      }
    }
  }

  /** `findFather` always has something to return: while the chain is open the map is not empty. */
  lemma SomeDeepest(t: Tree) returns (f: int)
    requires t != map[]
    ensures Deepest(t, f)
  {
    assert t.Keys != {};
    f := DeepestOf(t, t.Keys);
  }
}
