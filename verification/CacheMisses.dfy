/** When a run of consecutive blocks misses at every turn, told from the slots before the first. */
module CacheMisses {
  import opened Collections
  import opened CacheModel

  /** No block from place `i` to place `last` is found when the loop gets to it, given that every
      earlier one was loaded on the way. */
  predicate AllMiss(c: Cache, content: Bytes, path: string, blockSize: int, i: nat, last: nat)
    requires c != [] && blockSize > 0
    decreases last - i
  {
    i > last ||
    (Lookup(c, path, i + 1).None? &&
     AllMiss(Touch(c, path, i + 1, BlockOf(content, blockSize, i)), content, path, blockSize, i + 1, last))
  }

  /** Slots never used, and only those, have counter 0. */
  predicate Counted(c: Cache) {
    forall i :: 0 <= i < |c| ==> 0 <= c[i].counter && (c[i].counter == 0 <==> c[i].path.None?)
  }

  function UnusedSlots(c: Cache): set<nat> {
    set i: nat | i < |c| && c[i].path.None?
  }

  function Primed(c: Cache): (r: Cache)
    ensures |r| == |c|
  {
    seq(|c|, i requires 0 <= i < |c| => if c[i].path.None? then c[i].(counter := 1) else c[i])
  }

  /** The slot that misses go through once no slot is unused: the first of least counter, when the
      unused slots are counted as used once. */
  function Spare(c: Cache): (x: nat)
    requires c != []
    ensures x < |c|
  {
    Victim(Primed(c))
  }

  /** None of the blocks from place `i` to place `last` will be served from its slot: a slot that
      has one is the spare one, and so many places come before it that it will be overwritten. */
  predicate NoneServed(c: Cache, path: string, i: nat, last: nat)
    requires c != []
  {
    forall j :: 0 <= j < |c| && c[j].path == Some(path) && i <= c[j].num - 1 <= last ==>
      j == Spare(c) && c[j].num - 1 - i > |UnusedSlots(c)|
  }

  // ------------------------------------------------------------------ victims

  lemma {:induction false} SameCounters(a: Cache, b: Cache, n: nat)
    requires |a| == |b| && n <= |a| && forall j :: 0 <= j < n ==> a[j].counter == b[j].counter
    ensures MinScan(a, n) == MinScan(b, n)
  {
    if n == 0 {
    } else {
      SameCounters(a, b, n - 1);
    }
  }

  lemma VictimIs(c: Cache, v: nat)
    requires v < |c| && c[v].counter < INT_MAX
    requires forall j :: 0 <= j < |c| ==> c[v].counter <= c[j].counter
    requires forall j :: 0 <= j < v ==> c[v].counter < c[j].counter
    ensures Victim(c) == v
  {
    MinScanIsFirst(c, |c|);
  }

  /** A miss with an unused slot left fills an unused one. */
  lemma MissFills(c: Cache, path: string, num: int, data: Bytes)
    requires Counted(c) && UnusedSlots(c) != {} && Lookup(c, path, num).None?
    ensures var v := Victim(c); var c' := Touch(c, path, num, data);
      && v in UnusedSlots(c) && UnusedSlots(c') == UnusedSlots(c) - {v} && Counted(c') && Spare(c') == Spare(c)
  {
    var u :| u in UnusedSlots(c);
    MinScanIsFirst(c, |c|);
    var v := Victim(c);
    assert c[u].counter == 0;
    assert c[v].counter == 0;
    var c' := Touch(c, path, num, data);
    assert c' == c[v := Slot(Some(path), data, num, 1)];
    SameCounters(Primed(c'), Primed(c), |c|);
  }

  /** Afterwards every miss goes through the spare slot. */
  lemma MissSpare(c: Cache, path: string, num: int, data: Bytes)
    requires c != [] && Counted(c) && UnusedSlots(c) == {} && Lookup(c, path, num).None?
    ensures var c' := Touch(c, path, num, data);
      && c' == c[Spare(c) := Slot(Some(path), data, num, 1)]
      && UnusedSlots(c') == {} && Counted(c') && Spare(c') == Spare(c)
  {
    forall i | 0 <= i < |c| ensures c[i].path.Some? {
      assert i !in UnusedSlots(c);
    }
    assert Primed(c) == c;
    MinScanIsFirst(c, |c|);
    var x := Victim(c);
    var c' := Touch(c, path, num, data);
    assert Primed(c') == c';
    VictimIs(c', x);
  }

  // ------------------------------------------------------------------ the condition

  lemma ServedAtOnce(c: Cache, path: string, i: nat, last: nat)
    requires c != [] && i <= last && Lookup(c, path, i + 1).Some?
    ensures !NoneServed(c, path, i, last)
  {
    LookupFinds(c, path, i + 1);
    assert c[Lookup(c, path, i + 1).value].num - 1 - i == 0;
  }

  lemma NoneServedNext(c: Cache, path: string, i: nat, last: nat, data: Bytes)
    requires c != [] && Counted(c) && i <= last && Lookup(c, path, i + 1).None?
    ensures NoneServed(Touch(c, path, i + 1, data), path, i + 1, last) <==> NoneServed(c, path, i, last)
  {
    var c' := Touch(c, path, i + 1, data);
    LookupFinds(c, path, i + 1);
    forall j | 0 <= j < |c| && c[j].path == Some(path) ensures c[j].num != i + 1 {
      assert !Holds(c[j], path, i + 1);
    }
    if UnusedSlots(c) != {} {
      NextFills(c, path, i, last, data);
    } else {
      NextSpare(c, path, i, last, data);
    }
  }

  lemma NextFills(c: Cache, path: string, i: nat, last: nat, data: Bytes)
    requires Counted(c) && UnusedSlots(c) != {} && Lookup(c, path, i + 1).None?
    requires forall j :: 0 <= j < |c| && c[j].path == Some(path) ==> c[j].num != i + 1
    ensures NoneServed(Touch(c, path, i + 1, data), path, i + 1, last) <==> NoneServed(c, path, i, last)
  {
    var c', v := Touch(c, path, i + 1, data), Victim(c);
    MissFills(c, path, i + 1, data);
    assert |UnusedSlots(c')| == |UnusedSlots(c)| - 1;
    assert c'[v].num == i + 1 && c[v].path.None?;
    assert forall j :: 0 <= j < |c| && j != v ==> c'[j] == c[j];
  }

  lemma NextSpare(c: Cache, path: string, i: nat, last: nat, data: Bytes)
    requires c != [] && Counted(c) && UnusedSlots(c) == {} && Lookup(c, path, i + 1).None?
    requires forall j :: 0 <= j < |c| && c[j].path == Some(path) ==> c[j].num != i + 1
    ensures NoneServed(Touch(c, path, i + 1, data), path, i + 1, last) <==> NoneServed(c, path, i, last)
  {
    var c', x := Touch(c, path, i + 1, data), Spare(c);
    MissSpare(c, path, i + 1, data);
    assert c'[x].num == i + 1;
    assert forall j :: 0 <= j < |c| && j != x ==> c'[j] == c[j];
  }

  /** The blocks from place `i` to place `last`, asked for one after the other, all miss if and
      only if none of them is in a slot that is still untouched when its turn comes. */
  lemma {:induction false} AllMissExactly(c: Cache, content: Bytes, path: string, blockSize: int, i: nat, last: nat)
    requires c != [] && blockSize > 0 && Counted(c)
    ensures AllMiss(c, content, path, blockSize, i, last) <==> NoneServed(c, path, i, last)
    decreases last - i
  {
    if i > last {
    } else if Lookup(c, path, i + 1).Some? {
      ServedAtOnce(c, path, i, last);
    } else {
      var data := BlockOf(content, blockSize, i);
      NoneServedNext(c, path, i, last, data);
      TouchKeepsCounted(c, path, i + 1, data);
      AllMissExactly(Touch(c, path, i + 1, data), content, path, blockSize, i + 1, last);
    }
  }

  lemma TouchKeepsCounted(c: Cache, path: string, num: int, data: Bytes)
    requires c != [] && Counted(c)
    ensures Counted(Touch(c, path, num, data))
  {
    LookupFinds(c, path, num);
  }
}
