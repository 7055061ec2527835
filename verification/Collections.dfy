/** Facts about finite sequences and sets that all three components need: duplicate-free
    lists, erasing one element, `std::sort`, and the smallest index not in use. */
module Collections {

  datatype Option<+T> = None | Some(value: T)

  ghost predicate NoDup<T>(s: seq<T>) {
    forall i, j :: 0 <= i < j < |s| ==> s[i] != s[j]
  }

  function ToSet<T>(s: seq<T>): set<T> {
    set x | x in s
  }

  lemma {:induction false} NoDupCard<T>(s: seq<T>)
    requires NoDup(s)
    ensures |ToSet(s)| == |s|
  {
    if s == [] {
    } else {
      NoDupCard(s[1..]);
      assert ToSet(s) == {s[0]} + ToSet(s[1..]);
    }
  }

  /** Joining the end of a duplicate-free list. */
  lemma Append<T>(s: seq<T>, x: T)
    requires NoDup(s) && x !in s
    ensures NoDup(s + [x]) && forall y :: y in s + [x] <==> y in s || y == x
  {
  }

  /** Leaving the front of a duplicate-free list. */
  lemma PopFront<T>(s: seq<T>)
    requires NoDup(s) && s != []
    ensures NoDup(s[1..]) && forall y :: y in s[1..] <==> y in s && y != s[0]
  {
    forall y | y in s && y != s[0] ensures y in s[1..] {
      var k :| 0 <= k < |s| && s[k] == y;
      assert s[1..][k - 1] == y;
    }
  }

  lemma NoDupConcat(a: seq<int>, b: seq<int>)
    requires NoDup(a) && NoDup(b) && forall x :: x in a ==> x !in b
    ensures NoDup(a + b)
    ensures forall x :: x in a + b <==> x in a || x in b
  {
    var s := a + b;
    forall i, j | 0 <= i < j < |s| ensures s[i] != s[j] {
      assert i < |a| ==> s[i] in a;
      assert |a| <= j ==> s[j] == b[j - |a|] && s[j] in b;
    }
  }

  lemma {:induction false} SubsetOfRange(s: set<int>, n: nat)
    requires forall x :: x in s ==> 0 <= x < n
    ensures |s| <= n
  {
    if n > 0 {
      SubsetOfRange(s - {n - 1}, n - 1);
    } else {
      SomeMember(s);
    }
  }

  lemma SubsetIsAll(a: set<int>, b: set<int>)
    requires a <= b && |a| == |b|
    ensures a == b
  {
    assert b == a + (b - a);
    SomeMember(b - a);
  }

  // ------------------------------------------------------------------ erasing

  /** The list after erasing the first occurrence of `x`, if there is one. */
  function Remove<T(==)>(s: seq<T>, x: T): seq<T> {
    if s == [] then []
    else if s[0] == x then s[1..]
    else [s[0]] + Remove(s[1..], x)
  }

  lemma {:induction false} RemoveAt<T>(s: seq<T>, x: T, i: nat)
    requires i < |s| && s[i] == x && x !in s[..i]
    ensures Remove(s, x) == s[..i] + s[i + 1..]
  {
    if i == 0 {
    } else {
      assert s[1..][..i - 1] == s[..i][1..];
      assert s[0] == s[..i][0];
      RemoveAt(s[1..], x, i - 1);
      assert s[..i] == [s[0]] + s[1..][..i - 1];
    }
  }

  lemma {:induction false} RemoveAbsent<T>(s: seq<T>, x: T)
    requires x !in s
    ensures Remove(s, x) == s
  {
    if s == [] {
    } else {
      RemoveAbsent(s[1..], x);
    }
  }

  lemma FirstIndex<T>(s: seq<T>, x: T) returns (i: nat)
    requires x in s
    ensures i < |s| && s[i] == x && x !in s[..i]
  {
    i := 0;
    while s[i] != x
      invariant i < |s| && x !in s[..i] && x in s[i..]
      decreases |s| - i
    {
      assert s[..i + 1] == s[..i] + [s[i]];
      i := i + 1;
    }
  }

  /** Erasing keeps a duplicate-free list duplicate-free and loses exactly `x`. */
  lemma RemoveNoDup<T>(s: seq<T>, x: T)
    requires NoDup(s)
    ensures NoDup(Remove(s, x))
    ensures forall y :: y in Remove(s, x) <==> y in s && y != x
    ensures |Remove(s, x)| == |s| - (if x in s then 1 else 0)
  {
    if x in s {
      var i := FirstIndex(s, x);
      RemoveAt(s, x, i);
      forall y | y in s && y != x ensures y in s[..i] + s[i + 1..] {
        var k :| 0 <= k < |s| && s[k] == y;
        if k < i {
          assert s[..i][k] == y;
        } else {
          assert s[i + 1..][k - i - 1] == y;
        }
      }
    } else {
      RemoveAbsent(s, x);
    }
  }

  lemma {:induction false} RemoveLast<T>(s: seq<T>, x: T)
    requires x !in s
    ensures Remove(s + [x], x) == s
  {
    RemoveAt(s + [x], x, |s|);
  }

  /** Where `x` stands in the list. */
  function IndexOf<T(==)>(s: seq<T>, x: T): (i: nat)
    requires x in s
    ensures i < |s| && s[i] == x && x !in s[..i]
  {
    if s[0] == x then 0
    else
      var j := IndexOf(s[1..], x);
      assert s[..j + 1] == [s[0]] + s[1..][..j];
      j + 1
  }

  /** The first place that holds `t` is where `t` stands. */
  lemma FirstOccurrence(q: seq<int>, t: int, i: nat)
    requires i < |q| && q[i] == t && t !in q[..i]
    ensures t in q && IndexOf(q, t) == i
  {
    var j := IndexOf(q, t);
    forall k | 0 <= k < i ensures q[k] != t {
      assert q[k] == q[..i][k];
    }
    forall k | 0 <= k < j ensures q[k] != t {
      assert q[k] == q[..j][k];
    }
  }

  lemma IndexOfUnique<T>(s: seq<T>, x: T, i: nat)
    requires NoDup(s) && i < |s| && s[i] == x
    ensures x in s && IndexOf(s, x) == i
  {
  }

  // ------------------------------------------------------------------ sorting

  ghost predicate Sorted(s: seq<int>) {
    forall i, j :: 0 <= i < j < |s| ==> s[i] <= s[j]
  }

  ghost predicate Ascending(s: seq<int>) {
    forall i, j :: 0 <= i < j < |s| ==> s[i] < s[j]
  }

  function Insert(x: int, s: seq<int>): seq<int> {
    if s == [] || x <= s[0] then [x] + s else [s[0]] + Insert(x, s[1..])
  }

  lemma {:induction false} InsertKeepsMembers(x: int, s: seq<int>)
    ensures multiset(Insert(x, s)) == multiset(s) + multiset{x}
  {
    if s == [] || x <= s[0] {
    } else {
      InsertKeepsMembers(x, s[1..]);
      assert s == [s[0]] + s[1..];
    }
  }

  lemma {:induction false} InsertSorted(x: int, s: seq<int>)
    requires Sorted(s)
    ensures Sorted(Insert(x, s))
    ensures Insert(x, s)[0] == x || (s != [] && Insert(x, s)[0] == s[0])
  {
    if s == [] || x <= s[0] {
    } else {
      InsertSorted(x, s[1..]);
      SortedCons(s[0], Insert(x, s[1..]));
    }
  }

  lemma SortedCons(x: int, t: seq<int>)
    requires Sorted(t) && (t != [] ==> x <= t[0])
    ensures Sorted([x] + t)
  {
    forall j | 0 <= j < |t| ensures x <= t[j] {
      assert t[0] <= t[j];
    }
  }

  /** `std::sort` on a vector of ints. */
  function Sort(s: seq<int>): (r: seq<int>)
    ensures Sorted(r) && multiset(r) == multiset(s)
  {
    if s == [] then []
    else
      assert s == [s[0]] + s[1..];
      InsertSorted(s[0], Sort(s[1..]));
      InsertKeepsMembers(s[0], Sort(s[1..]));
      Insert(s[0], Sort(s[1..]))
  }

  lemma SameMembers<T>(a: seq<T>, b: seq<T>)
    requires multiset(a) == multiset(b)
    ensures |a| == |b| && ToSet(a) == ToSet(b)
  {
    assert |multiset(a)| == |a| && |multiset(b)| == |b|;
    forall x ensures x in a <==> x in b {
      assert x in a <==> x in multiset(a);
      assert x in b <==> x in multiset(b);
    }
  }

  lemma {:induction false} NoDupMultiset<T>(s: seq<T>)
    ensures NoDup(s) <==> forall x :: x in s ==> multiset(s)[x] == 1
  {
    if s == [] {
    } else {
      var t := s[1..];
      assert s == [s[0]] + t;
      NoDupMultiset(t);
      assert forall x :: x in t <==> multiset(t)[x] > 0;
      if NoDup(s) {
        assert NoDup(t);
        assert s[0] !in t;
      } else if forall x :: x in s ==> multiset(s)[x] == 1 {
        assert multiset(s)[s[0]] == 1;
        assert s[0] !in t;
        forall x | x in t ensures multiset(t)[x] == 1 {
          assert x in s && multiset(s)[x] == 1;
        }
      }
    }
  }

  /** Sorting a duplicate-free list gives the strictly ascending list of its members. */
  lemma SortNoDup(s: seq<int>)
    requires NoDup(s)
    ensures Ascending(Sort(s)) && NoDup(Sort(s)) && |Sort(s)| == |s| && ToSet(Sort(s)) == ToSet(s)
  {
    SameMembers(s, Sort(s));
    NoDupMultiset(s);
    NoDupMultiset(Sort(s));
    assert forall x :: x in Sort(s) ==> x in ToSet(Sort(s)) && x in ToSet(s) && x in s;
    assert NoDup(Sort(s));
  }

  lemma SomeMember(s: set<int>)
    ensures s == {} || exists k :: k in s
  {
    if forall k :: k !in s {
      assert s == {};
    }
  }

  /** The keys of a `std::map` in the order its iterators visit them. */
  method InOrder(keys: set<int>) returns (s: seq<int>)
    ensures Ascending(s) && ToSet(s) == keys && |s| == |keys|
  {
    var rest := keys;
    s := [];
    while rest != {}
      invariant ToSet(s) !! rest && ToSet(s) + rest == keys && NoDup(s)
      decreases |rest|
    {
      SomeMember(rest);
      var k :| k in rest;
      assert k !in ToSet(s);
      assert ToSet(s + [k]) == ToSet(s) + {k};
      s, rest := s + [k], rest - {k};
    }
    SortNoDup(s);
    NoDupCard(s);
    s := Sort(s);
  }

  // ------------------------------------------------------------------ least unused index

  ghost predicate IsLeastFree(used: set<int>, r: int) {
    0 <= r && r !in used && forall j :: 0 <= j < r ==> j in used
  }

  function LeastFrom(used: set<int>, n: nat): (r: nat)
    ensures n <= r <= n + |used| && r !in used && forall j :: n <= j < r ==> j in used
    decreases |used|
  {
    if n !in used then n
    else
      var r := LeastFrom(used - {n}, n + 1);
      assert r !in used - {n};
      assert forall j :: n <= j < r ==> j in used by {
        forall j | n < j < r ensures j in used {
          assert j in used - {n};
        }
      }
      r
  }

  /** The least non-negative index that is not in use. */
  function LeastFree(used: set<int>): (r: nat)
    ensures IsLeastFree(used, r) && r <= |used|
  {
    LeastFrom(used, 0)
  }

  /** Scanning an ascending list for the first place that does not hold its own
      position finds the least unused index. */
  lemma ScanFindsLeastFree(s: seq<int>, r: nat)
    requires Ascending(s) && (forall i :: 0 <= i < |s| ==> 0 <= s[i])
    requires r <= |s| && (forall i :: 0 <= i < r ==> s[i] == i) && (r < |s| ==> s[r] != r)
    ensures r == LeastFree(ToSet(s))
  {
    if r < |s| {
      assert s[r] > r by {
        if r > 0 {
          assert s[r - 1] < s[r];
        }
      }
    }
    assert r !in ToSet(s);
    forall j | 0 <= j < r ensures j in ToSet(s) {
      assert s[j] == j;
    }
  }
}
