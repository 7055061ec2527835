/** The replacement policy over runs: every use of a block counts its slot, and a miss overwrites
    the slot that was used least. */
module CacheLfu {
  import opened Collections
  import opened CacheModel
  import opened CacheReads
  import opened CacheMisses
  import opened CacheRuns

  /** One use of a block, with the bytes that are loaded if it is a miss. */
  datatype Use = Use(path: string, num: int, data: Bytes)

  predicate SameKey(a: Use, b: Use) {
    a.path == b.path && a.num == b.num
  }

  function Find(c: Cache, u: Use): (r: Option<nat>)
    ensures r.Some? ==> r.value < |c|
  {
    Lookup(c, u.path, u.num)
  }

  function TouchOne(c: Cache, u: Use): (r: Cache)
    requires c != []
    ensures |r| == |c|
  {
    Touch(c, u.path, u.num, u.data)
  }

  function TouchAll(c: Cache, us: seq<Use>): (r: Cache)
    requires c != []
    ensures |r| == |c|
    decreases |us|
  {
    if us == [] then c else TouchOne(TouchAll(c, us[..|us| - 1]), us[|us| - 1])
  }

  lemma {:induction false} TouchAllConcat(c: Cache, us: seq<Use>, vs: seq<Use>)
    requires c != []
    ensures TouchAll(c, us + vs) == TouchAll(TouchAll(c, us), vs)
    decreases |vs|
  {
    if vs == [] {
      assert us + vs == us;
    } else {
      assert (us + vs)[..|us + vs| - 1] == us + vs[..|vs| - 1];
      TouchAllConcat(c, us, vs[..|vs| - 1]);
    }
  }

  // ------------------------------------------------------------------ reads are uses

  function TurnUse(s: LoopState, content: Bytes, path: string, blockSize: int, offset: nat): seq<Use>
    requires s.cache != [] && blockSize > 0
  {
    var adv := offset + |s.data|;
    var num := PlaceOf(adv, blockSize) + 1;
    var chunk := Pread(content, Min(s.left, blockSize), adv);
    if Lookup(s.cache, path, num).None? && chunk == [] then [] else [Use(path, num, CString(chunk))]
  }

  function LoopUses(s: LoopState, content: Bytes, path: string, blockSize: int, offset: nat,
                    bound: int, i: int): seq<Use>
    requires s.cache != [] && blockSize > 0
    decreases bound - i
  {
    if s.finish || i > bound then []
    else
      TurnUse(s, content, path, blockSize, offset)
      + LoopUses(Turn(s, content, path, blockSize, offset), content, path, blockSize, offset, bound, i + 1)
  }

  lemma TurnTouches(s: LoopState, content: Bytes, path: string, blockSize: int, offset: nat)
    requires s.cache != [] && blockSize > 0
    ensures Turn(s, content, path, blockSize, offset).cache
         == TouchAll(s.cache, TurnUse(s, content, path, blockSize, offset))
  {
    var us := TurnUse(s, content, path, blockSize, offset);
    if us != [] {
      assert us[..0] == [];
      assert TouchAll(s.cache, us) == TouchOne(s.cache, us[0]);
    }
  }

  lemma {:induction false} LoopTouches(s: LoopState, content: Bytes, path: string, blockSize: int, offset: nat,
                                       bound: int, i: int)
    requires s.cache != [] && blockSize > 0
    ensures Loop(s, content, path, blockSize, offset, bound, i).cache
         == TouchAll(s.cache, LoopUses(s, content, path, blockSize, offset, bound, i))
    decreases bound - i
  {
    if s.finish || i > bound {
    } else {
      var s' := Turn(s, content, path, blockSize, offset);
      TurnTouches(s, content, path, blockSize, offset);
      LoopTouches(s', content, path, blockSize, offset, bound, i + 1);
      TouchAllConcat(s.cache, TurnUse(s, content, path, blockSize, offset),
                     LoopUses(s', content, path, blockSize, offset, bound, i + 1));
    }
  }

  function ReadUses(c: Cache, content: Bytes, path: string, blockSize: int, size: nat, offset: nat): seq<Use>
    requires c != [] && blockSize > 0
  {
    LoopUses(LoopState(c, size, [], false), content, path, blockSize, offset,
             LoopBound(|content|, size, offset, blockSize), ToInt32(offset / blockSize))
  }

  predicate ReadsOf(files: Files, es: seq<Event>) {
    forall i :: 0 <= i < |es| ==> es[i].ReadFile? && es[i].path in files
  }

  /** The slots after a run of reads, of any offsets and sizes. */
  function ReadAll(c: Cache, files: Files, es: seq<Event>, blockSize: int): (r: Cache)
    requires c != [] && blockSize > 0 && ReadsOf(files, es)
    ensures |r| == |c|
    decreases |es|
  {
    if es == [] then c
    else
      var e := es[0];
      ReadAll(Read(c, files[e.path], e.path, blockSize, e.size, e.offset).cache, files, es[1..], blockSize)
  }

  function AllUses(c: Cache, files: Files, es: seq<Event>, blockSize: int): seq<Use>
    requires c != [] && blockSize > 0 && ReadsOf(files, es)
    decreases |es|
  {
    if es == [] then []
    else
      var e := es[0];
      ReadUses(c, files[e.path], e.path, blockSize, e.size, e.offset)
      + AllUses(Read(c, files[e.path], e.path, blockSize, e.size, e.offset).cache, files, es[1..], blockSize)
  }

  /** What any run of reads does to the cache is one sequence of uses, whatever the sizes and
      offsets, with or without NULs in the files. */
  lemma {:induction false} ReadsAreUses(c: Cache, files: Files, es: seq<Event>, blockSize: int)
    requires c != [] && blockSize > 0 && ReadsOf(files, es)
    ensures ReadAll(c, files, es, blockSize) == TouchAll(c, AllUses(c, files, es, blockSize))
    decreases |es|
  {
    if es == [] {
    } else {
      var path, size, offset := es[0].path, es[0].size, es[0].offset;
      var content := files[path];
      var c' := Read(c, content, path, blockSize, size, offset).cache;
      LoopTouches(LoopState(c, size, [], false), content, path, blockSize, offset,
                  LoopBound(|content|, size, offset, blockSize), ToInt32(offset / blockSize));
      ReadsAreUses(c', files, es[1..], blockSize);
      TouchAllConcat(c, ReadUses(c, content, path, blockSize, size, offset), AllUses(c', files, es[1..], blockSize));
    }
  }

  // ------------------------------------------------------------------ what the counters count

  /** Only slots never used have counter 0, no counter is past `limit`, and no two slots hold the
      same block. */
  ghost predicate CountedTo(c: Cache, limit: int) {
    Counted(c) && NoTwice(c) && forall i :: 0 <= i < |c| ==> c[i].counter <= limit
  }

  lemma TouchCounted(c: Cache, u: Use, limit: nat)
    requires c != [] && CountedTo(c, limit)
    ensures CountedTo(TouchOne(c, u), limit + 1)
  {
    TouchKeepsCounted(c, u.path, u.num, u.data);
    TouchNoTwice(c, u.path, u.num, u.data);
  }

  lemma {:induction false} RunCounted(slots: nat, us: seq<Use>)
    requires slots > 0
    ensures CountedTo(TouchAll(InitCache(slots), us), |us|)
    decreases |us|
  {
    if us == [] {
    } else {
      RunCounted(slots, us[..|us| - 1]);
      TouchCounted(TouchAll(InitCache(slots), us[..|us| - 1]), us[|us| - 1], |us| - 1);
    }
  }

  /** The place in a run of the last load into slot `i`. */
  function LastLoad(c: Cache, us: seq<Use>, i: nat): (r: Option<nat>)
    requires c != []
    ensures r.Some? ==> r.value < |us|
    decreases |us|
  {
    if us == [] then None
    else
      var c' := TouchAll(c, us[..|us| - 1]);
      if Find(c', us[|us| - 1]).None? && Victim(c') == i then Some(|us| - 1)
      else LastLoad(c, us[..|us| - 1], i)
  }

  /** How many of the uses from `from` on are of the same block as `u`. */
  function Count(us: seq<Use>, from: nat, u: Use): nat
    requires from <= |us|
    decreases |us|
  {
    if from == |us| then 0
    else Count(us[..|us| - 1], from, u) + if SameKey(us[|us| - 1], u) then 1 else 0
  }

  /** A slot in use holds the block last loaded into it, counted once for each use since. */
  ghost predicate CountsUses(c0: Cache, us: seq<Use>, i: nat)
    requires c0 != [] && i < |c0|
  {
    var s := TouchAll(c0, us)[i];
    var load := LastLoad(c0, us, i);
    s.path.Some? ==>
      && load.Some?
      && Holds(s, us[load.value].path, us[load.value].num) && s.data == us[load.value].data
      && s.counter == Count(us, load.value, us[load.value])
  }

  /** Over any run from an empty cache, a resident block's counter is the number of its uses since
      it was loaded, the load included. */
  lemma {:induction false} CounterIsUsesSinceLoad(slots: nat, us: seq<Use>, i: nat)
    requires i < slots
    ensures CountsUses(InitCache(slots), us, i)
    decreases |us|
  {
    if us == [] {
    } else {
      var c0, prefix, u := InitCache(slots), us[..|us| - 1], us[|us| - 1];
      CounterIsUsesSinceLoad(slots, prefix, i);
      RunCounted(slots, prefix);
      var c := TouchAll(c0, prefix);
      LookupFinds(c, u.path, u.num);
      assert us == prefix + [u];
      if Find(c, u).None? && Victim(c) == i {
        assert us[..|us| - 1] == prefix && Count(prefix, |us| - 1, u) == 0;
      } else if c[i].path.Some? {
        var load := LastLoad(c0, prefix, i).value;
        assert prefix[load] == us[load];
        KeyOfSlot(c, u, i, us[load], |prefix|);
      }
    }
  }

  /** A use is of the block in a slot just when the lookup ends there. */
  lemma KeyOfSlot(c: Cache, u: Use, i: nat, loaded: Use, limit: int)
    requires c != [] && CountedTo(c, limit) && i < |c| && Holds(c[i], loaded.path, loaded.num)
    ensures SameKey(u, loaded) <==> Find(c, u) == Some(i)
  {
    LookupFinds(c, u.path, u.num);
    forall k | 0 <= k < i ensures !Holds(c[k], loaded.path, loaded.num) {
      assert !SameBlock(c[k], c[i]);
    }
  }

  // ------------------------------------------------------------------ uses and renames

  datatype Act = Asks(use: Use) | Renames(path: string, newpath: string)

  function Perform(c: Cache, a: Act): (r: Cache)
    requires c != []
    ensures |r| == |c|
  {
    match a
    case Asks(u) => TouchOne(c, u)
    case Renames(path, newpath) => RenameSlots(c, path, newpath)
  }

  function PerformAll(c: Cache, acts: seq<Act>): (r: Cache)
    requires c != []
    ensures |r| == |c|
    decreases |acts|
  {
    if acts == [] then c else Perform(PerformAll(c, acts[..|acts| - 1]), acts[|acts| - 1])
  }

  /** No rename of the run makes one block cached twice. */
  predicate KeepsApart(c: Cache, acts: seq<Act>)
    requires c != []
    decreases |acts|
  {
    acts == [] ||
    var prefix, a := acts[..|acts| - 1], acts[|acts| - 1];
    && KeepsApart(c, prefix)
    && (a.Renames? ==> a.path == a.newpath || Unshared(PerformAll(c, prefix), a.path, a.newpath))
  }

  /** The place in the run of the last load into slot `i`. */
  function LastLoadOf(c: Cache, acts: seq<Act>, i: nat): (r: Option<nat>)
    requires c != []
    ensures r.Some? ==> r.value < |acts|
    decreases |acts|
  {
    if acts == [] then None
    else
      var prefix, a := acts[..|acts| - 1], acts[|acts| - 1];
      var c' := PerformAll(c, prefix);
      if a.Asks? && Find(c', a.use).None? && Victim(c') == i then Some(|prefix|) else LastLoadOf(c, prefix, i)
  }

  /** How many acts from `from` on use the block that slot `i` holds then, under the name it has then. */
  function UsesOf(c: Cache, acts: seq<Act>, i: nat, from: nat): nat
    requires c != [] && i < |c| && from <= |acts|
    decreases |acts|
  {
    if from == |acts| then 0
    else
      var a := acts[|acts| - 1];
      UsesOf(c, acts[..|acts| - 1], i, from)
      + if a.Asks? && Holds(PerformAll(c, acts)[i], a.use.path, a.use.num) then 1 else 0
  }

  lemma {:induction false} ActsCounted(slots: nat, acts: seq<Act>)
    requires slots > 0 && KeepsApart(InitCache(slots), acts)
    ensures Counted(PerformAll(InitCache(slots), acts)) && NoTwice(PerformAll(InitCache(slots), acts))
    decreases |acts|
  {
    if acts == [] {
    } else {
      var prefix, a := acts[..|acts| - 1], acts[|acts| - 1];
      var c := PerformAll(InitCache(slots), prefix);
      ActsCounted(slots, prefix);
      match a
      case Asks(u) =>
        TouchKeepsCounted(c, u.path, u.num, u.data);
        TouchNoTwice(c, u.path, u.num, u.data);
      case Renames(path, newpath) =>
        RenameNoTwice(c, path, newpath);
    }
  }

  /** What one act does to the counter of slot `i`. */
  lemma PerformCounts(c: Cache, a: Act, i: nat)
    requires c != [] && Counted(c) && NoTwice(c) && i < |c|
    ensures var c' := Perform(c, a);
      var held := a.Asks? && Holds(c'[i], a.use.path, a.use.num);
      if a.Asks? && Find(c, a.use).None? && Victim(c) == i then held && c'[i].counter == 1
      else c'[i].counter == c[i].counter + (if held then 1 else 0) && (c'[i].path.Some? <==> c[i].path.Some?)
  {
    match a
    case Asks(u) =>
      LookupFinds(c, u.path, u.num);
      if Find(c, u).Some? {
        forall j | 0 <= j < |c| && j != Find(c, u).value ensures !Holds(c[j], u.path, u.num) {
          assert j < Find(c, u).value || !SameBlock(c[Find(c, u).value], c[j]);
        }
      }
    case Renames(path, newpath) =>
  }

  /** Renames change the name a block is counted under, not the count: over any run of uses and
      renames, a resident block's counter is the number of its uses since it was loaded. */
  lemma {:induction false} CounterSurvivesRenames(slots: nat, acts: seq<Act>, i: nat)
    requires i < slots && KeepsApart(InitCache(slots), acts)
    requires PerformAll(InitCache(slots), acts)[i].path.Some?
    ensures var c0 := InitCache(slots); var load := LastLoadOf(c0, acts, i);
      load.Some? && PerformAll(c0, acts)[i].counter == UsesOf(c0, acts, i, load.value)
    decreases |acts|
  {
    if acts == [] {
    } else {
      var c0, prefix, a := InitCache(slots), acts[..|acts| - 1], acts[|acts| - 1];
      var c := PerformAll(c0, prefix);
      ActsCounted(slots, prefix);
      PerformCounts(c, a, i);
      if a.Asks? && Find(c, a.use).None? && Victim(c) == i {
        assert UsesOf(c0, prefix, i, |prefix|) == 0;
      } else {
        CounterSurvivesRenames(slots, prefix, i);
      }
    }
  }

  // ------------------------------------------------------------------ which slot goes

  /** After any run short of overflowing a counter, the slot that a miss overwrites is the first
      empty one, if there is one, and otherwise the first of those used least since their load. */
  lemma VictimOverRuns(slots: nat, us: seq<Use>)
    requires slots > 0 && |us| <= INT_MAX
    ensures var c := TouchAll(InitCache(slots), us); var v := Victim(c);
      && (forall i :: 0 <= i < v ==> c[v].counter < c[i].counter)
      && (forall i :: v <= i < |c| ==> c[v].counter <= c[i].counter)
      && ((exists i :: 0 <= i < |c| && c[i].path.None?) <==> c[v].path.None?)
      && (c[v].path.None? ==> forall i :: 0 <= i < v ==> c[i].path.Some?)
  {
    RunCounted(slots, us);
    VictimIsMinimal(TouchAll(InitCache(slots), us));
  }

  /** Slot `cold` was used once since its load, every other slot at least twice. */
  ghost predicate OneCold(c: Cache, cold: nat) {
    cold < |c| && c[cold].counter == 1
    && forall i :: 0 <= i < |c| && i != cold ==> 2 <= c[i].counter <= INT_MAX
  }

  /** Every use of the run misses when it is made. */
  predicate AllMisses(c: Cache, us: seq<Use>)
    requires c != []
    decreases |us|
  {
    us == [] || (AllMisses(c, us[..|us| - 1]) && Find(TouchAll(c, us[..|us| - 1]), us[|us| - 1]).None?)
  }

  lemma ColdMiss(c: Cache, cold: nat, u: Use)
    requires OneCold(c, cold) && Find(c, u).None?
    ensures TouchOne(c, u) == c[cold := Slot(Some(u.path), u.data, u.num, 1)] && OneCold(TouchOne(c, u), cold)
  {
    VictimIsMinimal(c);
    assert c[Victim(c)].counter <= c[cold].counter;
  }

  /** However many misses follow each other, all of them go through the one cold slot: the others
      are left untouched. */
  lemma {:induction false} MissesShareTheColdSlot(c: Cache, cold: nat, us: seq<Use>)
    requires OneCold(c, cold) && AllMisses(c, us)
    ensures OneCold(TouchAll(c, us), cold)
    ensures TouchAll(c, us) ==
      if us == [] then c
      else var u := us[|us| - 1]; c[cold := Slot(Some(u.path), u.data, u.num, 1)]
    decreases |us|
  {
    if us == [] {
    } else {
      MissesShareTheColdSlot(c, cold, us[..|us| - 1]);
      ColdMiss(TouchAll(c, us[..|us| - 1]), cold, us[|us| - 1]);
    }
  }

  /** No use of the run is of a block in a slot other than the cold one, none is of the block
      used just before it, and the first is not of the block in the cold slot. */
  predicate Thrashing(c: Cache, cold: nat, us: seq<Use>)
    requires cold < |c|
  {
    && (forall k, i :: 0 <= k < |us| && 0 <= i < |c| && i != cold ==> !Holds(c[i], us[k].path, us[k].num))
    && (forall k :: 1 <= k < |us| ==> !SameKey(us[k - 1], us[k]))
    && (us != [] ==> !Holds(c[cold], us[0].path, us[0].num))
  }

  /** So a run of uses misses every time exactly when it never repeats a block at once and never
      asks for one in another slot, even if it goes round the same two blocks for ever. */
  lemma {:induction false} ThrashingExactly(c: Cache, cold: nat, us: seq<Use>)
    requires OneCold(c, cold)
    ensures AllMisses(c, us) <==> Thrashing(c, cold, us)
    decreases |us|
  {
    if us == [] {
    } else {
      var prefix, u := us[..|us| - 1], us[|us| - 1];
      ThrashingExactly(c, cold, prefix);
      ThrashingLast(c, cold, us);
      if Thrashing(c, cold, prefix) {
        MissesShareTheColdSlot(c, cold, prefix);
        LookupFinds(TouchAll(c, prefix), u.path, u.num);
        LastUseMisses(c, cold, us);
      }
    }
  }

  /** What the last use of a run adds to the condition. */
  predicate NewLast(c: Cache, cold: nat, us: seq<Use>)
    requires cold < |c| && us != []
  {
    var u := us[|us| - 1];
    && (forall i :: 0 <= i < |c| && i != cold ==> !Holds(c[i], u.path, u.num))
    && if |us| == 1 then !Holds(c[cold], u.path, u.num) else !SameKey(us[|us| - 2], u)
  }

  lemma ThrashingLast(c: Cache, cold: nat, us: seq<Use>)
    requires cold < |c| && us != []
    ensures Thrashing(c, cold, us) <==> Thrashing(c, cold, us[..|us| - 1]) && NewLast(c, cold, us)
  {
    var prefix := us[..|us| - 1];
    assert forall k :: 0 <= k < |prefix| ==> prefix[k] == us[k];
    if Thrashing(c, cold, prefix) && NewLast(c, cold, us) {
      forall k, i | 0 <= k < |us| && 0 <= i < |c| && i != cold ensures !Holds(c[i], us[k].path, us[k].num) {
        if k < |prefix| {
          assert !Holds(c[i], prefix[k].path, prefix[k].num);
        }
      }
      forall k | 1 <= k < |us| ensures !SameKey(us[k - 1], us[k]) {
        if k < |prefix| {
          assert !SameKey(prefix[k - 1], prefix[k]);
        }
      }
    }
    if Thrashing(c, cold, us) {
      forall k | 1 <= k < |prefix| ensures !SameKey(prefix[k - 1], prefix[k]) {
        assert !SameKey(us[k - 1], us[k]);
      }
    }
  }

  lemma LastUseMisses(c: Cache, cold: nat, us: seq<Use>)
    requires OneCold(c, cold) && us != [] && AllMisses(c, us[..|us| - 1])
    ensures Find(TouchAll(c, us[..|us| - 1]), us[|us| - 1]).None? <==> NewLast(c, cold, us)
  {
    var prefix, u := us[..|us| - 1], us[|us| - 1];
    MissesShareTheColdSlot(c, cold, prefix);
    var c' := TouchAll(c, prefix);
    LookupFinds(c', u.path, u.num);
    assert forall i :: 0 <= i < |c| && i != cold ==> c'[i] == c[i];
    assert Holds(c'[cold], u.path, u.num) <==>
      (if |us| == 1 then Holds(c[cold], u.path, u.num) else SameKey(us[|us| - 2], u));
    if Find(c', u).None? {
      assert !Holds(c'[cold], u.path, u.num);
      forall i | 0 <= i < |c| && i != cold ensures !Holds(c[i], u.path, u.num) {
        assert !Holds(c'[i], u.path, u.num);
      }
    }
  }
}
