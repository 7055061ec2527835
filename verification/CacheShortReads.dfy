/** Reads that start at a block and end before the end of the file: when they return what was asked
    for, and when they leave a truncated block behind. */
module CacheShortReads {
  import opened Collections
  import opened CacheModel
  import opened CacheReads
  import opened CacheMisses

  lemma LastPlace(end: nat, length: nat, blockSize: int)
    requires blockSize > 0 && end < length
    ensures var n := PlaceOf(end, blockSize);
      && n <= length / blockSize && Start(n, blockSize) <= end < Start(n + 1, blockSize)
      && end - Start(n, blockSize) == end % blockSize
  {
    PlaceOfIs(end, blockSize);
    PlaceOfByte(end, blockSize);
    DivMonotone(end, length, blockSize);
  }

  /** A number of bytes that is one of whole blocks. */
  predicate Whole(x: nat, blockSize: int)
    requires blockSize > 0
  {
    Start(PlaceOf(x, blockSize), blockSize) == x
  }

  lemma WholeIs(x: nat, blockSize: int)
    requires blockSize > 0
    ensures Whole(x, blockSize) <==> x % blockSize == 0
  {
    PlaceOfIs(x, blockSize);
    PlaceOfByte(x, blockSize);
  }

  lemma WholeBlocks(x: nat, blockSize: int)
    requires blockSize > 0 && Whole(x, blockSize) && x > 0
    ensures x >= blockSize && Whole(x - blockSize, blockSize)
  {
  }

  // ------------------------------------------------------------------ turns that ask for too little

  /** The bytes that a miss gets that may not ask for the whole block. */
  lemma CutChunk(content: Bytes, blockSize: int, from: nat, start: nat, end: nat)
    requires blockSize > 0 && from <= start <= end < |content| && end - start < blockSize && NulFree(content)
    ensures var chunk := Pread(content, Min(end - start, blockSize), start);
      && CString(chunk) == chunk && |chunk| == end - start && chunk != Pread(content, blockSize, start)
      && content[from..start] + chunk == content[from..end]
  {
    var chunk := Pread(content, Min(end - start, blockSize), start);
    CStringWhole(chunk);
    assert chunk == content[start..end] && content[from..start] + content[start..end] == content[from..end];
    assert |Pread(content, blockSize, start)| > end - start;
  }

  /** Such a miss ends the loop; it loads a truncated block, or nothing if nothing was left. */
  lemma TurnCut(s: LoopState, files: Files, blockSize: int, path: string, from: nat, i: nat)
    requires blockSize > 0 && path in files && NulFree(files[path]) && !s.finish
    requires HasRead(s, files, blockSize, path, from, Start(i, blockSize)) && Lookup(s.cache, path, i + 1).None?
    requires s.left < blockSize && Start(i, blockSize) + s.left < |files[path]|
    ensures var s' := Turn(s, files[path], path, blockSize, from);
      && s'.finish && s'.data == files[path][from..Start(i, blockSize) + s.left]
      && (Truthful(s'.cache, files, blockSize) <==> s.left == 0)
  {
    var content, start := files[path], Start(i, blockSize);
    var chunk := Pread(content, Min(s.left, blockSize), start);
    assert from + |s.data| == start;
    assert PlaceOf(start, blockSize) == i by {
      PlaceUnique(start, blockSize, i);
      PlaceOfIs(start, blockSize);
    }
    CutChunk(content, blockSize, from, start, start + s.left);
    MissTurn(s, content, path, blockSize, from, i, chunk);
    if s.left > 0 {
      TruncatedUntrue(s.cache, files, blockSize, path, i, chunk);
    }
  }

  lemma MissTurn(s: LoopState, content: Bytes, path: string, blockSize: int, offset: nat, i: nat, chunk: Bytes)
    requires s.cache != [] && blockSize > 0 && PlaceOf(offset + |s.data|, blockSize) == i && !s.finish
    requires Lookup(s.cache, path, i + 1).None? && |chunk| < blockSize && |chunk| == s.left
    requires Pread(content, Min(s.left, blockSize), offset + |s.data|) == CString(chunk) == chunk
    ensures Turn(s, content, path, blockSize, offset) ==
      if chunk == [] then s.(finish := true)
      else LoopState(Touch(s.cache, path, i + 1, chunk), 0, s.data + chunk, true)
  {
  }

  /** A truncated block, once loaded, is never true. */
  lemma TruncatedUntrue(c: Cache, files: Files, blockSize: int, path: string, place: nat, data: Bytes)
    requires c != [] && blockSize > 0 && path in files && Lookup(c, path, place + 1).None?
    requires data != BlockOf(files[path], blockSize, place)
    ensures !Truthful(Touch(c, path, place + 1, data), files, blockSize)
  {
    assert !TrueSlot(Touch(c, path, place + 1, data)[Victim(c)], files, blockSize);
  }

  // ------------------------------------------------------------------ after a hit

  /** More bytes than those up to `end`, and all of them the file's. */
  ghost predicate Longer(data: Bytes, content: Bytes, from: nat, end: nat) {
    from <= end < from + |data| <= |content| && data == content[from..from + |data|]
  }

  /** The loop at place `i`, with more left to ask for than the bytes up to `end`. */
  ghost predicate LongAt(s: LoopState, files: Files, blockSize: int, path: string, from: nat, end: nat, i: nat)
    requires blockSize > 0 && path in files
  {
    && HasRead(s, files, blockSize, path, from, Start(i, blockSize)) && !s.finish
    && from <= end < |files[path]| && Start(i, blockSize) + s.left > end
  }

  /** With more left to ask for, the loop returns more; and if whole blocks are left, it loads
      whole blocks. */
  lemma {:induction false} LongLoop(s: LoopState, files: Files, blockSize: int, path: string,
                                    from: nat, end: nat, bound: nat, i: nat)
    requires blockSize > 0 && path in files && NulFree(files[path])
    requires LongAt(s, files, blockSize, path, from, end, i) && end < Start(bound + 1, blockSize)
    requires bound <= |files[path]| / blockSize
    ensures var r := Loop(s, files[path], path, blockSize, from, bound, i);
      && Longer(r.data, files[path], from, end)
      && (Whole(s.left, blockSize) ==> Truthful(r.cache, files, blockSize))
    decreases bound - i
  {
    var s', length := Turn(s, files[path], path, blockSize, from), |files[path]|;
    if i > bound {
      StartMonotone(bound + 1, i, blockSize);
    } else if Lookup(s.cache, path, i + 1).Some? {
      TurnHit(s, files, path, blockSize, from, i);
      LongNext(s, s', files, blockSize, path, from, end, bound, i);
    } else if s.left >= Min(blockSize, length - Start(i, blockSize)) {
      TurnMiss(s, files, path, blockSize, from, i);
      LongNext(s, s', files, blockSize, path, from, end, bound, i);
    } else {
      TurnCut(s, files, blockSize, path, from, i);
      if Whole(s.left, blockSize) && s.left > 0 {
        WholeBlocks(s.left, blockSize);
      }
    }
  }

  lemma StartMonotone(i: nat, j: nat, blockSize: int)
    requires blockSize > 0 && i <= j
    ensures Start(i, blockSize) <= Start(j, blockSize)
  {
    if i < j {
      StartOrder(i, j, blockSize);
    }
  }

  /** A turn that got its block whole, or to the end of the file. */
  lemma {:induction false} LongNext(s: LoopState, s': LoopState, files: Files, blockSize: int, path: string,
                                    from: nat, end: nat, bound: nat, i: nat)
    requires blockSize > 0 && path in files && NulFree(files[path]) && i <= bound <= |files[path]| / blockSize
    requires LongAt(s, files, blockSize, path, from, end, i) && end < Start(bound + 1, blockSize)
    requires HasRead(s', files, blockSize, path, from, Min(Start(i + 1, blockSize), |files[path]|))
    requires s'.finish ==> Start(i + 1, blockSize) > |files[path]|
    requires !s'.finish ==> s'.left == s.left || (s'.left == s.left - blockSize && s.left > 0)
    ensures var r := Loop(s', files[path], path, blockSize, from, bound, i + 1);
      && Longer(r.data, files[path], from, end)
      && (Whole(s.left, blockSize) ==> Truthful(r.cache, files, blockSize))
    decreases bound - i, 0
  {
    if Start(i + 1, blockSize) <= |files[path]| {
      if Whole(s.left, blockSize) && s.left > 0 {
        WholeBlocks(s.left, blockSize);
      }
      LongLoop(s', files, blockSize, path, from, end, bound, i + 1);
    } else {
      PlaceInside(i + 1, |files[path]|, blockSize);
      assert i + 1 > bound;
    }
  }

  // ------------------------------------------------------------------ until a hit

  /** The loop at place `i`, with every block so far missed and the bytes up to `end` to ask for. */
  ghost predicate ShortAt(s: LoopState, files: Files, blockSize: int, path: string, from: nat, end: nat, i: nat)
    requires blockSize > 0 && path in files
  {
    && HasRead(s, files, blockSize, path, from, Start(i, blockSize)) && !s.finish
    && i <= PlaceOf(end, blockSize) && Start(i, blockSize) <= end < |files[path]| && s.left == end - Start(i, blockSize)
  }

  /** With a miss at every place, the bytes asked for, and a truncated block unless they are whole
      blocks; after any hit, more. The slots stay true then if whole blocks were asked for or the
      loop goes no further than they. */
  ghost predicate ShortResult(allMiss: bool, files: Files, blockSize: int, path: string,
                              from: nat, end: nat, bound: nat, r: LoopState)
    requires blockSize > 0 && path in files
  {
    if allMiss then
      && from <= end <= |files[path]| && r.data == files[path][from..end]
      && (Truthful(r.cache, files, blockSize) <==> Whole(end, blockSize))
    else
      && Longer(r.data, files[path], from, end)
      && (bound == PlaceOf(end, blockSize) || Whole(end, blockSize) ==> Truthful(r.cache, files, blockSize))
  }

  lemma {:induction false} WholeStart(k: nat, blockSize: int)
    requires blockSize > 0
    ensures PlaceOf(Start(k, blockSize), blockSize) == k
  {
    if k == 0 {
    } else {
      WholeStart(k - 1, blockSize);
    }
  }

  lemma WholeLeft(end: nat, blockSize: int, i: nat)
    requires blockSize > 0 && i <= PlaceOf(end, blockSize) && Whole(end, blockSize)
    ensures Start(i, blockSize) <= end && Whole(end - Start(i, blockSize), blockSize)
  {
    var n := PlaceOf(end, blockSize);
    StartSum(i, n - i, blockSize);
    WholeStart(n - i, blockSize);
  }

  /** A hit, after misses only: from then on the loop has bytes to spare. */
  lemma ShortHit(s: LoopState, files: Files, blockSize: int, path: string, from: nat, end: nat, bound: nat, i: nat)
    requires blockSize > 0 && path in files && NulFree(files[path])
    requires ShortAt(s, files, blockSize, path, from, end, i) && Lookup(s.cache, path, i + 1).Some?
    requires PlaceOf(end, blockSize) <= bound <= |files[path]| / blockSize
    ensures !AllMiss(s.cache, files[path], path, blockSize, i, PlaceOf(end, blockSize))
    ensures ShortResult(false, files, blockSize, path, from, end, bound,
                        Loop(s, files[path], path, blockSize, from, bound, i))
  {
    TurnHit(s, files, path, blockSize, from, i);
    HitLonger(Turn(s, files[path], path, blockSize, from), files, blockSize, path, from, end, bound, i);
    if bound == PlaceOf(end, blockSize) {
      HitAligned(Turn(s, files[path], path, blockSize, from), files, blockSize, path, from, end, i);
    }
  }

  /** The state after such a hit. */
  ghost predicate AfterHit(s: LoopState, files: Files, blockSize: int, path: string, from: nat, end: nat, i: nat)
    requires blockSize > 0 && path in files
  {
    && HasRead(s, files, blockSize, path, from, Min(Start(i + 1, blockSize), |files[path]|)) && !s.finish
    && i <= PlaceOf(end, blockSize) && from <= Start(i, blockSize) <= end < |files[path]|
    && s.left == end - Start(i, blockSize)
  }

  lemma HitLonger(s: LoopState, files: Files, blockSize: int, path: string, from: nat, end: nat, bound: nat, i: nat)
    requires blockSize > 0 && path in files && NulFree(files[path]) && AfterHit(s, files, blockSize, path, from, end, i)
    requires PlaceOf(end, blockSize) <= bound <= |files[path]| / blockSize
    ensures var r := Loop(s, files[path], path, blockSize, from, bound, i + 1);
      && Longer(r.data, files[path], from, end)
      && (Whole(end, blockSize) ==> Truthful(r.cache, files, blockSize))
  {
    LastPlace(end, |files[path]|, blockSize);
    StartMonotone(PlaceOf(end, blockSize) + 1, bound + 1, blockSize);
    if Start(i + 1, blockSize) <= |files[path]| {
      if Whole(end, blockSize) {
        WholeLeft(end, blockSize, i);
      }
      LongLoop(s, files, blockSize, path, from, end, bound, i + 1);
    } else {
      PlaceInside(i + 1, |files[path]|, blockSize);
    }
  }

  lemma HitAligned(s: LoopState, files: Files, blockSize: int, path: string, from: nat, end: nat, i: nat)
    requires blockSize > 0 && path in files && NulFree(files[path]) && AfterHit(s, files, blockSize, path, from, end, i)
    ensures var r := Loop(s, files[path], path, blockSize, from, PlaceOf(end, blockSize), i + 1);
      Truthful(r.cache, files, blockSize)
  {
    LastPlace(end, |files[path]|, blockSize);
    if Start(i + 1, blockSize) <= |files[path]| {
      AlignedLoop(s, files, blockSize, path, from, PlaceOf(end, blockSize), i + 1);
    } else {
      PlaceInside(i + 1, |files[path]|, blockSize);
    }
  }

  /** A miss at a place before the last loads a whole block. */
  lemma ShortMiss(s: LoopState, files: Files, blockSize: int, path: string, from: nat, end: nat, i: nat)
    requires blockSize > 0 && path in files && NulFree(files[path]) && i < PlaceOf(end, blockSize)
    requires ShortAt(s, files, blockSize, path, from, end, i) && Lookup(s.cache, path, i + 1).None?
    ensures var s' := Turn(s, files[path], path, blockSize, from);
      && ShortAt(s', files, blockSize, path, from, end, i + 1)
      && AllMiss(s.cache, files[path], path, blockSize, i, PlaceOf(end, blockSize))
         == AllMiss(s'.cache, files[path], path, blockSize, i + 1, PlaceOf(end, blockSize))
  {
    LastPlace(end, |files[path]|, blockSize);
    StartMonotone(i + 1, PlaceOf(end, blockSize), blockSize);
    TurnMiss(s, files, path, blockSize, from, i);
  }

  /** A miss at the last place ends the loop. */
  lemma ShortEnds(s: LoopState, files: Files, blockSize: int, path: string, from: nat, end: nat, bound: nat, i: nat)
    requires blockSize > 0 && path in files && NulFree(files[path]) && i == PlaceOf(end, blockSize)
    requires ShortAt(s, files, blockSize, path, from, end, i) && Lookup(s.cache, path, i + 1).None?
    requires i <= bound
    ensures AllMiss(s.cache, files[path], path, blockSize, i, i)
    ensures ShortResult(true, files, blockSize, path, from, end, bound,
                        Loop(s, files[path], path, blockSize, from, bound, i))
  {
    LastPlace(end, |files[path]|, blockSize);
    WholeIs(end, blockSize);
    TurnCut(s, files, blockSize, path, from, i);
  }

  lemma {:induction false} ShortLoop(s: LoopState, files: Files, blockSize: int, path: string,
                                     from: nat, end: nat, bound: nat, i: nat)
    requires blockSize > 0 && path in files && NulFree(files[path])
    requires ShortAt(s, files, blockSize, path, from, end, i)
    requires PlaceOf(end, blockSize) <= bound <= |files[path]| / blockSize
    ensures ShortResult(AllMiss(s.cache, files[path], path, blockSize, i, PlaceOf(end, blockSize)),
                        files, blockSize, path, from, end, bound,
                        Loop(s, files[path], path, blockSize, from, bound, i))
    decreases PlaceOf(end, blockSize) - i
  {
    if Lookup(s.cache, path, i + 1).Some? {
      ShortHit(s, files, blockSize, path, from, end, bound, i);
    } else if i == PlaceOf(end, blockSize) {
      ShortEnds(s, files, blockSize, path, from, end, bound, i);
    } else {
      var s' := Turn(s, files[path], path, blockSize, from);
      ShortMiss(s, files, blockSize, path, from, end, i);
      ShortLoop(s', files, blockSize, path, from, end, bound, i + 1);
      assert Loop(s, files[path], path, blockSize, from, bound, i)
          == Loop(s', files[path], path, blockSize, from, bound, i + 1);
    }
  }

  // ------------------------------------------------------------------ reads from the start

  lemma TruthfulIsCounted(c: Cache, files: Files, blockSize: int)
    requires blockSize > 0 && Truthful(c, files, blockSize)
    ensures Counted(c)
  {
    forall i | 0 <= i < |c| ensures 0 <= c[i].counter && (c[i].counter == 0 <==> c[i].path.None?) {
      assert TrueSlot(c[i], files, blockSize);
    }
  }

  /** A read from the start that ends before the end of the file returns exactly what was asked
      for if and only if none of its blocks will be served from its slot; otherwise it returns
      more. It keeps the slots true unless none is served and the read ends inside a block. */
  lemma ShortReadExactly(c: Cache, files: Files, blockSize: int, path: string, size: nat)
    requires blockSize > 0 && Truthful(c, files, blockSize) && path in files && NulFree(files[path])
    requires size < |files[path]| && InRange(|files[path]|, blockSize, size, 0)
    ensures size / blockSize >= 0
    ensures var content := files[path]; var r := Read(c, content, path, blockSize, size, 0);
      var noneServed := NoneServed(c, path, 0, size / blockSize);
      && (r.data == Pread(content, size, 0) <==> noneServed)
      && (!noneServed ==> |r.data| > size && r.data <= content)
      && (Truthful(r.cache, files, blockSize) <==> !(noneServed && size % blockSize != 0))
  {
    BoundIs(|files[path]|, blockSize, size, 0);
    LastPlace(size, |files[path]|, blockSize);
    WholeIs(size, blockSize);
    PlaceOfIs(size, blockSize);
    ShortLoop(LoopState(c, size, [], false), files, blockSize, path, 0, size, size / blockSize, 0);
    MissesExactly(c, files, blockSize, path, 0, size / blockSize);
  }

  /** None of the blocks `from` to `to` of the file is in the cache. */
  predicate Absent(c: Cache, path: string, from: int, to: int) {
    forall j :: 0 <= j < |c| ==> !(c[j].path == Some(path) && from <= c[j].num <= to)
  }

  /** With no block of the file in the cache a short read is exact; with its first block there, it
      never is. */
  lemma ShortReadByFirstBlock(c: Cache, files: Files, blockSize: int, path: string, size: nat)
    requires blockSize > 0 && Truthful(c, files, blockSize) && path in files && NulFree(files[path])
    requires size < |files[path]| && InRange(|files[path]|, blockSize, size, 0)
    ensures var exact := Read(c, files[path], path, blockSize, size, 0).data == Pread(files[path], size, 0);
      && (Absent(c, path, 1, size / blockSize + 1) ==> exact)
      && (Lookup(c, path, 1).Some? ==> !exact)
  {
    ShortReadExactly(c, files, blockSize, path, size);
    PlaceOfByte(size, blockSize);
    LookupFinds(c, path, 1);
  }

  // ------------------------------------------------------------------ reads from a later block

  /** Where the loop's bound lets a read from `offset` stop, if it starts at all. */
  function Stop(length: nat, blockSize: int, offset: nat): nat
    requires blockSize > 0 && offset <= length
  {
    Min(Start(PlaceOf(length - offset, blockSize) + 1, blockSize), length)
  }

  /** The loop's bound counts blocks from `offset`, its turns from the start of the file: past the
      middle there is no turn at all. */
  predicate NoTurn(length: nat, blockSize: int, offset: nat)
    requires blockSize > 0 && offset <= length
  {
    PlaceOf(length - offset, blockSize) < PlaceOf(offset, blockSize)
  }

  /** When a read from a later block that ends before the end of the file is exact. */
  predicate LaterExact(c: Cache, path: string, length: nat, blockSize: int, size: nat, offset: nat)
    requires c != [] && blockSize > 0 && offset <= length
  {
    if NoTurn(length, blockSize, offset) then size == 0
    else
      var end := offset + size;
      end == Stop(length, blockSize, offset)
      || (end < Stop(length, blockSize, offset)
          && NoneServed(c, path, PlaceOf(offset, blockSize), PlaceOf(end, blockSize)))
  }

  /** The turns of such a read. */
  lemma LaterTurns(length: nat, blockSize: int, size: nat, q: nat)
    requires blockSize > 0 && q >= 1 && Start(q, blockSize) + size < length
    requires InRange(length, blockSize, size, Start(q, blockSize))
    ensures ToInt32(Start(q, blockSize) / blockSize) == q == PlaceOf(Start(q, blockSize), blockSize)
    ensures var bound := PlaceOf(length - Start(q, blockSize), blockSize);
      LoopBound(length, size, Start(q, blockSize), blockSize) == bound <= length / blockSize
  {
    BoundIs(length, blockSize, size, Start(q, blockSize));
    AlignedBound(length, blockSize, q);
    PlaceUnique(Start(q, blockSize), blockSize, q);
    Int32Exact(q);
    StartOrder(0, q, blockSize);
    PlaceOfIs(length - Start(q, blockSize), blockSize);
    PlaceOfIs(Start(q, blockSize), blockSize);
  }

  /** Asked for as much as the bound lets it read, or more: the read stops there. */
  lemma LaterStops(c: Cache, files: Files, blockSize: int, path: string, size: nat, q: nat, bound: nat)
    requires blockSize > 0 && Truthful(c, files, blockSize) && path in files && NulFree(files[path])
    requires q <= bound <= |files[path]| / blockSize
    requires Start(bound + 1, blockSize) <= Start(q, blockSize) + size < |files[path]|
    ensures var from := Start(q, blockSize);
      HasRead(Loop(LoopState(c, size, [], false), files[path], path, blockSize, from, bound, q),
              files, blockSize, path, from, Start(bound + 1, blockSize))
  {
    AlignedLoop(LoopState(c, size, [], false), files, blockSize, path, Start(q, blockSize), bound, q);
  }

  lemma EndPlace(end: nat, blockSize: int, q: nat, bound: nat)
    requires blockSize > 0 && Start(q, blockSize) <= end < Start(bound + 1, blockSize)
    ensures q <= PlaceOf(end, blockSize) <= bound
  {
    PlaceInside(q, end, blockSize);
    PlaceInside(bound + 1, end, blockSize);
    PlaceOfIs(end, blockSize);
  }

  /** Asked for less: as for a short read from the start. */
  lemma LaterEnds(c: Cache, files: Files, blockSize: int, path: string, size: nat, q: nat, bound: nat)
    requires blockSize > 0 && Truthful(c, files, blockSize) && path in files && NulFree(files[path])
    requires q <= bound <= |files[path]| / blockSize
    requires Start(q, blockSize) + size < Min(Start(bound + 1, blockSize), |files[path]|)
    ensures var from, end := Start(q, blockSize), Start(q, blockSize) + size;
      && q <= PlaceOf(end, blockSize) <= bound
      && ShortResult(NoneServed(c, path, q, PlaceOf(end, blockSize)), files, blockSize, path, from, end, bound,
                     Loop(LoopState(c, size, [], false), files[path], path, blockSize, from, bound, q))
  {
    var from, end := Start(q, blockSize), Start(q, blockSize) + size;
    EndPlace(end, blockSize, q, bound);
    MissesExactly(c, files, blockSize, path, q, PlaceOf(end, blockSize));
    var s := LoopState(c, size, [], false);
    assert ShortAt(s, files, blockSize, path, from, end, q);
    ShortLoop(s, files, blockSize, path, from, end, bound, q);
  }

  lemma MissesExactly(c: Cache, files: Files, blockSize: int, path: string, i: nat, last: nat)
    requires blockSize > 0 && Truthful(c, files, blockSize) && path in files
    ensures AllMiss(c, files[path], path, blockSize, i, last) == NoneServed(c, path, i, last)
  {
    TruthfulIsCounted(c, files, blockSize);
    AllMissExactly(c, files[path], path, blockSize, i, last);
  }

  /** What such a read comes to. */
  ghost predicate LaterResult(c: Cache, files: Files, blockSize: int, path: string, size: nat, offset: nat,
                              r: ReadResult)
    requires c != [] && blockSize > 0 && path in files && offset + size < |files[path]|
  {
    var content, end := files[path], offset + size;
    && (r.data == Pread(content, size, offset) <==> LaterExact(c, path, |content|, blockSize, size, offset))
    && (if NoTurn(|content|, blockSize, offset) then r == ReadResult(c, [])
        else if Stop(|content|, blockSize, offset) <= end then
          && Truthful(r.cache, files, blockSize) && offset <= Stop(|content|, blockSize, offset)
          && r.data == content[offset..Stop(|content|, blockSize, offset)]
        else
          && (Whole(end, blockSize) ==> Truthful(r.cache, files, blockSize))
          && (r.data == Pread(content, size, offset) ==>
                (Truthful(r.cache, files, blockSize) <==> Whole(end, blockSize)))
          && (r.data != Pread(content, size, offset) ==> Longer(r.data, content, offset, end)))
  }

  lemma LaterReadAt(c: Cache, files: Files, blockSize: int, path: string, size: nat, q: nat)
    requires blockSize > 0 && Truthful(c, files, blockSize) && path in files && NulFree(files[path])
    requires q >= 1 && Start(q, blockSize) + size < |files[path]|
    requires InRange(|files[path]|, blockSize, size, Start(q, blockSize))
    ensures LaterResult(c, files, blockSize, path, size, Start(q, blockSize),
                        Read(c, files[path], path, blockSize, size, Start(q, blockSize)))
  {
    var content, from, length := files[path], Start(q, blockSize), |files[path]|;
    var bound := PlaceOf(length - from, blockSize);
    LaterTurns(length, blockSize, size, q);
    assert Pread(content, size, from) == content[from..from + size];
    if bound < q {
    } else if Start(bound + 1, blockSize) <= from + size {
      LaterStops(c, files, blockSize, path, size, q, bound);
    } else {
      LaterEnds(c, files, blockSize, path, size, q, bound);
    }
  }

  /** A read from a later block that ends before the end of the file: past the middle it returns
      nothing; if the loop's bound stops it, a prefix of what was asked for; and otherwise what was
      asked for, if and only if none of its blocks will be served from its slot, or else more. */
  lemma LaterReadExactly(c: Cache, files: Files, blockSize: int, path: string, size: nat, offset: nat)
    requires blockSize > 0 && Truthful(c, files, blockSize) && path in files && NulFree(files[path])
    requires offset > 0 && offset % blockSize == 0 && offset + size < |files[path]|
    requires InRange(|files[path]|, blockSize, size, offset)
    ensures LaterResult(c, files, blockSize, path, size, offset,
                        Read(c, files[path], path, blockSize, size, offset))
  {
    PlaceOfByte(offset, blockSize);
    LaterReadAt(c, files, blockSize, path, size, offset / blockSize);
  }

  /** A truncated block at work: after a one-byte read of "ab", a read of the whole file returns
      "aa". */
  lemma TruncatedBlockIsServed()
    ensures var first := Read(InitCache(1), "ab", "f", 2, 1, 0);
      first.data == "a" && Read(first.cache, "ab", "f", 2, 100, 0).data == "aa"
  {
    FirstReadTruncates();
    WholeReadOfTruncated();
  }

  lemma FirstReadTruncates()
    ensures Read(InitCache(1), "ab", "f", 2, 1, 0) == ReadResult([Slot(Some("f"), "a", 1, 1)], "a")
  {
    var s := LoopState(InitCache(1), 1, [], false);
    var c1 := [Slot(Some("f"), "a", 1, 1)];
    CStringWhole("a");
    assert InitCache(1) == [Slot(None, [], 0, 0)] && Touch(InitCache(1), "f", 1, "a") == c1;
    assert LoopBound(2, 1, 0, 2) == 0;
    assert Pread("ab", 1, 0) == "a" && [] + "a" == "a";
    assert Turn(s, "ab", "f", 2, 0) == LoopState(c1, 0, "a", true);
  }

  lemma WholeReadOfTruncated()
    ensures Read([Slot(Some("f"), "a", 1, 1)], "ab", "f", 2, 100, 0).data == "aa"
  {
    assert LoopBound(2, 100, 0, 2) == 1;
    var c1, c2 := [Slot(Some("f"), "a", 1, 1)], [Slot(Some("f"), "a", 1, 2)];
    var s1 := LoopState(c1, 100, [], false);
    var s2 := LoopState(c2, 100, "a", false);
    assert Lookup(c1, "f", 1) == Some(0) && [] + "a" == "a";
    assert Turn(s1, "ab", "f", 2, 0) == s2;
    assert Lookup(c2, "f", 1) == Some(0) && "a" + "a" == "aa";
    assert Turn(s2, "ab", "f", 2, 0).data == "aa" && !Turn(s2, "ab", "f", 2, 0).finish;
    assert Loop(s2, "ab", "f", 2, 0, 1, 1).data == "aa";
  }
}
