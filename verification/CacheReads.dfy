/** When the cached read equals the direct read, exactly; and what it leaves in the cache. */
module CacheReads {
  import opened Collections
  import opened CacheModel

  // ------------------------------------------------------------------ where blocks begin

  lemma {:induction false} StartOrder(i: nat, j: nat, blockSize: int)
    requires blockSize > 0 && i < j
    ensures Start(i, blockSize) + blockSize <= Start(j, blockSize)
  {
    if i + 1 == j {
    } else {
      StartOrder(i, j - 1, blockSize);
    }
  }

  lemma {:induction false} StartSum(i: nat, j: nat, blockSize: int)
    requires blockSize > 0
    ensures Start(i + j, blockSize) == Start(i, blockSize) + Start(j, blockSize)
  {
    if j == 0 {
    } else {
      StartSum(i, j - 1, blockSize);
    }
  }

  /** The place of a byte, and where in its block it is. */
  lemma PlaceOfByte(x: nat, blockSize: int)
    requires blockSize > 0
    ensures x / blockSize >= 0 && x == Start(x / blockSize, blockSize) + x % blockSize
  {
    assert x == x / blockSize * blockSize + x % blockSize;
    StartIs(x / blockSize, blockSize);
  }

  lemma PlaceUnique(x: nat, blockSize: int, i: nat)
    requires blockSize > 0 && Start(i, blockSize) <= x < Start(i, blockSize) + blockSize
    ensures x / blockSize == i && x % blockSize == x - Start(i, blockSize)
  {
    PlaceOfByte(x, blockSize);
    if x / blockSize < i {
      StartOrder(x / blockSize, i, blockSize);
    } else if x / blockSize > i {
      StartOrder(i, x / blockSize, blockSize);
    }
  }

  lemma PlaceOfIs(x: nat, blockSize: int)
    requires blockSize > 0
    ensures PlaceOf(x, blockSize) == x / blockSize
  {
    PlaceOfBounds(x, blockSize);
    PlaceUnique(x, blockSize, PlaceOf(x, blockSize));
  }

  lemma {:induction false} PlaceOfBounds(x: nat, blockSize: int)
    requires blockSize > 0
    ensures var start := Start(PlaceOf(x, blockSize), blockSize); start <= x < start + blockSize
  {
    if x < blockSize {
    } else {
      PlaceOfBounds(x - blockSize, blockSize);
    }
  }

  /** A block starts inside the file, or at its end, just when its place is not past the last one. */
  lemma PlaceInside(i: nat, length: nat, blockSize: int)
    requires blockSize > 0
    ensures i <= length / blockSize <==> Start(i, blockSize) <= length
  {
    PlaceOfByte(length, blockSize);
    if length / blockSize < i {
      StartOrder(length / blockSize, i, blockSize);
    } else if i < length / blockSize {
      StartOrder(i, length / blockSize, blockSize);
    }
  }

  lemma DivMonotone(a: nat, b: nat, d: int)
    requires a <= b && d > 0
    ensures 0 <= a / d <= b / d
  {
    PlaceOfByte(a, d);
    PlaceInside(a / d, b, d);
  }

  // ------------------------------------------------------------------ one use of a block

  lemma HitIsTrue(c: Cache, files: Files, blockSize: int, path: string, place: nat)
    requires blockSize > 0 && Truthful(c, files, blockSize) && Lookup(c, path, place + 1).Some?
    ensures var k := Lookup(c, path, place + 1).value;
      && path in files && Start(place, blockSize) < |files[path]| && c[k].data == BlockOf(files[path], blockSize, place)
  {
    LookupFinds(c, path, place + 1);
    assert TrueSlot(c[Lookup(c, path, place + 1).value], files, blockSize);
  }

  /** Counting a hit, or loading a block's true contents over any slot, keeps the slots true. */
  lemma TouchTruthful(c: Cache, files: Files, blockSize: int, path: string, place: nat, data: Bytes)
    requires blockSize > 0 && Truthful(c, files, blockSize)
    requires Lookup(c, path, place + 1).None? ==>
      path in files && Start(place, blockSize) < |files[path]| && data == BlockOf(files[path], blockSize, place)
    ensures Truthful(Touch(c, path, place + 1, data), files, blockSize)
  {
    var c' := Touch(c, path, place + 1, data);
    LookupFinds(c, path, place + 1);
    forall i | 0 <= i < |c'| ensures TrueSlot(c'[i], files, blockSize) {
      assert TrueSlot(c[i], files, blockSize);
    }
  }

  /** Any use, of any bytes, loads a block only where no slot has it. */
  lemma TouchNoTwice(c: Cache, path: string, num: int, data: Bytes)
    requires c != [] && NoTwice(c)
    ensures NoTwice(Touch(c, path, num, data))
  {
    var c' := Touch(c, path, num, data);
    LookupFinds(c, path, num);
    forall i, j | 0 <= i < j < |c'| ensures !SameBlock(c'[i], c'[j]) {
      assert !SameBlock(c[i], c[j]);
      if Lookup(c, path, num).None? {
        assert !Holds(c[i], path, num) && !Holds(c[j], path, num);
      }
    }
  }

  lemma TurnNoTwice(s: LoopState, content: Bytes, path: string, blockSize: int, offset: nat)
    requires s.cache != [] && blockSize > 0 && NoTwice(s.cache)
    ensures NoTwice(Turn(s, content, path, blockSize, offset).cache)
  {
    var num := PlaceOf(offset + |s.data|, blockSize) + 1;
    var chunk := Pread(content, Min(s.left, blockSize), offset + |s.data|);
    TouchNoTwice(s.cache, path, num, CString(chunk));
    assert Turn(s, content, path, blockSize, offset).cache
        in {s.cache, Touch(s.cache, path, num, CString(chunk))};
  }

  lemma {:induction false} LoopNoTwice(s: LoopState, content: Bytes, path: string, blockSize: int, offset: nat,
                                       bound: int, i: int)
    requires s.cache != [] && blockSize > 0 && NoTwice(s.cache)
    ensures NoTwice(Loop(s, content, path, blockSize, offset, bound, i).cache)
    decreases bound - i
  {
    if s.finish || i > bound {
    } else {
      TurnNoTwice(s, content, path, blockSize, offset);
      LoopNoTwice(Turn(s, content, path, blockSize, offset), content, path, blockSize, offset, bound, i + 1);
    }
  }

  /** Whatever is read, no block gets into two slots. */
  lemma ReadNoTwice(c: Cache, content: Bytes, path: string, blockSize: int, size: nat, offset: nat)
    requires c != [] && blockSize > 0 && NoTwice(c)
    ensures NoTwice(Read(c, content, path, blockSize, size, offset).cache)
  {
    LoopNoTwice(LoopState(c, size, [], false), content, path, blockSize, offset,
                LoopBound(|content|, size, offset, blockSize), ToInt32(offset / blockSize));
  }

  // ------------------------------------------------------------------ aligned reads up to the end

  /** Where an aligned read stops that is never short of bytes to ask for: at the end of the last
      block its loop bound admits, or at the end of the file. */
  function StopAt(i: nat, bound: nat, length: nat, blockSize: int): nat
    requires blockSize > 0
  {
    if bound < i then Start(i, blockSize) else Min(Start(bound + 1, blockSize), length)
  }

  /** The loop is at place `i` with everything from byte `from` on collected, its slots true, and
      may still ask for all that its bound lets it read. */
  ghost predicate AtPlace(s: LoopState, files: Files, blockSize: int, path: string, from: nat, bound: nat, i: nat)
    requires blockSize > 0 && path in files
  {
    var content, here := files[path], Start(i, blockSize);
    && Truthful(s.cache, files, blockSize) && !s.finish
    && from <= here <= |content| && s.data == content[from..here]
    && bound <= |content| / blockSize && s.left >= Min(Start(bound + 1, blockSize), |content|) - here
  }

  /** The loop has collected everything from byte `from` to byte `stop`, its slots true. */
  ghost predicate HasRead(s: LoopState, files: Files, blockSize: int, path: string, from: nat, stop: nat)
    requires blockSize > 0 && path in files
  {
    Truthful(s.cache, files, blockSize) && from <= stop <= |files[path]| && s.data == files[path][from..stop]
  }

  lemma StopAtStep(i: nat, bound: nat, length: nat, blockSize: int)
    requires blockSize > 0 && i <= bound && Start(i, blockSize) <= length
    ensures Start(i + 1, blockSize) <= length ==>
      StopAt(i + 1, bound, length, blockSize) == StopAt(i, bound, length, blockSize)
    ensures Start(i + 1, blockSize) > length || Start(i, blockSize) == length ==>
      StopAt(i, bound, length, blockSize) == length
  {
    StartOrder(i, bound + 1, blockSize);
  }

  /** The next block, as bytes of the file after those from `a`. */
  lemma BlockAt(content: Bytes, blockSize: int, a: nat, i: nat)
    requires blockSize > 0 && a <= Start(i, blockSize) <= |content|
    ensures var s := Start(i, blockSize); var end := Min(s + blockSize, |content|);
      && BlockOf(content, blockSize, i) == content[s..end]
      && content[a..s] + content[s..end] == content[a..end]
      && PlaceOf(a + |content[a..s]|, blockSize) == i
  {
    PlaceUnique(Start(i, blockSize), blockSize, i);
    PlaceOfIs(Start(i, blockSize), blockSize);
  }

  /** A turn that hits collects a true block and asks for nothing. */
  lemma TurnHit(s: LoopState, files: Files, path: string, blockSize: int, from: nat, i: nat)
    requires blockSize > 0 && path in files && !s.finish
    requires HasRead(s, files, blockSize, path, from, Start(i, blockSize))
    requires Lookup(s.cache, path, i + 1).Some?
    ensures var s' := Turn(s, files[path], path, blockSize, from);
      && s'.left == s.left && !s'.finish && Start(i, blockSize) < |files[path]|
      && HasRead(s', files, blockSize, path, from, Min(Start(i + 1, blockSize), |files[path]|))
  {
    var k := Lookup(s.cache, path, i + 1).value;
    HitIsTrue(s.cache, files, blockSize, path, i);
    TouchTruthful(s.cache, files, blockSize, path, i, []);
    BlockAt(files[path], blockSize, from, i);
    HitTurn(s, files[path], path, blockSize, from, i);
    HitData(files[path], blockSize, from, i, s.data, s.cache[k].data);
  }

  lemma HitTurn(s: LoopState, content: Bytes, path: string, blockSize: int, offset: nat, i: nat)
    requires s.cache != [] && blockSize > 0 && PlaceOf(offset + |s.data|, blockSize) == i
    requires Lookup(s.cache, path, i + 1).Some?
    ensures var k := Lookup(s.cache, path, i + 1).value;
      Turn(s, content, path, blockSize, offset) == LoopState(Bump(s.cache, k), s.left, s.data + s.cache[k].data, false)
  {
  }

  lemma HitData(content: Bytes, blockSize: int, from: nat, i: nat, data: Bytes, block: Bytes)
    requires blockSize > 0 && from <= Start(i, blockSize) <= |content|
    requires data == content[from..Start(i, blockSize)] && block == BlockOf(content, blockSize, i)
    ensures data + block == content[from..Min(Start(i + 1, blockSize), |content|)]
  {
    BlockAt(content, blockSize, from, i);
  }

  /** A miss asks for enough bytes to get the whole block, or what there is of it. */
  lemma MissIsTrue(content: Bytes, blockSize: int, i: nat, left: nat)
    requires blockSize > 0 && Start(i, blockSize) <= |content| && NulFree(content)
    requires left >= Min(blockSize, |content| - Start(i, blockSize))
    ensures var chunk := Pread(content, Min(left, blockSize), Start(i, blockSize));
      && CString(chunk) == chunk == BlockOf(content, blockSize, i)
      && |chunk| == Min(blockSize, |content| - Start(i, blockSize))
  {
    CStringWhole(Pread(content, Min(left, blockSize), Start(i, blockSize)));
  }

  /** So does a turn that misses, if it may ask for enough; on the last block it finishes. */
  lemma TurnMiss(s: LoopState, files: Files, path: string, blockSize: int, from: nat, i: nat)
    requires blockSize > 0 && path in files && !s.finish
    requires HasRead(s, files, blockSize, path, from, Start(i, blockSize))
    requires NulFree(files[path]) && Lookup(s.cache, path, i + 1).None?
    requires s.left >= Min(blockSize, |files[path]| - Start(i, blockSize))
    ensures var s' := Turn(s, files[path], path, blockSize, from);
      && (s'.finish <==> Start(i + 1, blockSize) > |files[path]|) && (!s'.finish ==> s'.left == s.left - blockSize)
      && (Start(i, blockSize) < |files[path]| ==>
            s'.cache == Touch(s.cache, path, i + 1, BlockOf(files[path], blockSize, i)))
      && HasRead(s', files, blockSize, path, from, Min(Start(i + 1, blockSize), |files[path]|))
  {
    var content := files[path];
    BlockAt(content, blockSize, from, i);
    MissIsTrue(content, blockSize, i, s.left);
    if Start(i, blockSize) < |content| {
      TouchTruthful(s.cache, files, blockSize, path, i, BlockOf(content, blockSize, i));
    }
  }

  lemma TurnAdvances(s: LoopState, files: Files, path: string, blockSize: int, from: nat, bound: nat, i: nat)
    requires blockSize > 0 && path in files && NulFree(files[path])
    requires AtPlace(s, files, blockSize, path, from, bound, i) && i <= bound
    ensures var s' := Turn(s, files[path], path, blockSize, from);
      if Start(i + 1, blockSize) <= |files[path]| then AtPlace(s', files, blockSize, path, from, bound, i + 1)
      else HasRead(s', files, blockSize, path, from, |files[path]|) && (s'.finish || i == bound)
  {
    StartOrder(i, bound + 1, blockSize);
    PlaceInside(i + 1, |files[path]|, blockSize);
    if Lookup(s.cache, path, i + 1).Some? {
      TurnHit(s, files, path, blockSize, from, i);
    } else {
      TurnMiss(s, files, path, blockSize, from, i);
    }
  }

  /** The read loop on true slots, with enough bytes left: it collects true contents up to
      where it stops and keeps the slots true, whatever it hits, misses or evicts on the way. */
  lemma {:induction false} AlignedLoop(s: LoopState, files: Files, blockSize: int, path: string,
                                       from: nat, bound: nat, i: nat)
    requires blockSize > 0 && path in files && NulFree(files[path])
    requires AtPlace(s, files, blockSize, path, from, bound, i)
    ensures HasRead(Loop(s, files[path], path, blockSize, from, bound, i), files, blockSize, path,
                    from, StopAt(i, bound, |files[path]|, blockSize))
    decreases bound - i
  {
    if i > bound {
    } else {
      StopAtStep(i, bound, |files[path]|, blockSize);
      TurnAdvances(s, files, path, blockSize, from, bound, i);
      if Start(i + 1, blockSize) <= |files[path]| {
        AlignedLoop(Turn(s, files[path], path, blockSize, from), files, blockSize, path, from, bound, i + 1);
      }
    }
  }

  // ------------------------------------------------------------------ the bound

  /** The ranges in which the code's 32-bit casts are exact, those of block numbers included. */
  predicate InRange(length: nat, blockSize: int, size: nat, offset: nat)
    requires blockSize > 0
  {
    && offset + size < 0x1_0000_0000 && length < 0x1_0000_0000_0000_0000
    && length / blockSize + 1 < 0x8000_0000 && offset / blockSize + 1 < 0x8000_0000
  }

  lemma Int32Exact(x: int)
    requires 0 <= x < 0x8000_0000
    ensures ToInt32(x) == x
  {
  }

  /** What the misparsed condition comes to. */
  lemma LimitIs(length: nat, size: nat, offset: nat)
    requires offset + size < 0x1_0000_0000 && offset <= length < 0x1_0000_0000_0000_0000
    ensures Limit(length, size, offset) ==
      if offset > 0 then length - offset else if size >= length then length else size
  {
  }

  /** For sizes of any width: after a positive offset the limit is the rest of the file (as an unsigned
      64-bit number if the offset is past the end); from the start it is the file's length just when the
      low 32 bits of the size are above that. */
  lemma LimitAnySize(length: nat, size: nat, offset: nat)
    requires length < 0x1_0000_0000_0000_0000 && offset < 0x1_0000_0000_0000_0000
    ensures offset > 0 ==>
      Limit(length, size, offset) == length - offset + (if offset <= length then 0 else 0x1_0000_0000_0000_0000)
    ensures offset == 0 ==> Limit(length, size, 0) == if size % 0x1_0000_0000 > length then length else size
  {
  }

  lemma BoundIs(length: nat, blockSize: int, size: nat, offset: nat)
    requires blockSize > 0 && InRange(length, blockSize, size, offset) && offset <= length
    ensures LoopBound(length, size, offset, blockSize) ==
      if offset > 0 then (length - offset) / blockSize
      else if size >= length then length / blockSize
      else size / blockSize
  {
    var limit := Limit(length, size, offset);
    LimitIs(length, size, offset);
    DivMonotone(limit, length, blockSize);
    Int32Exact(limit / blockSize);
  }

  // ------------------------------------------------------------------ aligned reads

  lemma AlignedBound(length: nat, blockSize: int, q: nat)
    requires blockSize > 0 && Start(q, blockSize) <= length
    ensures q <= length / blockSize && (length - Start(q, blockSize)) / blockSize == length / blockSize - q
  {
    PlaceInside(q, length, blockSize);
    PlaceOfByte(length, blockSize);
    StartSum(q, length / blockSize - q, blockSize);
    PlaceUnique(length - Start(q, blockSize), blockSize, length / blockSize - q);
  }

  /** The first and the last turn of an aligned read up to the end of the file. */
  lemma AlignedTurns(length: nat, blockSize: int, size: nat, q: nat)
    requires blockSize > 0 && Start(q, blockSize) <= length <= Start(q, blockSize) + size
    requires InRange(length, blockSize, size, Start(q, blockSize))
    ensures ToInt32(Start(q, blockSize) / blockSize) == q <= length / blockSize
    ensures LoopBound(length, size, Start(q, blockSize), blockSize) == length / blockSize - q
  {
    BoundIs(length, blockSize, size, Start(q, blockSize));
    AlignedBound(length, blockSize, q);
    PlaceUnique(Start(q, blockSize), blockSize, q);
    Int32Exact(q);
  }

  /** From an aligned offset inside the file, asking for everything to the end: the cached read
      returns the file's bytes from there to a stopping place that depends on sizes only. */
  lemma AlignedRead(c: Cache, files: Files, blockSize: int, path: string, size: nat, q: nat)
    requires blockSize > 0 && Truthful(c, files, blockSize) && path in files && NulFree(files[path])
    requires Start(q, blockSize) <= |files[path]| <= Start(q, blockSize) + size
    requires InRange(|files[path]|, blockSize, size, Start(q, blockSize))
    ensures q <= |files[path]| / blockSize
    ensures var r := Read(c, files[path], path, blockSize, size, Start(q, blockSize));
      var from, stop := Start(q, blockSize), StopAt(q, |files[path]| / blockSize - q, |files[path]|, blockSize);
      Truthful(r.cache, files, blockSize) && from <= stop <= |files[path]| && r.data == files[path][from..stop]
  {
    AlignedTurns(|files[path]|, blockSize, size, q);
    var bound := |files[path]| / blockSize - q;
    AlignedLoop(LoopState(c, size, [], false), files, blockSize, path, Start(q, blockSize), bound, q);
  }

  /** The whole file in one read, from the start: exactly its bytes, and the slots stay true. */
  lemma WholeFileRead(c: Cache, files: Files, blockSize: int, path: string, size: nat)
    requires blockSize > 0 && Truthful(c, files, blockSize) && path in files && NulFree(files[path])
    requires |files[path]| <= size && InRange(|files[path]|, blockSize, size, 0)
    ensures var r := Read(c, files[path], path, blockSize, size, 0);
      r.data == files[path] == Pread(files[path], size, 0) && Truthful(r.cache, files, blockSize)
  {
    AlignedRead(c, files, blockSize, path, size, 0);
    PlaceOfByte(|files[path]|, blockSize);
  }

  /** All that the slots hold went through `strcpy`. */
  ghost predicate NulFreeSlots(c: Cache) {
    forall i :: 0 <= i < |c| ==> NulFree(c[i].data)
  }

  lemma TurnNulFree(s: LoopState, content: Bytes, path: string, blockSize: int, offset: nat)
    requires s.cache != [] && blockSize > 0 && NulFreeSlots(s.cache) && NulFree(s.data)
    ensures var s' := Turn(s, content, path, blockSize, offset); NulFreeSlots(s'.cache) && NulFree(s'.data)
  {
    CStringWhole(Pread(content, Min(s.left, blockSize), offset + |s.data|));
  }

  lemma {:induction false} LoopNulFree(s: LoopState, content: Bytes, path: string, blockSize: int, offset: nat,
                                       bound: int, i: int)
    requires s.cache != [] && blockSize > 0 && NulFreeSlots(s.cache) && NulFree(s.data)
    ensures var r := Loop(s, content, path, blockSize, offset, bound, i); NulFreeSlots(r.cache) && NulFree(r.data)
    decreases bound - i
  {
    if s.finish || i > bound {
    } else {
      TurnNulFree(s, content, path, blockSize, offset);
      LoopNulFree(Turn(s, content, path, blockSize, offset), content, path, blockSize, offset, bound, i + 1);
    }
  }

  /** Whatever is read, no NUL comes out, and none gets into a slot. */
  lemma ReadNulFree(c: Cache, content: Bytes, path: string, blockSize: int, size: nat, offset: nat)
    requires c != [] && blockSize > 0 && NulFreeSlots(c)
    ensures var r := Read(c, content, path, blockSize, size, offset); NulFreeSlots(r.cache) && NulFree(r.data)
  {
    LoopNulFree(LoopState(c, size, [], false), content, path, blockSize, offset,
                LoopBound(|content|, size, offset, blockSize), ToInt32(offset / blockSize));
  }

  /** So a read of the whole file returns the file if and only if the file has no NUL in it. */
  lemma WholeFileReadExactly(c: Cache, files: Files, blockSize: int, path: string, size: nat)
    requires blockSize > 0 && Truthful(c, files, blockSize) && NulFreeSlots(c) && path in files
    requires |files[path]| <= size && InRange(|files[path]|, blockSize, size, 0)
    ensures Read(c, files[path], path, blockSize, size, 0).data == files[path] <==> NulFree(files[path])
  {
    ReadNulFree(c, files[path], path, blockSize, size, 0);
    if NulFree(files[path]) {
      WholeFileRead(c, files, blockSize, path, size);
    }
  }

  /** One turn, for any bytes and offset. A hit adds what the slot has and counts its use. A miss asks the
      disk for a block, or for what is left to ask; what it gets counts as asked for, what is before its
      first NUL is kept, and the loop ends if it got less than a block. */
  lemma TurnEffect(s: LoopState, content: Bytes, path: string, blockSize: int, offset: nat) returns (kept: nat)
    requires s.cache != [] && blockSize > 0 && !s.finish
    ensures var s', adv := Turn(s, content, path, blockSize, offset), offset + |s.data|;
      match Lookup(s.cache, path, adv / blockSize + 1)
      case Some(k) =>
        s' == LoopState(s.cache[k := s.cache[k].(counter := s.cache[k].counter + 1)], s.left,
                        s.data + s.cache[k].data, false)
      case None =>
        var got := if adv >= |content| then 0 else Min(Min(s.left, blockSize), |content| - adv);
        && kept <= got && s'.left == s.left - got && (s'.finish <==> got < blockSize)
        && if got == 0 then s'.cache == s.cache && s'.data == s.data
           else
             var bytes := content[adv..adv + kept];
             && NulFree(bytes) && (kept < got ==> content[adv + kept] == NUL)
             && s'.data == s.data + bytes
             && s'.cache == s.cache[Victim(s.cache) := Slot(Some(path), bytes, adv / blockSize + 1, 1)]
  {
    var adv := offset + |s.data|;
    var chunk := Pread(content, Min(s.left, blockSize), adv);
    kept := |CString(chunk)|;
    PlaceOfIs(adv, blockSize);
    KeptBytes(content, Min(s.left, blockSize), adv);
  }

  /** What is kept of a disk read. */
  lemma KeptBytes(content: Bytes, n: nat, adv: nat)
    ensures var chunk := Pread(content, n, adv); var kept := CString(chunk);
      && |chunk| == (if adv >= |content| then 0 else Min(n, |content| - adv)) && |kept| <= |chunk|
      && (chunk != [] ==>
            && kept == content[adv..adv + |kept|] && NulFree(kept)
            && (|kept| < |chunk| ==> content[adv + |kept|] == NUL))
  {
    var chunk := Pread(content, n, adv);
    CStringIsPrefix(chunk);
    if chunk != [] {
      assert chunk == content[adv..adv + |chunk|];
    }
  }

  /** With a NUL in it, a file shorter than a block, not cached yet, is read up to the NUL: what comes out, and
      goes into the slot, is all of it before its first NUL. */
  lemma SmallFileUpToNul(c: Cache, content: Bytes, path: string, blockSize: int, size: nat)
    requires c != [] && blockSize > 0 && |content| < blockSize && |content| <= size
    requires InRange(|content|, blockSize, size, 0) && Lookup(c, path, 1).None?
    ensures var r := Read(c, content, path, blockSize, size, 0);
      && r.data <= content && NulFree(r.data) && (|r.data| < |content| ==> content[|r.data|] == NUL)
      && r.cache == if content == [] then c else c[Victim(c) := Slot(Some(path), r.data, 1, 1)]
  {
    BoundIs(|content|, blockSize, size, 0);
    PlaceUnique(|content|, blockSize, 0);
    PlaceUnique(0, blockSize, 0);
    CStringIsPrefix(content);
    var s := LoopState(c, size, [], false);
    assert Pread(content, Min(size, blockSize), 0) == content;
    assert [] + CString(content) == CString(content);
    var s' := Turn(s, content, path, blockSize, 0);
    assert s'.finish && s'.data == (if content == [] then [] else CString(content));
  }

  /** A NUL inside a whole block is worse than a cut: the next turn comes to the same block again. A read of
      the two bytes 'a' and NUL, with blocks of two, returns "aa". */
  lemma NulRepeatsBlock()
    ensures Read(InitCache(1), ['a', NUL], "f", 2, 100, 0).data == "aa"
  {
    var content := ['a', NUL];
    var c1 := [Slot(Some("f"), "a", 1, 1)];
    var s0, s1 := LoopState(InitCache(1), 100, [], false), LoopState(c1, 98, "a", false);
    assert LoopBound(2, 100, 0, 2) == 1;
    assert InitCache(1) == [Slot(None, [], 0, 0)];
    assert NulFrom(content, 0) == 1 && content[..1] == "a";
    assert Pread(content, 2, 0) == content && [] + "a" == "a";
    assert Turn(s0, content, "f", 2, 0) == s1;
    assert Lookup(c1, "f", 1) == Some(0) && "a" + "a" == "aa";
    assert Turn(s1, content, "f", 2, 0).data == "aa" && !Turn(s1, content, "f", 2, 0).finish;
    assert Loop(s1, content, "f", 2, 0, 1, 1).data == "aa";
  }

  /** A read that does not start at a block asks the disk for a block's length from where it starts, and stores
      that under the number of the block it starts in: from byte 1 of "abcd", with blocks of two, it returns
      "bcd" as it should, and "bc" is in the slot of the first block, whose bytes are "ab". */
  lemma UnalignedMislabels()
    ensures Read(InitCache(2), "abcd", "f", 2, 100, 1)
         == ReadResult([Slot(Some("f"), "bc", 1, 1), Slot(Some("f"), "d", 2, 1)], "bcd")
  {
    var c0, c1, c2 := [Slot(None, [], 0, 0), Slot(None, [], 0, 0)],
                      [Slot(Some("f"), "bc", 1, 1), Slot(None, [], 0, 0)],
                      [Slot(Some("f"), "bc", 1, 1), Slot(Some("f"), "d", 2, 1)];
    var s0, s1 := LoopState(c0, 100, [], false), LoopState(c1, 98, "bc", false);
    CStringWhole("bc");
    CStringWhole("d");
    assert LoopBound(4, 100, 1, 2) == 1 && ToInt32(1 / 2) == 0 && InitCache(2) == c0;
    assert Pread("abcd", 2, 1) == "bc" && Touch(c0, "f", 1, "bc") == c1 && [] + "bc" == "bc";
    assert Turn(s0, "abcd", "f", 2, 1) == s1;
    assert Pread("abcd", 2, 3) == "d" && Touch(c1, "f", 2, "d") == c2 && "bc" + "d" == "bcd";
    assert Turn(s1, "abcd", "f", 2, 1) == LoopState(c2, 97, "bcd", true);
    assert Loop(s1, "abcd", "f", 2, 1, 1, 1) == LoopState(c2, 97, "bcd", true);
  }

  /** Where an aligned read that starts inside the file, past its beginning, stops. */
  lemma LaterStop(length: nat, blockSize: int, q: nat)
    requires blockSize > 0 && 1 <= q <= length / blockSize && Start(q, blockSize) < length
    ensures StopAt(q, length / blockSize - q, length, blockSize) == length <==> q == 1 && length % blockSize == 0
  {
    var n := length / blockSize;
    PlaceOfByte(length, blockSize);
    if q > 1 {
      StartOrder(n - q + 1, n, blockSize);
    }
  }

  lemma PartOfTail(s: Bytes, a: nat, b: nat)
    requires a <= b <= |s|
    ensures s[a..b] <= s[a..|s|]
    ensures s[a..b] == s[a..|s|] <==> b == |s|
  {
    assert s[a..b] == s[a..|s|][..b - a];
    assert |s[a..b]| == b - a;
  }

  /** From a later block of the file: exact just from block two of a file of whole blocks. */
  lemma LaterRead(c: Cache, files: Files, blockSize: int, path: string, size: nat, q: nat)
    requires blockSize > 0 && Truthful(c, files, blockSize) && path in files && NulFree(files[path])
    requires q >= 1 && Start(q, blockSize) < |files[path]| <= Start(q, blockSize) + size
    requires InRange(|files[path]|, blockSize, size, Start(q, blockSize))
    ensures var content := files[path]; var r := Read(c, content, path, blockSize, size, Start(q, blockSize));
      && (r.data == Pread(content, size, Start(q, blockSize)) <==> q == 1 && |content| % blockSize == 0)
      && r.data <= Pread(content, size, Start(q, blockSize)) && Truthful(r.cache, files, blockSize)
  {
    var content := files[path];
    AlignedRead(c, files, blockSize, path, size, q);
    LaterStop(|content|, blockSize, q);
    PartOfTail(content, Start(q, blockSize), StopAt(q, |content| / blockSize - q, |content|, blockSize));
  }

  /** An aligned read past the end of the file finds nothing and changes nothing. */
  lemma ReadPastEnd(c: Cache, files: Files, blockSize: int, path: string, size: nat, q: nat)
    requires blockSize > 0 && Truthful(c, files, blockSize) && path in files && |files[path]| <= Start(q, blockSize)
    requires InRange(|files[path]|, blockSize, size, Start(q, blockSize))
    ensures Read(c, files[path], path, blockSize, size, Start(q, blockSize)) == ReadResult(c, [])
  {
    PlaceUnique(Start(q, blockSize), blockSize, q);
    PlaceOfIs(Start(q, blockSize), blockSize);
    if Lookup(c, path, q + 1).Some? {
      HitIsTrue(c, files, blockSize, path, q);
    }
    LoopPastEnd(LoopState(c, size, [], false), files[path], path, blockSize, Start(q, blockSize),
                LoopBound(|files[path]|, size, Start(q, blockSize), blockSize), ToInt32(q));
  }

  lemma LoopPastEnd(s: LoopState, content: Bytes, path: string, blockSize: int, offset: nat, bound: int, i: int)
    requires s.cache != [] && blockSize > 0 && |content| <= offset && s.data == []
    requires Lookup(s.cache, path, PlaceOf(offset, blockSize) + 1).None?
    ensures var r := Loop(s, content, path, blockSize, offset, bound, i); r.cache == s.cache && r.data == []
  {
    var s' := Turn(s, content, path, blockSize, offset);
    assert s' == s.(finish := true);
    assert Loop(s', content, path, blockSize, offset, bound, i + 1) == s';
  }

  /** Aligned reads that ask for everything up to the end of the file: the cached read equals the
      direct read exactly when it starts at the beginning, or at or past the end, or one block
      into a file of whole blocks. In every case it returns a prefix of what the direct read
      returns, and the slots stay true. */
  lemma AlignedReadExactly(c: Cache, files: Files, blockSize: int, path: string, size: nat, offset: nat)
    requires blockSize > 0 && Truthful(c, files, blockSize) && path in files && NulFree(files[path])
    requires offset % blockSize == 0 && |files[path]| <= offset + size
    requires InRange(|files[path]|, blockSize, size, offset)
    ensures var content := files[path]; var r := Read(c, content, path, blockSize, size, offset);
      && (r.data == Pread(content, size, offset) <==>
          offset == 0 || offset >= |content| || (offset == blockSize && |content| % blockSize == 0))
      && r.data <= Pread(content, size, offset) && Truthful(r.cache, files, blockSize)
  {
    var q := offset / blockSize;
    PlaceOfByte(offset, blockSize);
    if offset == 0 {
      WholeFileRead(c, files, blockSize, path, size);
    } else if offset >= |files[path]| {
      ReadPastEnd(c, files, blockSize, path, size, q);
    } else {
      LaterRead(c, files, blockSize, path, size, q);
      if q > 1 {
        StartOrder(1, q, blockSize);
      }
    }
  }
}
