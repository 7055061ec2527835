/** The caching file system itself: slots are objects that setters change in place, and each method
    is proved against the functions of CacheModel. */
module CachingFileSystem {
  import opened Collections
  import opened CacheModel
  import opened CacheReads

  const FAIL := -1

  /** One slot. `strcpy` into the data buffer stops at the first NUL. */
  class CacheBlock {
    var path: Option<string>
    var data: Bytes
    var blockEnumerator: int
    var counter: int

    constructor ()
      ensures View() == Slot(None, [], 0, 0)
    {
      path, data, blockEnumerator, counter := None, [], 0, 0;
    }

    ghost function View(): Slot
      reads this
    {
      Slot(path, data, blockEnumerator, counter)
    }

    method SetCounter(counter: int)
      modifies this
      ensures View() == old(View()).(counter := counter)
    {
      this.counter := counter;
    }

    method IncreaseCount()
      modifies this
      ensures View() == old(View()).(counter := old(counter) + 1)
    {
      counter := counter + 1;
    }

    method SetData(buff: Bytes)
      modifies this
      ensures View() == old(View()).(data := CString(buff))
    {
      data := CString(buff);
    }

    method SetPath(path: string)
      modifies this
      ensures View() == old(View()).(path := Some(path))
    {
      this.path := Some(path);
    }

    method SetBlockEnumerator(blockEnumerator: int)
      modifies this
      ensures View() == old(View()).(num := blockEnumerator)
    {
      this.blockEnumerator := blockEnumerator;
    }
  }

  ghost function Views(blocks: seq<CacheBlock>): (c: Cache)
    reads blocks
    ensures |c| == |blocks|
  {
    if blocks == [] then [] else Views(blocks[..|blocks| - 1]) + [blocks[|blocks| - 1].View()]
  }

  lemma {:induction false} ViewsAt(blocks: seq<CacheBlock>)
    ensures forall i :: 0 <= i < |blocks| ==> Views(blocks)[i] == blocks[i].View()
  {
    if blocks == [] {
    } else {
      ViewsAt(blocks[..|blocks| - 1]);
    }
  }

  twostate lemma {:induction false} OldViews(blocks: seq<CacheBlock>)
    requires forall i :: 0 <= i < |blocks| ==> old(allocated(blocks[i]))
    ensures forall i :: 0 <= i < |blocks| ==> old(Views(blocks)[i]) == old(blocks[i].View())
  {
    if blocks != [] {
      OldViews(blocks[..|blocks| - 1]);
    }
  }

  predicate Apart(blocks: seq<CacheBlock>, i: nat, j: nat)
    requires i < |blocks| && j < |blocks|
  {
    blocks[i] != blocks[j]
  }

  /** What one block, from its slot or from the disk, does to the slots `c`. */
  ghost predicate Fetched(c: Cache, content: Bytes, path: string, blockSize: int, num: int, left: nat, advOffset: nat,
                          res: Option<nat>, block: Bytes, c': Cache)
    requires c != [] && blockSize > 0
  {
    match Lookup(c, path, num)
    case Some(k) => res == None && c' == Bump(c, k) && block == c[k].data
    case None =>
      var chunk := Pread(content, Min(left, blockSize), advOffset);
      && res == Some(|chunk|) && block == CString(chunk)
      && c' == if chunk == [] then c else Touch(c, path, num, CString(chunk))
  }

  lemma FetchIsTurn(s: LoopState, content: Bytes, path: string, blockSize: int, offset: nat,
                    res: Option<nat>, block: Bytes, s': LoopState)
    requires s.cache != [] && blockSize > 0
    requires Fetched(s.cache, content, path, blockSize, PlaceOf(offset + |s.data|, blockSize) + 1, s.left,
                     offset + |s.data|, res, block, s'.cache)
    requires s'.left == (if res.Some? then s.left - res.value else s.left) && s'.data == s.data + block
    requires s'.finish == (res.Some? && res.value < blockSize)
    ensures Turn(s, content, path, blockSize, offset) == s'
  {
  }

  /** `Loop(...) == end`, behind a recursion of unknown depth, so that the proof of the read loop
      does not unfold the turns still to come. */
  ghost predicate EndsIn(s: LoopState, content: Bytes, path: string, blockSize: int, offset: nat, last: int, i: int,
                         end: LoopState, depth: nat)
    requires s.cache != [] && blockSize > 0
  {
    if depth == 0 then Loop(s, content, path, blockSize, offset, last, i) == end
    else EndsIn(s, content, path, blockSize, offset, last, i, end, depth - 1)
  }

  lemma {:induction false} EndsInIs(s: LoopState, content: Bytes, path: string, blockSize: int, offset: nat, last: int,
                                    i: int, end: LoopState, depth: nat)
    requires s.cache != [] && blockSize > 0
    ensures EndsIn(s, content, path, blockSize, offset, last, i, end, depth)
       <==> Loop(s, content, path, blockSize, offset, last, i) == end
  {
    if depth == 0 {
    } else {
      EndsInIs(s, content, path, blockSize, offset, last, i, end, depth - 1);
    }
  }

  lemma AlignedReadIfTrue(c: Cache, files: Files, blockSize: int, path: string, size: nat, offset: nat)
    requires c != [] && blockSize > 0 && path in files
    ensures
      var content := files[path]; var r := Read(c, content, path, blockSize, size, offset);
      Truthful(c, files, blockSize) && NulFree(content) && InRange(|content|, blockSize, size, offset)
      && offset % blockSize == 0 && |content| <= offset + size ==>
        && r.data <= Pread(content, size, offset) && Truthful(r.cache, files, blockSize)
        && (r.data == Pread(content, size, offset) <==>
              offset == 0 || offset >= |content| || (offset == blockSize && |content| % blockSize == 0))
  {
    if Truthful(c, files, blockSize) && NulFree(files[path]) && InRange(|files[path]|, blockSize, size, offset)
      && offset % blockSize == 0 && |files[path]| <= offset + size {
      AlignedReadExactly(c, files, blockSize, path, size, offset);
    }
  }

  class FileSystem {
    const blockSize: int
    const numOfBlocks: nat
    var cacheBlocks: seq<CacheBlock>
    var files: Files

    /** The slots as values. */
    ghost function Slots(): (c: Cache)
      reads this`cacheBlocks, cacheBlocks
      ensures |c| == |cacheBlocks|
    {
      Views(cacheBlocks)
    }

    ghost predicate Valid()
      reads this`cacheBlocks
    {
      && blockSize > 0 && |cacheBlocks| == numOfBlocks > 0
      && forall i, j :: 0 <= i < j < |cacheBlocks| ==> Apart(cacheBlocks, i, j)
    }

    lemma OtherBlocks(k: nat)
      requires Valid() && k < |cacheBlocks|
      ensures forall i :: 0 <= i < |cacheBlocks| && i != k ==> cacheBlocks[i] != cacheBlocks[k]
    {
      forall i | 0 <= i < |cacheBlocks| && i != k ensures cacheBlocks[i] != cacheBlocks[k] {
        assert Apart(cacheBlocks, if i < k then i else k, if i < k then k else i);
      }
    }

    /** The file system starts with all slots unused. */
    constructor (blockSize: int, numOfBlocks: nat, files: Files)
      requires blockSize > 0 && numOfBlocks > 0
      ensures Valid() && Slots() == InitCache(numOfBlocks) && fresh(cacheBlocks)
      ensures this.blockSize == blockSize && this.numOfBlocks == numOfBlocks && this.files == files
    {
      this.blockSize, this.numOfBlocks, this.files, this.cacheBlocks := blockSize, numOfBlocks, files, [];
      new;
      while |cacheBlocks| < numOfBlocks
        modifies this`cacheBlocks
        invariant |cacheBlocks| <= numOfBlocks
        invariant forall i :: 0 <= i < |cacheBlocks| ==>
                    fresh(cacheBlocks[i]) && cacheBlocks[i].View() == Slot(None, [], 0, 0)
        invariant forall i, j :: 0 <= i < j < |cacheBlocks| ==> Apart(cacheBlocks, i, j)
      {
        var b := new CacheBlock();
        ghost var before := cacheBlocks;
        cacheBlocks := cacheBlocks + [b];
        forall i, j | 0 <= i < j < |cacheBlocks| ensures Apart(cacheBlocks, i, j) {
          assert j < |before| ==> Apart(before, i, j);
        }
      }
      ViewsAt(cacheBlocks);
    }

    /** The index of the block's slot, or FAIL. */
    method IsInCache(path: string, num: int) returns (k: int)
      requires Valid()
      ensures match Lookup(Slots(), path, num) case Some(i) => k == i case None => k == FAIL
    {
      ghost var c := Slots();
      ViewsAt(cacheBlocks);
      var i := 0;
      while i < numOfBlocks
        invariant 0 <= i <= numOfBlocks && Slots() == c
        invariant Lookup(c, path, num) == LookupFrom(c, path, num, i)
      {
        if cacheBlocks[i].path == Some(path) && cacheBlocks[i].blockEnumerator == num {
          return i;
        }
        i := i + 1;
      }
      return FAIL;
    }

    method SearchMinCounter() returns (indexOfMin: nat)
      requires Valid()
      ensures indexOfMin == Victim(Slots()) && indexOfMin < numOfBlocks
    {
      ghost var c := Slots();
      ViewsAt(cacheBlocks);
      var minCount := INT_MAX;
      indexOfMin := 0;
      for i := 0 to numOfBlocks
        invariant Slots() == c && (indexOfMin, minCount) == MinScan(c, i)
      {
        if cacheBlocks[i].counter < minCount {
          minCount, indexOfMin := cacheBlocks[i].counter, i;
        }
      }
    }

    /** Changing one slot object changes one element of the view. */
    twostate lemma OneChanged(k: nat)
      requires old(Valid()) && cacheBlocks == old(cacheBlocks) && k < |cacheBlocks|
      requires forall i :: 0 <= i < |cacheBlocks| && i != k ==> cacheBlocks[i].View() == old(cacheBlocks[i].View())
      ensures Slots() == old(Slots())[k := cacheBlocks[k].View()]
    {
      OldViews(cacheBlocks);
      ViewsAt(cacheBlocks);
    }

    method UpdateBlock(k: nat, path: string, buff: Bytes, blockEnumerator: int)
      requires Valid() && k < numOfBlocks
      modifies cacheBlocks[k]
      ensures Slots() == old(Slots())[k := Slot(Some(path), CString(buff), blockEnumerator, 0)]
      ensures var d := cacheBlocks[k].data; d <= buff && NulFree(d) && (|d| < |buff| ==> buff[|d|] == NUL)
    {
      var b := cacheBlocks[k];
      OtherBlocks(k);
      b.SetBlockEnumerator(blockEnumerator);
      b.SetCounter(0);
      b.SetData(buff);
      b.SetPath(path);
      OneChanged(k);
      CStringIsPrefix(buff);
    }

    method CountUse(k: nat)
      requires Valid() && k < numOfBlocks
      modifies cacheBlocks[k]
      ensures Slots() == Bump(old(Slots()), k)
    {
      OtherBlocks(k);
      ViewsAt(cacheBlocks);
      cacheBlocks[k].IncreaseCount();
      OneChanged(k);
    }

    /** A missed block goes over the least used slot, and this use is counted. */
    method Load(path: string, buff: Bytes, num: int) returns (k: nat)
      requires Valid() && Lookup(Slots(), path, num).None?
      modifies cacheBlocks
      ensures Slots() == Touch(old(Slots()), path, num, CString(buff))
      ensures k < numOfBlocks && Slots()[k].data == CString(buff)
    {
      k := SearchMinCounter();
      UpdateBlock(k, path, buff, num);
      CountUse(k);
    }

    /** The block from its slot; or else, with the number of bytes the disk gave, from the disk. */
    method NextBlock(path: string, content: Bytes, num: int, left: nat, advOffset: nat)
      returns (res: Option<nat>, block: Bytes)
      requires Valid()
      modifies cacheBlocks
      ensures |Slots()| == |old(Slots())| > 0 && (res.Some? ==> res.value <= left)
      ensures Fetched(old(Slots()), content, path, blockSize, num, left, advOffset, res, block, Slots())
    {
      var blockIndex := IsInCache(path, num);
      if blockIndex == FAIL {
        var sizeToRead := blockSize;
        if left < blockSize {
          sizeToRead := left;
        }
        var buff := Pread(content, sizeToRead, advOffset);
        if buff == [] {
          return Some(0), [];
        }
        blockIndex := Load(path, buff, num);
        ViewsAt(cacheBlocks);
        return Some(|buff|), cacheBlocks[blockIndex].data;
      } else {
        ViewsAt(cacheBlocks);
        CountUse(blockIndex);
        ViewsAt(cacheBlocks);
        return None, cacheBlocks[blockIndex].data;
      }
    }

    /** The body of the read loop. */
    method ReadBlock(path: string, content: Bytes, offset: nat, sizeLeftToRead: nat, data: Bytes,
                     ghost last: int, ghost i: int, ghost end: LoopState, ghost depth: nat)
      returns (left: nat, more: Bytes, finish: bool)
      requires Valid() && i <= last
      requires EndsIn(LoopState(Slots(), sizeLeftToRead, data, false), content, path, blockSize, offset, last, i,
                      end, depth)
      modifies cacheBlocks
      ensures EndsIn(LoopState(Slots(), left, more, finish), content, path, blockSize, offset, last, i + 1, end, depth)
    {
      var advOffset := offset + |data|;
      ghost var s := LoopState(Slots(), sizeLeftToRead, data, false);
      EndsInIs(s, content, path, blockSize, offset, last, i, end, depth);
      PlaceOfIs(advOffset, blockSize);
      var res, block := NextBlock(path, content, advOffset / blockSize + 1, sizeLeftToRead, advOffset);
      left, finish := sizeLeftToRead, false;
      if res.Some? {
        left := left - res.value;
        if res.value < blockSize {
          finish := true;
        }
      }
      more := data + block;
      FetchIsTurn(s, content, path, blockSize, offset, res, block, LoopState(Slots(), left, more, finish));
      EndsInIs(LoopState(Slots(), left, more, finish), content, path, blockSize, offset, last, i + 1, end, depth);
    }

    /** The read loop from turn `first` to turn `last`. */
    method ReadBlocks(path: string, content: Bytes, size: nat, offset: nat, first: int, last: int) returns (data: Bytes)
      requires Valid()
      modifies cacheBlocks
      ensures var end := Loop(LoopState(old(Slots()), size, [], false), content, path, blockSize, offset, last, first);
        Slots() == end.cache && data == end.data
    {
      var finish, sizeLeftToRead: nat, i := false, size, first;
      data := [];
      ghost var depth: nat := *;
      ghost var end := Loop(LoopState(Slots(), size, [], false), content, path, blockSize, offset, last, first);
      EndsInIs(LoopState(Slots(), size, [], false), content, path, blockSize, offset, last, i, end, depth);
      while !finish && i <= last
        modifies cacheBlocks
        invariant EndsIn(LoopState(Slots(), sizeLeftToRead, data, finish), content, path, blockSize, offset, last, i,
                         end, depth)
        decreases last - i
      {
        sizeLeftToRead, data, finish := ReadBlock(path, content, offset, sizeLeftToRead, data, last, i, end, depth);
        i := i + 1;
      }
      EndsInIs(LoopState(Slots(), sizeLeftToRead, data, finish), content, path, blockSize, offset, last, i, end, depth);
    }

    /** The bytes at `offset`, from the slots as far as they have them. With true slots, an aligned
        read up to the end of a NUL-free file returns a prefix of the file's bytes there, all of them
        just in the three cases named, and leaves the slots true. */
    method CachingRead(path: string, size: nat, offset: nat) returns (data: Bytes)
      requires Valid() && path in files
      modifies cacheBlocks
      ensures
        var content := files[path];
        old(Truthful(Slots(), files, blockSize)) && NulFree(content) && InRange(|content|, blockSize, size, offset)
        && offset % blockSize == 0 && |content| <= offset + size ==>
          && data <= Pread(content, size, offset) && Truthful(Slots(), files, blockSize)
          && (data == Pread(content, size, offset) <==>
                offset == 0 || offset >= |content| || (offset == blockSize && |content| % blockSize == 0))
      ensures ReadResult(Slots(), data) == Read(old(Slots()), files[path], path, blockSize, size, offset)
    {
      var content := files[path];
      AlignedReadIfTrue(Slots(), files, blockSize, path, size, offset);
      data := ReadBlocks(path, content, size, offset, ToInt32(offset / blockSize),
                         LoopBound(|content|, size, offset, blockSize));
    }

    /** A rename moves the slots of the old name to the new one; one that fails changes nothing. */
    method CachingRename(path: string, newpath: string) returns (code: int)
      requires Valid()
      modifies this`files, cacheBlocks
      ensures Valid() && (code == 0 <==> path in old(files))
      ensures path in old(files) ==>
        files == RenameFiles(old(files), path, newpath) && Slots() == RenameSlots(old(Slots()), path, newpath)
      ensures path !in old(files) ==> files == old(files) && Slots() == old(Slots())
    {
      if path !in files {
        return FAIL;
      }
      ViewsAt(cacheBlocks);
      files := RenameFiles(files, path, newpath);
      for i := 0 to |cacheBlocks|
        modifies cacheBlocks
        invariant forall j :: 0 <= j < i ==> cacheBlocks[j].View() == Renamed(old(cacheBlocks[j].View()), path, newpath)
        invariant forall j :: i <= j < |cacheBlocks| ==> cacheBlocks[j].View() == old(cacheBlocks[j].View())
      {
        if cacheBlocks[i].path == Some(path) {
          OtherBlocks(i);
          cacheBlocks[i].SetPath(newpath);
        }
      }
      ViewsAt(cacheBlocks);
      assert Slots() == RenameSlots(old(Slots()), path, newpath);
      return 0;
    }
  }
}
