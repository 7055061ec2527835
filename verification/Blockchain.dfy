/** The block chain manager itself: blocks are objects linked by next pointers, the map, the queue
    and the index vector are changed in place, and each method is proved against a step of
    ChainModel. Random picks are nondeterministic choices. */
module Blockchain {
  import opened Collections
  import opened ChainModel
  import opened ChainPrune
  import opened ChainRuns
  import opened ChainEffects

  const SUCCESS := 0
  const FAIL := -1
  const UNSUCCESSFUL := -2
  const NOT_FOUND := 0
  const FOUND := 1

  /** A library call that returns, or the exception `map::at` raises for a missing key. */
  datatype Outcome = Returned(code: int) | Threw

  class BlockObj {
    const index: int
    const data: Data
    var fatherIndex: int
    var depth: int
    var hashedData: Option<Hash>
    var next: BlockObj?
    var isInLongest: bool
    var attachToLongest: bool

    constructor (data: Data, index: int, fatherIndex: int, depth: int)
      ensures View() == NewBlock(index, data, fatherIndex, depth)
      ensures this.index == index && this.data == data && this.fatherIndex == fatherIndex && this.depth == depth
      ensures hashedData == None && next == null && !isInLongest && !attachToLongest
    {
      this.data, this.index, this.fatherIndex, this.depth := data, index, fatherIndex, depth;
      hashedData, next, isInLongest, attachToLongest := None, null, false, false;
    }

    ghost function View(): Block
      reads this
    {
      Block(index, data, fatherIndex, depth, hashedData,
            if next == null then None else Some(next.index), isInLongest, attachToLongest)
    }

    method SetIsInLongest(b: bool)
      modifies this`isInLongest
      ensures isInLongest == b
    {
      isInLongest := b;
    }

    method SetAttachToLongest(b: bool)
      modifies this`attachToLongest
      ensures attachToLongest == b
    {
      attachToLongest := b;
    }
  }

  ghost function Views(q: seq<BlockObj>): (r: seq<Block>)
    reads q
    ensures |r| == |q| && forall i :: 0 <= i < |r| ==> r[i] == q[i].View()
  {
    seq(|q|, i requires 0 <= i < |q| reads q => q[i].View())
  }

  method GenerateNonce(block: int, father: int) returns (n: Nonce)
    ensures n.block == block && n.father == father
  {
    var salt: int := *;
    n := Nonce(block, father, salt);
  }

  class Manager {
    var blockMap: map<int, BlockObj>
    var blockQueue: seq<BlockObj>
    var vecIndex: seq<int>
    var isInitiated: bool
    var currentlyBlocked: bool
    var isInDaemon: int
    var sizeCounter: int

    // ---------------------------------------------------------------- abstraction

    ghost function Tree(): Tree
      reads this`blockMap, blockMap.Values
    {
      map k | k in blockMap :: blockMap[k].View()
    }

    ghost function Queue(): (q: seq<Block>)
      reads this`blockQueue, blockQueue
      ensures |q| == |blockQueue| && forall i :: 0 <= i < |q| ==> q[i] == blockQueue[i].View()
    {
      Views(blockQueue)
    }

    ghost function Model(): Chain
      reads this, blockMap.Values, blockQueue
    {
      Chain(Tree(), Queue(), vecIndex, sizeCounter, isInDaemon, isInitiated, currentlyBlocked)
    }

    /** The map's keys are the blocks' own numbers, next pointers lead to blocks of the map, and
        no block object is in two places. */
    ghost predicate Linked()
      reads this`blockMap, this`blockQueue, blockMap.Values
    {
      && (forall k :: k in blockMap ==> blockMap[k].index == k)
      && (forall k :: k in blockMap && blockMap[k].next != null ==>
            blockMap[k].next.index in blockMap && blockMap[blockMap[k].next.index] == blockMap[k].next)
      && (forall i :: 0 <= i < |blockQueue| ==> blockQueue[i] !in blockMap.Values)
      && (forall i, j :: 0 <= i < j < |blockQueue| ==> blockQueue[i] != blockQueue[j])
    }

    ghost predicate Valid()
      reads this, blockMap.Values, blockQueue
    {
      Linked() && Inv(Model())
    }

    lemma SameKeys()
      ensures Tree().Keys == blockMap.Keys && (Tree() == map[] <==> blockMap == map[])
    {
      assert forall k :: k in Tree() <==> k in blockMap;
    }

    // ---------------------------------------------------------------- start

    constructor ()
      ensures Valid() && Model() == Uninitiated() && fresh(blockMap.Values) && blockQueue == []
    {
      blockMap, blockQueue, vecIndex := map[], [], [];
      isInitiated, currentlyBlocked, isInDaemon, sizeCounter := false, false, -1, 0;
    }

    method InitBlockchain() returns (r: int)
      requires Valid()
      modifies this
      ensures Valid() && Takes(old(Model()), InitChain, Model())
      ensures r == if old(isInitiated || currentlyBlocked) then FAIL else SUCCESS
      ensures fresh(blockMap.Values - old(blockMap.Values)) && blockQueue == old(blockQueue)
    {
      ghost var m := Model();
      Stepped(m, InitChain);
      if currentlyBlocked || isInitiated {
        return FAIL;
      }
      SameKeys();
      Start();
      return SUCCESS;
    }

    method Start()
      requires Linked() && blockMap == map[] && vecIndex == []
      modifies this`blockMap, this`vecIndex, this`isInitiated
      ensures Linked() && fresh(blockMap.Values)
      ensures Model() == old(Model()).(
        attached := map[GENESIS := NewBlock(GENESIS, [], -1, 0)], used := [GENESIS], initiated := true)
    {
      var genesis := new BlockObj([], 0, -1, 0);
      blockMap := blockMap[genesis.index := genesis];
      vecIndex := vecIndex + [genesis.index];
      isInitiated := true;
      assert blockMap == map[0 := genesis];
      assert Tree() == map[GENESIS := NewBlock(GENESIS, [], -1, 0)];
      assert Queue() == old(Queue());
    }

    // ---------------------------------------------------------------- searching

    /** The position of the block in the queue, or FAIL. */
    method ExistBlock(blockIdx: int) returns (r: int)
      ensures blockIdx in Indices(Queue()) ==> 0 <= r < |blockQueue| && r == Place(Queue(), blockIdx)
      ensures blockIdx !in Indices(Queue()) ==> r == FAIL
    {
      var i := 0;
      ghost var q := Indices(Queue());
      while i < |blockQueue|
        invariant i <= |blockQueue| && blockIdx !in q[..i]
      {
        if blockQueue[i].index == blockIdx {
          assert q[i] == blockIdx;
          return i;
        }
        assert q[..i + 1] == q[..i] + [q[i]];
        i := i + 1;
      }
      assert q[..i] == q;
      return FAIL;
    }

    /** The depth that `std::max_element` finds among the blocks of the map. */
    method MaxLength(keys: seq<int>) returns (m: int)
      requires keys != [] && forall i :: 0 <= i < |keys| ==> keys[i] in blockMap
      ensures exists i :: 0 <= i < |keys| && blockMap[keys[i]].depth == m
      ensures forall i :: 0 <= i < |keys| ==> blockMap[keys[i]].depth <= m
    {
      var best := 0;
      var i := 1;
      while i < |keys|
        invariant 1 <= i <= |keys| && best < i
        invariant forall j :: 0 <= j < i ==> blockMap[keys[j]].depth <= blockMap[keys[best]].depth
      {
        if blockMap[keys[best]].depth < blockMap[keys[i]].depth {
          best := i;
        }
        i := i + 1;
      }
      m := blockMap[keys[best]].depth;
    }

    /** All blocks of that depth. */
    method WithLength(keys: seq<int>, m: int) returns (indexes: seq<int>)
      requires forall i :: 0 <= i < |keys| ==> keys[i] in blockMap && blockMap[keys[i]].index == keys[i]
      ensures forall k :: k in indexes <==> k in keys && k in blockMap && blockMap[k].depth == m
    {
      indexes := [];
      var i := 0;
      while i < |keys|
        invariant i <= |keys|
        invariant forall k :: k in indexes <==> k in keys[..i] && k in blockMap && blockMap[k].depth == m
      {
        assert keys[..i + 1] == keys[..i] + [keys[i]];
        if blockMap[keys[i]].depth == m {
          indexes := indexes + [blockMap[keys[i]].index];
        }
        i := i + 1;
      }
      assert keys[..i] == keys;
    }

    /** A deepest block, any of them: the maximal depth, then the blocks that have it, then one of
        those at random. */
    method FindFather() returns (f: int)
      requires Linked()
      ensures if blockMap == map[] then f == FAIL else Deepest(Tree(), f)
    {
      if blockMap == map[] {
        return FAIL;
      }
      var keys := InOrder(blockMap.Keys);
      assert forall k :: k in blockMap <==> k in ToSet(keys);
      assert forall i :: 0 <= i < |keys| ==> keys[i] in ToSet(keys);
      assert |blockMap.Keys| == |blockMap| && |blockMap| > 0;
      var maxLength := MaxLength(keys);
      var indexes := WithLength(keys, maxLength);
      assert exists i :: 0 <= i < |keys| && keys[i] in indexes;
      var pick :| 0 <= pick < |indexes|;
      f := indexes[pick];
      assert f in indexes;
      forall k | k in blockMap ensures blockMap[k].depth <= maxLength {
        assert k in keys;
      }
    }

    /** Sorts the index vector in place and scans it for the first gap. */
    method FindMinIdx() returns (idx: int)
      requires NoDup(vecIndex) && forall i :: 0 <= i < |vecIndex| ==> 0 <= vecIndex[i]
      modifies this`vecIndex
      ensures Model() == old(Model()).(used := Sort(old(Model()).used)) && idx == NextIndex(old(Model()))
    {
      ghost var was := vecIndex;
      SortIndex();
      idx := FirstGap();
      GapIsLeastFree(was, idx);
    }

    method SortIndex()
      modifies this`vecIndex
      ensures Model() == old(Model()).(used := Sort(old(Model()).used))
    {
      vecIndex := Sort(vecIndex);
    }

    method FirstGap() returns (idx: nat)
      ensures idx <= |vecIndex| && (forall j :: 0 <= j < idx ==> vecIndex[j] == j)
      ensures idx < |vecIndex| ==> vecIndex[idx] != idx
    {
      idx := 0;
      if vecIndex != [] {
        while idx < |vecIndex|
          invariant 0 <= idx <= |vecIndex|
          invariant forall j :: 0 <= j < idx ==> vecIndex[j] == j
        {
          if idx != vecIndex[idx] {
            break;
          }
          idx := idx + 1;
        }
      }
    }

    // ---------------------------------------------------------------- attaching

    /** The block joins the map, unless its father is gone. */
    method Link(block: BlockObj, fatherIndex: int)
      requires Linked() && block !in blockMap.Values && block !in blockQueue && block.index !in blockMap
      modifies this`blockMap, block`next
      ensures Linked() && blockMap.Values <= old(blockMap.Values) + {block}
      ensures Model() == Hung(old(Model()), old(block.View()).(next := Some(fatherIndex)), fatherIndex)
    {
      SameKeys();
      if fatherIndex in blockMap {
        SetNext(block, blockMap[fatherIndex]);
        Insert(block);
      }
    }

    method SetNext(block: BlockObj, father: BlockObj)
      requires Linked() && block !in blockMap.Values && block !in blockQueue
      modifies block`next
      ensures Linked() && Model() == old(Model())
      ensures block.next == father && block.View() == old(block.View()).(next := Some(father.index))
    {
      block.next := father;
    }

    method Insert(block: BlockObj)
      requires Linked() && block !in blockMap.Values && block !in blockQueue && block.index !in blockMap
      requires block.next != null && block.next.index in blockMap && blockMap[block.next.index] == block.next
      modifies this`blockMap
      ensures Linked() && blockMap.Values <= old(blockMap.Values) + {block}
      ensures Model() == old(Model()).(attached := old(Model()).attached[block.index := block.View()])
    {
      blockMap := blockMap[block.index := block];
      assert forall b :: b in blockMap.Values ==> b == block || b in old(blockMap.Values);
      assert Tree() == old(Tree())[block.index := block.View()];
      assert Queue() == old(Queue());
    }

    /** The father the block gets: the deepest of the moment if it was flagged, else the one it has. */
    method ChooseFather(block: BlockObj) returns (f: int)
      requires Linked() && block !in blockMap.Values && block !in blockQueue
      requires forall k :: k in blockMap ==> 0 <= k
      modifies block`depth
      ensures Linked() && Model() == old(Model()) && block.View() == old(block.View()).(depth := block.depth)
      ensures !block.attachToLongest ==> f == block.fatherIndex && block.depth == old(block.depth)
      ensures block.attachToLongest && blockMap == map[] ==> f == FAIL
      ensures block.attachToLongest && blockMap != map[] ==>
                f != FAIL && Deepest(Tree(), f) && block.depth == Tree()[f].depth + 1
    {
      f := block.fatherIndex;
      if block.attachToLongest {
        f := FindFather();
        if f == -1 {
          return;
        }
        block.depth := blockMap[f].depth + 1;
      }
    }

    /** Hashes the block with a nonce for this father and hangs it there. */
    method HashAndLink(block: BlockObj, f: int) returns (ghost salt: int)
      requires Linked() && block !in blockMap.Values && block !in blockQueue && block.index !in blockMap
      modifies this`blockMap, block`hashedData, block`fatherIndex, block`next
      ensures Linked() && blockMap.Values <= old(blockMap.Values) + {block}
      ensures Model() == Hung(old(Model()), Hashed(old(block.View()), f, salt), f)
      ensures block.hashedData == Some(Hash(block.data, Nonce(block.index, f, salt)))
    {
      var nonce := GenerateNonce(block.index, f);
      salt := nonce.salt;
      block.hashedData := Some(Hash(block.data, nonce));
      block.fatherIndex := f;
      assert Model() == old(Model());
      Link(block, f);
    }

    method SetInDaemon(index: int)
      requires Linked()
      modifies this`isInDaemon
      ensures Linked() && Model() == old(Model()).(inDaemon := index)
    {
      isInDaemon := index;
    }

    method CountBlock()
      requires Linked()
      modifies this`sizeCounter
      ensures Linked() && Model() == old(Model()).(counter := old(Model()).counter + 1)
    {
      sizeCounter := sizeCounter + 1;
    }

    /** `addAndHash`: the father, then the hash for that father, then the place in the map. */
    method AddAndHash(block: BlockObj) returns (r: int, ghost father: int, ghost salt: int)
      requires Linked() && block !in blockMap.Values && block !in blockQueue && block.index !in blockMap
      requires forall k :: k in blockMap ==> 0 <= k
      modifies this`isInDaemon, this`blockMap, block
      ensures Linked() && blockMap.Values <= old(blockMap.Values) + {block}
      ensures r == if old(block.attachToLongest) && old(blockMap) == map[] then FAIL else SUCCESS
      ensures r == FAIL ==> Model() == old(Model()).(inDaemon := block.index)
      ensures r == SUCCESS ==> Added(old(Model()), old(block.View()), father, salt, Model())
      ensures r == SUCCESS ==> block.hashedData == Some(Hash(block.data, Nonce(block.index, father, salt)))
      ensures r == SUCCESS && !old(block.attachToLongest) ==> father == old(block.fatherIndex)
    {
      ghost var s, b := Model(), block.View();
      SetInDaemon(block.index);
      salt := 0;
      var fatherIndex := ChooseFather(block);
      father := fatherIndex;
      if block.attachToLongest && fatherIndex == -1 {
        return FAIL, father, salt;
      }
      ghost var v := block.View();
      salt := HashAndLink(block, fatherIndex);
      AddedBy(s, b, v, father, salt);
      r := SUCCESS;
    }

    /** Takes the block out of the queue, erasing at the iterator that found it. */
    method PopBlock(blockIdx: int) returns (b: BlockObj?)
      requires Linked()
      modifies this`blockQueue
      ensures Linked()
      ensures if blockIdx in Indices(old(Queue())) then
                Popped(old(blockQueue), Place(old(Queue()), blockIdx), b, blockQueue)
                && Model() == old(Model()).(pending := Without(old(Queue()), Place(old(Queue()), blockIdx)))
              else
                b == null && blockQueue == old(blockQueue)
    {
      var i := 0;
      ghost var q := Queue();
      while i < |blockQueue|
        invariant i <= |blockQueue| && blockIdx !in Indices(q)[..i] && blockQueue == old(blockQueue)
      {
        if blockQueue[i].index == blockIdx {
          FoundAt(q, i);
          b := blockQueue[i];
          EraseAt(i);
          return;
        }
        assert Indices(q)[..i + 1] == Indices(q)[..i] + [Indices(q)[i]];
        i := i + 1;
      }
      assert Indices(q)[..i] == Indices(q);
      return null;
    }

    method EraseAt(i: nat)
      requires Linked() && i < |blockQueue|
      modifies this`blockQueue
      ensures Linked() && blockQueue == old(blockQueue)[..i] + old(blockQueue)[i + 1..]
      ensures Model() == old(Model()).(pending := Without(old(Queue()), i))
    {
      blockQueue := blockQueue[..i] + blockQueue[i + 1..];
      assert Queue() == Without(old(Queue()), i);
    }

    /** Takes the first block out of the queue and attaches it. */
    method AttachFront() returns (ghost father: int, ghost salt: int)
      requires Linked() && blockQueue != [] && blockMap != map[]
      requires blockQueue[0].index !in blockMap && forall k :: k in blockMap ==> 0 <= k
      modifies this`isInDaemon, this`blockMap, this`blockQueue, blockQueue[0]
      ensures Linked() && blockQueue == old(blockQueue)[1..]
      ensures blockMap.Values <= old(blockMap.Values) + {old(blockQueue[0])}
      ensures var m := old(Model()); Added(m.(pending := m.pending[1..]), m.pending[0], father, salt, Model())
      ensures var b := old(blockQueue[0]); b.hashedData == Some(Hash(b.data, Nonce(b.index, father, salt)))
      ensures !old(blockQueue[0].attachToLongest) ==> father == old(blockQueue[0].fatherIndex)
    {
      var b := TakeFront();
      var r;
      r, father, salt := AddAndHash(b);
    }

    method TakeFront() returns (b: BlockObj)
      requires Linked() && blockQueue != []
      modifies this`blockQueue
      ensures Linked() && b == old(blockQueue)[0] && blockQueue == old(blockQueue)[1..]
      ensures b !in blockMap.Values && b !in blockQueue
      ensures var m := old(Model()); Model() == m.(pending := m.pending[1..]) && b.View() == m.pending[0]
    {
      ghost var q := Queue();
      FoundAt(q, 0);
      var bToHash := blockQueue[0];
      b := PopBlock(bToHash.index);
      assert Without(q, 0) == q[1..];
    }

    /** One round of the daemon's endless loop; it does nothing while closing or with nothing pending. */
    method DaemonRound() returns (ghost father: int, ghost salt: int)
      requires Valid()
      modifies this`isInDaemon, this`blockMap, this`blockQueue, this`sizeCounter, blockQueue
      ensures Valid()
      ensures if old(!currentlyBlocked && blockQueue != [])
              then Takes(old(Model()), Daemon(father, salt), Model()) && blockQueue == old(blockQueue)[1..]
              else Model() == old(Model()) && blockQueue == old(blockQueue)
      ensures blockMap.Values <= old(blockMap.Values) + set b | b in old(blockQueue)
    {
      father, salt := 0, 0;
      if !currentlyBlocked {
        if blockQueue != [] {
          father, salt := AttachAndCount();
        }
      }
    }

    method AttachAndCount() returns (ghost father: int, ghost salt: int)
      requires Valid() && isInitiated && !currentlyBlocked && blockQueue != []
      modifies this`isInDaemon, this`blockMap, this`blockQueue, this`sizeCounter, blockQueue[0]
      ensures Valid() && Takes(old(Model()), Daemon(father, salt), Model())
      ensures blockQueue == old(blockQueue)[1..]
      ensures blockMap.Values <= old(blockMap.Values) + {old(blockQueue[0])}
    {
      ghost var m := Model();
      FrontFacts(m);
      SameKeys();
      ghost var s;
      father, salt, s := AttachFrontAndCount();
      DaemonTakes(m, father, salt, s);
    }

    method AttachFrontAndCount() returns (ghost father: int, ghost salt: int, ghost s: Chain)
      requires Linked() && blockQueue != [] && blockMap != map[]
      requires blockQueue[0].index !in blockMap && forall k :: k in blockMap ==> 0 <= k
      modifies this`isInDaemon, this`blockMap, this`blockQueue, this`sizeCounter, blockQueue[0]
      ensures Linked() && blockQueue == old(blockQueue)[1..]
      ensures blockMap.Values <= old(blockMap.Values) + {old(blockQueue[0])}
      ensures Model() == s.(counter := s.counter + 1)
      ensures var m := old(Model()); Added(m.(pending := m.pending[1..]), m.pending[0], father, salt, s)
    {
      father, salt := AttachFront();
      s := Model();
      CountBlock();
    }

    // ---------------------------------------------------------------- library calls

    method AddBlock(data: Data) returns (idx: int, ghost father: int)
      requires Valid()
      modifies this`vecIndex, this`blockQueue
      ensures Valid() && Takes(old(Model()), ChainModel.AddBlock(data, father), Model())
      ensures idx == if old(isInitiated && !currentlyBlocked) then NextIndex(old(Model())) else FAIL
      ensures if old(isInitiated && !currentlyBlocked)
              then exists b :: fresh(b) && blockQueue == old(blockQueue) + [b] && Fits(b, data, idx, father)
              else blockQueue == old(blockQueue)
    {
      if !isInitiated || currentlyBlocked {
        return FAIL, 0;
      }
      ghost var m := Model();
      SameKeys();
      UsedNonNegative(m);
      ghost var m1;
      idx, father, m1 := PlaceNew(data);
      AddTakes(m, m1, data, idx, father, Model());
    }

    /** The block has the caller's data and this number, and is one level below its father. */
    ghost predicate Fits(b: BlockObj, data: Data, idx: int, father: int)
      reads this`blockMap, blockMap.Values, b
    {
      && b.data == data && b.index == idx && b.fatherIndex == father
      && father in blockMap && b.depth == blockMap[father].depth + 1
      && b.hashedData == None && b.next == null && !b.isInLongest && !b.attachToLongest
    }

    /** The least free index, a deepest father, the end of the queue. */
    method PlaceNew(data: Data) returns (idx: int, ghost father: int, ghost m1: Chain)
      requires Linked() && blockMap != map[]
      requires NoDup(vecIndex) && forall i :: 0 <= i < |vecIndex| ==> 0 <= vecIndex[i]
      modifies this`vecIndex, this`blockQueue
      ensures Linked()
      ensures exists b :: fresh(b) && blockQueue == old(blockQueue) + [b] && Fits(b, data, idx, father)
      ensures m1 == old(Model()).(used := Sort(old(Model()).used)) && Deepest(m1.attached, father)
      ensures idx == NextIndex(old(Model()))
      ensures Model() == m1.(used := m1.used + [idx],
                             pending := m1.pending + [NewBlock(idx, data, father, m1.attached[father].depth + 1)])
    {
      idx := FindMinIdx();
      m1 := Model();
      father := PlaceAt(data, idx);
    }

    method PlaceAt(data: Data, idx: int) returns (ghost father: int)
      requires Linked() && blockMap != map[]
      modifies this`vecIndex, this`blockQueue
      ensures Linked()
      ensures exists b :: fresh(b) && blockQueue == old(blockQueue) + [b] && Fits(b, data, idx, father)
      ensures var m := old(Model());
        && Deepest(m.attached, father)
        && Model() == m.(used := m.used + [idx],
                         pending := m.pending + [NewBlock(idx, data, father, m.attached[father].depth + 1)])
    {
      var fatherIdx := FindFather();
      father := fatherIdx;
      ghost var b := Append(data, idx, fatherIdx);
    }

    /** The new block, one level below its father, at the end of the queue. */
    method Append(data: Data, idx: int, fatherIdx: int) returns (ghost b: BlockObj)
      requires Linked() && fatherIdx in blockMap
      modifies this`vecIndex, this`blockQueue
      ensures Linked() && fresh(b) && blockQueue == old(blockQueue) + [b] && Fits(b, data, idx, fatherIdx)
      ensures var m := old(Model());
        Model() == m.(used := m.used + [idx],
                      pending := m.pending + [NewBlock(idx, data, fatherIdx, m.attached[fatherIdx].depth + 1)])
    {
      var newBlock := new BlockObj(data, idx, fatherIdx, blockMap[fatherIdx].depth + 1);
      b := newBlock;
      PushBlock(newBlock);
    }

    method PushBlock(b: BlockObj)
      requires Linked() && b !in blockMap.Values && b !in blockQueue
      modifies this`vecIndex, this`blockQueue
      ensures Linked() && blockQueue == old(blockQueue) + [b]
      ensures var m := old(Model()); Model() == m.(used := m.used + [b.index], pending := m.pending + [b.View()])
    {
      vecIndex := vecIndex + [b.index];
      blockQueue := blockQueue + [b];
      assert Queue() == old(Queue()) + [b.View()];
    }

    method ToLongest(num: int) returns (r: int)
      requires Valid()
      modifies blockQueue
      ensures Valid() && Takes(old(Model()), ChainModel.ToLongest(num), Model())
      ensures r == if !isInitiated then FAIL else if num in blockMap then FOUND
                   else if num in Indices(old(Queue())) then SUCCESS else UNSUCCESSFUL
    {
      ghost var m := Model();
      if !isInitiated {
        return FAIL;
      }
      SameKeys();
      if num in blockMap {
        return FOUND;
      }
      var idx := ExistBlock(num);
      if idx == FAIL {
        return UNSUCCESSFUL;
      }
      Flag(idx);
      Stepped(m, ChainModel.ToLongest(num));
      return SUCCESS;
    }

    method Flag(i: nat)
      requires Linked() && i < |blockQueue|
      modifies blockQueue[i]
      ensures Linked() && Model() == old(Model()).(pending := old(Queue())[i := old(Queue())[i].(toLongest := true)])
    {
      blockQueue[i].SetAttachToLongest(true);
      assert Tree() == old(Tree());
      assert Queue() == old(Queue())[i := old(Queue())[i].(toLongest := true)];
    }

    /** The part of `attach_now` before it waits for the attachment. */
    method AttachNow(num: int) returns (r: int)
      requires Valid()
      modifies this`blockQueue
      ensures Valid() && Takes(old(Model()), ChainModel.AttachNow(num), Model())
      ensures r == if !isInitiated || currentlyBlocked then FAIL
                   else if num in blockMap || num == isInDaemon || num in Indices(old(Queue())) then SUCCESS
                   else UNSUCCESSFUL
      ensures multiset(blockQueue) == multiset(old(blockQueue))
    {
      SameKeys();
      Stepped(Model(), ChainModel.AttachNow(num));
      if !isInitiated || currentlyBlocked {
        return FAIL;
      }
      if num in blockMap {
        return SUCCESS;
      }
      if isInDaemon == num {
        return SUCCESS;
      }
      r := CallForward(num);
    }

    method CallForward(num: int) returns (r: int)
      requires Linked()
      modifies this`blockQueue
      ensures Linked() && multiset(blockQueue) == multiset(old(blockQueue))
      ensures var m := old(Model());
        if num in Indices(m.pending) then
          r == SUCCESS && Model() == m.(pending := ToFront(m.pending, Place(m.pending, num)))
        else
          r == UNSUCCESSFUL && Model() == m
    {
      var idx := ExistBlock(num);
      if idx == FAIL {
        return UNSUCCESSFUL;
      }
      MoveToFront(num);
      return SUCCESS;
    }

    method MoveToFront(num: int)
      requires Linked() && num in Indices(Queue())
      modifies this`blockQueue
      ensures Linked() && multiset(blockQueue) == multiset(old(blockQueue))
      ensures var m := old(Model()); Model() == m.(pending := ToFront(m.pending, Place(m.pending, num)))
    {
      FrontOf(blockQueue, Place(Queue(), num));
      var b := PopBlock(num);
      PushFront(b);
    }

    method PushFront(b: BlockObj)
      requires Linked() && b !in blockMap.Values && b !in blockQueue
      modifies this`blockQueue
      ensures Linked() && blockQueue == [b] + old(blockQueue)
      ensures var m := old(Model()); Model() == m.(pending := [b.View()] + m.pending)
    {
      blockQueue := [b] + blockQueue;
      assert Queue() == [b.View()] + old(Queue());
    }

    lemma FrontOf(q: seq<BlockObj>, i: nat)
      requires i < |q|
      ensures multiset([q[i]] + (q[..i] + q[i + 1..])) == multiset(q)
    {
      assert q == q[..i] + [q[i]] + q[i + 1..];
    }

    method WasAdded(num: int) returns (r: int)
      requires Valid()
      ensures r == if !isInitiated then FAIL else if num in Model().attached then FOUND
                   else if num in Indices(Model().pending) || num == isInDaemon then NOT_FOUND else UNSUCCESSFUL
    {
      if !isInitiated {
        return FAIL;
      }
      SameKeys();
      if num in blockMap {
        return FOUND;
      }
      var idx := ExistBlock(num);
      if idx != FAIL || num == isInDaemon {
        return NOT_FOUND;
      } else {
        return UNSUCCESSFUL;
      }
    }

    method ChainSize() returns (r: int)
      requires Valid()
      ensures r == if Model().initiated then Model().counter else FAIL
    {
      if !isInitiated {
        return FAIL;
      }
      return sizeCounter;
    }

    method CloseChain()
      requires Valid()
      modifies this`currentlyBlocked
      ensures Valid() && Takes(old(Model()), Close, Model())
      ensures currentlyBlocked == old(currentlyBlocked || isInitiated)
    {
      ghost var m := Model();
      if isInitiated {
        currentlyBlocked := true;
        StepInv(m, Close);
        assert Model() == m.(closing := true);
      }
    }

    // ---------------------------------------------------------------- closing

    /** The closing thread: attaches and prints what is pending, then resets. The ghost result is
        the run of the state machine that it performs. */
    method CloseChainThread() returns (printed: seq<Hash>, ghost es: seq<Event>)
      requires Valid() && isInitiated && currentlyBlocked
      modifies this, blockQueue
      ensures Valid() && Model() == Uninitiated().(inDaemon := isInDaemon)
      ensures |es| == |old(blockQueue)| && forall e :: e in es ==> e.Drain?
      ensures Possible(old(Model()), es + [Reset]) && Run(old(Model()), es + [Reset]) == Model()
      ensures |printed| == |old(blockQueue)|
      ensures forall i :: 0 <= i < |printed| ==> HashOf(old(Queue())[i], printed[i])
      ensures Possible(old(Model()), es) && forall i :: 0 <= i < |printed| ==>
                AttachedWith(Run(old(Model()), es), old(Queue())[i].index, printed[i])
    {
      ghost var m := Model();
      printed, es := [], [];
      while blockQueue != []
        invariant Valid() && isInitiated && currentlyBlocked && Drained(m, es, Model(), printed)
        invariant |es| + |blockQueue| == |old(blockQueue)| && blockQueue == old(blockQueue)[|es|..]
        decreases |blockQueue|
      {
        var bToHash := blockQueue[0];
        ghost var s := Model();
        ghost var e := DrainFront();
        DrainedNext(m, es, s, printed, e, Model(), bToHash.hashedData.value);
        printed := printed + [bToHash.hashedData.value];
        es := es + [e];
      }
      RunAppend(m, es, Reset);
      ResetFields();
    }

    method DrainFront() returns (ghost e: Event)
      requires Valid() && isInitiated && currentlyBlocked && blockQueue != []
      modifies this`isInDaemon, this`blockMap, this`blockQueue, blockQueue[0]
      ensures Valid() && e.Drain? && Takes(old(Model()), e, Model())
      ensures blockQueue == old(blockQueue)[1..] && Queue() == old(Queue())[1..]
      ensures var b := old(blockQueue[0]); b.hashedData.Some? && HashOf(old(Queue())[0], b.hashedData.value)
      ensures var b := old(blockQueue[0]); b.index in Tree() && Tree()[b.index].hash == b.hashedData
    {
      ghost var m := Model();
      FrontFacts(m);
      SameKeys();
      ghost var father, salt := AttachFront();
      e := Drain(father, salt);
      DrainTakes(m, father, salt, Model());
      AttachEffect(m, e);
    }

    method ResetFields()
      requires Linked() && blockQueue == []
      modifies this`blockMap, this`vecIndex, this`sizeCounter, this`currentlyBlocked, this`isInitiated
      ensures Linked() && Model() == ResetStep(old(Model()))
    {
      blockMap, vecIndex, sizeCounter := map[], [], 0;
      currentlyBlocked, isInitiated := false, false;
      assert Tree() == map[];
    }

    method ReturnOnClose() returns (r: int)
      requires Valid()
      ensures r == if isInitiated && currentlyBlocked then SUCCESS else UNSUCCESSFUL
    {
      if !currentlyBlocked || !isInitiated {
        return UNSUCCESSFUL;
      }
      return SUCCESS;
    }

    // ---------------------------------------------------------------- pruning

    method SetMark(k: int, b: bool)
      requires Linked() && k in blockMap
      modifies blockMap[k]
      ensures Linked() && Queue() == old(Queue())
      ensures Tree() == old(Tree())[k := old(Tree())[k].(marked := b)]
    {
      assert forall j :: j in blockMap && j != k ==> blockMap[j] != blockMap[k];
      blockMap[k].SetIsInLongest(b);
      assert Tree() == old(Tree())[k := old(Tree())[k].(marked := b)];
      assert Queue() == old(Queue());
    }

    /** Marks the way from a deepest block up to genesis, one next pointer after another. */
    method MarkPath() returns (leaf: int)
      requires Linked() && TreeInv(Tree())
      modifies blockMap.Values
      ensures Linked() && Deepest(old(Tree()), leaf)
      ensures Model() == old(Model()).(attached := Marked(old(Tree()), Path(old(Tree()), leaf)))
    {
      ghost var t, q := Tree(), Queue();
      SameKeys();
      leaf := FindFather();
      ghost var seen := MarkUp(leaf);
      assert Queue() == q;
      MarkGenesis(t, seen);
      assert Queue() == q;
    }

    method MarkGenesis(ghost t: map<int, Block>, ghost seen: seq<int>)
      requires Linked() && TreeInv(t) && Tree() == Marked(t, seen)
      modifies blockMap.Values
      ensures Linked() && Queue() == old(Queue()) && Tree() == Marked(t, seen + [GENESIS])
    {
      MarkOne(t, seen, GENESIS);
      SameKeys();
      SetMark(0, true);
    }

    /** The walk from `leaf` along the next pointers, up to genesis but not including it. */
    method MarkUp(leaf: int) returns (ghost seen: seq<int>)
      requires Linked() && TreeInv(Tree()) && leaf in blockMap
      modifies blockMap.Values
      ensures Linked() && Queue() == old(Queue()) && Tree() == Marked(old(Tree()), seen)
      ensures leaf in old(Tree()) && Path(old(Tree()), leaf) == seen + [GENESIS]
    {
      ghost var t, q := Tree(), Queue();
      var longestIdx := leaf;
      seen := [];
      MarkNone(t);
      while blockMap[longestIdx].next != null
        invariant Linked() && Queue() == q && Tree() == Marked(t, seen)
        invariant longestIdx in blockMap && Walking(t, leaf, seen, longestIdx)
        decreases t[longestIdx].depth
      {
        UpOne(t, leaf, seen, longestIdx);
        MarkOne(t, seen, longestIdx);
        SetMark(longestIdx, true);
        seen := seen + [longestIdx];
        longestIdx := blockMap[longestIdx].next.index;
      }
      UpOne(t, leaf, seen, longestIdx);
    }

    /** Erases the unmarked numbers from the index vector while iterating over it. A number that is
        not in the map makes `map::at` throw. */
    method SweepIndices(ghost keep: set<int>) returns (ok: bool)
      requires forall k :: k in blockMap ==> (k in keep <==> blockMap[k].isInLongest)
      modifies this`vecIndex
      ensures ok <==> forall k :: k in old(vecIndex) ==> k in blockMap
      ensures ok ==> vecIndex == Filter(old(vecIndex), keep)
      ensures !ok ==> SweptUpTo(old(vecIndex), blockMap.Keys, keep, vecIndex)
    {
      ghost var was, done := vecIndex, 0;
      var i := 0;
      while i < |vecIndex|
        invariant Swept(was, done, keep, vecIndex, i)
        invariant forall k :: k in was[..done] ==> k in blockMap
        decreases |was| - done
      {
        SweepAt(was, done, keep, vecIndex, i);
        if vecIndex[i] !in blockMap {
          assert was[done] !in blockMap;
          return false;
        }
        assert was[..done + 1] == was[..done] + [was[done]];
        if !blockMap[vecIndex[i]].isInLongest {
          vecIndex := vecIndex[..i] + vecIndex[i + 1..];
        } else {
          i := i + 1;
        }
        done := done + 1;
      }
      SweepDone(was, done, keep, vecIndex, i);
      return true;
    }

    /** Erases the unmarked blocks from the map while iterating over it. */
    method SweepMap(ghost keep: set<int>)
      requires forall k :: k in blockMap ==> (k in keep <==> blockMap[k].isInLongest)
      modifies this`blockMap
      ensures blockMap == map k | k in old(blockMap) && k in keep :: old(blockMap)[k]
    {
      ghost var was: map<int, BlockObj>, dropped: set<int> := blockMap, {};
      var keys := InOrder(blockMap.Keys);
      var i := 0;
      while i < |keys|
        invariant i <= |keys| && blockMap == was - dropped && DroppedUpTo(keys, i, keep, dropped)
      {
        DropNext(was, keys, i, keep, dropped);
        if !blockMap[keys[i]].isInLongest {
          dropped := dropped + {keys[i]};
          blockMap := blockMap - {keys[i]};
        }
        i := i + 1;
      }
      DropDone(was, keys, keep, dropped);
    }

    /** The same, for the tree: what is kept must not point at what is erased. */
    method EraseUnmarked(ghost keep: set<int>)
      requires Linked() && forall k :: k in blockMap ==> (k in keep <==> blockMap[k].isInLongest)
      requires forall k :: k in blockMap && k in keep && blockMap[k].next != null ==> blockMap[k].next.index in keep
      modifies this`blockMap
      ensures Linked() && Queue() == old(Queue())
      ensures Tree() == map k | k in old(Tree()) && k in keep :: old(Tree())[k]
      ensures blockMap.Values <= old(blockMap.Values)
    {
      SweepMap(keep);
      assert forall k :: k in blockMap ==> k in old(blockMap) && blockMap[k] == old(blockMap)[k] && k in keep;
    }

    method ClearMarks()
      requires Linked()
      modifies blockMap.Values
      ensures Linked() && Queue() == old(Queue()) && Tree() == Marked(old(Tree()), [])
    {
      ghost var t, q := Tree(), Queue();
      var keys := InOrder(blockMap.Keys);
      SameKeys();
      var i := 0;
      ClearNone(t);
      while i < |keys|
        invariant i <= |keys| && Linked() && Queue() == q && Tree() == Cleared(t, keys[..i])
      {
        ClearNext(t, keys, i);
        SetMark(keys[i], false);
        i := i + 1;
      }
      ClearDone(t, keys);
    }

    /** Prunes everything but one longest chain. With blocks pending it throws. */
    method PruneChain() returns (r: Outcome, ghost leaf: int)
      requires Valid()
      modifies this`vecIndex, this`blockMap, blockMap.Values
      ensures r.Threw? <==> isInitiated && !currentlyBlocked && blockQueue != []
      ensures r.Returned? ==> Valid() && Takes(old(Model()), Prune(leaf), Model())
      ensures r.Threw? ==> Interrupted(old(Model()), leaf, Model())
      ensures r.Returned? ==> r.code == if isInitiated && !currentlyBlocked then SUCCESS else FAIL
      ensures blockMap.Values <= old(blockMap.Values)
    {
      if !isInitiated || currentlyBlocked {
        return Returned(FAIL), 0;
      }
      ghost var m := Model();
      PendingIsUnattached(m);
      var ok;
      ok, leaf := PruneOpen();
      if !ok {
        return Threw, leaf;
      }
      Stepped(m, Prune(leaf));
      r := Returned(SUCCESS);
    }

    method PruneOpen() returns (ok: bool, ghost leaf: int)
      requires Linked() && TreeInv(Tree())
      modifies this`vecIndex, this`blockMap, blockMap.Values
      ensures ok <==> forall k :: k in old(vecIndex) ==> k in old(Tree())
      ensures Deepest(old(Tree()), leaf)
      ensures ok ==> Linked() && Model() == PruneStep(old(Model()), leaf)
      ensures !ok ==> Interrupted(old(Model()), leaf, Model())
      ensures blockMap.Values <= old(blockMap.Values)
    {
      ghost var m, t := Model(), Tree();
      SameKeys();
      var longestIdx := MarkPath();
      leaf := longestIdx;
      MarksSay(t, leaf);
      ok := SweepMarked(ToSet(Path(t, leaf)));
      if !ok {
        return;
      }
      EraseAndClear(t, leaf);
    }

    method SweepMarked(ghost keep: set<int>) returns (ok: bool)
      requires Linked() && forall k :: k in blockMap ==> (k in keep <==> blockMap[k].isInLongest)
      modifies this`vecIndex
      ensures Linked() && Tree() == old(Tree())
      ensures ok <==> forall k :: k in old(vecIndex) ==> k in blockMap
      ensures ok ==> Model() == old(Model()).(used := Filter(old(vecIndex), keep))
      ensures !ok ==> Model() == old(Model()).(used := vecIndex)
      ensures !ok ==> SweptUpTo(old(vecIndex), old(blockMap.Keys), keep, vecIndex)
    {
      ok := SweepIndices(keep);
    }

    lemma MarksSay(t: map<int, Block>, leaf: int)
      requires Linked() && TreeInv(t) && leaf in t && Tree() == Marked(t, Path(t, leaf))
      ensures forall k :: k in blockMap ==> k in t && (k in ToSet(Path(t, leaf)) <==> blockMap[k].isInLongest)
      ensures forall k :: k in blockMap && k in ToSet(Path(t, leaf)) && blockMap[k].next != null ==>
        blockMap[k].next.index in ToSet(Path(t, leaf))
    {
      KeepIsMarks(t, leaf);
      forall k | k in blockMap
        ensures k in t && (k in ToSet(Path(t, leaf)) <==> blockMap[k].isInLongest)
        ensures blockMap[k].next != null ==> t[k].next == Some(blockMap[k].next.index)
      {
        assert k in Tree() && Tree()[k] == blockMap[k].View();
      }
    }

    method EraseAndClear(ghost t: map<int, Block>, ghost leaf: int)
      requires Linked() && TreeInv(t) && leaf in t && Tree() == Marked(t, Path(t, leaf))
      modifies this`blockMap, blockMap.Values
      ensures Linked() && blockMap.Values <= old(blockMap.Values)
      ensures Model() == old(Model()).(attached := map k | k in t && k in ToSet(Path(t, leaf)) :: t[k])
    {
      MarksSay(t, leaf);
      EraseUnmarked(ToSet(Path(t, leaf)));
      ClearMarks();
      PrunedTree(t, leaf);
    }
  }

  /** The tree with the marks of the listed blocks taken off. */
  ghost function Cleared(t: map<int, Block>, seen: seq<int>): map<int, Block> {
    map k | k in t :: if k in seen then t[k].(marked := false) else t[k]
  }

  lemma ClearNone(t: map<int, Block>)
    ensures Cleared(t, []) == t
  {
  }

  lemma ClearNext(t: map<int, Block>, keys: seq<int>, i: nat)
    requires i < |keys| && ToSet(keys) == t.Keys
    ensures var u := Cleared(t, keys[..i]);
      keys[i] in u && u[keys[i] := u[keys[i]].(marked := false)] == Cleared(t, keys[..i + 1])
  {
    assert keys[..i + 1] == keys[..i] + [keys[i]];
    assert keys[i] in ToSet(keys);
  }

  lemma ClearDone(t: map<int, Block>, keys: seq<int>)
    requires ToSet(keys) == t.Keys
    ensures Cleared(t, keys[..|keys|]) == Marked(t, [])
  {
    assert keys[..|keys|] == keys;
    assert forall k :: k in t ==> k in ToSet(keys);
  }

  /** Marks on a path are closed under next pointers. */
  lemma KeepIsMarks(t: map<int, Block>, leaf: int)
    requires TreeInv(t) && leaf in t
    ensures forall k :: k in t && k in Path(t, leaf) && t[k].next.Some? ==> t[k].next.value in Path(t, leaf)
  {
    forall k | k in t && k in Path(t, leaf) && t[k].next.Some? ensures t[k].next.value in Path(t, leaf) {
      PathMember(t, leaf, k);
      assert k != GENESIS ==> HangsOn(t, t[k]);
    }
  }

  lemma PrunedTree(t: map<int, Block>, leaf: int)
    requires TreeInv(t) && leaf in t
    ensures var keep := ToSet(Path(t, leaf)); var u := Marked(t, Path(t, leaf));
      Marked(map k | k in u && k in keep :: u[k], []) == map k | k in t && k in keep :: t[k]
  {
    var keep, u := ToSet(Path(t, leaf)), Marked(t, Path(t, leaf));
    forall k | k in t && k in keep ensures u[k].(marked := false) == t[k] {
    }
  }

  /** In a good state an index in use is missing from the map just when its block is pending. */
  lemma PendingIsUnattached(s: Chain)
    requires Inv(s) && s.initiated
    ensures s.pending == [] <==> forall k :: k in s.used ==> k in s.attached
  {
    if s.pending != [] {
      assert Waiting(s.attached, s.pending[0]);
      assert Indices(s.pending)[0] in s.used;
    }
  }

  // ------------------------------------------------------------------ sweeping

  ghost predicate DroppedUpTo(keys: seq<int>, i: nat, keep: set<int>, dropped: set<int>)
    requires i <= |keys|
  {
    forall k :: k in dropped <==> k in keys[..i] && k !in keep
  }

  lemma DropNext(was: map<int, BlockObj>, keys: seq<int>, i: nat, keep: set<int>, dropped: set<int>)
    requires Ascending(keys) && i < |keys| && DroppedUpTo(keys, i, keep, dropped) && ToSet(keys) == was.Keys
    ensures keys[i] in was - dropped && (was - dropped)[keys[i]] == was[keys[i]]
    ensures keys[i] in keep ==> DroppedUpTo(keys, i + 1, keep, dropped)
    ensures keys[i] !in keep ==>
      DroppedUpTo(keys, i + 1, keep, dropped + {keys[i]}) && was - dropped - {keys[i]} == was - (dropped + {keys[i]})
  {
    assert keys[..i + 1] == keys[..i] + [keys[i]];
    var x := keys[i];
    assert x !in keys[..i];
    assert x !in dropped;
    assert x in ToSet(keys);
  }

  lemma DropDone(was: map<int, BlockObj>, keys: seq<int>, keep: set<int>, dropped: set<int>)
    requires DroppedUpTo(keys, |keys|, keep, dropped) && ToSet(keys) == was.Keys
    ensures was - dropped == map k | k in was && k in keep :: was[k]
  {
    assert keys[..|keys|] == keys;
    forall k | k in was ensures k in dropped <==> k !in keep {
      assert k in ToSet(keys);
    }
  }

  /** The vector while it is being swept: the first `done` old entries are filtered, the rest is
      as it was, and the iterator stands between the two. */
  ghost predicate Swept(was: seq<int>, done: nat, keep: set<int>, v: seq<int>, i: nat) {
    done <= |was| && v == Filter(was[..done], keep) + was[done..] && i == |Filter(was[..done], keep)|
  }

  /** The vector when the sweep meets a number that is not among `keys`: the entries before that
      number are filtered, the rest is as it was. */
  ghost predicate SweptUpTo(was: seq<int>, keys: set<int>, keep: set<int>, v: seq<int>) {
    exists done :: 0 <= done < |was| && Filter(was[..done], keep) + was[done..] == v
      && was[done] !in keys && forall k :: k in was[..done] ==> k in keys
  }

  lemma SweepAt(was: seq<int>, done: nat, keep: set<int>, v: seq<int>, i: nat)
    requires Swept(was, done, keep, v, i) && i < |v|
    ensures done < |was| && v[i] == was[done]
    ensures was[done] in keep ==> Swept(was, done + 1, keep, v, i + 1)
    ensures was[done] !in keep ==> Swept(was, done + 1, keep, v[..i] + v[i + 1..], i)
  {
    assert was[..done + 1] == was[..done] + [was[done]];
    FilterSnoc(was[..done], was[done], keep);
    assert was[done..] == [was[done]] + was[done + 1..];
  }

  lemma SweepDone(was: seq<int>, done: nat, keep: set<int>, v: seq<int>, i: nat)
    requires Swept(was, done, keep, v, i) && i >= |v|
    ensures was[..done] == was && v == Filter(was, keep)
  {
    assert |v| == i + |was[done..]|;
    assert was[..done] == was;
  }

  lemma {:induction false} FilterSnoc(s: seq<int>, x: int, keep: set<int>)
    ensures Filter(s + [x], keep) == Filter(s, keep) + (if x in keep then [x] else [])
  {
    if s == [] {
      assert Filter([x][1..], keep) == [];
    } else {
      assert (s + [x])[1..] == s[1..] + [x];
      FilterSnoc(s[1..], x, keep);
    }
  }

  /** A prune that threw: the path from a deepest block is marked and the numbers swept up to the
      first pending one; nothing is erased from the tree. */
  ghost predicate Interrupted(m: Chain, leaf: int, m': Chain) {
    && TreeInv(m.attached) && Deepest(m.attached, leaf)
    && m' == m.(attached := Marked(m.attached, Path(m.attached, leaf)), used := m'.used)
    && SweptUpTo(m.used, m.attached.Keys, ToSet(Path(m.attached, leaf)), m'.used)
  }

  // ------------------------------------------------------------------ marks

  /** The tree with marks on the blocks of `p` and on no others. */
  ghost function Marked(t: map<int, Block>, p: seq<int>): map<int, Block> {
    map k | k in t :: t[k].(marked := k in p)
  }

  lemma MarkNone(t: map<int, Block>)
    requires forall k :: k in t ==> !t[k].marked
    ensures Marked(t, []) == t
  {
    assert forall k :: k in t ==> t[k].(marked := false) == t[k];
  }

  lemma MarkOne(t: map<int, Block>, seen: seq<int>, k: int)
    requires k in t
    ensures Marked(t, seen)[k := t[k].(marked := true)] == Marked(t, seen + [k])
  {
    forall j | j in t && j != k ensures j in seen + [k] <==> j in seen {
    }
  }

  /** The walk from `leaf` has passed the blocks in `seen` and stands at `k`. */
  ghost predicate Walking(t: map<int, Block>, leaf: int, seen: seq<int>, k: int)
    requires TreeInv(t)
  {
    leaf in t && k in t && Path(t, leaf) == seen + Path(t, k)
  }

  /** Where the walk goes on: the next pointer leads to the father, and genesis has none. */
  lemma UpOne(t: map<int, Block>, leaf: int, seen: seq<int>, k: int)
    requires TreeInv(t) && Walking(t, leaf, seen, k)
    ensures t[k].next == None ==> k == GENESIS && Path(t, leaf) == seen + [k]
    ensures t[k].next.Some? ==>
      && k != GENESIS && t[k].next == Some(t[k].father) && t[k].father in t
      && t[t[k].father].depth == t[k].depth - 1
      && Walking(t, leaf, seen + [k], t[k].father)
  {
    if k != GENESIS {
      assert HangsOn(t, t[k]);
      assert Path(t, k) == [k] + Path(t, t[k].father);
      assert seen + Path(t, k) == seen + [k] + Path(t, t[k].father);
    }
  }

  // ------------------------------------------------------------------ steps of the state machine

  /** The event can happen and leads there. */
  ghost predicate Takes(s: Chain, e: Event, s': Chain) {
    Inv(s) && Enabled(s, e) && s' == Step(s, e)
  }

  /** A hash made from the block's own data with a nonce for the block. */
  ghost predicate HashOf(b: Block, h: Hash) {
    h.data == b.data && h.nonce.block == b.index
  }

  /** The state after draining rounds `es`, and what they printed. */
  ghost predicate Drained(m: Chain, es: seq<Event>, s: Chain, printed: seq<Hash>)
    requires Inv(m)
  {
    && Possible(m, es) && Run(m, es) == s && (forall e :: e in es ==> e.Drain?)
    && |es| <= |m.pending| && s.pending == m.pending[|es|..]
    && |printed| == |es| && (forall i :: 0 <= i < |printed| ==> HashOf(m.pending[i], printed[i]))
    && forall i :: 0 <= i < |printed| ==> AttachedWith(s, m.pending[i].index, printed[i])
  }

  /** The block is in the tree with this hash. */
  ghost predicate AttachedWith(s: Chain, n: int, h: Hash) {
    n in s.attached && s.attached[n].hash == Some(h)
  }

  lemma DrainedNext(m: Chain, es: seq<Event>, s: Chain, printed: seq<Hash>, e: Event, s': Chain, h: Hash)
    requires Inv(m) && Drained(m, es, s, printed) && s.pending != []
    requires e.Drain? && Takes(s, e, s') && s'.pending == s.pending[1..] && HashOf(s.pending[0], h)
    requires AttachedWith(s', s.pending[0].index, h)
    ensures Drained(m, es + [e], s', printed + [h])
  {
    RunAppend(m, es, e);
    AttachEffect(s, e);
    forall i | 0 <= i < |printed| ensures AttachedWith(s', m.pending[i].index, printed[i]) {
      assert AttachedWith(s, m.pending[i].index, printed[i]);
    }
  }

  lemma DrainTakes(m: Chain, father: int, salt: int, s: Chain)
    requires Inv(m) && m.initiated && m.closing && m.pending != []
    requires Added(m.(pending := m.pending[1..]), m.pending[0], father, salt, s)
    ensures Takes(m, Drain(father, salt), s) && Inv(s) && s.pending == m.pending[1..]
  {
    StepInv(m, Drain(father, salt));
  }

  lemma Stepped(s: Chain, e: Event)
    requires Inv(s) && Enabled(s, e)
    ensures Takes(s, e, Step(s, e)) && Inv(Step(s, e))
  {
    StepInv(s, e);
  }

  /** What the queue's front is like in a good state. */
  lemma FrontFacts(s: Chain)
    requires Inv(s) && s.initiated && s.pending != []
    ensures s.pending[0].index !in s.attached && s.attached != map[] && forall k :: k in s.attached ==> 0 <= k
    ensures s.pending[0].index in Indices(s.pending) && Place(s.pending, s.pending[0].index) == 0
  {
    assert Waiting(s.attached, s.pending[0]);
    assert Indices(s.pending)[0] == s.pending[0].index;
  }

  function Without(q: seq<Block>, i: nat): seq<Block>
    requires i < |q|
  {
    q[..i] + q[i + 1..]
  }

  ghost predicate Popped(q: seq<BlockObj>, i: nat, b: BlockObj?, r: seq<BlockObj>) {
    i < |q| && b == q[i] && r == q[..i] + q[i + 1..]
  }

  lemma FoundAt(q: seq<Block>, i: nat)
    requires i < |q| && q[i].index !in Indices(q)[..i]
    ensures q[i].index in Indices(q) && Place(q, q[i].index) == i
  {
    FirstOccurrence(Indices(q), q[i].index, i);
  }

  ghost predicate Added(s: Chain, b: Block, father: int, salt: int, s': Chain) {
    (b.toLongest ==> Deepest(s.attached, father)) && s' == ChainModel.AddAndHash(s, b, father, salt)
  }

  function Hashed(v: Block, f: int, salt: int): Block {
    v.(father := f, hash := Some(Hash(v.data, Nonce(v.index, f, salt))), next := Some(f))
  }

  function Hung(s: Chain, c: Block, f: int): Chain {
    if f in s.attached then s.(attached := s.attached[c.index := c]) else s
  }

  /** The first place of the sorted vector that does not hold its own position. */
  lemma GapIsLeastFree(was: seq<int>, idx: nat)
    requires NoDup(was) && forall i :: 0 <= i < |was| ==> 0 <= was[i]
    requires var v := Sort(was);
      idx <= |v| && (forall j :: 0 <= j < idx ==> v[j] == j) && (idx < |v| ==> v[idx] != idx)
    ensures idx == LeastFree(ToSet(was))
  {
    var v := Sort(was);
    SortNoDup(was);
    assert forall i :: 0 <= i < |v| ==> v[i] in ToSet(v) && v[i] in ToSet(was);
    ScanFindsLeastFree(v, idx);
  }

  lemma AddedBy(s: Chain, b: Block, v: Block, f: int, salt: int)
    requires v == b.(depth := v.depth)
    requires if b.toLongest then Deepest(s.attached, f) && v.depth == s.attached[f].depth + 1
             else f == b.father && v.depth == b.depth
    ensures Added(s, b, f, salt, Hung(s.(inDaemon := b.index), Hashed(v, f, salt), f))
  {
  }

  lemma AddTakes(m: Chain, m1: Chain, data: Data, idx: int, father: int, m2: Chain)
    requires Inv(m) && IsOpen(m) && Deepest(m1.attached, father)
    requires m1 == m.(used := Sort(m.used)) && idx == NextIndex(m)
    requires m2 == m1.(used := m1.used + [idx],
                       pending := m1.pending + [NewBlock(idx, data, father, m1.attached[father].depth + 1)])
    ensures Takes(m, AddBlock(data, father), m2) && Inv(m2)
  {
    StepInv(m, AddBlock(data, father));
  }

  lemma DaemonTakes(m: Chain, father: int, salt: int, s: Chain)
    requires Inv(m) && m.initiated && !m.closing && m.pending != []
    requires Added(m.(pending := m.pending[1..]), m.pending[0], father, salt, s)
    ensures Takes(m, Daemon(father, salt), s.(counter := s.counter + 1)) && Inv(s.(counter := s.counter + 1))
  {
    StepInv(m, Daemon(father, salt));
  }

  lemma UsedNonNegative(s: Chain)
    requires Inv(s) && s.initiated
    ensures forall i :: 0 <= i < |s.used| ==> 0 <= s.used[i]
  {
    forall i | 0 <= i < |s.used| ensures 0 <= s.used[i] {
      var k := s.used[i];
      assert k in s.used;
      if k in Indices(s.pending) {
        assert Waiting(s.attached, s.pending[Place(s.pending, k)]);
      }
    }
  }
}
