/** The block chain manager of ex3 as a state machine. Attached blocks form a tree under the
    genesis block; pending blocks wait in a queue for the daemon; an event is one API call or
    one round of the daemon or of the closing thread, taken as atomic. */
module ChainModel {
  import opened Collections

  const GENESIS := 0

  type Data = seq<char>

  /** `generate_nonce` is random; a nonce records the pair it was drawn for and its random part. */
  datatype Nonce = Nonce(block: int, father: int, salt: int)

  /** `generate_hash` is not interpreted: a hash is known by what it was made from. */
  datatype Hash = Hash(data: Data, nonce: Nonce)

  datatype Block = Block(
    index: int,
    data: Data,
    father: int,
    depth: int,
    hash: Option<Hash>,
    next: Option<int>,
    marked: bool,
    toLongest: bool)

  function NewBlock(index: int, data: Data, father: int, depth: int): Block {
    Block(index, data, father, depth, None, None, false, false)
  }

  type Tree = map<int, Block>

  datatype Chain = Chain(
    attached: Tree,
    pending: seq<Block>,
    used: seq<int>,
    counter: int,
    inDaemon: int,
    initiated: bool,
    closing: bool)

  /** Where the code picks a deepest block at random, the event carries the pick; where it draws
      a nonce, the event carries the random part. */
  datatype Event =
    | InitChain
    | AddBlock(data: Data, father: int)
    | ToLongest(num: int)
    | AttachNow(num: int)
    | Daemon(father: int, salt: int)
    | Prune(leaf: int)
    | Close
    | Drain(father: int, salt: int)
    | Reset

  // ------------------------------------------------------------------ trees

  /** A block of maximal depth: what `findFather` returns. */
  ghost predicate Deepest(t: Tree, f: int) {
    f in t && forall k :: k in t ==> t[k].depth <= t[f].depth
  }

  /** A tree under genesis. Every other block's father is attached, is where its next pointer
      leads, and is one level up; and its hash was made with a nonce drawn for that father. */
  ghost predicate TreeInv(t: Tree) {
    && GENESIS in t && t[GENESIS].depth == 0 && t[GENESIS].next == None
    && (forall k :: k in t ==> t[k].index == k && 0 <= k && !t[k].marked)
    && (forall k :: k in t && k != GENESIS ==> HangsOn(t, t[k]))
  }

  ghost predicate HangsOn(t: Tree, b: Block) {
    && b.father in t && b.next == Some(b.father)
    && b.depth == t[b.father].depth + 1 && b.depth > 0
    && b.hash.Some? && b.hash.value.data == b.data
    && b.hash.value.nonce.block == b.index && b.hash.value.nonce.father == b.father
  }

  // ------------------------------------------------------------------ pending blocks and indices

  function Indices(q: seq<Block>): (r: seq<int>)
    ensures |r| == |q| && forall i :: 0 <= i < |q| ==> r[i] == q[i].index
  {
    seq(|q|, i requires 0 <= i < |q| => q[i].index)
  }

  /** Pending blocks have distinct indices that are not attached; the father each was given is
      still attached, and the depth it was given is still right for that father. */
  ghost predicate PendingInv(t: Tree, q: seq<Block>) {
    && NoDup(Indices(q))
    && (forall i :: 0 <= i < |q| ==> Waiting(t, q[i]))
  }

  ghost predicate Waiting(t: Tree, b: Block) {
    b.index > 0 && b.index !in t && b.father in t && b.depth == t[b.father].depth + 1 && !b.marked
  }

  ghost predicate Inv(s: Chain) {
    if s.initiated then
      TreeInv(s.attached) && PendingInv(s.attached, s.pending)
      && NoDup(s.used) && forall k :: k in s.used <==> k in s.attached || k in Indices(s.pending)
    else
      s.attached == map[] && s.pending == [] && s.used == [] && s.counter == 0 && !s.closing
  }

  // ------------------------------------------------------------------ steps

  function Uninitiated(): Chain {
    Chain(map[], [], [], 0, -1, false, false)
  }

  function InitStep(s: Chain): Chain {
    if s.initiated || s.closing then s
    else s.(attached := map[GENESIS := NewBlock(GENESIS, [], -1, 0)], used := [GENESIS], initiated := true)
  }

  function NextIndex(s: Chain): int {
    LeastFree(ToSet(s.used))
  }

  /** The father is fixed when the block is added: a deepest block at that moment. */
  function AddStep(s: Chain, data: Data, father: int): Chain
    requires father in s.attached
  {
    var b := NewBlock(NextIndex(s), data, father, s.attached[father].depth + 1);
    s.(used := Sort(s.used) + [b.index], pending := s.pending + [b])
  }

  /** The position of the pending block `num`. */
  function Place(q: seq<Block>, num: int): (i: nat)
    requires num in Indices(q)
    ensures i < |q| && q[i].index == num && num !in Indices(q)[..i]
  {
    IndexOf(Indices(q), num)
  }

  function ToLongestStep(s: Chain, num: int): Chain {
    if !s.initiated || num in s.attached || num !in Indices(s.pending) then s
    else
      var i := Place(s.pending, num);
      s.(pending := s.pending[i := s.pending[i].(toLongest := true)])
  }

  function ToFront(q: seq<Block>, i: nat): seq<Block>
    requires i < |q|
  {
    [q[i]] + (q[..i] + q[i + 1..])
  }

  /** A block whose number the daemon attached last is only waited for, not moved. */
  function AttachNowStep(s: Chain, num: int): Chain {
    if !IsOpen(s) || num in s.attached || num == s.inDaemon || num !in Indices(s.pending) then s
    else s.(pending := ToFront(s.pending, Place(s.pending, num)))
  }

  /** The block as it is attached: flagged blocks take the deepest father of the moment. */
  function Finished(t: Tree, b: Block, father: int, salt: int): Block
    requires b.toLongest ==> father in t
  {
    var f := if b.toLongest then father else b.father;
    b.(father := f, depth := if b.toLongest then t[father].depth + 1 else b.depth,
       hash := Some(Hash(b.data, Nonce(b.index, f, salt))),
       next := if f in t then Some(f) else b.next)
  }

  /** `addAndHash`: a block whose father is gone is dropped. */
  function AddAndHash(s: Chain, b: Block, father: int, salt: int): Chain
    requires b.toLongest ==> father in s.attached
  {
    var c := Finished(s.attached, b, father, salt);
    s.(inDaemon := b.index, attached := if c.father in s.attached then s.attached[b.index := c] else s.attached)
  }

  function AttachFirst(s: Chain, father: int, salt: int): Chain
    requires s.pending != [] && (s.pending[0].toLongest ==> father in s.attached)
  {
    AddAndHash(s.(pending := s.pending[1..]), s.pending[0], father, salt)
  }

  /** The path from a block up to genesis. */
  ghost function Path(t: Tree, k: int): (p: seq<int>)
    requires TreeInv(t) && k in t
    ensures |p| == t[k].depth + 1 && p[0] == k
    decreases t[k].depth
  {
    if k == GENESIS then [GENESIS]
    else
      assert HangsOn(t, t[k]);
      [k] + Path(t, t[k].father)
  }

  function Filter(s: seq<int>, keep: set<int>): seq<int> {
    if s == [] then []
    else if s[0] in keep then [s[0]] + Filter(s[1..], keep)
    else Filter(s[1..], keep)
  }

  lemma {:induction false} FilterMembers(s: seq<int>, keep: set<int>)
    ensures forall k :: k in Filter(s, keep) <==> k in s && k in keep
    ensures NoDup(s) ==> NoDup(Filter(s, keep))
  {
    if s == [] {
    } else {
      FilterMembers(s[1..], keep);
    }
  }

  ghost function PruneStep(s: Chain, leaf: int): Chain
    requires TreeInv(s.attached) && leaf in s.attached
  {
    var keep := ToSet(Path(s.attached, leaf));
    s.(attached := map k | k in s.attached && k in keep :: s.attached[k], used := Filter(s.used, keep))
  }

  function ResetStep(s: Chain): Chain {
    s.(attached := map[], used := [], counter := 0, closing := false, initiated := false)
  }

  /** Initialised and not being closed. */
  predicate IsOpen(s: Chain) {
    s.initiated && !s.closing
  }

  /** When an event can happen. The daemon works while the chain is open, the closing thread
      afterwards; pruning is only asked for when nothing is pending. */
  ghost predicate Enabled(s: Chain, e: Event) {
    match e
    case AddBlock(_, father) => IsOpen(s) ==> Deepest(s.attached, father)
    case Daemon(father, _) =>
      IsOpen(s) && s.pending != [] && (s.pending[0].toLongest ==> Deepest(s.attached, father))
    case Prune(leaf) => IsOpen(s) ==> s.pending == [] && Deepest(s.attached, leaf)
    case Drain(father, _) =>
      s.initiated && s.closing && s.pending != [] && (s.pending[0].toLongest ==> Deepest(s.attached, father))
    case Reset => s.initiated && s.closing && s.pending == []
    case _ => true
  }

  ghost function Step(s: Chain, e: Event): Chain
    requires Inv(s) && Enabled(s, e)
  {
    match e
    case InitChain => InitStep(s)
    case AddBlock(data, father) => if IsOpen(s) then AddStep(s, data, father) else s
    case ToLongest(num) => ToLongestStep(s, num)
    case AttachNow(num) => AttachNowStep(s, num)
    case Daemon(father, salt) =>
      var s' := AttachFirst(s, father, salt);
      s'.(counter := s'.counter + 1)
    case Prune(leaf) => if IsOpen(s) then PruneStep(s, leaf) else s
    case Close => if s.initiated then s.(closing := true) else s
    case Drain(father, salt) => AttachFirst(s, father, salt)
    case Reset => ResetStep(s)
  }

  // ------------------------------------------------------------------ the invariant is kept

  /** The father of a pending block is never missing, so the branch that drops an orphan is
      never taken: the first pending block always becomes attached. */
  lemma NoOrphans(s: Chain, father: int, salt: int)
    requires s.initiated && Inv(s) && s.pending != [] && (s.pending[0].toLongest ==> Deepest(s.attached, father))
    ensures var s' := AttachFirst(s, father, salt); var b := s.pending[0];
      && b.index !in s.attached && s'.attached == s.attached[b.index := Finished(s.attached, b, father, salt)]
      && HangsOn(s.attached, s'.attached[b.index])
  {
    assert Waiting(s.attached, s.pending[0]);
    DepthNonNegative(s.attached);
  }

  lemma DepthNonNegative(t: Tree)
    requires TreeInv(t)
    ensures forall k :: k in t ==> t[k].depth >= 0
  {
    forall k | k in t ensures t[k].depth >= 0 {
      assert k != GENESIS ==> HangsOn(t, t[k]);
    }
  }

  lemma AttachTree(t: Tree, b: Block)
    requires TreeInv(t) && HangsOn(t, b) && b.index !in t && b.index >= 0 && !b.marked
    ensures TreeInv(t[b.index := b])
  {
    var u := t[b.index := b];
    forall k | k in u && k != GENESIS ensures HangsOn(u, u[k]) {
      if k != b.index {
        assert HangsOn(t, t[k]);
      }
    }
  }

  lemma AttachPending(t: Tree, q: seq<Block>, c: Block)
    requires q != [] && PendingInv(t, q) && c.index == q[0].index
    ensures PendingInv(t[c.index := c], q[1..])
  {
    var u := t[c.index := c];
    forall i | 0 <= i < |q[1..]| ensures Waiting(u, q[1..][i]) {
      assert Waiting(t, q[i + 1]) && Waiting(t, q[0]);
      assert Indices(q)[0] != Indices(q)[i + 1];
    }
    assert Indices(q[1..]) == Indices(q)[1..];
  }

  lemma AttachInv(s: Chain, father: int, salt: int)
    requires s.initiated && Inv(s) && s.pending != [] && (s.pending[0].toLongest ==> Deepest(s.attached, father))
    ensures Inv(AttachFirst(s, father, salt))
  {
    var b := s.pending[0];
    var c := Finished(s.attached, b, father, salt);
    assert Waiting(s.attached, b);
    NoOrphans(s, father, salt);
    AttachTree(s.attached, c);
    AttachPending(s.attached, s.pending, c);
    var q := Indices(s.pending);
    assert Indices(s.pending[1..]) == q[1..];
    assert q == [b.index] + q[1..];
  }

  lemma AddPending(t: Tree, q: seq<Block>, b: Block)
    requires PendingInv(t, q) && Waiting(t, b) && b.index !in Indices(q)
    ensures PendingInv(t, q + [b])
    ensures forall k :: k in Indices(q + [b]) <==> k in Indices(q) || k == b.index
  {
    assert Indices(q + [b]) == Indices(q) + [b.index];
    Append(Indices(q), b.index);
  }

  lemma UseIndex(used: seq<int>, n: int)
    requires NoDup(used) && n !in used
    ensures NoDup(Sort(used) + [n]) && forall k :: k in Sort(used) + [n] <==> k in used || k == n
  {
    SortNoDup(used);
    assert forall k :: k in used <==> k in ToSet(used);
    assert forall k :: k in Sort(used) <==> k in ToSet(Sort(used));
    Append(Sort(used), n);
  }

  lemma FreshIndex(s: Chain)
    requires s.initiated && Inv(s)
    ensures NextIndex(s) > 0 && NextIndex(s) !in s.used
  {
    assert GENESIS in s.used;
    assert forall k :: k in s.used <==> k in ToSet(s.used);
  }

  lemma AddInv(s: Chain, data: Data, father: int)
    requires s.initiated && Inv(s) && father in s.attached
    ensures Inv(AddStep(s, data, father))
    ensures NextIndex(s) > 0 && NextIndex(s) !in s.used
  {
    var n := NextIndex(s);
    FreshIndex(s);
    UseIndex(s.used, n);
    AddPending(s.attached, s.pending, NewBlock(n, data, father, s.attached[father].depth + 1));
  }

  lemma FlagInv(s: Chain, num: int)
    requires Inv(s)
    ensures Inv(ToLongestStep(s, num))
    ensures Indices(ToLongestStep(s, num).pending) == Indices(s.pending)
  {
    if num in Indices(s.pending) {
      var i := Place(s.pending, num);
      var q := s.pending[i := s.pending[i].(toLongest := true)];
      assert Indices(q) == Indices(s.pending);
      assert Waiting(s.attached, s.pending[i]) || !s.initiated;
    }
  }

  lemma ToFrontIndices(q: seq<Block>, i: nat)
    requires i < |q|
    ensures Indices(ToFront(q, i)) == [q[i].index] + (Indices(q)[..i] + Indices(q)[i + 1..])
    ensures forall k :: k in Indices(ToFront(q, i)) <==> k in Indices(q)
    ensures NoDup(Indices(q)) ==> NoDup(Indices(ToFront(q, i)))
  {
    var a := Indices(q);
    var r := [a[i]] + (a[..i] + a[i + 1..]);
    assert Indices(ToFront(q, i)) == r;
    assert a == a[..i] + [a[i]] + a[i + 1..];
    assert forall k :: k in a[..i] + a[i + 1..] <==> k in a[..i] || k in a[i + 1..];
    if NoDup(a) {
      NoDupMiddle(a, i);
    }
  }

  lemma NoDupMiddle(a: seq<int>, i: nat)
    requires i < |a| && NoDup(a)
    ensures NoDup([a[i]] + (a[..i] + a[i + 1..]))
  {
    NoDupConcat(a[..i], a[i + 1..]);
    NoDupConcat([a[i]], a[..i] + a[i + 1..]);
  }

  lemma MoveInv(s: Chain, num: int)
    requires Inv(s)
    ensures Inv(AttachNowStep(s, num))
  {
    if num in Indices(s.pending) {
      ToFrontIndices(s.pending, Place(s.pending, num));
    }
  }
}
