/** The caching file system of ex4: a fixed number of slots, each with one block of one file and a
    use counter, and a read loop that takes blocks from the slots or from the disk. File
    contents are immutable byte strings; only renames change the directory. */
module CacheModel {
  import opened Collections

  const INT_MAX := 0x7fff_ffff
  const NUL := '\0'

  type Bytes = seq<char>
  type Files = map<string, Bytes>

  /** One slot; `path` is None until the slot is first used. Blocks are numbered from 1. */
  datatype Slot = Slot(path: Option<string>, data: Bytes, num: int, counter: int)

  type Cache = seq<Slot>

  datatype ReadResult = ReadResult(cache: Cache, data: Bytes)

  // ------------------------------------------------------------------ bytes

  /** The first NUL from `i` on, or the end. */
  function NulFrom(s: Bytes, i: nat): (n: nat)
    requires i <= |s|
    ensures i <= n <= |s|
    decreases |s| - i
  {
    if i == |s| || s[i] == NUL then i else NulFrom(s, i + 1)
  }

  /** What `strcpy` copies of a buffer: everything before the first NUL. */
  function CString(s: Bytes): Bytes {
    s[..NulFrom(s, 0)]
  }

  predicate NulFree(s: Bytes) {
    NUL !in s
  }

  lemma {:induction false} NulFromIsFirst(s: Bytes, i: nat)
    requires i <= |s|
    ensures NulFree(s[i..NulFrom(s, i)]) && (NulFrom(s, i) < |s| ==> s[NulFrom(s, i)] == NUL)
    decreases |s| - i
  {
    if i == |s| || s[i] == NUL {
    } else {
      NulFromIsFirst(s, i + 1);
      assert s[i..NulFrom(s, i)] == [s[i]] + s[i + 1..NulFrom(s, i)];
    }
  }

  lemma CStringWhole(s: Bytes)
    ensures CString(s) == s <==> NulFree(s)
    ensures NulFree(CString(s))
  {
    NulFromIsFirst(s, 0);
    assert s[0..NulFrom(s, 0)] == CString(s);
  }

  /** The copy is everything before the first NUL: a prefix without one, whole or followed by one. */
  lemma CStringIsPrefix(s: Bytes)
    ensures CString(s) <= s && NulFree(CString(s))
    ensures |CString(s)| < |s| ==> s[|CString(s)|] == NUL
  {
    CStringWhole(s);
    NulFromIsFirst(s, 0);
  }

  function Min(a: int, b: int): int {
    if a < b then a else b
  }

  /** `pread`: the bytes from `offset` on, at most `n`, fewer at the end of the file. */
  function Pread(content: Bytes, n: nat, offset: nat): (r: Bytes)
    ensures |r| <= n
  {
    if offset >= |content| then [] else content[offset..Min(offset + n, |content|)]
  }

  /** Byte by byte, and as many as there are and were asked for. */
  lemma PreadBytes(content: Bytes, n: nat, offset: nat)
    ensures var r := Pread(content, n, offset);
      && |r| == (if offset + n <= |content| then n else if offset <= |content| then |content| - offset else 0)
      && forall i :: 0 <= i < |r| ==> r[i] == content[offset + i]
  {
  }

  // ------------------------------------------------------------------ the slots

  predicate Holds(s: Slot, path: string, num: int) {
    s.path == Some(path) && s.num == num
  }

  function LookupFrom(c: Cache, path: string, num: int, i: nat): (r: Option<nat>)
    requires i <= |c|
    ensures r.Some? ==> i <= r.value < |c|
    decreases |c| - i
  {
    if i == |c| then None
    else if Holds(c[i], path, num) then Some(i)
    else LookupFrom(c, path, num, i + 1)
  }

  function Lookup(c: Cache, path: string, num: int): (r: Option<nat>)
    ensures r.Some? ==> r.value < |c|
  {
    LookupFrom(c, path, num, 0)
  }

  /** The lookup finds the first slot that holds the block, and fails only if there is none. */
  lemma LookupFinds(c: Cache, path: string, num: int)
    ensures match Lookup(c, path, num)
      case Some(k) => Holds(c[k], path, num) && forall j :: 0 <= j < k ==> !Holds(c[j], path, num)
      case None => forall j :: 0 <= j < |c| ==> !Holds(c[j], path, num)
  {
    LookupFromFinds(c, path, num, 0);
  }

  lemma {:induction false} LookupFromFinds(c: Cache, path: string, num: int, i: nat)
    requires i <= |c|
    ensures match LookupFrom(c, path, num, i)
      case Some(k) => Holds(c[k], path, num) && forall j :: i <= j < k ==> !Holds(c[j], path, num)
      case None => forall j :: i <= j < |c| ==> !Holds(c[j], path, num)
    decreases |c| - i
  {
    if i == |c| || Holds(c[i], path, num) {
    } else {
      LookupFromFinds(c, path, num, i + 1);
    }
  }

  /** The scan for the smallest counter among the first `n` slots: where it is, and what it is. */
  function MinScan(c: Cache, n: nat): (r: (nat, int))
    requires n <= |c|
    ensures r.0 < n || r.0 == 0
  {
    if n == 0 then (0, INT_MAX)
    else
      var m := MinScan(c, n - 1);
      if c[n - 1].counter < m.1 then (n - 1, c[n - 1].counter) else m
  }

  /** The scan's outcome, overflowing counters included: then it stays at the first slot. */
  lemma {:induction false} MinScanIsFirst(c: Cache, n: nat)
    requires n <= |c|
    ensures var (k, least) := MinScan(c, n);
      && least <= INT_MAX && (k < n || k == 0) && (least == INT_MAX ==> k == 0)
      && (forall j :: 0 <= j < n ==> least <= c[j].counter)
      && (forall j :: 0 <= j < k ==> least < c[j].counter)
      && (least < INT_MAX ==> k < n && c[k].counter == least)
  {
    if n == 0 {
    } else {
      MinScanIsFirst(c, n - 1);
    }
  }

  /** The slot that a miss overwrites. */
  function Victim(c: Cache): (v: nat)
    requires c != []
    ensures v < |c|
  {
    MinScan(c, |c|).0
  }

  /** The victim is the first slot whose counter is minimal, as long as no counter overflows. */
  lemma VictimIsMinimal(c: Cache)
    requires c != [] && forall j :: 0 <= j < |c| ==> c[j].counter <= INT_MAX
    ensures forall j :: 0 <= j < |c| ==> c[Victim(c)].counter <= c[j].counter
    ensures forall j :: 0 <= j < Victim(c) ==> c[Victim(c)].counter < c[j].counter
  {
    MinScanIsFirst(c, |c|);
  }

  function Bump(c: Cache, i: nat): (r: Cache)
    requires i < |c|
    ensures |r| == |c|
  {
    c[i := c[i].(counter := c[i].counter + 1)]
  }

  /** One use of a block: a hit counts it; a miss loads it over the victim, counted once. */
  function Touch(c: Cache, path: string, num: int, data: Bytes): (r: Cache)
    requires c != []
    ensures |r| == |c|
  {
    match Lookup(c, path, num)
    case Some(i) => Bump(c, i)
    case None => c[Victim(c) := Slot(Some(path), data, num, 1)]
  }

  // ------------------------------------------------------------------ the read loop

  /** A conversion to a 32-bit `int`. */
  function ToInt32(x: int): int {
    var m := x % 0x1_0000_0000;
    if m < 0x8000_0000 then m else m - 0x1_0000_0000
  }

  /** The one 32-bit value that is equal to `x` up to multiples of 2^32. */
  lemma ToInt32IsCast(x: int)
    ensures -0x8000_0000 <= ToInt32(x) < 0x8000_0000
    ensures exists k: int :: x == ToInt32(x) + k * 0x1_0000_0000
  {
    var m := x % 0x1_0000_0000;
    var q := x / 0x1_0000_0000;
    assert x == q * 0x1_0000_0000 + m;
    if m < 0x8000_0000 {
      assert x == ToInt32(x) + q * 0x1_0000_0000;
    } else {
      assert x == ToInt32(x) + (q + 1) * 0x1_0000_0000;
    }
  }

  /** The loop's condition as it is parsed: the sum `offset + cond` is the condition of the whole
      conditional expression, whose branches are converted to `unsigned long`. */
  function Limit(length: nat, size: nat, offset: nat): int {
    var cond := if (offset + size) % 0x1_0000_0000 > length then 1 else 0;
    if offset + cond != 0 then (length - offset) % 0x1_0000_0000_0000_0000 else size
  }

  function LoopBound(length: nat, size: nat, offset: nat, blockSize: int): int
    requires blockSize > 0
  {
    ToInt32(Limit(length, size, offset) / blockSize)
  }

  /** The place of the block that a byte is in, `x / blockSize`, by repeated subtraction. */
  function PlaceOf(x: nat, blockSize: int): nat
    requires blockSize > 0
  {
    if x < blockSize then 0 else PlaceOf(x - blockSize, blockSize) + 1
  }

  /** The variables of the read loop: `left` bytes may still be asked from the disk. */
  datatype LoopState = LoopState(cache: Cache, left: nat, data: Bytes, finish: bool)

  /** One turn: the block that starts after what is collected comes from its slot or, as far as
      `left` reaches, from the disk; a disk read short of a block is the last. */
  function Turn(s: LoopState, content: Bytes, path: string, blockSize: int, offset: nat): (r: LoopState)
    requires s.cache != [] && blockSize > 0
    ensures |r.cache| == |s.cache|
  {
    var adv := offset + |s.data|;
    var num := PlaceOf(adv, blockSize) + 1;
    match Lookup(s.cache, path, num)
    case Some(k) =>
      LoopState(Bump(s.cache, k), s.left, s.data + s.cache[k].data, false)
    case None =>
      var chunk := Pread(content, Min(s.left, blockSize), adv);
      if chunk == [] then s.(finish := true)
      else
        LoopState(Touch(s.cache, path, num, CString(chunk)), s.left - |chunk|, s.data + CString(chunk),
                  |chunk| < blockSize)
  }

  /** The turns from `i` up to the bound, or until the loop is finished. */
  function Loop(s: LoopState, content: Bytes, path: string, blockSize: int, offset: nat,
                bound: int, i: int): (r: LoopState)
    requires s.cache != [] && blockSize > 0
    ensures |r.cache| == |s.cache|
    decreases bound - i
  {
    if s.finish || i > bound then s
    else Loop(Turn(s, content, path, blockSize, offset), content, path, blockSize, offset, bound, i + 1)
  }

  function Read(c: Cache, content: Bytes, path: string, blockSize: int, size: nat, offset: nat): (r: ReadResult)
    requires c != [] && blockSize > 0
    ensures |r.cache| == |c|
  {
    var s := Loop(LoopState(c, size, [], false), content, path, blockSize, offset,
                  LoopBound(|content|, size, offset, blockSize), ToInt32(offset / blockSize));
    ReadResult(s.cache, s.data)
  }

  // ------------------------------------------------------------------ other operations

  function InitCache(n: nat): (c: Cache)
    ensures |c| == n
  {
    seq(n, _ => Slot(None, [], 0, 0))
  }

  function Renamed(s: Slot, path: string, newpath: string): Slot {
    if s.path == Some(path) then s.(path := Some(newpath)) else s
  }

  function RenameSlots(c: Cache, path: string, newpath: string): (r: Cache)
    ensures |r| == |c|
  {
    seq(|c|, i requires 0 <= i < |c| => Renamed(c[i], path, newpath))
  }

  /** `rename` replaces whatever file had the new name. */
  function RenameFiles(files: Files, path: string, newpath: string): Files
    requires path in files
  {
    (files - {path})[newpath := files[path]]
  }

  /** The file has its new name and no longer its old one; whatever had the new name is replaced, and all
      other files are as they were. */
  lemma RenameFilesEffect(files: Files, path: string, newpath: string)
    requires path in files
    ensures var files' := RenameFiles(files, path, newpath);
      && newpath in files' && files'[newpath] == files[path]
      && (path != newpath ==> path !in files')
      && forall p :: p != path && p != newpath ==>
           (p in files' <==> p in files) && (p in files ==> files'[p] == files[p])
  {
  }

  // ------------------------------------------------------------------ soundness

  /** Where a block begins, counting places from 0. */
  function Start(place: nat, blockSize: int): nat
    requires blockSize > 0
  {
    if place == 0 then 0 else Start(place - 1, blockSize) + blockSize
  }

  lemma {:induction false} StartIs(place: nat, blockSize: int)
    requires blockSize > 0
    ensures Start(place, blockSize) == place * blockSize
  {
    if place == 0 {
    } else {
      StartIs(place - 1, blockSize);
      assert place * blockSize == (place - 1) * blockSize + blockSize;
    }
  }

  /** The true contents of the block at a place. */
  function BlockOf(content: Bytes, blockSize: int, place: nat): Bytes
    requires blockSize > 0
  {
    Pread(content, blockSize, Start(place, blockSize))
  }

  /** A slot never used has counter 0; any other holds a block of an existing file as it really is. */
  predicate TrueSlot(s: Slot, files: Files, blockSize: int)
    requires blockSize > 0
  {
    match s.path
    case None => s.counter == 0
    case Some(path) =>
      && path in files && s.num >= 1 && Start(s.num - 1, blockSize) < |files[path]|
      && s.data == BlockOf(files[path], blockSize, s.num - 1)
      && s.counter >= 1
  }

  predicate SameBlock(a: Slot, b: Slot) {
    a.path.Some? && a.path == b.path && a.num == b.num
  }

  /** All slots are as they should be. */
  ghost predicate Truthful(c: Cache, files: Files, blockSize: int)
    requires blockSize > 0
  {
    c != [] && forall i :: 0 <= i < |c| ==> TrueSlot(c[i], files, blockSize)
  }

  /** No two slots hold the same block. */
  ghost predicate NoTwice(c: Cache) {
    forall i, j :: 0 <= i < j < |c| ==> !SameBlock(c[i], c[j])
  }

  ghost predicate Sound(c: Cache, files: Files, blockSize: int)
    requires blockSize > 0
  {
    Truthful(c, files, blockSize) && NoTwice(c)
  }
}
