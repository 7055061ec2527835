/** Whole runs of reads and renames, beside the same runs of a file system with no cache. */
module CacheRuns {
  import opened Collections
  import opened CacheModel
  import opened CacheReads
  import opened CacheMisses
  import opened CacheShortReads

  // ------------------------------------------------------------------ renames

  /** The slots that hold the replaced file say what the renamed file has. */
  predicate TargetTrue(c: Cache, files: Files, blockSize: int, path: string, newpath: string)
    requires blockSize > 0 && path in files
  {
    forall i :: 0 <= i < |c| && c[i].path == Some(newpath) ==> TrueSlot(c[i].(path := Some(path)), files, blockSize)
  }

  /** No block is cached for both files. */
  predicate Unshared(c: Cache, path: string, newpath: string) {
    forall i :: 0 <= i < |c| && c[i].path == Some(newpath) ==> Lookup(c, path, c[i].num).None?
  }

  /** A rename keeps all slots true if and only if the cached blocks of the file it replaces are
      those of the file it renames; in particular when the new name has no cached block. */
  lemma RenameTruthful(c: Cache, files: Files, blockSize: int, path: string, newpath: string)
    requires blockSize > 0 && Truthful(c, files, blockSize) && path in files
    ensures Truthful(RenameSlots(c, path, newpath), RenameFiles(files, path, newpath), blockSize) <==>
      path == newpath || TargetTrue(c, files, blockSize, path, newpath)
  {
    var c', files' := RenameSlots(c, path, newpath), RenameFiles(files, path, newpath);
    forall i | 0 <= i < |c|
      ensures TrueSlot(c'[i], files', blockSize) <==>
        path == newpath || c[i].path != Some(newpath) || TrueSlot(c[i].(path := Some(path)), files, blockSize)
    {
      assert TrueSlot(c[i], files, blockSize);
    }
  }

  /** It keeps every block in at most one slot if and only if no block is cached for both files. */
  lemma RenameNoTwice(c: Cache, path: string, newpath: string)
    requires NoTwice(c)
    ensures NoTwice(RenameSlots(c, path, newpath)) <==> path == newpath || Unshared(c, path, newpath)
  {
    var c' := RenameSlots(c, path, newpath);
    if path == newpath {
      assert c' == c;
    } else {
      if Unshared(c, path, newpath) {
        UnsharedNoTwice(c, path, newpath);
      }
      if NoTwice(c') {
        NoTwiceUnshared(c, path, newpath);
      }
    }
  }

  lemma UnsharedNoTwice(c: Cache, path: string, newpath: string)
    requires NoTwice(c) && path != newpath && Unshared(c, path, newpath)
    ensures NoTwice(RenameSlots(c, path, newpath))
  {
    var c' := RenameSlots(c, path, newpath);
    forall i, j | 0 <= i < j < |c'| ensures !SameBlock(c'[i], c'[j]) {
      assert !SameBlock(c[i], c[j]);
      LookupFinds(c, path, c[i].num);
      LookupFinds(c, path, c[j].num);
      assert c[i].path == Some(newpath) ==> !Holds(c[j], path, c[i].num);
      assert c[j].path == Some(newpath) ==> !Holds(c[i], path, c[j].num);
    }
  }

  lemma NoTwiceUnshared(c: Cache, path: string, newpath: string)
    requires path != newpath && NoTwice(RenameSlots(c, path, newpath))
    ensures Unshared(c, path, newpath)
  {
    var c' := RenameSlots(c, path, newpath);
    forall i | 0 <= i < |c| && c[i].path == Some(newpath) ensures Lookup(c, path, c[i].num).None? {
      LookupFinds(c, path, c[i].num);
      forall j | 0 <= j < |c| ensures !Holds(c[j], path, c[i].num) {
        assert !SameBlock(c'[i], c'[j]) || i >= j;
        assert !SameBlock(c'[j], c'[i]) || j >= i;
      }
    }
  }

  /** Both at once. */
  lemma RenameSound(c: Cache, files: Files, blockSize: int, path: string, newpath: string)
    requires blockSize > 0 && Sound(c, files, blockSize) && path in files
    ensures Sound(RenameSlots(c, path, newpath), RenameFiles(files, path, newpath), blockSize) <==>
      path == newpath || (TargetTrue(c, files, blockSize, path, newpath) && Unshared(c, path, newpath))
  {
    RenameTruthful(c, files, blockSize, path, newpath);
    RenameNoTwice(c, path, newpath);
  }

  // ------------------------------------------------------------------ runs

  datatype World = World(cache: Cache, files: Files)

  datatype Event =
    | ReadFile(path: string, size: nat, offset: nat)
    | RenameFile(path: string, newpath: string)

  datatype Answer = Data(bytes: Bytes) | Renamed(ok: bool)

  /** A rename of a missing file fails. */
  function Step(w: World, e: Event, blockSize: int): (r: (World, Answer))
    requires w.cache != [] && blockSize > 0 && (e.ReadFile? ==> e.path in w.files)
    ensures |r.0.cache| == |w.cache|
  {
    match e
    case ReadFile(path, size, offset) =>
      var r := Read(w.cache, w.files[path], path, blockSize, size, offset);
      (w.(cache := r.cache), Data(r.data))
    case RenameFile(path, newpath) =>
      if path in w.files then
        (World(RenameSlots(w.cache, path, newpath), RenameFiles(w.files, path, newpath)), Renamed(true))
      else (w, Renamed(false))
  }

  /** The same event with no cache between the caller and the files. */
  function DirectStep(files: Files, e: Event, blockSize: int): (Files, Answer)
    requires blockSize > 0 && (e.ReadFile? ==> e.path in files)
  {
    match e
    case ReadFile(path, size, offset) => (files, Data(Pread(files[path], size, offset)))
    case RenameFile(path, newpath) =>
      if path in files then (RenameFiles(files, path, newpath), Renamed(true)) else (files, Renamed(false))
  }

  ghost predicate Clean(files: Files) {
    forall p :: p in files ==> NulFree(files[p])
  }

  /** A read of an existing file starts at a block, and asks for everything up to the end of the file,
      or for whole blocks, or gets no truncated block for another reason: it starts at the beginning
      and has a block served from its slot, or the loop's bound stops it first. A rename is onto a
      name whose cached blocks, if any, are those of the renamed file. */
  predicate Allowed(w: World, e: Event, blockSize: int)
    requires blockSize > 0 && w.cache != []
  {
    match e
    case ReadFile(path, size, offset) =>
      && path in w.files
      && offset % blockSize == 0 && InRange(|w.files[path]|, blockSize, size, offset)
      && var length := |w.files[path]|;
      || length <= offset + size
      || (offset + size) % blockSize == 0
      || (if offset == 0 then !NoneServed(w.cache, path, 0, size / blockSize)
          else NoTurn(length, blockSize, offset) || Stop(length, blockSize, offset) <= offset + size)
    case RenameFile(path, newpath) =>
      path == newpath || path !in w.files || TargetTrue(w.cache, w.files, blockSize, path, newpath)
  }

  /** When a read's answer is exactly that of the file itself. */
  predicate Exact(w: World, e: Event, blockSize: int)
    requires w.cache != [] && blockSize > 0 && (e.ReadFile? ==> e.path in w.files)
  {
    match e
    case ReadFile(path, size, offset) =>
      var length := |w.files[path]|;
      if length <= offset + size then
        offset == 0 || offset >= length || (offset == blockSize && length % blockSize == 0)
      else if offset == 0 then NoneServed(w.cache, path, 0, size / blockSize)
      else LaterExact(w.cache, path, length, blockSize, size, offset)
    case RenameFile(_, _) => true
  }

  ghost predicate Good(w: World, blockSize: int)
    requires blockSize > 0
  {
    Truthful(w.cache, w.files, blockSize) && Clean(w.files)
  }

  lemma ReadRefines(w: World, path: string, size: nat, offset: nat, blockSize: int)
    requires blockSize > 0 && Good(w, blockSize) && Allowed(w, ReadFile(path, size, offset), blockSize)
    ensures var r := Read(w.cache, w.files[path], path, blockSize, size, offset);
      && Truthful(r.cache, w.files, blockSize)
      && (r.data == Pread(w.files[path], size, offset) <==> Exact(w, ReadFile(path, size, offset), blockSize))
  {
    if |w.files[path]| <= offset + size {
      AlignedReadExactly(w.cache, w.files, blockSize, path, size, offset);
    } else if offset == 0 {
      ShortReadExactly(w.cache, w.files, blockSize, path, size);
    } else {
      LaterReadRefines(w, path, size, offset, blockSize);
    }
  }

  lemma LaterReadRefines(w: World, path: string, size: nat, offset: nat, blockSize: int)
    requires blockSize > 0 && Good(w, blockSize) && Allowed(w, ReadFile(path, size, offset), blockSize)
    requires offset > 0 && offset + size < |w.files[path]|
    ensures var r := Read(w.cache, w.files[path], path, blockSize, size, offset);
      && Truthful(r.cache, w.files, blockSize)
      && (r.data == Pread(w.files[path], size, offset)
          <==> LaterExact(w.cache, path, |w.files[path]|, blockSize, size, offset))
  {
    var length := |w.files[path]|;
    WholeIs(offset + size, blockSize);
    assert Whole(offset + size, blockSize) || NoTurn(length, blockSize, offset)
        || Stop(length, blockSize, offset) <= offset + size;
    LaterReadExactly(w.cache, w.files, blockSize, path, size, offset);
    LaterKeepsTrue(w.cache, w.files, blockSize, path, size, offset,
                   Read(w.cache, w.files[path], path, blockSize, size, offset));
  }

  lemma LaterKeepsTrue(c: Cache, files: Files, blockSize: int, path: string, size: nat, offset: nat, r: ReadResult)
    requires blockSize > 0 && Truthful(c, files, blockSize) && path in files && offset + size < |files[path]|
    requires LaterResult(c, files, blockSize, path, size, offset, r)
    requires Whole(offset + size, blockSize) || NoTurn(|files[path]|, blockSize, offset)
          || Stop(|files[path]|, blockSize, offset) <= offset + size
    ensures Truthful(r.cache, files, blockSize)
  {
  }

  /** One event: the world stays good, the files are those of the direct run, and the answers agree
      exactly when the event is of an exact kind. */
  lemma StepRefines(w: World, e: Event, blockSize: int)
    requires blockSize > 0 && Good(w, blockSize) && Allowed(w, e, blockSize)
    ensures var (w', a) := Step(w, e, blockSize); var (files', a') := DirectStep(w.files, e, blockSize);
      && Good(w', blockSize) && |w'.cache| == |w.cache| && w'.files == files'
      && (a == a' <==> Exact(w, e, blockSize))
  {
    match e
    case ReadFile(path, size, offset) =>
      ReadRefines(w, path, size, offset, blockSize);
    case RenameFile(path, newpath) =>
      if path in w.files {
        RenameTruthful(w.cache, w.files, blockSize, path, newpath);
      }
  }

  /** The event is no rename that makes one block cached twice. */
  predicate Parts(w: World, e: Event) {
    e.RenameFile? && e.path != e.newpath && e.path in w.files ==> Unshared(w.cache, e.path, e.newpath)
  }

  /** Every block stays in at most one slot, exactly as long as no rename brings two together. */
  lemma StepNoTwice(w: World, e: Event, blockSize: int)
    requires blockSize > 0 && w.cache != [] && NoTwice(w.cache) && (e.ReadFile? ==> e.path in w.files)
    ensures NoTwice(Step(w, e, blockSize).0.cache) <==> Parts(w, e)
  {
    match e
    case ReadFile(path, size, offset) =>
      ReadNoTwice(w.cache, w.files[path], path, blockSize, size, offset);
    case RenameFile(path, newpath) =>
      RenameNoTwice(w.cache, path, newpath);
  }

  /** The answers of a run, and where it ends. */
  function Run(w: World, es: seq<Event>, blockSize: int): (World, seq<Answer>)
    requires blockSize > 0 && w.cache != [] && Possible(w, es, blockSize)
    decreases |es|
  {
    if es == [] then (w, [])
    else
      var (w', a) := Step(w, es[0], blockSize);
      var (end, rest) := Run(w', es[1..], blockSize);
      (end, [a] + rest)
  }

  predicate Possible(w: World, es: seq<Event>, blockSize: int)
    requires blockSize > 0 && w.cache != []
    decreases |es|
  {
    es == [] ||
    (Allowed(w, es[0], blockSize) && Possible(Step(w, es[0], blockSize).0, es[1..], blockSize))
  }

  function DirectRun(files: Files, es: seq<Event>, blockSize: int): (Files, seq<Answer>)
    requires blockSize > 0
    decreases |es|
  {
    if es == [] || (es[0].ReadFile? && es[0].path !in files) then (files, [])
    else
      var (files', a) := DirectStep(files, es[0], blockSize);
      var (end, rest) := DirectRun(files', es[1..], blockSize);
      (end, [a] + rest)
  }

  predicate AllExact(w: World, es: seq<Event>, blockSize: int)
    requires blockSize > 0 && w.cache != [] && Possible(w, es, blockSize)
    decreases |es|
  {
    es == [] || (Exact(w, es[0], blockSize) && AllExact(Step(w, es[0], blockSize).0, es[1..], blockSize))
  }

  /** Over any run: the slots stay true, the files end up as without a cache, and all answers are
      the direct ones if and only if every event was of an exact kind. */
  lemma {:induction false} RunRefines(w: World, es: seq<Event>, blockSize: int)
    requires blockSize > 0 && Good(w, blockSize) && Possible(w, es, blockSize)
    ensures var (w', answers) := Run(w, es, blockSize); var (files', direct) := DirectRun(w.files, es, blockSize);
      && Good(w', blockSize) && w'.files == files' && |answers| == |direct| == |es|
      && (answers == direct <==> AllExact(w, es, blockSize))
    decreases |es|
  {
    if es == [] {
    } else {
      StepRefines(w, es[0], blockSize);
      var (w', a) := Step(w, es[0], blockSize);
      var (files', a') := DirectStep(w.files, es[0], blockSize);
      RunRefines(w', es[1..], blockSize);
      var rest, rest' := Run(w', es[1..], blockSize).1, DirectRun(files', es[1..], blockSize).1;
      assert ([a] + rest)[0] == a && ([a'] + rest')[0] == a';
      assert ([a] + rest)[1..] == rest && ([a'] + rest')[1..] == rest';
    }
  }

  // ------------------------------------------------------------------ whole-file reads only

  /** Every read starts at the beginning and asks for the whole file. */
  predicate WholeReads(files: Files, es: seq<Event>, blockSize: int)
    requires blockSize > 0
    decreases |es|
  {
    es == [] ||
    match es[0]
    case ReadFile(path, size, offset) =>
      path in files && offset == 0 && |files[path]| <= size && WholeReads(files, es[1..], blockSize)
    case RenameFile(path, newpath) =>
      WholeReads(DirectStep(files, es[0], blockSize).0, es[1..], blockSize)
  }

  lemma {:induction false} WholeReadsExact(w: World, es: seq<Event>, blockSize: int)
    requires blockSize > 0 && Good(w, blockSize) && Possible(w, es, blockSize) && WholeReads(w.files, es, blockSize)
    ensures AllExact(w, es, blockSize)
    decreases |es|
  {
    if es == [] {
    } else {
      StepRefines(w, es[0], blockSize);
      WholeReadsExact(Step(w, es[0], blockSize).0, es[1..], blockSize);
    }
  }

  /** From an empty cache of any size, any run of whole-file reads and renames answers as if there
      were no cache: each read returns exactly the file's bytes. */
  lemma CacheIsTransparent(slots: nat, files: Files, es: seq<Event>, blockSize: int)
    requires blockSize > 0 && slots > 0 && Clean(files)
    requires Possible(World(InitCache(slots), files), es, blockSize) && WholeReads(files, es, blockSize)
    ensures var (end, answers) := Run(World(InitCache(slots), files), es, blockSize);
      var (files', direct) := DirectRun(files, es, blockSize);
      answers == direct && end.files == files' && Truthful(end.cache, files', blockSize)
  {
    var w := World(InitCache(slots), files);
    RunRefines(w, es, blockSize);
    WholeReadsExact(w, es, blockSize);
  }

  predicate AllPart(w: World, es: seq<Event>, blockSize: int)
    requires blockSize > 0 && w.cache != [] && Possible(w, es, blockSize)
    decreases |es|
  {
    es == [] || (Parts(w, es[0]) && AllPart(Step(w, es[0], blockSize).0, es[1..], blockSize))
  }

  lemma {:induction false} RunSound(w: World, es: seq<Event>, blockSize: int)
    requires blockSize > 0 && Good(w, blockSize) && NoTwice(w.cache)
    requires Possible(w, es, blockSize) && AllPart(w, es, blockSize)
    ensures var (w', _) := Run(w, es, blockSize); Sound(w'.cache, w'.files, blockSize)
    decreases |es|
  {
    if es == [] {
    } else {
      StepRefines(w, es[0], blockSize);
      StepNoTwice(w, es[0], blockSize);
      RunSound(Step(w, es[0], blockSize).0, es[1..], blockSize);
    }
  }

  /** A rename onto a cached name serves the replaced file's bytes: with "x" cached for "g", after
      "f" was renamed to "g" a read of the whole of "g" returns "x", not "a". */
  lemma StaleAfterRename()
    ensures var files: Files := map["f" := "a", "g" := "x"];
      var c := Read(InitCache(1), "x", "g", 2, 100, 0).cache;
      var files' := RenameFiles(files, "f", "g");
      files'["g"] == "a" && Read(RenameSlots(c, "f", "g"), files'["g"], "g", 2, 100, 0).data == "x"
  {
    FirstReadCaches();
    assert RenameSlots([Slot(Some("g"), "x", 1, 1)], "f", "g") == [Slot(Some("g"), "x", 1, 1)];
    ReadServesSlot();
  }

  lemma FirstReadCaches()
    ensures Read(InitCache(1), "x", "g", 2, 100, 0).cache == [Slot(Some("g"), "x", 1, 1)]
  {
    var c := [Slot(Some("g"), "x", 1, 1)];
    CStringWhole("x");
    assert InitCache(1) == [Slot(None, [], 0, 0)] && Touch(InitCache(1), "g", 1, "x") == c;
    assert LoopBound(1, 100, 0, 2) == 0;
    assert Pread("x", 2, 0) == "x" && [] + "x" == "x";
    assert Turn(LoopState(InitCache(1), 100, [], false), "x", "g", 2, 0) == LoopState(c, 99, "x", true);
  }

  lemma ReadServesSlot()
    ensures Read([Slot(Some("g"), "x", 1, 1)], "a", "g", 2, 100, 0).data == "x"
  {
    var c := [Slot(Some("g"), "x", 1, 1)];
    assert LoopBound(1, 100, 0, 2) == 0 && Lookup(c, "g", 1) == Some(0) && [] + "x" == "x";
    assert Turn(LoopState(c, 100, [], false), "a", "g", 2, 0).data == "x";
  }
}
