/** The loader from the files of a program to the loaded memory of its process, in both generations. */
module NsoProcess {
  import opened Common
  import opened NsoFormat
  import opened NsoHeaders
  import opened NsoLayout
  import opened NsoLoading

  // ---- What either generation is given ----

  /** The stored arguments of the program, with the layout their region has in the new process. */
  datatype Stored = Stored(argument: Option<Argument>, bytes: seq<Byte>, layout: ArgumentLayout) {
    ghost predicate Valid() {
      && layout.Valid()
      && (argument.Some? ==> |bytes| == argument.value.argumentSize && layout.headerSize <= 2 * 4 + argument.value.bufferSize)
    }

    function ToStore(): Option<seq<Byte>> {
      if argument.Some? then Some(bytes) else None
    }

    lemma Fits()
      requires Valid()
      ensures argument.Some? ==> layout.headerSize + |bytes| <= ArgsSize(argument) && 0 < ArgsSize(argument)
    {
      if argument.Some? { AlignUpIsAligned(2 * 4 + argument.value.argumentSize * 2 + argument.value.bufferSize); }
    }
  }

  /** Where the random number comes from and where the code may go. */
  datatype Placement = Placement(window: AslrWindow, enableAslr: bool, random: nat)

  // ---- 1.11 ----

  function ProgramOf(files: Files, browser: bool, argument: Option<Argument>): Program {
    var indices := PresentIndices(files, browser, NSO_COUNT);
    Program(HeadersOf(files, indices), indices, ArgsSize(argument))
  }

  /** What stops a process before anything is loaded. */
  function PrepareStatus(files: Files, browser: bool, argument: Option<Argument>, window: AslrWindow): Status {
    if HeaderStatus(files, browser, NSO_COUNT).Err? then HeaderStatus(files, browser, NSO_COUNT)
    else if !DenseAccepted(files, browser) then Err(InvalidNso)
    else LayoutStatus(ProgramOf(files, browser, argument).headers, ArgsSize(argument), window)
  }

  lemma AcceptedIsValid(files: Files, browser: bool, argument: Option<Argument>)
    requires DenseAccepted(files, browser)
    ensures ProgramOf(files, browser, argument).Valid() && ProgramOf(files, browser, argument).headers != []
  {
    DenseIndexIsPosition(files, browser, NSO_COUNT, NSO_MAIN);
  }

  /** From the files to a finished layout: what the checks accept is what the loader relies on. */
  method PrepareProcess(files: Files, browser: bool, argument: Option<Argument>, place: Placement)
    returns (r: Status, info: ProcessInfo, p: Program)
    requires place.window.Valid()
    ensures r == PrepareStatus(files, browser, argument, place.window)
    ensures r.Ok? ==> p == ProgramOf(files, browser, argument) && p.Valid() && p.headers != []
    ensures r.Ok? ==> info.Laid(Sizes(p.headers), p.args)
    ensures r.Ok? ==> info.CodeInWindow(info.totalSize, place.window, place.enableAslr, place.random)
  {
    p := ProgramOf(files, browser, argument);
    info := new ProcessInfo();
    var ctx := new AutoLoadModuleContext();
    r := ctx.LoadHeaders(files, browser);
    if r.Err? { return; }
    r := ctx.CheckAutoLoad(browser);
    assert r.Ok? <==> DenseAccepted(files, browser);
    if r.Err? { return; }
    AcceptedIsValid(files, browser, argument);
    var headers := ctx.headers[..ctx.nsoCount];
    r := info.DecideAddressSpaceLayout(headers, argument, place.window, place.enableAslr, place.random);
  }

  /** Every module of the program has contents that can be loaded. */
  ghost predicate AllLoad(codec: Codec, files: Files, p: Program)
    requires p.Valid()
  {
    forall k: nat | k < |p.headers| :: p.Expected(codec, files, k).Bytes?
  }

  lemma LoadedMeansAllLoad(m: seq<Byte>, codec: Codec, files: Files, p: Program)
    requires p.Valid() && LoadedUpTo(m, codec, files, p, |p.headers|)
    ensures AllLoad(codec, files, p)
  {
    forall k: nat | k < |p.headers|
      ensures p.Expected(codec, files, k).Bytes?
    {
      assert InPlace(m, codec, files, p, k);
    }
  }

  /** Everything that follows the layout. */
  method LoadProcess(codec: Codec, files: Files, p: Program, info: ProcessInfo, stored: Stored)
    returns (r: Status, mem: array<Byte>)
    requires p.Valid() && p.headers != [] && p.args == ArgsSize(stored.argument) && stored.Valid()
    requires info.Laid(Sizes(p.headers), p.args)
    ensures r.Ok? <==> AllLoad(codec, files, p)
    ensures r.Err? ==> exists k: nat :: FirstToFail(codec, files, p, k) && p.Expected(codec, files, k).error == r.error
    ensures mem.Length == info.totalSize
    ensures r.Ok? ==> LoadedUpTo(mem[..], codec, files, p, |p.headers|)
    ensures r.Ok? && stored.argument.Some? ==> ArgumentsStored(mem[..], info, stored.layout, p.args, stored.bytes)
  {
    mem := new Byte[info.totalSize](_ => 0);
    stored.Fits();
    r := LoadModules(codec, files, p, info, mem, stored.layout, stored.ToStore());
    if r.Ok? { LoadedMeansAllLoad(mem[..], codec, files, p); }
  }

  /** 1.11.  It succeeds exactly when nothing stops the preparation and every module loads; otherwise the error is
      that of the first obstacle. */
  method CreateProcess(codec: Codec, files: Files, browser: bool, stored: Stored, place: Placement)
    returns (r: Status, info: ProcessInfo, p: Program, mem: array<Byte>)
    requires place.window.Valid() && stored.Valid()
    ensures p == ProgramOf(files, browser, stored.argument)
    ensures PrepareStatus(files, browser, stored.argument, place.window).Err? ==>
              r == PrepareStatus(files, browser, stored.argument, place.window)
    ensures PrepareStatus(files, browser, stored.argument, place.window).Ok? ==>
              p.Valid() && (r.Ok? <==> AllLoad(codec, files, p))
    ensures PrepareStatus(files, browser, stored.argument, place.window).Ok? && r.Err? ==>
              exists k: nat :: FirstToFail(codec, files, p, k) && p.Expected(codec, files, k).error == r.error
    ensures r.Ok? ==> info.Laid(Sizes(p.headers), p.args) && mem.Length == info.totalSize
    ensures r.Ok? ==> info.CodeInWindow(info.totalSize, place.window, place.enableAslr, place.random)
    ensures r.Ok? ==> LoadedUpTo(mem[..], codec, files, p, |p.headers|)
    ensures r.Ok? && stored.argument.Some? ==> ArgumentsStored(mem[..], info, stored.layout, p.args, stored.bytes)
  {
    mem := new Byte[0];
    r, info, p := PrepareProcess(files, browser, stored.argument, place);
    if r.Err? {
      p := ProgramOf(files, browser, stored.argument);
      return;
    }
    r, mem := LoadProcess(codec, files, p, info, stored);
  }

  // ---- 1.10 ----

  lemma CacheIsSparse(files: Files, browser: bool)
    ensures SparseHeadersOf(files, browser, CacheOf(files, browser), HasOf(files, browser))
  {
  }

  function SparsePrepareStatus(files: Files, browser: bool, argument: Option<Argument>, window: AslrWindow): Status {
    if HeaderStatus(files, browser, NSO_COUNT).Err? then HeaderStatus(files, browser, NSO_COUNT)
    else if !SparseAccepted(files, browser) then Err(InvalidNso)
    else SparseLayoutStatus(CacheOf(files, browser), HasOf(files, browser), ArgsSize(argument), window)
  }

  method PrepareSparseProcess(files: Files, browser: bool, argument: Option<Argument>, place: Placement)
    returns (r: Status, info: ProcessInfo, headers: seq<NsoHeader>, has: seq<bool>)
    requires place.window.Valid()
    ensures headers == CacheOf(files, browser) && has == HasOf(files, browser)
    ensures r == SparsePrepareStatus(files, browser, argument, place.window)
    ensures r.Ok? ==> PresentWellPlaced(headers, has) && AnyPresent(has, NSO_COUNT)
    ensures r.Ok? ==> info.SparselyLaid(Sizes(headers), has, ArgsSize(argument))
    ensures r.Ok? ==> info.CodeInWindow(info.codeNumPages * PAGE_SIZE, place.window, place.enableAslr, place.random)
  {
    headers, has := CacheOf(files, browser), HasOf(files, browser);
    info := new ProcessInfo();
    var ali := new AutoLoadModuleInfo();
    r := ali.LoadHeaders(files, browser);
    if r.Err? { return; }
    assert ali.headers[..] == headers && ali.hasNso[..] == has;
    r := ali.CheckAutoLoad(browser);
    if r.Err? { return; }
    assert has[NSO_MAIN];
    r := info.DecideSparseLayout(ali.headers[..], ali.hasNso[..], argument, place.window, place.enableAslr, place.random);
  }

  ghost predicate AllSparseLoad(codec: Codec, files: Files, headers: seq<NsoHeader>, has: seq<bool>)
    requires PresentWellPlaced(headers, has)
  {
    forall i: nat | i < NSO_COUNT && has[i] :: SparseExpected(codec, files, headers, i).Bytes?
  }

  lemma SparselyLoadedMeansAllLoad(m: seq<Byte>, codec: Codec, files: Files, headers: seq<NsoHeader>, has: seq<bool>,
                                   sizes: seq<nat>, args: nat)
    requires PresentWellPlaced(headers, has) && sizes == Sizes(headers)
    requires SparselyLoaded(m, codec, files, headers, has, sizes, args, NSO_COUNT)
    ensures AllSparseLoad(codec, files, headers, has)
  {
    forall i: nat | i < NSO_COUNT && has[i]
      ensures SparseExpected(codec, files, headers, i).Bytes?
    {
      assert InSparsePlace(m, codec, files, headers, SparseOffset(sizes, has, args, i), i);
    }
  }

  lemma SparseFailureMeansNotAll(codec: Codec, files: Files, headers: seq<NsoHeader>, has: seq<bool>)
    requires PresentWellPlaced(headers, has)
    ensures (exists i: nat :: SparseFirstToFail(codec, files, headers, has, i)) ==> !AllSparseLoad(codec, files, headers, has)
  {
  }

  /** Everything that follows the layout. */
  method LoadSparseProcess(codec: Codec, files: Files, headers: seq<NsoHeader>, has: seq<bool>, info: ProcessInfo,
                           stored: Stored)
    returns (r: Status, mem: array<Byte>)
    requires PresentWellPlaced(headers, has) && AnyPresent(has, NSO_COUNT) && stored.Valid()
    requires info.SparselyLaid(Sizes(headers), has, ArgsSize(stored.argument))
    ensures r.Ok? <==> AllSparseLoad(codec, files, headers, has)
    ensures r.Err? ==> exists i: nat ::
              SparseFirstToFail(codec, files, headers, has, i) && SparseExpected(codec, files, headers, i).error == r.error
    ensures info.SparselyLaid(Sizes(headers), has, ArgsSize(stored.argument)) && mem.Length == info.codeNumPages * PAGE_SIZE
    ensures r.Ok? ==> SparselyLoaded(mem[..], codec, files, headers, has, Sizes(headers), ArgsSize(stored.argument), NSO_COUNT)
    ensures r.Ok? && stored.argument.Some? ==>
              ArgumentsStored(mem[..], info, stored.layout, ArgsSize(stored.argument), stored.bytes)
  {
    mem := new Byte[info.codeNumPages * PAGE_SIZE](_ => 0);
    stored.Fits();
    r := LoadSparseAll(codec, files, headers, has, info, mem, stored.layout, stored.ToStore(), ArgsSize(stored.argument));
    if r.Err? {
      SparseFailureMeansNotAll(codec, files, headers, has);
      return;
    }
    SparselyLoadedMeansAllLoad(mem[..], codec, files, headers, has, Sizes(headers), ArgsSize(stored.argument));
  }

  /** 1.10. */
  method CreateSparseProcess(codec: Codec, files: Files, browser: bool, stored: Stored, place: Placement)
    returns (r: Status, info: ProcessInfo, headers: seq<NsoHeader>, has: seq<bool>, mem: array<Byte>)
    requires place.window.Valid() && stored.Valid()
    ensures headers == CacheOf(files, browser) && has == HasOf(files, browser)
    ensures SparsePrepareStatus(files, browser, stored.argument, place.window).Err? ==>
              r == SparsePrepareStatus(files, browser, stored.argument, place.window)
    ensures SparsePrepareStatus(files, browser, stored.argument, place.window).Ok? ==>
              PresentWellPlaced(headers, has) && (r.Ok? <==> AllSparseLoad(codec, files, headers, has))
    ensures SparsePrepareStatus(files, browser, stored.argument, place.window).Ok? && r.Err? ==>
              exists i: nat ::
                SparseFirstToFail(codec, files, headers, has, i) && SparseExpected(codec, files, headers, i).error == r.error
    ensures r.Ok? ==> info.SparselyLaid(Sizes(headers), has, ArgsSize(stored.argument))
    ensures r.Ok? ==> mem.Length == info.codeNumPages * PAGE_SIZE
    ensures r.Ok? ==> info.CodeInWindow(info.codeNumPages * PAGE_SIZE, place.window, place.enableAslr, place.random)
    ensures r.Ok? ==> SparselyLoaded(mem[..], codec, files, headers, has, Sizes(headers), ArgsSize(stored.argument), NSO_COUNT)
    ensures r.Ok? && stored.argument.Some? ==>
              ArgumentsStored(mem[..], info, stored.layout, ArgsSize(stored.argument), stored.bytes)
  {
    mem := new Byte[0];
    r, info, headers, has := PrepareSparseProcess(files, browser, stored.argument, place);
    if r.Err? { return; }
    r, mem := LoadSparseProcess(codec, files, headers, has, info, stored);
  }

  // ---- The same inputs, in both ----

  /** Without Zstd, what stops one generation before loading stops the other, with the same error. */
  lemma PreparationsAgree(files: Files, browser: bool, argument: Option<Argument>, window: AslrWindow)
    requires NoZbic(files, browser)
    ensures PrepareStatus(files, browser, argument, window) == SparsePrepareStatus(files, browser, argument, window)
  {
    AcceptedAlike(files, browser);
    CacheIsSparse(files, browser);
    DenseRefinesSparse(files, browser, CacheOf(files, browser), HasOf(files, browser), ArgsSize(argument), window);
  }

  /** The same module is in the way of both. */
  ghost predicate SameObstacle(codec: Codec, files: Files, p: Program, headers: seq<NsoHeader>, has: seq<bool>, k: nat)
    requires p.Valid() && PresentWellPlaced(headers, has)
  {
    FirstToFail(codec, files, p, k) && SparseFirstToFail(codec, files, headers, has, p.indices[k])
  }

  lemma ObstacleMeans(codec: Codec, files: Files, p: Program, headers: seq<NsoHeader>, has: seq<bool>, k: nat)
    requires p.Valid() && PresentWellPlaced(headers, has) && SameObstacle(codec, files, p, headers, has, k)
    ensures k < |p.headers| && p.Expected(codec, files, k).Failed? && forall j: nat | j < k :: p.Expected(codec, files, j).Bytes?
    ensures has[p.indices[k]] && SparseExpected(codec, files, headers, p.indices[k]).Failed?
    ensures forall i: nat | i < p.indices[k] && has[i] :: SparseExpected(codec, files, headers, i).Bytes?
  {
  }

  /** If one fails, so does the other, at the same module. */
  lemma FailuresAgree(codec: Codec, files: Files, browser: bool, headers: seq<NsoHeader>, has: seq<bool>, p: Program)
    requires SameProgram(files, browser, headers, has, p)
    ensures AllLoad(codec, files, p) <==> AllSparseLoad(codec, files, headers, has)
    ensures (exists k: nat :: FirstToFail(codec, files, p, k))
            && (exists i: nat :: SparseFirstToFail(codec, files, headers, has, i)) ==>
              exists k: nat :: SameObstacle(codec, files, p, headers, has, k)
  {
    LoadersAgree(codec, files, browser, headers, has, p);
    if (exists k: nat :: FirstToFail(codec, files, p, k))
       && (exists i: nat :: SparseFirstToFail(codec, files, headers, has, i)) {
      var k: nat :| FirstToFail(codec, files, p, k);
      var i: nat :| SparseFirstToFail(codec, files, headers, has, i);
      FirstFailuresAgree(codec, files, browser, headers, has, p, k, i);
      assert SameObstacle(codec, files, p, headers, has, k);
    }
  }

  lemma AreSameProgram(files: Files, browser: bool, argument: Option<Argument>, headers: seq<NsoHeader>, has: seq<bool>)
    requires headers == CacheOf(files, browser) && has == HasOf(files, browser)
    requires PresentWellPlaced(headers, has) && NoZbic(files, browser) && ProgramOf(files, browser, argument).Valid()
    ensures SameProgram(files, browser, headers, has, ProgramOf(files, browser, argument))
    ensures SparseHeadersOf(files, browser, headers, has)
  {
    CacheIsSparse(files, browser);
  }

  lemma PreparedAlike(files: Files, browser: bool, argument: Option<Argument>, place: Placement,
                      dense: ProcessInfo, sparse: ProcessInfo, p: Program, headers: seq<NsoHeader>, has: seq<bool>)
    requires NoZbic(files, browser) && p == ProgramOf(files, browser, argument) && p.Valid()
    requires headers == CacheOf(files, browser) && has == HasOf(files, browser) && PresentWellPlaced(headers, has)
    requires dense.Laid(Sizes(p.headers), p.args)
    requires dense.CodeInWindow(dense.totalSize, place.window, place.enableAslr, place.random)
    requires sparse.SparselyLaid(Sizes(headers), has, ArgsSize(argument))
    requires sparse.CodeInWindow(sparse.codeNumPages * PAGE_SIZE, place.window, place.enableAslr, place.random)
    ensures SameProgram(files, browser, headers, has, p) && SamePlaces(p.indices, dense, sparse)
  {
    AreSameProgram(files, browser, argument, headers, has);
    FinishedLayoutsAgree(files, browser, headers, has, p.args, place.window, place.enableAslr, place.random, dense, sparse);
  }

  /** Both generations up to the layout, on the same files, arguments, window and random number, without Zstd:
      one outcome, and the same places. */
  method PrepareBoth(files: Files, browser: bool, argument: Option<Argument>, place: Placement)
    returns (r: Status, s: Status, dense: ProcessInfo, p: Program,
             sparse: ProcessInfo, headers: seq<NsoHeader>, has: seq<bool>)
    requires place.window.Valid() && NoZbic(files, browser)
    ensures r == s == PrepareStatus(files, browser, argument, place.window)
    ensures r.Ok? ==> p == ProgramOf(files, browser, argument) && SameProgram(files, browser, headers, has, p)
    ensures r.Ok? ==> p.headers != [] && AnyPresent(has, NSO_COUNT)
    ensures r.Ok? ==> dense.Laid(Sizes(p.headers), p.args) && sparse.SparselyLaid(Sizes(headers), has, p.args)
    ensures r.Ok? ==> SamePlaces(p.indices, dense, sparse)
  {
    PreparationsAgree(files, browser, argument, place.window);
    r, dense, p := PrepareProcess(files, browser, argument, place);
    s, sparse, headers, has := PrepareSparseProcess(files, browser, argument, place);
    if r.Err? { return; }
    PreparedAlike(files, browser, argument, place, dense, sparse, p, headers, has);
  }

  /** Both generations on such inputs, up to the loaded memories: one succeeds exactly when the other does, a failure to
      load is at the same module, and the memories agree on every module up to the end of its bss and on the arguments. */
  method CreateBoth(codec: Codec, files: Files, browser: bool, stored: Stored, place: Placement)
    returns (r: Status, s: Status, dense: ProcessInfo, p: Program, mem: array<Byte>,
             sparse: ProcessInfo, headers: seq<NsoHeader>, has: seq<bool>, sparseMem: array<Byte>)
    requires place.window.Valid() && stored.Valid() && NoZbic(files, browser)
    ensures r.Ok? <==> s.Ok?
    ensures PrepareStatus(files, browser, stored.argument, place.window).Err? ==>
              r == s == PrepareStatus(files, browser, stored.argument, place.window)
    ensures PrepareStatus(files, browser, stored.argument, place.window).Ok? ==>
              p == ProgramOf(files, browser, stored.argument) && SameProgram(files, browser, headers, has, p)
              && (r.Ok? <==> AllLoad(codec, files, p))
              && (r.Err? ==> exists k: nat :: SameObstacle(codec, files, p, headers, has, k))
    ensures r.Ok? ==> SamePlaces(p.indices, dense, sparse)
    ensures r.Ok? ==> mem.Length == sparseMem.Length && ModulesAgree(mem[..], sparseMem[..], p)
    ensures r.Ok? && stored.argument.Some? ==>
              ArgumentsStored(mem[..], dense, stored.layout, p.args, stored.bytes)
              && ArgumentsStored(sparseMem[..], sparse, stored.layout, p.args, stored.bytes)
  {
    mem, sparseMem := new Byte[0], new Byte[0];
    r, s, dense, p, sparse, headers, has := PrepareBoth(files, browser, stored.argument, place);
    if r.Err? { return; }
    r, s, mem, sparseMem := LoadBoth(codec, files, browser, stored, dense, p, sparse, headers, has);
  }

  method LoadBoth(codec: Codec, files: Files, browser: bool, stored: Stored, dense: ProcessInfo, p: Program,
                  sparse: ProcessInfo, headers: seq<NsoHeader>, has: seq<bool>)
    returns (r: Status, s: Status, mem: array<Byte>, sparseMem: array<Byte>)
    requires SameProgram(files, browser, headers, has, p) && p.headers != [] && AnyPresent(has, NSO_COUNT)
    requires stored.Valid() && p.args == ArgsSize(stored.argument)
    requires dense.Laid(Sizes(p.headers), p.args) && sparse.SparselyLaid(Sizes(headers), has, p.args)
    requires dense.codeNumPages == sparse.codeNumPages
    ensures (r.Ok? <==> s.Ok?) && (r.Ok? <==> AllLoad(codec, files, p))
    ensures r.Err? ==> exists k: nat :: SameObstacle(codec, files, p, headers, has, k)
    ensures mem.Length == sparseMem.Length
    ensures r.Ok? ==> ModulesAgree(mem[..], sparseMem[..], p)
    ensures r.Ok? && stored.argument.Some? ==>
              ArgumentsStored(mem[..], dense, stored.layout, p.args, stored.bytes)
              && ArgumentsStored(sparseMem[..], sparse, stored.layout, p.args, stored.bytes)
  {
    r, mem := LoadProcess(codec, files, p, dense, stored);
    s, sparseMem := LoadSparseProcess(codec, files, headers, has, sparse, stored);
    FailuresAgree(codec, files, browser, headers, has, p);
    if r.Err? { return; }
    MemoriesAgree(mem[..], sparseMem[..], codec, files, browser, headers, has, p);
  }
}
