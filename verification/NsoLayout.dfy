/** Where the modules and the argument region go in the new process. */
module NsoLayout {
  import opened Common
  import opened NsoFormat
  import opened NsoHeaders

  const MEMORY_BLOCK_UNIT_SIZE: nat := 0x20_0000
  const U64_LIMIT: nat := 0x1_0000_0000_0000_0000

  /** The part of the address space the code may be placed in. */
  datatype AslrWindow = AslrWindow(start: nat, size: nat) {
    predicate Valid() {
      start % PAGE_SIZE == 0 && start + size < U64_LIMIT
    }
  }

  /** The stored program arguments: their size, and the size of the store they come from. */
  datatype Argument = Argument(argumentSize: u32, bufferSize: u32)

  function ArgsSize(argument: Option<Argument>): nat {
    match argument
    case None => 0
    case Some(a) => AlignUp(2 * 4 + a.argumentSize * 2 + a.bufferSize)
  }

  /** A module's size in pages, as bytes. */
  function ModuleSize(h: NsoHeader): nat {
    AlignUp(h.Span())
  }

  predicate CanAddWithoutOverflow(a: nat, b: nat) {
    a + b < U64_LIMIT
  }

  function Sizes(headers: seq<NsoHeader>): (sizes: seq<nat>)
    ensures |sizes| == |headers|
  {
    seq(|headers|, k requires 0 <= k < |headers| => ModuleSize(headers[k]))
  }

  /** The bytes placed before dense slot `k`; the argument region follows the first module. */
  function Offset(sizes: seq<nat>, args: nat, k: nat): nat
    requires k <= |sizes|
  {
    if k == 0 then 0
    else Offset(sizes, args, k - 1) + sizes[k - 1] + if k == 1 then args else 0
  }

  function TotalSize(sizes: seq<nat>, args: nat): nat {
    Offset(sizes, args, |sizes|)
  }

  predicate NoEmptyModule(headers: seq<NsoHeader>) {
    forall k | 0 <= k < |headers| :: headers[k].Span() > 0
  }

  function LayoutStatus(headers: seq<NsoHeader>, args: nat, window: AslrWindow): Status {
    if !NoEmptyModule(headers) then Err(InvalidNso)
    else if TotalSize(Sizes(headers), args) > window.size then Err(OutOfMemory)
    else Ok
  }

  function AslrSlide(window: AslrWindow, total: nat, enableAslr: bool, random: nat): (slide: nat)
    requires total <= window.size
    ensures slide + total <= window.size && slide % 0x20_0000 == 0 && slide % PAGE_SIZE == 0
    ensures !enableAslr ==> slide == 0
  {
    if enableAslr then
      BlocksFit(window.size - total, GenerateSecureRandom((window.size - total) / MEMORY_BLOCK_UNIT_SIZE, random));
      GenerateSecureRandom((window.size - total) / MEMORY_BLOCK_UNIT_SIZE, random) * MEMORY_BLOCK_UNIT_SIZE
    else 0
  }

  lemma BlocksFit(free: nat, n: nat)
    requires n <= free / MEMORY_BLOCK_UNIT_SIZE
    ensures n * MEMORY_BLOCK_UNIT_SIZE <= free
    ensures n * MEMORY_BLOCK_UNIT_SIZE % 0x20_0000 == 0 && n * MEMORY_BLOCK_UNIT_SIZE % PAGE_SIZE == 0
  {
  }

  /** A random number of the generator, brought into 0..max. */
  function GenerateSecureRandom(max: nat, random: nat): (r: nat)
    ensures r <= max && (random <= max ==> r == random)
  {
    random % (max + 1)
  }

  /** Every multiple of 2 MiB that leaves room for the process is the slide of some random number. */
  lemma EverySlideIsReached(window: AslrWindow, total: nat, slide: nat) returns (random: nat)
    requires slide + total <= window.size && slide % 0x20_0000 == 0
    ensures AslrSlide(window, total, true, random) == slide
  {
    random := slide / 0x20_0000;
    assert random <= (window.size - total) / MEMORY_BLOCK_UNIT_SIZE;
  }

  lemma AlignUpIsAligned(n: nat)
    ensures AlignUp(n) % PAGE_SIZE == 0 && n <= AlignUp(n) < n + PAGE_SIZE
  {
  }

  /** Header fields are 32 bits wide, so the mask of AutoLoadModuleSizeMax cuts nothing off. */
  lemma MaskCutsNothing(h: NsoHeader)
    ensures h.Span() <= ModuleSize(h) < h.Span() + 0x1000 && ModuleSize(h) % 0x1000 == 0
    ensures ModuleSize(h) < 0x8_0000_0000 == AUTO_LOAD_MODULE_SIZE_MAX
    ensures ModuleSize(h) % 0x8_0000_0000 == ModuleSize(h)
    ensures ModuleSize(h) == 0 <==> h.Span() == 0
  {
    AlignUpIsAligned(h.Span());
  }

  /** Later slots start after earlier ones end. */
  lemma {:induction false} OffsetsIncrease(sizes: seq<nat>, args: nat, j: nat, k: nat)
    requires j <= k <= |sizes|
    ensures Offset(sizes, args, j) <= Offset(sizes, args, k)
    ensures j < k ==> Offset(sizes, args, j) + sizes[j] + (if j == 0 then args else 0) <= Offset(sizes, args, k)
  {
    if j < k - 1 {
      OffsetsIncrease(sizes, args, j, k - 1);
    }
  }

  lemma {:induction false} OffsetBounded(sizes: seq<nat>, args: nat, k: nat)
    requires k <= |sizes|
    requires forall j | 0 <= j < |sizes| :: sizes[j] < AUTO_LOAD_MODULE_SIZE_MAX
    ensures Offset(sizes, args, k) <= k * AUTO_LOAD_MODULE_SIZE_MAX + args
  {
    if k > 0 {
      OffsetBounded(sizes, args, k - 1);
    }
  }

  lemma SumIsAligned(a: nat, b: nat)
    requires a % PAGE_SIZE == 0 && b % PAGE_SIZE == 0
    ensures (a + b) % PAGE_SIZE == 0
  {
  }

  lemma {:induction false} OffsetsAligned(sizes: seq<nat>, args: nat, k: nat)
    requires k <= |sizes| && args % PAGE_SIZE == 0
    requires forall j | 0 <= j < |sizes| :: sizes[j] % PAGE_SIZE == 0
    ensures Offset(sizes, args, k) % PAGE_SIZE == 0
  {
    if k > 0 {
      OffsetsAligned(sizes, args, k - 1);
      SumIsAligned(Offset(sizes, args, k - 1), sizes[k - 1]);
      SumIsAligned(Offset(sizes, args, k - 1) + sizes[k - 1], args);
    }
  }

  /** 23 modules and the arguments never come near 2^64, so the overflow checks of the loader cannot fire. */
  lemma SumsFitU64(sizes: seq<nat>, args: nat, i: nat)
    requires i < |sizes| <= NSO_COUNT && args <= AUTO_LOAD_MODULE_SIZE_MAX
    requires forall j | 0 <= j < |sizes| :: sizes[j] < AUTO_LOAD_MODULE_SIZE_MAX
    ensures Offset(sizes, args, i) + sizes[i] + args < 0x1_0000_0000_0000_0000 == U64_LIMIT
  {
    OffsetBounded(sizes, args, i);
    assert i * AUTO_LOAD_MODULE_SIZE_MAX <= 0x20 * AUTO_LOAD_MODULE_SIZE_MAX;
  }

  /** Everything the layout code needs to know about its numbers. */
  lemma SizesFacts(headers: seq<NsoHeader>, argument: Option<Argument>)
    ensures forall j | 0 <= j < |headers| :: Sizes(headers)[j] < AUTO_LOAD_MODULE_SIZE_MAX && Sizes(headers)[j] % PAGE_SIZE == 0
    ensures forall j | 0 <= j < |headers| :: Sizes(headers)[j] >= headers[j].Span()
    ensures ArgsSize(argument) % PAGE_SIZE == 0 && ArgsSize(argument) <= AUTO_LOAD_MODULE_SIZE_MAX
    ensures ArgsSize(argument) == 0 <==> argument.None?
  {
    forall j | 0 <= j < |headers|
      ensures Sizes(headers)[j] < AUTO_LOAD_MODULE_SIZE_MAX && Sizes(headers)[j] % PAGE_SIZE == 0
      ensures Sizes(headers)[j] >= headers[j].Span()
    {
      MaskCutsNothing(headers[j]);
      AlignUpIsAligned(headers[j].Span());
    }
    ArgsFacts(argument);
  }

  /** The region holds two sizes of four bytes, the arguments twice over and the buffer, rounded up to pages. */
  lemma ArgsFacts(argument: Option<Argument>)
    ensures argument.Some? ==>
              var needed := 8 + 2 * argument.value.argumentSize + argument.value.bufferSize;
              ArgsSize(argument) % 0x1000 == 0 && needed <= ArgsSize(argument) < needed + 0x1000
    ensures ArgsSize(argument) % PAGE_SIZE == 0 && ArgsSize(argument) <= AUTO_LOAD_MODULE_SIZE_MAX
    ensures ArgsSize(argument) == 0 <==> argument.None?
  {
    match argument
    case None =>
    case Some(a) => AlignUpIsAligned(2 * 4 + a.argumentSize * 2 + a.bufferSize);
  }

  // ---- The sparse sums of 1.10 ----

  predicate AnyPresent(has: seq<bool>, n: nat)
    requires n <= |has|
  {
    exists j :: 0 <= j < n && has[j]
  }

  function SparseOffset(sizes: seq<nat>, has: seq<bool>, args: nat, i: nat): nat
    requires i <= |sizes| == |has|
  {
    if i == 0 then 0
    else SparseOffset(sizes, has, args, i - 1)
         + if !has[i - 1] then 0 else if AnyPresent(has, i - 1) then sizes[i - 1] else sizes[i - 1] + args
  }

  function FirstSize(sizes: seq<nat>, has: seq<bool>, i: nat): nat
    requires i <= |sizes| == |has| && AnyPresent(has, i)
  {
    if AnyPresent(has, i - 1) then FirstSize(sizes, has, i - 1) else sizes[i - 1]
  }

  predicate NoEmptyPresent(headers: seq<NsoHeader>, has: seq<bool>)
    requires |headers| == |has|
  {
    forall k | 0 <= k < |headers| && has[k] :: headers[k].Span() > 0
  }

  function SparseLayoutStatus(headers: seq<NsoHeader>, has: seq<bool>, args: nat, window: AslrWindow): Status
    requires |headers| == |has|
  {
    if !NoEmptyPresent(headers, has) then Err(InvalidNso)
    else if SparseOffset(Sizes(headers), has, args, |headers|) > window.size then Err(OutOfMemory)
    else Ok
  }

  lemma {:induction false} SparseOffsetsIncrease(sizes: seq<nat>, has: seq<bool>, args: nat, j: nat, k: nat)
    requires j <= k <= |sizes| == |has|
    ensures SparseOffset(sizes, has, args, j) <= SparseOffset(sizes, has, args, k)
  {
    if j < k {
      SparseOffsetsIncrease(sizes, has, args, j, k - 1);
    }
  }

  lemma {:induction false} SparseOffsetBounded(sizes: seq<nat>, has: seq<bool>, args: nat, k: nat)
    requires k <= |sizes| == |has|
    requires forall j | 0 <= j < |sizes| :: sizes[j] < AUTO_LOAD_MODULE_SIZE_MAX
    ensures SparseOffset(sizes, has, args, k) <= k * AUTO_LOAD_MODULE_SIZE_MAX + if AnyPresent(has, k) then args else 0
  {
    if k > 0 {
      SparseOffsetBounded(sizes, has, args, k - 1);
      assert AnyPresent(has, k) <==> AnyPresent(has, k - 1) || has[k - 1];
    }
  }

  lemma SparseSumsFitU64(sizes: seq<nat>, has: seq<bool>, args: nat, i: nat)
    requires i < |sizes| == |has| <= NSO_COUNT && args <= AUTO_LOAD_MODULE_SIZE_MAX
    requires forall j | 0 <= j < |sizes| :: sizes[j] < AUTO_LOAD_MODULE_SIZE_MAX
    ensures SparseOffset(sizes, has, args, i) + sizes[i] + args < 0x1_0000_0000_0000_0000 == U64_LIMIT
  {
    SparseOffsetBounded(sizes, has, args, i);
    assert i * AUTO_LOAD_MODULE_SIZE_MAX <= 0x20 * AUTO_LOAD_MODULE_SIZE_MAX;
  }

  lemma {:induction false} SparseOffsetsAligned(sizes: seq<nat>, has: seq<bool>, args: nat, k: nat)
    requires k <= |sizes| == |has| && args % PAGE_SIZE == 0
    requires forall j | 0 <= j < |sizes| :: sizes[j] % PAGE_SIZE == 0
    ensures SparseOffset(sizes, has, args, k) % PAGE_SIZE == 0
  {
    if k > 0 {
      SparseOffsetsAligned(sizes, has, args, k - 1);
      SumIsAligned(SparseOffset(sizes, has, args, k - 1), sizes[k - 1]);
      SumIsAligned(SparseOffset(sizes, has, args, k - 1) + sizes[k - 1], args);
    }
  }

  /** Nothing is placed before the first present slot. */
  lemma {:induction false} FirstPresentOffset(sizes: seq<nat>, has: seq<bool>, args: nat, k: nat)
    requires k <= |sizes| == |has|
    ensures !AnyPresent(has, k) ==> SparseOffset(sizes, has, args, k) == 0
  {
    if k > 0 {
      FirstPresentOffset(sizes, has, args, k - 1);
    }
  }

  /** The first size stays the first when more slots are looked at. */
  lemma {:induction false} FirstSizeStays(sizes: seq<nat>, has: seq<bool>, m: nat, n: nat)
    requires m <= n <= |sizes| == |has| && AnyPresent(has, m)
    ensures AnyPresent(has, n) && FirstSize(sizes, has, n) == FirstSize(sizes, has, m)
  {
    if m < n { FirstSizeStays(sizes, has, m, n - 1); }
  }

  /** The slots behind the first present one start behind the arguments. */
  lemma {:induction false} ArgumentsBeforeRest(sizes: seq<nat>, has: seq<bool>, args: nat, n: nat)
    requires n <= |sizes| == |has| && AnyPresent(has, n)
    ensures FirstSize(sizes, has, n) + args <= SparseOffset(sizes, has, args, n)
  {
    if AnyPresent(has, n - 1) {
      ArgumentsBeforeRest(sizes, has, args, n - 1);
    } else {
      FirstPresentOffset(sizes, has, args, n - 1);
    }
  }

  lemma {:induction false} FirstSizeBounded(sizes: seq<nat>, has: seq<bool>, args: nat, k: nat)
    requires k <= |sizes| == |has|
    requires forall j | 0 <= j < |sizes| && has[j] :: sizes[j] > 0
    ensures AnyPresent(has, k) ==> 0 < FirstSize(sizes, has, k) <= SparseOffset(sizes, has, args, k)
  {
    if k > 0 {
      FirstSizeBounded(sizes, has, args, k - 1);
    }
  }

  /** The loader's ProcessInfo and the two fields of CreateProcessParameter it fills. */
  class ProcessInfo {
    const nsoAddress: array<nat>
    const nsoSize: array<nat>
    var argsAddress: nat
    var argsSize: nat
    var totalSize: nat
    var codeAddress: nat
    var codeNumPages: nat

    ghost predicate Valid()
      reads this
    {
      nsoAddress.Length == nsoSize.Length == NSO_COUNT && nsoAddress != nsoSize
    }

    constructor ()
      ensures Valid() && fresh(nsoAddress) && fresh(nsoSize)
    {
      nsoAddress := new nat[NSO_COUNT](_ => 0);
      nsoSize := new nat[NSO_COUNT](_ => 0);
    }

    /** The modules of the given sizes are placed from `start` on, and the remaining slots are empty. */
    ghost predicate Placed(sizes: seq<nat>, args: nat, i: nat, start: nat)
      requires i <= |sizes| <= NSO_COUNT
      reads this, nsoAddress, nsoSize
    {
      && Valid()
      && (forall k {:trigger nsoAddress[k]} | 0 <= k < i :: nsoAddress[k] == start + Offset(sizes, args, k))
      && (forall k | 0 <= k < i :: nsoSize[k] == sizes[k])
      && (forall k | i <= k < NSO_COUNT :: nsoAddress[k] == nsoSize[k] == 0)
      && if i == 0 || args == 0 then argsAddress == argsSize == 0 else argsAddress == start + sizes[0] && argsSize == args
    }

    /** A finished 1.11 layout. */
    ghost predicate Laid(sizes: seq<nat>, args: nat)
      reads this, nsoAddress, nsoSize
    {
      && |sizes| <= NSO_COUNT
      && Placed(sizes, args, |sizes|, codeAddress)
      && totalSize == TotalSize(sizes, args) == codeNumPages * PAGE_SIZE
    }

    /** The code starts where the random number puts it, and ends inside the window. */
    ghost predicate CodeInWindow(total: nat, window: AslrWindow, enableAslr: bool, random: nat)
      reads this
    {
      total <= window.size && codeAddress == window.start + AslrSlide(window, total, enableAslr, random)
    }

    method ClearOutput()
      requires Valid()
      modifies this`argsAddress, this`argsSize, nsoAddress, nsoSize
      ensures Placed([], 0, 0, 0)
    {
      argsAddress, argsSize := 0, 0;
      forall k | 0 <= k < nsoAddress.Length { nsoAddress[k] := 0; }
      forall k | 0 <= k < nsoSize.Length { nsoSize[k] := 0; }
    }

    /** 1.11: the modules are `headers`, densely. */
    method DecideAddressSpaceLayout(headers: seq<NsoHeader>, argument: Option<Argument>, window: AslrWindow,
                                    enableAslr: bool, random: nat) returns (r: Status)
      requires Valid() && |headers| <= NSO_COUNT && window.Valid()
      modifies this, nsoAddress, nsoSize
      ensures Valid()
      ensures r == LayoutStatus(headers, ArgsSize(argument), window)
      ensures r.Ok? ==> Laid(Sizes(headers), ArgsSize(argument))
      ensures r.Ok? && headers != [] && argument.Some? ==>
                var needed := 8 + 2 * argument.value.argumentSize + argument.value.bufferSize;
                argsSize % 0x1000 == 0 && needed <= argsSize < needed + 0x1000
      ensures r.Ok? && (headers == [] || argument.None?) ==> argsSize == 0
      ensures r.Ok? ==> CodeInWindow(totalSize, window, enableAslr, random)
    {
      ghost var sizes, args := Sizes(headers), ArgsSize(argument);
      SizesFacts(headers, argument);
      var total;
      r, total := PlaceModules(headers, argument, sizes, args);
      if r.Err? { return; }
      if total > window.size {
        return Err(OutOfMemory);
      }
      var slide := 0;
      if enableAslr {
        slide := GenerateSecureRandom((window.size - total) / MEMORY_BLOCK_UNIT_SIZE, random) * MEMORY_BLOCK_UNIT_SIZE;
      }
      assert slide == AslrSlide(window, total, enableAslr, random);
      r := Rebase(|headers|, window.start + slide, sizes, args);
      OffsetsAligned(sizes, args, |sizes|);
      codeAddress, codeNumPages, totalSize := window.start + slide, total / PAGE_SIZE, total;
    }

    /** The loop that calculates base offsets. */
    method PlaceModules(headers: seq<NsoHeader>, argument: Option<Argument>, ghost sizes: seq<nat>, ghost args: nat)
      returns (r: Status, total: nat)
      requires Valid() && |sizes| == |headers| <= NSO_COUNT && args == ArgsSize(argument)
      requires forall j | 0 <= j < |sizes| :: sizes[j] == ModuleSize(headers[j]) && sizes[j] < AUTO_LOAD_MODULE_SIZE_MAX
      requires args <= AUTO_LOAD_MODULE_SIZE_MAX && (args == 0 <==> argument.None?)
      modifies this`argsAddress, this`argsSize, nsoAddress, nsoSize
      ensures Valid()
      ensures r == if NoEmptyModule(headers) then Ok else Err(InvalidNso)
      ensures r.Ok? ==> Placed(sizes, args, |sizes|, 0) && total == TotalSize(sizes, args)
      ensures r.Ok? && headers != [] && argument.Some? ==>
                var needed := 8 + 2 * argument.value.argumentSize + argument.value.bufferSize;
                argsSize % 0x1000 == 0 && needed <= argsSize < needed + 0x1000
      ensures r.Ok? && (headers == [] || argument.None?) ==> argsSize == 0
    {
      ClearOutput();
      total := 0;
      var argumentAllocated := false;
      var i := 0;
      while i < |headers|
        invariant i <= |headers|
        invariant Placed(sizes, args, i, 0)
        invariant forall k | 0 <= k < i :: headers[k].Span() > 0
        invariant total == Offset(sizes, args, i)
        invariant argumentAllocated <==> i > 0 && argument.Some?
      {
        r, total, argumentAllocated := PlaceModule(headers[i], argument, i, total, argumentAllocated, sizes, args);
        if r.Err? { return; }
        i := i + 1;
      }
      ArgsFacts(argument);
      r := Ok;
    }

    /** One turn of the loop over the modules. */
    method PlaceModule(h: NsoHeader, argument: Option<Argument>, i: nat, total: nat, argumentAllocated: bool,
                       ghost sizes: seq<nat>, ghost args: nat)
      returns (r: Status, newTotal: nat, nowAllocated: bool)
      requires i < |sizes| <= NSO_COUNT && sizes[i] == ModuleSize(h) && args == ArgsSize(argument)
      requires forall j | 0 <= j < |sizes| :: sizes[j] < AUTO_LOAD_MODULE_SIZE_MAX
      requires args <= AUTO_LOAD_MODULE_SIZE_MAX && (args == 0 <==> argument.None?)
      requires Placed(sizes, args, i, 0) && total == Offset(sizes, args, i)
      requires argumentAllocated <==> i > 0 && argument.Some?
      modifies this`argsAddress, this`argsSize, nsoAddress, nsoSize
      ensures Valid()
      ensures r == if h.Span() > 0 then Ok else Err(InvalidNso)
      ensures r.Ok? ==> Placed(sizes, args, i + 1, 0)
      ensures r.Ok? ==> newTotal == Offset(sizes, args, i + 1) && nowAllocated == argument.Some?
    {
      newTotal, nowAllocated := total, argumentAllocated;
      MaskCutsNothing(h);
      SumsFitU64(sizes, args, i);
      nsoAddress[i] := total;
      var alignedUpSize := ModuleSize(h) % AUTO_LOAD_MODULE_SIZE_MAX;
      if h.Span() > alignedUpSize || alignedUpSize <= 0 {
        return Err(InvalidNso), newTotal, nowAllocated;
      }
      nsoSize[i] := alignedUpSize;
      if !CanAddWithoutOverflow(total, alignedUpSize) {
        return Err(InvalidNso), newTotal, nowAllocated;
      }
      newTotal := newTotal + alignedUpSize;
      if !argumentAllocated && argument.Some? {
        argsAddress := newTotal;
        argsSize := ArgsSize(argument);
        if !CanAddWithoutOverflow(newTotal, argsSize) {
          return Err(InvalidNso), newTotal, nowAllocated;
        }
        newTotal := newTotal + argsSize;
        nowAllocated := true;
      }
      return Ok, newTotal, nowAllocated;
    }

    /** The closing loop of the layout moves every address by the slid start of the window. */
    method Rebase(count: nat, start: nat, ghost sizes: seq<nat>, ghost args: nat) returns (r: Status)
      requires count == |sizes| <= NSO_COUNT && start + TotalSize(sizes, args) < U64_LIMIT
      requires Placed(sizes, args, count, 0) && (count > 0 ==> sizes[0] > 0)
      modifies this`argsAddress, nsoAddress
      ensures r.Ok? && Placed(sizes, args, count, start)
    {
      if count > 0 {
        OffsetsIncrease(sizes, args, 0, count);
      }
      var i := 0;
      while i < count
        modifies nsoAddress
        invariant i <= count
        invariant forall k {:trigger nsoAddress[k]} | 0 <= k < i :: nsoAddress[k] == start + Offset(sizes, args, k)
        invariant forall k | i <= k < NSO_COUNT :: nsoAddress[k] == old(nsoAddress[k])
      {
        OffsetsIncrease(sizes, args, i, count);
        if !CanAddWithoutOverflow(nsoAddress[i], start) {
          return Err(InvalidNso);
        }
        nsoAddress[i] := nsoAddress[i] + start;
        i := i + 1;
      }
      if argsAddress != 0 {
        if !CanAddWithoutOverflow(argsAddress, start) {
          return Err(InvalidNso);
        }
        argsAddress := argsAddress + start;
      }
      return Ok;
    }

    /** 1.10: one slot per possible file.  The bytes placed before slot `i` count present slots only. */
    ghost predicate SparselyPlaced(sizes: seq<nat>, has: seq<bool>, args: nat, i: nat, start: nat)
      requires i <= |sizes| == |has| == NSO_COUNT
      reads this, nsoAddress, nsoSize
    {
      && Valid()
      && (forall k {:trigger nsoAddress[k]} | 0 <= k < NSO_COUNT ::
            nsoAddress[k] == if k < i && has[k] then start + SparseOffset(sizes, has, args, k) else 0)
      && (forall k | 0 <= k < NSO_COUNT :: nsoSize[k] == if k < i && has[k] then sizes[k] else 0)
      && if !AnyPresent(has, i) || args == 0 then argsAddress == argsSize == 0
         else argsAddress == start + FirstSize(sizes, has, i) && argsSize == args
    }

    /** A finished 1.10 layout. */
    ghost predicate SparselyLaid(sizes: seq<nat>, has: seq<bool>, args: nat)
      requires |sizes| == |has| == NSO_COUNT
      reads this, nsoAddress, nsoSize
    {
      && SparselyPlaced(sizes, has, args, |has|, codeAddress)
      && SparseOffset(sizes, has, args, |has|) == codeNumPages * PAGE_SIZE
    }

    method DecideSparseLayout(headers: seq<NsoHeader>, has: seq<bool>, argument: Option<Argument>, window: AslrWindow,
                              enableAslr: bool, random: nat) returns (r: Status)
      requires Valid() && |headers| == |has| == NSO_COUNT && window.Valid()
      modifies this, nsoAddress, nsoSize
      ensures Valid()
      ensures r == SparseLayoutStatus(headers, has, ArgsSize(argument), window)
      ensures r.Ok? ==> SparselyLaid(Sizes(headers), has, ArgsSize(argument))
      ensures r.Ok? && AnyPresent(has, NSO_COUNT) && argument.Some? ==>
                var needed := 8 + 2 * argument.value.argumentSize + argument.value.bufferSize;
                argsSize % 0x1000 == 0 && needed <= argsSize < needed + 0x1000
      ensures r.Ok? && (!AnyPresent(has, NSO_COUNT) || argument.None?) ==> argsSize == 0
      ensures r.Ok? ==> CodeInWindow(codeNumPages * PAGE_SIZE, window, enableAslr, random)
    {
      ghost var sizes, args := Sizes(headers), ArgsSize(argument);
      SizesFacts(headers, argument);
      var total;
      r, total := PlaceSparseModules(headers, has, argument, sizes, args);
      if r.Err? { return; }
      if total > window.size {
        return Err(OutOfMemory);
      }
      var slide := 0;
      if enableAslr {
        slide := GenerateSecureRandom((window.size - total) / MEMORY_BLOCK_UNIT_SIZE, random) * MEMORY_BLOCK_UNIT_SIZE;
      }
      assert slide == AslrSlide(window, total, enableAslr, random);
      r := RebaseSparse(has, window.start + slide, sizes, args);
      SparseOffsetsAligned(sizes, has, args, NSO_COUNT);
      codeAddress, codeNumPages := window.start + slide, total / PAGE_SIZE;
    }

    method PlaceSparseModules(headers: seq<NsoHeader>, has: seq<bool>, argument: Option<Argument>,
                              ghost sizes: seq<nat>, ghost args: nat)
      returns (r: Status, total: nat)
      requires Valid() && |sizes| == |headers| == |has| == NSO_COUNT && args == ArgsSize(argument)
      requires forall j | 0 <= j < |sizes| :: sizes[j] == ModuleSize(headers[j]) && sizes[j] < AUTO_LOAD_MODULE_SIZE_MAX
      requires args <= AUTO_LOAD_MODULE_SIZE_MAX && (args == 0 <==> argument.None?)
      modifies this`argsAddress, this`argsSize, nsoAddress, nsoSize
      ensures Valid()
      ensures r == if NoEmptyPresent(headers, has) then Ok else Err(InvalidNso)
      ensures r.Ok? ==> SparselyPlaced(sizes, has, args, NSO_COUNT, 0) && total == SparseOffset(sizes, has, args, NSO_COUNT)
    {
      ClearOutput();
      total := 0;
      var argumentAllocated := false;
      var i := 0;
      while i < NSO_COUNT
        invariant i <= NSO_COUNT
        invariant SparselyPlaced(sizes, has, args, i, 0)
        invariant forall k | 0 <= k < i && has[k] :: headers[k].Span() > 0
        invariant total == SparseOffset(sizes, has, args, i)
        invariant argumentAllocated <==> AnyPresent(has, i) && argument.Some?
      {
        r, total, argumentAllocated := PlaceSlot(headers[i], has, argument, i, total, argumentAllocated, sizes, args);
        if r.Err? { return; }
        i := i + 1;
      }
      r := Ok;
    }

    /** One turn of the loop over the slots. */
    method PlaceSlot(h: NsoHeader, has: seq<bool>, argument: Option<Argument>, i: nat, total: nat,
                     argumentAllocated: bool, ghost sizes: seq<nat>, ghost args: nat)
      returns (r: Status, newTotal: nat, nowAllocated: bool)
      requires i < |sizes| == |has| == NSO_COUNT && sizes[i] == ModuleSize(h) && args == ArgsSize(argument)
      requires forall j | 0 <= j < |sizes| :: sizes[j] < AUTO_LOAD_MODULE_SIZE_MAX
      requires args <= AUTO_LOAD_MODULE_SIZE_MAX && (args == 0 <==> argument.None?)
      requires SparselyPlaced(sizes, has, args, i, 0) && total == SparseOffset(sizes, has, args, i)
      requires argumentAllocated <==> AnyPresent(has, i) && argument.Some?
      modifies this`argsAddress, this`argsSize, nsoAddress, nsoSize
      ensures Valid()
      ensures r == if !has[i] || h.Span() > 0 then Ok else Err(InvalidNso)
      ensures r.Ok? ==> SparselyPlaced(sizes, has, args, i + 1, 0)
      ensures r.Ok? ==> newTotal == SparseOffset(sizes, has, args, i + 1)
      ensures r.Ok? ==> (nowAllocated <==> AnyPresent(has, i + 1) && argument.Some?)
    {
      if !has[i] {
        AbsentSlot(sizes, has, args, i);
        return Ok, total, argumentAllocated;
      }
      assert AnyPresent(has, i + 1);
      r, newTotal, nowAllocated := PlaceSparseModule(h, has, argument, i, total, argumentAllocated, sizes, args);
    }

    /** Nothing changes for a slot without a module. */
    lemma AbsentSlot(sizes: seq<nat>, has: seq<bool>, args: nat, i: nat)
      requires i < |sizes| == |has| == NSO_COUNT && !has[i] && SparselyPlaced(sizes, has, args, i, 0)
      ensures SparselyPlaced(sizes, has, args, i + 1, 0) && SparseOffset(sizes, has, args, i + 1) == SparseOffset(sizes, has, args, i)
      ensures AnyPresent(has, i + 1) <==> AnyPresent(has, i)
    {
      assert AnyPresent(has, i + 1) <==> AnyPresent(has, i);
    }

    method PlaceSparseModule(h: NsoHeader, has: seq<bool>, argument: Option<Argument>, i: nat, total: nat,
                             argumentAllocated: bool, ghost sizes: seq<nat>, ghost args: nat)
      returns (r: Status, newTotal: nat, nowAllocated: bool)
      requires i < |sizes| == |has| == NSO_COUNT && has[i] && sizes[i] == ModuleSize(h) && args == ArgsSize(argument)
      requires forall j | 0 <= j < |sizes| :: sizes[j] < AUTO_LOAD_MODULE_SIZE_MAX
      requires args <= AUTO_LOAD_MODULE_SIZE_MAX && (args == 0 <==> argument.None?)
      requires SparselyPlaced(sizes, has, args, i, 0) && total == SparseOffset(sizes, has, args, i)
      requires argumentAllocated <==> AnyPresent(has, i) && argument.Some?
      modifies this`argsAddress, this`argsSize, nsoAddress, nsoSize
      ensures Valid()
      ensures r == if h.Span() > 0 then Ok else Err(InvalidNso)
      ensures r.Ok? ==> SparselyPlaced(sizes, has, args, i + 1, 0)
      ensures r.Ok? ==> newTotal == SparseOffset(sizes, has, args, i + 1) && nowAllocated == argument.Some?
    {
      newTotal, nowAllocated := total, argumentAllocated;
      MaskCutsNothing(h);
      SparseSumsFitU64(sizes, has, args, i);
      FirstPresentOffset(sizes, has, args, i);
      nsoAddress[i] := total;
      var alignedUpSize := ModuleSize(h) % AUTO_LOAD_MODULE_SIZE_MAX;
      if h.Span() > alignedUpSize || alignedUpSize <= 0 {
        return Err(InvalidNso), newTotal, nowAllocated;
      }
      nsoSize[i] := alignedUpSize;
      if !CanAddWithoutOverflow(total, alignedUpSize) {
        return Err(InvalidNso), newTotal, nowAllocated;
      }
      newTotal := newTotal + alignedUpSize;
      if !argumentAllocated && argument.Some? {
        argsAddress := newTotal;
        argsSize := ArgsSize(argument);
        if !CanAddWithoutOverflow(newTotal, argsSize) {
          return Err(InvalidNso), newTotal, nowAllocated;
        }
        newTotal := newTotal + argsSize;
        nowAllocated := true;
      }
      return Ok, newTotal, nowAllocated;
    }

    method RebaseSparse(has: seq<bool>, start: nat, ghost sizes: seq<nat>, ghost args: nat) returns (r: Status)
      requires |has| == |sizes| == NSO_COUNT && start + SparseOffset(sizes, has, args, NSO_COUNT) < U64_LIMIT
      requires SparselyPlaced(sizes, has, args, NSO_COUNT, 0)
      requires forall k | 0 <= k < NSO_COUNT && has[k] :: sizes[k] > 0
      modifies this`argsAddress, nsoAddress
      ensures r.Ok? && SparselyPlaced(sizes, has, args, NSO_COUNT, start)
    {
      FirstSizeBounded(sizes, has, args, NSO_COUNT);
      var i := 0;
      while i < NSO_COUNT
        modifies nsoAddress
        invariant i <= NSO_COUNT
        invariant forall k {:trigger nsoAddress[k]} | 0 <= k < i ::
                    nsoAddress[k] == if has[k] then start + SparseOffset(sizes, has, args, k) else 0
        invariant forall k | i <= k < NSO_COUNT :: nsoAddress[k] == old(nsoAddress[k])
      {
        if has[i] {
          SparseOffsetsIncrease(sizes, has, args, i, NSO_COUNT);
          if !CanAddWithoutOverflow(nsoAddress[i], start) {
            return Err(InvalidNso);
          }
          nsoAddress[i] := nsoAddress[i] + start;
        }
        i := i + 1;
      }
      if argsAddress != 0 {
        if !CanAddWithoutOverflow(argsAddress, start) {
          return Err(InvalidNso);
        }
        argsAddress := argsAddress + start;
      }
      return Ok;
    }
  }

  // ---- What the layout means ----

  /** Module ranges and the argument range are page-aligned, pairwise disjoint, and tile the code
      region: every byte of it belongs to exactly one of them. */
  lemma LayoutTiles(sizes: seq<nat>, args: nat)
    requires sizes != [] && args % PAGE_SIZE == 0
    requires forall j | 0 <= j < |sizes| :: sizes[j] % PAGE_SIZE == 0
    ensures forall k | 0 <= k <= |sizes| :: Offset(sizes, args, k) % PAGE_SIZE == 0
    ensures forall x: nat | x < TotalSize(sizes, args) :: InArguments(sizes, args, x) || exists k :: InModule(sizes, args, k, x)
    ensures forall x: nat, k | InModule(sizes, args, k, x) :: x < TotalSize(sizes, args) && !InArguments(sizes, args, x)
    ensures forall x: nat, j, k | InModule(sizes, args, j, x) && InModule(sizes, args, k, x) :: j == k
    ensures sizes[0] + args <= TotalSize(sizes, args)
  {
    forall k: nat | k <= |sizes| ensures Offset(sizes, args, k) % PAGE_SIZE == 0 { OffsetsAligned(sizes, args, k); }
    forall x: nat | x < TotalSize(sizes, args)
      ensures InArguments(sizes, args, x) || exists k :: InModule(sizes, args, k, x)
    {
      Covered(sizes, args, |sizes|, x);
    }
    forall x: nat, k | InModule(sizes, args, k, x)
      ensures x < TotalSize(sizes, args) && !InArguments(sizes, args, x)
    {
      OffsetsIncrease(sizes, args, k, |sizes|);
      OffsetsIncrease(sizes, args, 0, k);
    }
    forall x: nat, j, k | InModule(sizes, args, j, x) && InModule(sizes, args, k, x)
      ensures j == k
    {
      if j < k { OffsetsIncrease(sizes, args, j, k); }
      if k < j { OffsetsIncrease(sizes, args, k, j); }
    }
    OffsetsIncrease(sizes, args, 0, |sizes|);
  }

  predicate InModule(sizes: seq<nat>, args: nat, k: int, x: nat) {
    0 <= k < |sizes| && Offset(sizes, args, k) <= x < Offset(sizes, args, k) + sizes[k]
  }

  predicate InArguments(sizes: seq<nat>, args: nat, x: nat) {
    sizes != [] && sizes[0] <= x < sizes[0] + args
  }

  lemma {:induction false} Covered(sizes: seq<nat>, args: nat, n: nat, x: nat)
    requires n <= |sizes| && x < Offset(sizes, args, n)
    ensures InArguments(sizes, args, x) || exists k :: InModule(sizes, args, k, x)
  {
    if x < Offset(sizes, args, n - 1) {
      Covered(sizes, args, n - 1, x);
    } else if x < Offset(sizes, args, n - 1) + sizes[n - 1] {
      assert InModule(sizes, args, n - 1, x);
    }
  }

  /** The sizes add up to the total: no gap, no overlap. */
  lemma {:induction false} SizesAddUp(sizes: seq<nat>, args: nat, n: nat)
    requires n <= |sizes|
    ensures Offset(sizes, args, n) == Sum(sizes[..n]) + if n == 0 then 0 else args
  {
    if n > 0 {
      SizesAddUp(sizes, args, n - 1);
      assert sizes[..n][..n - 1] == sizes[..n - 1];
    }
  }

  /** When a layout succeeds: no module is empty, and all of them and the arguments fit the window. */
  lemma LayoutSucceedsExactly(headers: seq<NsoHeader>, args: nat, window: AslrWindow)
    requires headers != []
    ensures LayoutStatus(headers, args, window).Ok? <==>
            (forall k | 0 <= k < |headers| :: headers[k].Span() > 0) && Sum(Sizes(headers)) + args <= window.size
    ensures LayoutStatus(headers, args, window).Err? ==>
              LayoutStatus(headers, args, window).error ==
              if forall k | 0 <= k < |headers| :: headers[k].Span() > 0 then OutOfMemory else InvalidNso
  {
    SizesAddUp(Sizes(headers), args, |headers|);
    assert Sizes(headers)[..|headers|] == Sizes(headers);
  }

  /** Whatever the random number, a successful layout stays inside its window. */
  lemma LayoutInWindow(sizes: seq<nat>, args: nat, window: AslrWindow, enableAslr: bool, random: nat)
    requires window.Valid() && TotalSize(sizes, args) <= window.size
    ensures var code := window.start + AslrSlide(window, TotalSize(sizes, args), enableAslr, random);
            code % PAGE_SIZE == 0 && window.start <= code && code + TotalSize(sizes, args) <= window.start + window.size
  {
    SumIsAligned(window.start, AslrSlide(window, TotalSize(sizes, args), enableAslr, random));
  }

  // ---- Dense refines sparse ----

  /** The sizes of the present slots below `n`. */
  function Gather(sizes: seq<nat>, has: seq<bool>, n: nat): (d: seq<nat>)
    requires n <= |sizes| == |has|
    ensures |d| <= n
  {
    if n == 0 then [] else Gather(sizes, has, n - 1) + if has[n - 1] then [sizes[n - 1]] else []
  }

  lemma {:induction false} OffsetOfPrefix(d: seq<nat>, e: seq<nat>, args: nat, k: nat)
    requires k <= |d|
    ensures Offset(d, args, k) == Offset(d + e, args, k)
  {
    if k > 0 {
      OffsetOfPrefix(d, e, args, k - 1);
    }
  }

  lemma {:induction false} GatherIsEmpty(sizes: seq<nat>, has: seq<bool>, n: nat)
    requires n <= |sizes| == |has|
    ensures AnyPresent(has, n) <==> Gather(sizes, has, n) != []
  {
    if n > 0 {
      GatherIsEmpty(sizes, has, n - 1);
      assert AnyPresent(has, n) <==> AnyPresent(has, n - 1) || has[n - 1];
    }
  }

  lemma {:induction false} FirstIsGathered(sizes: seq<nat>, has: seq<bool>, n: nat)
    requires n <= |sizes| == |has| && AnyPresent(has, n)
    ensures Gather(sizes, has, n) != [] && FirstSize(sizes, has, n) == Gather(sizes, has, n)[0]
  {
    GatherIsEmpty(sizes, has, n - 1);
    if AnyPresent(has, n - 1) { FirstIsGathered(sizes, has, n - 1); }
  }

  /** The sparse offset of any slot is the dense total of the present slots before it. */
  lemma {:induction false} SparseOffsetIsDense(sizes: seq<nat>, has: seq<bool>, args: nat, n: nat)
    requires n <= |sizes| == |has|
    ensures SparseOffset(sizes, has, args, n) == TotalSize(Gather(sizes, has, n), args)
  {
    if n > 0 {
      SparseOffsetIsDense(sizes, has, args, n - 1);
      GatherIsEmpty(sizes, has, n - 1);
      OneMoreSlot(Gather(sizes, has, n - 1), sizes[n - 1], args, has[n - 1], SparseOffset(sizes, has, args, n - 1));
    }
  }

  lemma OneMoreSlot(d: seq<nat>, size: nat, args: nat, present: bool, offset: nat)
    requires offset == TotalSize(d, args)
    ensures TotalSize(d + if present then [size] else [], args)
         == offset + if !present then 0 else if d != [] then size else size + args
  {
    if present {
      OffsetOfPrefix(d, [size], args, |d|);
    } else {
      assert d + [] == d;
    }
  }

  lemma {:induction false} GatherPrefix(sizes: seq<nat>, has: seq<bool>, m: nat, n: nat)
    requires m <= n <= |sizes| == |has|
    ensures Gather(sizes, has, m) <= Gather(sizes, has, n)
  {
    if m < n {
      GatherPrefix(sizes, has, m, n - 1);
    }
  }

  /** Gathering the present slots of the sparse headers gives the dense headers. */
  lemma {:induction false} GatherIsDense(files: Files, browser: bool, headers: seq<NsoHeader>, has: seq<bool>, n: nat)
    requires n <= NSO_COUNT && SparseHeadersOf(files, browser, headers, has)
    ensures Gather(Sizes(headers), has, n) == Sizes(HeadersOf(files, PresentIndices(files, browser, n)))
  {
    if n > 0 {
      GatherIsDense(files, browser, headers, has, n - 1);
    }
  }

  /** The sparse headers and presence bits of a set of files. */
  ghost predicate SparseHeadersOf(files: Files, browser: bool, headers: seq<NsoHeader>, has: seq<bool>) {
    && |headers| == |has| == NSO_COUNT
    && forall i: nat | i < NSO_COUNT :: has[i] == Present(files, browser, i) && (has[i] ==> headers[i] == HeaderOf(files, i))
  }

  lemma SlotAgrees(files: Files, browser: bool, headers: seq<NsoHeader>, has: seq<bool>, args: nat, k: nat)
    requires SparseHeadersOf(files, browser, headers, has)
    requires k < |PresentIndices(files, browser, NSO_COUNT)|
    ensures var indices := PresentIndices(files, browser, NSO_COUNT);
            && Offset(Sizes(HeadersOf(files, indices)), args, k) == SparseOffset(Sizes(headers), has, args, indices[k])
            && Sizes(HeadersOf(files, indices))[k] == Sizes(headers)[indices[k]]
  {
    var indices, sizes := PresentIndices(files, browser, NSO_COUNT), Sizes(headers);
    var i := indices[k];
    PositionIsDenseIndex(files, browser, k);
    GatherIsDense(files, browser, headers, has, NSO_COUNT);
    GatherIsDense(files, browser, headers, has, i);
    GatheredSlot(sizes, has, args, i, k, Sizes(HeadersOf(files, indices)));
  }

  /** The k-th present slot of the sparse sizes is slot k of the gathered ones. */
  lemma GatheredSlot(sizes: seq<nat>, has: seq<bool>, args: nat, i: nat, k: nat, dense: seq<nat>)
    requires i <= |sizes| == |has| && k == |Gather(sizes, has, i)| && dense == Gather(sizes, has, |sizes|)
    ensures k <= |dense| && Offset(dense, args, k) == SparseOffset(sizes, has, args, i)
  {
    var d := Gather(sizes, has, i);
    SparseOffsetIsDense(sizes, has, args, i);
    GatherPrefix(sizes, has, i, |sizes|);
    assert dense == d + dense[k..];
    OffsetOfPrefix(d, dense[k..], args, k);
  }

  /** For the same files, arguments and window, the two generations fail alike or not at all, and place the same total. */
  lemma DenseRefinesSparse(files: Files, browser: bool, headers: seq<NsoHeader>, has: seq<bool>, args: nat, window: AslrWindow)
    requires SparseHeadersOf(files, browser, headers, has)
    ensures var dense := HeadersOf(files, PresentIndices(files, browser, NSO_COUNT));
            && LayoutStatus(dense, args, window) == SparseLayoutStatus(headers, has, args, window)
            && TotalSize(Sizes(dense), args) == SparseOffset(Sizes(headers), has, args, NSO_COUNT)
  {
    GatherIsDense(files, browser, headers, has, NSO_COUNT);
    SparseOffsetIsDense(Sizes(headers), has, args, NSO_COUNT);
    EmptinessAgrees(files, browser, headers, has);
  }

  /** The code, the arguments and every module are at the same addresses. */
  ghost predicate SamePlaces(indices: seq<nat>, dense: ProcessInfo, sparse: ProcessInfo)
    reads dense, dense.nsoAddress, dense.nsoSize, sparse, sparse.nsoAddress, sparse.nsoSize
  {
    && dense.Valid() && sparse.Valid() && |indices| <= NSO_COUNT
    && dense.codeAddress == sparse.codeAddress && dense.codeNumPages == sparse.codeNumPages
    && dense.argsAddress == sparse.argsAddress && dense.argsSize == sparse.argsSize
    && (forall k | 0 <= k < |indices| :: indices[k] < NSO_COUNT)
    && (forall k | 0 <= k < |indices| :: dense.nsoAddress[k] == sparse.nsoAddress[indices[k]])
    && (forall k | 0 <= k < |indices| :: dense.nsoSize[k] == sparse.nsoSize[indices[k]])
  }

  lemma PlacesAgree(indices: seq<nat>, dense: ProcessInfo, sparse: ProcessInfo, k: nat)
    requires SamePlaces(indices, dense, sparse) && k < |indices|
    ensures dense.codeAddress == sparse.codeAddress && dense.codeNumPages == sparse.codeNumPages
    ensures dense.argsAddress == sparse.argsAddress && dense.argsSize == sparse.argsSize
    ensures k < dense.nsoAddress.Length && indices[k] < sparse.nsoAddress.Length
    ensures dense.nsoAddress[k] == sparse.nsoAddress[indices[k]]
    ensures k < dense.nsoSize.Length && indices[k] < sparse.nsoSize.Length
    ensures dense.nsoSize[k] == sparse.nsoSize[indices[k]]
  {
  }

  /** In finished layouts made with the same random number, the code is at the same address, dense slot `k` has the
      place and size of the sparse slot of its file, and the arguments are at the same place. */
  lemma FinishedLayoutsAgree(files: Files, browser: bool, headers: seq<NsoHeader>, has: seq<bool>, args: nat,
                             window: AslrWindow, enableAslr: bool, random: nat, dense: ProcessInfo, sparse: ProcessInfo)
    requires SparseHeadersOf(files, browser, headers, has)
    requires dense.Laid(Sizes(HeadersOf(files, PresentIndices(files, browser, NSO_COUNT))), args)
    requires sparse.SparselyLaid(Sizes(headers), has, args)
    requires dense.CodeInWindow(dense.totalSize, window, enableAslr, random)
    requires sparse.CodeInWindow(sparse.codeNumPages * PAGE_SIZE, window, enableAslr, random)
    ensures SamePlaces(PresentIndices(files, browser, NSO_COUNT), dense, sparse)
  {
    GatherIsDense(files, browser, headers, has, NSO_COUNT);
    SparseOffsetIsDense(Sizes(headers), has, args, NSO_COUNT);
    GatherIsEmpty(Sizes(headers), has, NSO_COUNT);
    if AnyPresent(has, NSO_COUNT) { FirstIsGathered(Sizes(headers), has, NSO_COUNT); }
    forall k: nat | k < |PresentIndices(files, browser, NSO_COUNT)|
      ensures var i := PresentIndices(files, browser, NSO_COUNT)[k];
              dense.nsoAddress[k] == sparse.nsoAddress[i] && dense.nsoSize[k] == sparse.nsoSize[i]
    {
      SlotAgrees(files, browser, headers, has, args, k);
    }
  }

  lemma EmptinessAgrees(files: Files, browser: bool, headers: seq<NsoHeader>, has: seq<bool>)
    requires SparseHeadersOf(files, browser, headers, has)
    ensures NoEmptyPresent(headers, has) <==> NoEmptyModule(HeadersOf(files, PresentIndices(files, browser, NSO_COUNT)))
  {
    var indices := PresentIndices(files, browser, NSO_COUNT);
    var dense := HeadersOf(files, indices);
    assert forall k: nat | k < |indices| :: has[indices[k]] && dense[k] == headers[indices[k]];
    if NoEmptyModule(dense) {
      forall i: nat | i < NSO_COUNT && has[i]
        ensures headers[i].Span() > 0
      {
        DenseIndexIsPosition(files, browser, NSO_COUNT, i);
        assert dense[DenseIndex(files, browser, NSO_COUNT, i)].Span() > 0;
      }
    }
  }
}
