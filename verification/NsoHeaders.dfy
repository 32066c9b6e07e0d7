/** Reading and checking the headers of a program's modules, in the two shapes the loader has had:
    1.11 packs the present modules densely and remembers which file each came from; 1.10 keeps one
    slot per possible file and a presence bit. */
module NsoHeaders {
  import opened Common
  import opened NsoFormat

  const NSO_RTLD: nat := 0
  const NSO_MAIN: nat := 1
  const NSO_WKC0: nat := 2
  const NSO_WKC9: nat := 11
  const NSO_SUBSDK0: nat := 12
  const NSO_SUBSDK9: nat := 21
  const NSO_SDK: nat := 22

  /** The code mount: one optional file per NsoIndex. */
  type Files = f: seq<Option<File>> | |f| == NSO_COUNT witness seq(NSO_COUNT, _ => None)

  /** Browser DLLs are looked for only when the ACID flags say so. */
  predicate Present(files: Files, browser: bool, i: nat)
    requires i < NSO_COUNT
  {
    (browser || !(NSO_WKC0 <= i <= NSO_WKC9)) && files[i].Some?
  }

  /** The first header below `n` that cannot be read in full decides. */
  function HeaderStatus(files: Files, browser: bool, n: nat): Status
    requires n <= NSO_COUNT
  {
    if n == 0 then Ok
    else if HeaderStatus(files, browser, n - 1).Err? || !Present(files, browser, n - 1) then HeaderStatus(files, browser, n - 1)
    else files[n - 1].value.header.Outcome()
  }

  lemma {:induction false} HeaderErrorStays(files: Files, browser: bool, m: nat, n: nat)
    requires m <= n <= NSO_COUNT && HeaderStatus(files, browser, m).Err?
    ensures HeaderStatus(files, browser, n) == HeaderStatus(files, browser, m)
  {
    if m < n { HeaderErrorStays(files, browser, m, n - 1); }
  }

  /** The present files below `n`, in order. */
  function PresentIndices(files: Files, browser: bool, n: nat): (s: seq<nat>)
    requires n <= NSO_COUNT
    ensures |s| <= n
    ensures forall k | 0 <= k < |s| :: s[k] < n && Present(files, browser, s[k])
  {
    if n == 0 then []
    else PresentIndices(files, browser, n - 1) + if Present(files, browser, n - 1) then [n - 1] else []
  }

  function HeaderOf(files: Files, i: nat): NsoHeader
    requires i < NSO_COUNT
  {
    if files[i].Some? && files[i].value.header.Whole? then files[i].value.header.value else NO_HEADER
  }

  function HeadersOf(files: Files, indices: seq<nat>): (h: seq<NsoHeader>)
    requires forall k | 0 <= k < |indices| :: indices[k] < NSO_COUNT
    ensures |h| == |indices|
  {
    seq(|indices|, k requires 0 <= k < |indices| => HeaderOf(files, indices[k]))
  }

  lemma OneMorePresent(files: Files, browser: bool, i: nat)
    requires i < NSO_COUNT && Present(files, browser, i)
    ensures PresentIndices(files, browser, i + 1) == PresentIndices(files, browser, i) + [i]
    ensures HeadersOf(files, PresentIndices(files, browser, i + 1))
         == HeadersOf(files, PresentIndices(files, browser, i)) + [HeaderOf(files, i)]
  {
    var before, after := PresentIndices(files, browser, i), PresentIndices(files, browser, i + 1);
    assert after == before + [i];
    HeadersOfOneMore(files, before, i);
  }

  lemma HeadersOfOneMore(files: Files, indices: seq<nat>, i: nat)
    requires i < NSO_COUNT && forall k | 0 <= k < |indices| :: indices[k] < NSO_COUNT
    ensures HeadersOf(files, indices + [i]) == HeadersOf(files, indices) + [HeaderOf(files, i)]
  {
  }

  predicate HasSubSdk(files: Files, browser: bool, n: nat)
    requires n <= NSO_COUNT
  {
    exists i: nat :: NSO_SUBSDK0 <= i <= NSO_SUBSDK9 && i < n && Present(files, browser, i)
  }

  /** Which of the specially treated files exist. */
  datatype Kinds = Kinds(hasRtld: bool, hasMain: bool, hasSdk: bool, hasSubSdk: bool)

  function KindsBelow(files: Files, browser: bool, n: nat): Kinds
    requires n <= NSO_COUNT
  {
    Kinds(NSO_RTLD < n && Present(files, browser, NSO_RTLD), NSO_MAIN < n && Present(files, browser, NSO_MAIN),
          NSO_SDK < n && Present(files, browser, NSO_SDK), HasSubSdk(files, browser, n))
  }

  /** What one more file adds. */
  function KindsWith(kinds: Kinds, i: nat): Kinds {
    if i == NSO_RTLD then kinds.(hasRtld := true)
    else if i == NSO_MAIN then kinds.(hasMain := true)
    else if NSO_SUBSDK0 <= i <= NSO_SUBSDK9 then kinds.(hasSubSdk := true)
    else if i == NSO_SDK then kinds.(hasSdk := true)
    else kinds
  }

  lemma KindsStep(files: Files, browser: bool, n: nat)
    requires n < NSO_COUNT
    ensures KindsBelow(files, browser, n + 1)
         == if Present(files, browser, n) then KindsWith(KindsBelow(files, browser, n), n) else KindsBelow(files, browser, n)
  {
    assert HasSubSdk(files, browser, n + 1)
      <==> HasSubSdk(files, browser, n) || (Present(files, browser, n) && NSO_SUBSDK0 <= n <= NSO_SUBSDK9);
  }

  /** The dense position of file `i` once the files below `n` have been seen, or -1. */
  function DenseIndex(files: Files, browser: bool, n: nat, i: nat): int
    requires n <= NSO_COUNT && i < NSO_COUNT
  {
    if i < n && Present(files, browser, i) then |PresentIndices(files, browser, i)| else -1
  }

  lemma {:induction false} PresentIndicesGrow(files: Files, browser: bool, m: nat, n: nat)
    requires m <= n <= NSO_COUNT
    ensures PresentIndices(files, browser, m) <= PresentIndices(files, browser, n)
  {
    if m < n { PresentIndicesGrow(files, browser, m, n - 1); }
  }

  lemma PrefixKeepsLast(a: seq<nat>, b: seq<nat>)
    requires a <= b && a != []
    ensures |a| <= |b| && b[|a| - 1] == a[|a| - 1]
  {
  }

  /** A present file is found at its dense position. */
  lemma DenseIndexIsPosition(files: Files, browser: bool, n: nat, i: nat)
    requires i < n <= NSO_COUNT && Present(files, browser, i)
    ensures 0 <= DenseIndex(files, browser, n, i) < |PresentIndices(files, browser, n)|
    ensures PresentIndices(files, browser, n)[DenseIndex(files, browser, n, i)] == i
  {
    var upTo := PresentIndices(files, browser, i + 1);
    assert upTo == PresentIndices(files, browser, i) + [i];
    PresentIndicesGrow(files, browser, i + 1, n);
    PrefixKeepsLast(upTo, PresentIndices(files, browser, n));
  }

  /** Dense positions grow with the file index. */
  lemma {:induction false} PresentIndicesIncrease(files: Files, browser: bool, n: nat, j: nat, k: nat)
    requires n <= NSO_COUNT && j < k < |PresentIndices(files, browser, n)|
    ensures PresentIndices(files, browser, n)[j] < PresentIndices(files, browser, n)[k]
  {
    if k < |PresentIndices(files, browser, n - 1)| {
      PresentIndicesIncrease(files, browser, n - 1, j, k);
    }
  }

  /** The inverse: dense slot `k` holds the file whose dense position is `k`. */
  lemma PositionIsDenseIndex(files: Files, browser: bool, k: nat)
    requires k < |PresentIndices(files, browser, NSO_COUNT)|
    ensures DenseIndex(files, browser, NSO_COUNT, PresentIndices(files, browser, NSO_COUNT)[k]) == k
  {
    var i := PresentIndices(files, browser, NSO_COUNT)[k];
    DenseIndexIsPosition(files, browser, NSO_COUNT, i);
    var p := DenseIndex(files, browser, NSO_COUNT, i);
    if p < k {
      PresentIndicesIncrease(files, browser, NSO_COUNT, p, k);
    } else if k < p {
      PresentIndicesIncrease(files, browser, NSO_COUNT, k, p);
    }
  }

  predicate HeaderAllowed(h: NsoHeader) {
    !h.preventCodeReads && h.PageAligned() && h.WellPlaced()
  }

  /** Zstd is for main alone, and only beside both rtld and sdk. */
  predicate ZbicAllowed(h: NsoHeader, i: int, rtldIdx: int, mainIdx: int, sdkIdx: int) {
    h.useZbic ==> i == mainIdx && rtldIdx >= 0 && sdkIdx >= 0
  }

  /** An sdk needs rtld; browser DLLs exclude both rtld and subsdks. */
  predicate CombinationAllowed(k: Kinds, browser: bool) {
    (k.hasSdk ==> k.hasRtld) && !(k.hasRtld && browser) && !(k.hasSubSdk && browser)
  }

  predicate DenseAccepts(headers: seq<NsoHeader>, rtldIdx: int, mainIdx: int, sdkIdx: int, kinds: Kinds, browser: bool) {
    && kinds.hasMain
    && CombinationAllowed(kinds, browser)
    && forall i | 0 <= i < |headers| :: HeaderAllowed(headers[i]) && ZbicAllowed(headers[i], i, rtldIdx, mainIdx, sdkIdx)
  }

  predicate SparseAccepts(headers: seq<NsoHeader>, hasNso: seq<bool>, kinds: Kinds, browser: bool)
    requires |headers| == |hasNso|
  {
    && kinds.hasMain
    && CombinationAllowed(kinds, browser)
    && (forall i | 0 <= i < |headers| :: !headers[i].preventCodeReads)
    && forall i | 0 <= i < |headers| && hasNso[i] :: headers[i].PageAligned() && headers[i].WellPlaced()
  }

  /** The 1.11 context. */
  class AutoLoadModuleContext {
    const headers: array<NsoHeader>
    const nsoIndices: array<nat>
    var nsoCount: nat
    var rtldIdx: int
    var mainIdx: int
    var sdkIdx: int
    var kinds: Kinds

    ghost predicate Valid()
      reads this
    {
      headers.Length == nsoIndices.Length == NSO_COUNT && nsoCount <= NSO_COUNT
    }

    /** What the loop over the files has found among those below `n`. */
    ghost predicate Found(files: Files, browser: bool, n: nat)
      requires n <= NSO_COUNT
      reads this, headers, nsoIndices
    {
      FoundModules(files, browser, n) && FoundKinds(files, browser, n)
    }

    ghost predicate FoundModules(files: Files, browser: bool, n: nat)
      requires n <= NSO_COUNT
      reads this, headers, nsoIndices
    {
      && Valid()
      && nsoIndices[..nsoCount] == PresentIndices(files, browser, n)
      && headers[..nsoCount] == HeadersOf(files, PresentIndices(files, browser, n))
    }

    ghost predicate FoundKinds(files: Files, browser: bool, n: nat)
      requires n <= NSO_COUNT
      reads this
    {
      && rtldIdx == DenseIndex(files, browser, n, NSO_RTLD)
      && mainIdx == DenseIndex(files, browser, n, NSO_MAIN)
      && sdkIdx == DenseIndex(files, browser, n, NSO_SDK)
      && kinds == KindsBelow(files, browser, n)
    }

    constructor ()
      ensures Valid() && fresh(headers) && fresh(nsoIndices)
    {
      headers := new NsoHeader[NSO_COUNT](_ => NO_HEADER);
      nsoIndices := new nat[NSO_COUNT](_ => 0);
      nsoCount := 0;
    }

    method LoadHeaders(files: Files, browser: bool) returns (r: Status)
      requires Valid()
      modifies this, headers, nsoIndices
      ensures Valid()
      ensures r == HeaderStatus(files, browser, NSO_COUNT)
      ensures r.Ok? ==> Found(files, browser, NSO_COUNT)
    {
      Reset(files, browser);
      var i := 0;
      while i < NSO_COUNT
        invariant i <= NSO_COUNT
        invariant HeaderStatus(files, browser, i).Ok?
        invariant Found(files, browser, i)
      {
        r := LoadHeader(files, browser, i);
        if r.Err? {
          HeaderErrorStays(files, browser, i + 1, NSO_COUNT);
          return;
        }
        i := i + 1;
      }
      return Ok;
    }

    method Reset(ghost files: Files, ghost browser: bool)
      requires Valid()
      modifies this
      ensures Found(files, browser, 0)
    {
      nsoCount, rtldIdx, mainIdx, sdkIdx := 0, -1, -1, -1;
      kinds := Kinds(false, false, false, false);
    }

    /** One turn of the loop over the files. */
    method LoadHeader(files: Files, browser: bool, i: nat) returns (r: Status)
      requires i < NSO_COUNT && Found(files, browser, i) && HeaderStatus(files, browser, i).Ok?
      modifies this, headers, nsoIndices
      ensures Valid()
      ensures r == HeaderStatus(files, browser, i + 1)
      ensures r.Ok? ==> Found(files, browser, i + 1)
    {
      if (browser || !(NSO_WKC0 <= i <= NSO_WKC9)) && files[i].Some? {
        if !files[i].value.header.Whole? {
          return files[i].value.header.Outcome();
        }
        Append(files, browser, i);
        return Ok;
      }
      SkipAbsent(files, browser, i);
      return Ok;
    }

    lemma SkipAbsent(files: Files, browser: bool, i: nat)
      requires i < NSO_COUNT && !Present(files, browser, i) && Found(files, browser, i)
      ensures Found(files, browser, i + 1)
    {
      KindsStep(files, browser, i);
    }

    method Append(files: Files, browser: bool, i: nat)
      requires i < NSO_COUNT && Present(files, browser, i) && files[i].value.header.Whole?
      requires Found(files, browser, i)
      modifies this, headers, nsoIndices
      ensures Found(files, browser, i + 1)
    {
      Note(files, browser, i);
      headers[nsoCount], nsoIndices[nsoCount] := files[i].value.header.value, i;
      nsoCount := nsoCount + 1;
      OneMorePresent(files, browser, i);
      assert nsoIndices[..nsoCount] == PresentIndices(files, browser, i) + [i];
      assert headers[..nsoCount] == HeadersOf(files, PresentIndices(files, browser, i)) + [HeaderOf(files, i)];
    }

    /** The switch on a present file. */
    method Note(files: Files, browser: bool, i: nat)
      requires i < NSO_COUNT && Present(files, browser, i)
      requires FoundModules(files, browser, i) && FoundKinds(files, browser, i)
      modifies this`rtldIdx, this`mainIdx, this`sdkIdx, this`kinds
      ensures FoundKinds(files, browser, i + 1)
    {
      KindsStep(files, browser, i);
      if i == NSO_RTLD {
        rtldIdx, kinds := nsoCount, kinds.(hasRtld := true);
      } else if i == NSO_MAIN {
        mainIdx, kinds := nsoCount, kinds.(hasMain := true);
      } else if NSO_SUBSDK0 <= i <= NSO_SUBSDK9 {
        kinds := kinds.(hasSubSdk := true);
      } else if i == NSO_SDK {
        sdkIdx, kinds := nsoCount, kinds.(hasSdk := true);
      }
    }

    /** Every check fails with the same error, so acceptance is all there is to say. */
    method CheckAutoLoad(browser: bool) returns (r: Status)
      requires Valid()
      ensures r == if DenseAccepts(headers[..nsoCount], rtldIdx, mainIdx, sdkIdx, kinds, browser) then Ok else Err(InvalidNso)
    {
      if !kinds.hasMain {
        return Err(InvalidNso);
      }
      var i := 0;
      while i < nsoCount
        invariant i <= nsoCount
        invariant forall k | 0 <= k < i :: HeaderAllowed(headers[k]) && ZbicAllowed(headers[k], k, rtldIdx, mainIdx, sdkIdx)
      {
        var h := headers[i];
        if h.preventCodeReads {
          return Err(InvalidNso);
        }
        if i != mainIdx || rtldIdx < 0 || sdkIdx < 0 {
          if h.useZbic {
            return Err(InvalidNso);
          }
        }
        if h.text.dstOffset % PAGE_SIZE != 0 || h.ro.dstOffset % PAGE_SIZE != 0 || h.rw.dstOffset % PAGE_SIZE != 0 {
          return Err(InvalidNso);
        }
        if h.text.dstOffset != 0 || h.text.End() > h.ro.dstOffset || h.ro.End() > h.rw.dstOffset {
          return Err(InvalidNso);
        }
        i := i + 1;
      }
      if kinds.hasRtld || kinds.hasSdk {
        if !kinds.hasRtld || browser {
          return Err(InvalidNso);
        }
      } else if kinds.hasSubSdk && browser {
        return Err(InvalidNso);
      }
      return Ok;
    }
  }

  /** The 1.10 header cache and presence bits. */
  class AutoLoadModuleInfo {
    const headers: array<NsoHeader>
    const hasNso: array<bool>
    var kinds: Kinds

    ghost predicate Valid()
      reads this
    {
      headers.Length == hasNso.Length == NSO_COUNT
    }

    ghost predicate Found(files: Files, browser: bool, n: nat)
      requires n <= NSO_COUNT
      reads this, headers, hasNso
    {
      && Valid()
      && kinds == KindsBelow(files, browser, n)
      && (forall i: nat | i < NSO_COUNT :: hasNso[i] == (i < n && Present(files, browser, i)))
      && (forall i: nat | i < NSO_COUNT :: headers[i] == if i < n && Present(files, browser, i) then HeaderOf(files, i) else NO_HEADER)
    }

    constructor ()
      ensures Valid() && fresh(headers) && fresh(hasNso)
    {
      headers := new NsoHeader[NSO_COUNT](_ => NO_HEADER);
      hasNso := new bool[NSO_COUNT](_ => false);
    }

    method LoadHeaders(files: Files, browser: bool) returns (r: Status)
      requires Valid()
      modifies this, headers, hasNso
      ensures Valid()
      ensures r == HeaderStatus(files, browser, NSO_COUNT)
      ensures r.Ok? ==> Found(files, browser, NSO_COUNT)
    {
      forall i | 0 <= i < headers.Length { headers[i] := NO_HEADER; }
      forall i | 0 <= i < hasNso.Length { hasNso[i] := false; }
      kinds := Kinds(false, false, false, false);
      var i := 0;
      while i < NSO_COUNT
        invariant i <= NSO_COUNT
        invariant HeaderStatus(files, browser, i).Ok?
        invariant Found(files, browser, i)
      {
        if (browser || !(NSO_WKC0 <= i <= NSO_WKC9)) && files[i].Some? {
          if !files[i].value.header.Whole? {
            HeaderErrorStays(files, browser, i + 1, NSO_COUNT);
            return files[i].value.header.Outcome();
          }
          Note(files, browser, i);
        } else {
          SkipAbsent(files, browser, i);
        }
        i := i + 1;
      }
      return Ok;
    }

    lemma SkipAbsent(files: Files, browser: bool, i: nat)
      requires i < NSO_COUNT && !Present(files, browser, i) && Found(files, browser, i)
      ensures Found(files, browser, i + 1)
    {
      KindsStep(files, browser, i);
    }

    method Note(files: Files, browser: bool, i: nat)
      requires i < NSO_COUNT && Present(files, browser, i) && files[i].value.header.Whole?
      requires Found(files, browser, i)
      modifies this, headers, hasNso
      ensures Found(files, browser, i + 1)
    {
      KindsStep(files, browser, i);
      headers[i] := files[i].value.header.value;
      if i == NSO_RTLD {
        kinds := kinds.(hasRtld := true);
      } else if i == NSO_MAIN {
        kinds := kinds.(hasMain := true);
      } else if NSO_SUBSDK0 <= i <= NSO_SUBSDK9 {
        kinds := kinds.(hasSubSdk := true);
      } else if i == NSO_SDK {
        kinds := kinds.(hasSdk := true);
      }
      hasNso[i] := true;
    }

    method CheckAutoLoad(browser: bool) returns (r: Status)
      requires Valid()
      ensures r == if SparseAccepts(headers[..], hasNso[..], kinds, browser) then Ok else Err(InvalidNso)
    {
      if !kinds.hasMain {
        return Err(InvalidNso);
      }
      var i := 0;
      while i < NSO_COUNT
        invariant i <= NSO_COUNT
        invariant forall k | 0 <= k < i :: !headers[k].preventCodeReads
      {
        if headers[i].preventCodeReads {
          return Err(InvalidNso);
        }
        i := i + 1;
      }
      if !kinds.hasRtld {
        if kinds.hasSdk || (kinds.hasSubSdk && browser) {
          return Err(InvalidNso);
        }
      } else if browser {
        return Err(InvalidNso);
      }
      i := 0;
      while i < NSO_COUNT
        invariant i <= NSO_COUNT
        invariant forall k | 0 <= k < i && hasNso[k] :: headers[k].PageAligned() && headers[k].WellPlaced()
      {
        var h := headers[i];
        if hasNso[i] {
          if h.text.dstOffset % PAGE_SIZE != 0 || h.ro.dstOffset % PAGE_SIZE != 0 || h.rw.dstOffset % PAGE_SIZE != 0 {
            return Err(InvalidNso);
          }
          if h.text.dstOffset != 0 || h.text.End() > h.ro.dstOffset || h.ro.End() > h.rw.dstOffset {
            return Err(InvalidNso);
          }
        }
        i := i + 1;
      }
      return Ok;
    }
  }

  /** Main is the only present module compressed with Zstd, if any is, and then rtld and sdk are there. */
  predicate OnlyMainUsesZbic(files: Files, browser: bool) {
    forall i: nat | i < NSO_COUNT && Present(files, browser, i) && HeaderOf(files, i).useZbic ::
      i == NSO_MAIN && Present(files, browser, NSO_RTLD) && Present(files, browser, NSO_SDK)
  }

  /** The Zstd rule for dense slot `k`. */
  predicate ZbicAllowedAt(files: Files, browser: bool, k: nat)
    requires k < |PresentIndices(files, browser, NSO_COUNT)|
  {
    ZbicAllowed(HeaderOf(files, PresentIndices(files, browser, NSO_COUNT)[k]), k, DenseIndex(files, browser, NSO_COUNT, NSO_RTLD),
                DenseIndex(files, browser, NSO_COUNT, NSO_MAIN), DenseIndex(files, browser, NSO_COUNT, NSO_SDK))
  }

  /** The dense form of the Zstd rule, slot by slot, is the rule about the files. */
  lemma ZbicRuleAgrees(files: Files, browser: bool)
    ensures (forall k: nat | k < |PresentIndices(files, browser, NSO_COUNT)| :: ZbicAllowedAt(files, browser, k))
       <==> OnlyMainUsesZbic(files, browser)
  {
    var indices := PresentIndices(files, browser, NSO_COUNT);
    if forall k: nat | k < |indices| :: ZbicAllowedAt(files, browser, k) {
      forall i: nat | i < NSO_COUNT && Present(files, browser, i) && HeaderOf(files, i).useZbic
        ensures i == NSO_MAIN && Present(files, browser, NSO_RTLD) && Present(files, browser, NSO_SDK)
      {
        DenseIndexIsPosition(files, browser, NSO_COUNT, i);
        assert ZbicAllowedAt(files, browser, DenseIndex(files, browser, NSO_COUNT, i));
        DenseIndexIsPosition(files, browser, NSO_COUNT, NSO_MAIN);
      }
    }
    if OnlyMainUsesZbic(files, browser) {
      forall k: nat | k < |indices|
        ensures ZbicAllowedAt(files, browser, k)
      {
        PositionIsDenseIndex(files, browser, k);
      }
    }
  }

  /** What 1.11 accepts, as a condition on the files. */
  predicate DenseAccepted(files: Files, browser: bool) {
    DenseAccepts(HeadersOf(files, PresentIndices(files, browser, NSO_COUNT)), DenseIndex(files, browser, NSO_COUNT, NSO_RTLD),
                 DenseIndex(files, browser, NSO_COUNT, NSO_MAIN), DenseIndex(files, browser, NSO_COUNT, NSO_SDK),
                 KindsBelow(files, browser, NSO_COUNT), browser)
  }

  /** The header cache and the presence bits the files lead to. */
  function CacheOf(files: Files, browser: bool): (headers: seq<NsoHeader>)
    ensures |headers| == NSO_COUNT
  {
    seq(NSO_COUNT, i requires 0 <= i < NSO_COUNT => if Present(files, browser, i) then HeaderOf(files, i) else NO_HEADER)
  }

  function HasOf(files: Files, browser: bool): (has: seq<bool>)
    ensures |has| == NSO_COUNT
  {
    seq(NSO_COUNT, i requires 0 <= i < NSO_COUNT => Present(files, browser, i))
  }

  /** What 1.10 accepts. */
  predicate SparseAccepted(files: Files, browser: bool) {
    SparseAccepts(CacheOf(files, browser), HasOf(files, browser), KindsBelow(files, browser, NSO_COUNT), browser)
  }

  lemma AllowedAgrees(files: Files, browser: bool, headers: seq<NsoHeader>, hasNso: seq<bool>)
    requires |headers| == |hasNso| == NSO_COUNT
    requires forall i: nat | i < NSO_COUNT :: hasNso[i] == Present(files, browser, i)
    requires forall i: nat | i < NSO_COUNT :: headers[i] == if hasNso[i] then HeaderOf(files, i) else NO_HEADER
    ensures var indices := PresentIndices(files, browser, NSO_COUNT);
            (forall k: nat | k < |indices| :: HeaderAllowed(HeaderOf(files, indices[k])))
            <==> && (forall i | 0 <= i < NSO_COUNT :: !headers[i].preventCodeReads)
                 && (forall i | 0 <= i < NSO_COUNT && hasNso[i] :: headers[i].PageAligned() && headers[i].WellPlaced())
  {
    var indices := PresentIndices(files, browser, NSO_COUNT);
    if forall k: nat | k < |indices| :: HeaderAllowed(HeaderOf(files, indices[k])) {
      forall i: nat | i < NSO_COUNT && hasNso[i]
        ensures HeaderAllowed(headers[i])
      {
        DenseIndexIsPosition(files, browser, NSO_COUNT, i);
        assert HeaderAllowed(HeaderOf(files, indices[DenseIndex(files, browser, NSO_COUNT, i)]));
      }
    }
    if (forall i | 0 <= i < NSO_COUNT :: !headers[i].preventCodeReads)
       && (forall i | 0 <= i < NSO_COUNT && hasNso[i] :: headers[i].PageAligned() && headers[i].WellPlaced()) {
      forall k: nat | k < |indices|
        ensures HeaderAllowed(HeaderOf(files, indices[k]))
      {
        var i := indices[k];
        assert hasNso[i] && headers[i] == HeaderOf(files, i);
      }
    }
  }

  /** What 1.11 asks of its dense headers, file by file. */
  lemma DenseRules(files: Files, browser: bool)
    ensures var indices, kinds := PresentIndices(files, browser, NSO_COUNT), KindsBelow(files, browser, NSO_COUNT);
            DenseAccepted(files, browser) <==>
            && kinds.hasMain && CombinationAllowed(kinds, browser)
            && (forall k: nat | k < |indices| :: HeaderAllowed(HeaderOf(files, indices[k])))
            && (forall k: nat | k < |indices| :: ZbicAllowedAt(files, browser, k))
  {
    var indices, kinds := PresentIndices(files, browser, NSO_COUNT), KindsBelow(files, browser, NSO_COUNT);
    var headers := HeadersOf(files, indices);
    if DenseAccepted(files, browser) {
      forall k: nat | k < |indices|
        ensures HeaderAllowed(HeaderOf(files, indices[k])) && ZbicAllowedAt(files, browser, k)
      {
        assert headers[k] == HeaderOf(files, indices[k]) && HeaderAllowed(headers[k]);
      }
    }
    if (forall k: nat | k < |indices| :: HeaderAllowed(HeaderOf(files, indices[k])))
       && (forall k: nat | k < |indices| :: ZbicAllowedAt(files, browser, k)) {
      forall i | 0 <= i < |headers|
        ensures HeaderAllowed(headers[i])
        ensures ZbicAllowed(headers[i], i, DenseIndex(files, browser, NSO_COUNT, NSO_RTLD),
                            DenseIndex(files, browser, NSO_COUNT, NSO_MAIN), DenseIndex(files, browser, NSO_COUNT, NSO_SDK))
      {
        var k: nat := i;
        assert headers[k] == HeaderOf(files, indices[k]) && ZbicAllowedAt(files, browser, k);
      }
    }
  }

  /** Both generations accept the same programs, except that 1.11 also restricts Zstd. */
  lemma AcceptanceAgrees(files: Files, browser: bool)
    ensures DenseAccepted(files, browser) <==> SparseAccepted(files, browser) && OnlyMainUsesZbic(files, browser)
  {
    DenseRules(files, browser);
    ZbicRuleAgrees(files, browser);
    AllowedAgrees(files, browser, CacheOf(files, browser), HasOf(files, browser));
  }

  // ---- The same said of the files ----

  /** Which files are looked at: browser DLLs, numbers 2 to 11, only with the flag. */
  lemma PresentExactly(files: Files, browser: bool, i: nat)
    requires i < 23
    ensures Present(files, browser, i) <==> files[i].Some? && (browser || i < 2 || i > 11)
  {
  }

  /** Reading the headers succeeds exactly when each of those gives a whole one. */
  lemma {:induction false} HeadersReadExactly(files: Files, browser: bool, n: nat)
    requires n <= NSO_COUNT
    ensures HeaderStatus(files, browser, n).Ok?
       <==> forall i: nat | i < n && Present(files, browser, i) :: files[i].value.header.Whole?
  {
    if n > 0 { HeadersReadExactly(files, browser, n - 1); }
  }

  /** Otherwise the first that does not says why: too few bytes, or the file system's error. */
  lemma HeaderErrorIsFirst(files: Files, browser: bool, i: nat)
    requires i < NSO_COUNT && Present(files, browser, i) && !files[i].value.header.Whole?
    requires forall j: nat | j < i && Present(files, browser, j) :: files[j].value.header.Whole?
    ensures HeaderStatus(files, browser, NSO_COUNT) == Err(if files[i].value.header.Short? then InvalidNso else ReadFailed)
  {
    HeadersReadExactly(files, browser, i);
    HeaderErrorStays(files, browser, i + 1, NSO_COUNT);
  }

  /** A main; rtld if there is an sdk; with the browser DLLs neither rtld nor a subsdk. */
  ghost predicate FilesAllowed(files: Files, browser: bool) {
    && Present(files, browser, 1)
    && (Present(files, browser, 22) ==> Present(files, browser, 0))
    && (browser ==> !Present(files, browser, 0))
    && (browser ==> forall i: nat | 12 <= i <= 21 :: !Present(files, browser, i))
  }

  /** Code that can be read, and text at 0, read-only data and data on pages of their own, in that order. */
  predicate ExtentsAllowed(h: NsoHeader) {
    && !h.preventCodeReads
    && h.text.dstOffset == 0 && h.ro.dstOffset % 0x1000 == 0 && h.rw.dstOffset % 0x1000 == 0
    && h.text.size <= h.ro.dstOffset && h.ro.dstOffset + h.ro.size <= h.rw.dstOffset
  }

  lemma KindsMean(files: Files, browser: bool)
    ensures var k := KindsBelow(files, browser, NSO_COUNT);
            k.hasMain && CombinationAllowed(k, browser) <==> FilesAllowed(files, browser)
  {
    var k := KindsBelow(files, browser, NSO_COUNT);
    if k.hasSubSdk {
      var i: nat :| NSO_SUBSDK0 <= i <= NSO_SUBSDK9 && i < NSO_COUNT && Present(files, browser, i);
      assert 12 <= i <= 21;
    } else {
      forall i: nat | 12 <= i <= 21
        ensures !Present(files, browser, i)
      {
        assert !(NSO_SUBSDK0 <= i <= NSO_SUBSDK9 && i < NSO_COUNT && Present(files, browser, i));
      }
    }
  }

  lemma AllowedMeans(h: NsoHeader)
    ensures HeaderAllowed(h) <==> ExtentsAllowed(h)
  {
  }

  /** 1.10 accepts a program exactly if its files go together and the header of each is allowed. */
  lemma SparseAcceptedExactly(files: Files, browser: bool)
    ensures SparseAccepted(files, browser) <==>
            && FilesAllowed(files, browser)
            && forall i: nat | i < 23 && Present(files, browser, i) :: ExtentsAllowed(HeaderOf(files, i))
  {
    var headers, has := CacheOf(files, browser), HasOf(files, browser);
    KindsMean(files, browser);
    forall i: nat | i < 23 && Present(files, browser, i) { AllowedMeans(HeaderOf(files, i)); }
    if SparseAccepted(files, browser) {
      forall i: nat | i < 23 && Present(files, browser, i)
        ensures ExtentsAllowed(HeaderOf(files, i))
      {
        assert has[i] && headers[i] == HeaderOf(files, i);
      }
    }
    if FilesAllowed(files, browser) && forall i: nat | i < 23 && Present(files, browser, i) :: ExtentsAllowed(HeaderOf(files, i)) {
      forall i | 0 <= i < NSO_COUNT
        ensures !headers[i].preventCodeReads && (has[i] ==> headers[i].PageAligned() && headers[i].WellPlaced())
      {
        var k: nat := i;
        assert has[k] ==> HeaderAllowed(HeaderOf(files, k));
      }
    }
  }

  /** 1.11 accepts it if, moreover, Zstd is used by main alone and beside rtld and sdk. */
  lemma DenseAcceptedExactly(files: Files, browser: bool)
    ensures DenseAccepted(files, browser) <==>
            && FilesAllowed(files, browser)
            && (forall i: nat | i < 23 && Present(files, browser, i) :: ExtentsAllowed(HeaderOf(files, i)))
            && forall i: nat | i < 23 && Present(files, browser, i) && HeaderOf(files, i).useZbic ::
                 i == 1 && Present(files, browser, 0) && Present(files, browser, 22)
  {
    AcceptanceAgrees(files, browser);
    SparseAcceptedExactly(files, browser);
  }

  /** No module asks for the compression that only 1.11 knows. */
  predicate NoZbic(files: Files, browser: bool) {
    forall i: nat | i < NSO_COUNT && Present(files, browser, i) :: !HeaderOf(files, i).useZbic
  }

  /** So without Zstd they accept the same. */
  lemma AcceptedAlike(files: Files, browser: bool)
    requires NoZbic(files, browser)
    ensures DenseAccepted(files, browser) <==> SparseAccepted(files, browser)
  {
    AcceptanceAgrees(files, browser);
  }
}
