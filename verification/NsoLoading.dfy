/** Loading modules into the memory of the new process, in place.  `mem` is that memory, from the
    code address on; a mapping of [a, b) gives the loader exactly the cells a..b of it.  Compressed
    bytes are read into the tail of the same mapping that receives the decompressed ones. */
module NsoLoading {
  import opened Common
  import opened NsoFormat
  import opened NsoHeaders
  import opened NsoLayout

  /** `data` stands in memory from `at` on. */
  ghost predicate Holds(mem: array<Byte>, at: nat, data: seq<Byte>)
    reads mem
  {
    at + |data| <= mem.Length && forall k | at <= k < at + |data| :: mem[k] == data[k - at]
  }

  /** The same of a memory image. */
  ghost predicate HoldsIn(m: seq<Byte>, at: nat, data: seq<Byte>) {
    at + |data| <= |m| && forall k | at <= k < at + |data| :: m[k] == data[k - at]
  }

  lemma AsImage(mem: array<Byte>, at: nat, data: seq<Byte>)
    requires Holds(mem, at, data)
    ensures HoldsIn(mem[..], at, data)
  {
  }

  /** Bytes survive changes elsewhere. */
  lemma StillHolds(v: seq<Byte>, w: seq<Byte>, lo: nat, hi: nat, at: nat, data: seq<Byte>)
    requires HoldsIn(v, at, data) && |v| == |w| && (at + |data| <= lo || hi <= at)
    requires forall j | 0 <= j < |v| && (j < lo || hi <= j) :: w[j] == v[j]
    ensures HoldsIn(w, at, data)
  {
  }

  /** The same for memory, when everything below `lo` stays. */
  lemma HoldsBelow(v: seq<Byte>, mem: array<Byte>, at: nat, data: seq<Byte>, lo: nat)
    requires HoldsIn(v, at, data) && |v| == mem.Length && at + |data| <= lo <= mem.Length
    requires forall j | 0 <= j < lo :: mem[j] == v[j]
    ensures Holds(mem, at, data)
  {
  }

  /** A read from the file, or memcpy: `data` lands at `at`. */
  method Store(mem: array<Byte>, at: nat, data: seq<Byte>)
    requires at + |data| <= mem.Length
    modifies mem
    ensures Holds(mem, at, data)
    ensures forall k | 0 <= k < at || at + |data| <= k < mem.Length :: mem[k] == old(mem[k])
  {
    forall k | at <= k < at + |data| {
      mem[k] := data[k - at];
    }
  }

  /** memset to zero. */
  method Clear(mem: array<Byte>, at: nat, n: nat)
    requires at + n <= mem.Length
    modifies mem
    ensures forall k | at <= k < at + n :: mem[k] == 0
    ensures forall k | 0 <= k < at || at + n <= k < mem.Length :: mem[k] == old(mem[k])
  {
    forall k | at <= k < at + n {
      mem[k] := 0;
    }
  }

  // ---- The argument region ----

  /** Where ProgramArguments keeps its two size fields, and how long it is in front of the arguments themselves. */
  datatype ArgumentLayout = ArgumentLayout(headerSize: nat, allocatedAt: nat, sizeAt: nat) {
    predicate Valid() {
      allocatedAt + 4 <= headerSize && sizeAt + 4 <= headerSize && (allocatedAt + 4 <= sizeAt || sizeAt + 4 <= allocatedAt)
    }
  }

  /** A 32-bit field, lowest byte first; higher bits are cut off. */
  function Bytes4(n: nat): (b: seq<Byte>)
    ensures |b| == 4
  {
    [n % 0x100, n / 0x100 % 0x100, n / 0x100 / 0x100 % 0x100, n / 0x100 / 0x100 / 0x100 % 0x100]
  }

  /** The 32-bit field that stands at `at`. */
  function Number4(m: seq<Byte>, at: nat): nat
    requires at + 4 <= |m|
  {
    m[at] as nat + 0x100 * m[at + 1] as nat + 0x1_0000 * m[at + 2] as nat + 0x100_0000 * m[at + 3] as nat
  }

  lemma Bytes4ReadBack(n: nat)
    ensures Number4(Bytes4(n), 0) == n % 0x1_0000_0000
  {
    var q1 := n / 0x100;
    var q2 := q1 / 0x100;
    var q3 := q2 / 0x100;
    var q4 := q3 / 0x100;
    IsLow32(n, q4, n % 0x100 + 0x100 * (q1 % 0x100) + 0x1_0000 * (q2 % 0x100) + 0x100_0000 * (q3 % 0x100));
  }

  lemma IsLow32(n: nat, q: nat, low: nat)
    requires n == 0x1_0000_0000 * q + low && low < 0x1_0000_0000
    ensures n % 0x1_0000_0000 == low
  {
  }

  /** The region as the loader leaves it: the two sizes in an otherwise cleared header, then the arguments. */
  function ArgumentImage(l: ArgumentLayout, allocatedSize: nat, argument: seq<Byte>): (m: seq<Byte>)
    requires l.Valid()
    ensures |m| == l.headerSize + |argument|
  {
    ArgumentHeader(l, allocatedSize, |argument|) + argument
  }

  function ArgumentHeader(l: ArgumentLayout, allocatedSize: nat, size: nat): (m: seq<Byte>)
    requires l.Valid()
    ensures |m| == l.headerSize
  {
    seq(l.headerSize, k requires 0 <= k < l.headerSize =>
      if l.allocatedAt <= k < l.allocatedAt + 4 then Bytes4(allocatedSize)[k - l.allocatedAt]
      else if l.sizeAt <= k < l.sizeAt + 4 then Bytes4(size)[k - l.sizeAt]
      else 0)
  }

  /** Clear the header, fill in the two sizes, copy the arguments. */
  method StoreProgramArguments(mem: array<Byte>, at: nat, l: ArgumentLayout, allocatedSize: nat, argument: seq<Byte>)
    requires l.Valid() && at + l.headerSize + |argument| <= mem.Length
    modifies mem
    ensures Holds(mem, at, ArgumentImage(l, allocatedSize, argument))
    ensures forall k | 0 <= k < at || at + l.headerSize + |argument| <= k < mem.Length :: mem[k] == old(mem[k])
  {
    StoreArgumentHeader(mem, at, l, allocatedSize, |argument|);
    Store(mem, at + l.headerSize, argument);
  }

  method StoreArgumentHeader(mem: array<Byte>, at: nat, l: ArgumentLayout, allocatedSize: nat, size: nat)
    requires l.Valid() && at + l.headerSize <= mem.Length
    modifies mem
    ensures Holds(mem, at, ArgumentHeader(l, allocatedSize, size))
    ensures forall k | 0 <= k < at || at + l.headerSize <= k < mem.Length :: mem[k] == old(mem[k])
  {
    Clear(mem, at, l.headerSize);
    Store(mem, at + l.allocatedAt, Bytes4(allocatedSize));
    Store(mem, at + l.sizeAt, Bytes4(size));
  }

  /** What the new process finds in the region: both sizes, lowest byte first, no other byte set in the header,
      and behind it the arguments. */
  lemma ArgumentsReadBack(m: seq<Byte>, at: nat, l: ArgumentLayout, allocatedSize: nat, argument: seq<Byte>)
    requires l.Valid() && HoldsIn(m, at, ArgumentImage(l, allocatedSize, argument))
    ensures Number4(m, at + l.allocatedAt) == allocatedSize % 0x1_0000_0000
    ensures Number4(m, at + l.sizeAt) == |argument| % 0x1_0000_0000
    ensures forall k | at <= k < at + l.headerSize && !(l.allocatedAt <= k - at < l.allocatedAt + 4)
                       && !(l.sizeAt <= k - at < l.sizeAt + 4) :: m[k] == 0
    ensures m[at + l.headerSize..at + l.headerSize + |argument|] == argument
  {
    var header := ArgumentHeader(l, allocatedSize, |argument|);
    assert forall k | at <= k < at + l.headerSize :: m[k] == header[k - at];
    FieldReadBack(m, at, header, l.allocatedAt, allocatedSize);
    FieldReadBack(m, at, header, l.sizeAt, |argument|);
  }

  lemma FieldReadBack(m: seq<Byte>, at: nat, header: seq<Byte>, field: nat, n: nat)
    requires at + |header| <= |m| && field + 4 <= |header| && forall k | at <= k < at + |header| :: m[k] == header[k - at]
    requires forall k | field <= k < field + 4 :: header[k] == Bytes4(n)[k - field]
    ensures Number4(m, at + field) == n % 0x1_0000_0000
  {
    Bytes4ReadBack(n);
    assert m[at + field] == header[field] == Bytes4(n)[0];
    assert m[at + field + 1] == header[field + 1] == Bytes4(n)[1];
    assert m[at + field + 2] == header[field + 2] == Bytes4(n)[2];
    assert m[at + field + 3] == header[field + 3] == Bytes4(n)[3];
  }

  // ---- One segment ----

  /** LZ4 writes the segment and nothing else. */
  method DecompressLZ4(codec: Codec, mem: array<Byte>, base: nat, size: nat, src: seq<Byte>) returns (ok: bool)
    requires base + size <= mem.Length
    modifies mem
    ensures ok <==> codec.lz4(src, size).Some? && |codec.lz4(src, size).value| == size
    ensures ok ==> Holds(mem, base, codec.lz4(src, size).value)
    ensures forall k | 0 <= k < base || base + size <= k < mem.Length :: mem[k] == old(mem[k])
  {
    var out := codec.lz4(src, size);
    ok := out.Some? && |out.value| == size;
    if ok {
      Store(mem, base, out.value);
    }
  }

  /** Zstd is given the whole rest of the mapping and may leave anything behind the segment. */
  method DecompressZstd(codec: Codec, mem: array<Byte>, base: nat, mapEnd: nat, size: nat, src: seq<Byte>)
    returns (ok: bool)
    requires base + size <= mapEnd <= mem.Length
    modifies mem
    ensures ok <==> codec.zstd(src, mapEnd - base, size).Some? && |codec.zstd(src, mapEnd - base, size).value| == size
    ensures ok ==> Holds(mem, base, codec.zstd(src, mapEnd - base, size).value)
    ensures forall k | 0 <= k < base || mapEnd <= k < mem.Length :: mem[k] == old(mem[k])
  {
    var out := codec.zstd(src, mapEnd - base, size);
    ok := out.Some? && |out.value| == size;
    var i := base;
    while i < mapEnd
      invariant base <= i <= mapEnd
      invariant forall k | 0 <= k < base || mapEnd <= k < mem.Length :: mem[k] == old(mem[k])
    {
      mem[i] := *;
      i := i + 1;
    }
    if ok {
      Store(mem, base, out.value);
    }
  }

  /** The scratch area of a compressed segment starts at `mapEnd - compressedSize`, never below `base`. */
  method LoadSegment(codec: Codec, file: File, mem: array<Byte>, s: SegmentInfo, isZstd: bool, base: nat, mapEnd: nat,
                     ghost content: Loaded)
    returns (r: Status)
    requires base + s.size <= mapEnd <= mem.Length
    requires content == SegmentBytes(codec, file, s, isZstd, mapEnd - base)
    modifies mem
    ensures r == StatusOf(content)
    ensures r.Ok? ==> Holds(mem, base, content.bytes)
    ensures var n := if s.compressed then s.compressedSize else s.size;
            r.Ok? <==>
            && n <= s.size <= 0x7FFF_FFFF && s.fileOffset + n <= |file.data|
            && (s.compressed ==>
                  var stored := file.data[s.fileOffset..s.fileOffset + n];
                  var out := if isZstd then codec.zstd(stored, mapEnd - base, s.size) else codec.lz4(stored, s.size);
                  out.Some? && |out.value| == s.size)
    ensures r.Ok? && !s.compressed ==> Holds(mem, base, file.data[s.fileOffset..s.fileOffset + s.size])
    ensures r.Ok? && s.compressed ==>
              var stored := file.data[s.fileOffset..s.fileOffset + s.compressedSize];
              Holds(mem, base, (if isZstd then codec.zstd(stored, mapEnd - base, s.size) else codec.lz4(stored, s.size)).value)
    ensures forall k | 0 <= k < base || mapEnd <= k < mem.Length :: mem[k] == old(mem[k])
  {
    var fileSize := if s.compressed then s.compressedSize else s.size;
    if fileSize > s.size || fileSize > S32_MAX || s.size > S32_MAX {
      return Err(InvalidNso);
    }
    var load := if s.compressed then mapEnd - s.compressedSize else base;
    var raw := file.Read(s.fileOffset, fileSize);
    if raw.Failed? {
      return Err(raw.error);
    }
    Store(mem, load, raw.bytes);
    if |raw.bytes| != fileSize {
      return Err(InvalidNso);
    }
    if !s.compressed {
      return Ok;
    }
    var src, ok := mem[load..load + fileSize], false;
    assert src == raw.bytes;
    if isZstd {
      ok := DecompressZstd(codec, mem, base, mapEnd, s.size, src);
    } else {
      ok := DecompressLZ4(codec, mem, base, s.size, src);
    }
    return if ok then Ok else Err(InvalidNso);
  }

  /** The three reads of LoadAutoLoadModule.  No later read disturbs an earlier segment, because a
      segment's scratch area starts at or above that segment. */
  method LoadSegments(codec: Codec, file: File, h: NsoHeader, mem: array<Byte>, addr: nat, mapSize: nat,
                      ghost text: Loaded, ghost ro: Loaded, ghost rw: Loaded)
    returns (r: Status)
    requires h.WellPlaced() && h.Span() <= mapSize && addr + mapSize <= mem.Length
    requires text == SegmentBytes(codec, file, h.text, h.useZbic, mapSize - h.text.dstOffset)
    requires ro == SegmentBytes(codec, file, h.ro, h.useZbic, mapSize - h.ro.dstOffset)
    requires rw == SegmentBytes(codec, file, h.rw, h.useZbic, mapSize - h.rw.dstOffset)
    modifies mem
    ensures r == if text.Failed? then Err(text.error) else if ro.Failed? then Err(ro.error) else StatusOf(rw)
    ensures r.Ok? ==> Holds(mem, addr, text.bytes) && Holds(mem, addr + h.ro.dstOffset, ro.bytes)
                      && Holds(mem, addr + h.rw.dstOffset, rw.bytes)
    ensures forall k | 0 <= k < addr || addr + mapSize <= k < mem.Length :: mem[k] == old(mem[k])
  {
    var mapEnd := addr + mapSize;
    var textBase, roBase, rwBase := addr + h.text.dstOffset, addr + h.ro.dstOffset, addr + h.rw.dstOffset;
    assert textBase == addr && mapEnd - addr == mapSize;
    assert mapEnd - roBase == mapSize - h.ro.dstOffset && mapEnd - rwBase == mapSize - h.rw.dstOffset;
    r := LoadThreeSegments(codec, file, mem, h.text, h.ro, h.rw, h.useZbic, textBase, roBase, rwBase, mapEnd, text, ro, rw);
  }

  method LoadThreeSegments(codec: Codec, file: File, mem: array<Byte>, textInfo: SegmentInfo, roInfo: SegmentInfo,
                           rwInfo: SegmentInfo, isZstd: bool, textBase: nat, roBase: nat, rwBase: nat, mapEnd: nat,
                           ghost text: Loaded, ghost ro: Loaded, ghost rw: Loaded)
    returns (r: Status)
    requires textBase + textInfo.size <= roBase && roBase + roInfo.size <= rwBase && rwBase + rwInfo.size <= mapEnd <= mem.Length
    requires text == SegmentBytes(codec, file, textInfo, isZstd, mapEnd - textBase)
    requires ro == SegmentBytes(codec, file, roInfo, isZstd, mapEnd - roBase)
    requires rw == SegmentBytes(codec, file, rwInfo, isZstd, mapEnd - rwBase)
    modifies mem
    ensures r == if text.Failed? then Err(text.error) else if ro.Failed? then Err(ro.error) else StatusOf(rw)
    ensures r.Ok? ==> Holds(mem, textBase, text.bytes) && Holds(mem, roBase, ro.bytes) && Holds(mem, rwBase, rw.bytes)
    ensures forall k | 0 <= k < textBase || mapEnd <= k < mem.Length :: mem[k] == old(mem[k])
  {
    r := LoadSegment(codec, file, mem, textInfo, isZstd, textBase, mapEnd, text);
    if r.Err? { return; }
    ghost var before := mem[..];
    r := LoadDataSegments(codec, file, mem, roInfo, rwInfo, isZstd, roBase, rwBase, mapEnd, ro, rw);
    if r.Err? { return; }
    HoldsBelow(before, mem, textBase, text.bytes, roBase);
  }

  /** The second and the third of them. */
  method LoadDataSegments(codec: Codec, file: File, mem: array<Byte>, roInfo: SegmentInfo, rwInfo: SegmentInfo, isZstd: bool,
                          roBase: nat, rwBase: nat, mapEnd: nat, ghost ro: Loaded, ghost rw: Loaded)
    returns (r: Status)
    requires roBase + roInfo.size <= rwBase && rwBase + rwInfo.size <= mapEnd <= mem.Length
    requires ro == SegmentBytes(codec, file, roInfo, isZstd, mapEnd - roBase)
    requires rw == SegmentBytes(codec, file, rwInfo, isZstd, mapEnd - rwBase)
    modifies mem
    ensures r == if ro.Failed? then Err(ro.error) else StatusOf(rw)
    ensures r.Ok? ==> Holds(mem, roBase, ro.bytes) && Holds(mem, rwBase, rw.bytes)
    ensures forall k | 0 <= k < roBase || mapEnd <= k < mem.Length :: mem[k] == old(mem[k])
  {
    r := LoadSegment(codec, file, mem, roInfo, isZstd, roBase, mapEnd, ro);
    if r.Err? { return; }
    r := LoadSegment(codec, file, mem, rwInfo, isZstd, rwBase, mapEnd, rw);
  }

  /** The three memsets of LoadAutoLoadModule complete the image of whatever the segments hold. */
  method ClearUnused(h: NsoHeader, mem: array<Byte>, addr: nat, nsoSize: nat,
                     ghost text: seq<Byte>, ghost ro: seq<Byte>, ghost rw: seq<Byte>)
    requires h.WellPlaced() && h.Span() <= nsoSize && addr + nsoSize <= mem.Length
    requires |text| == h.text.size && |ro| == h.ro.size && |rw| == h.rw.size
    requires Holds(mem, addr, text) && Holds(mem, addr + h.ro.dstOffset, ro) && Holds(mem, addr + h.rw.dstOffset, rw)
    modifies mem
    ensures Holds(mem, addr, Image(h, text, ro, rw, nsoSize))
    ensures forall k | 0 <= k < addr || addr + nsoSize <= k < mem.Length :: mem[k] == old(mem[k])
  {
    Clear(mem, addr + h.text.End(), h.ro.dstOffset - h.text.End());
    Clear(mem, addr + h.ro.End(), h.rw.dstOffset - h.ro.End());
    Clear(mem, addr + h.rw.End(), nsoSize - h.rw.End());
    forall k | addr <= k < addr + nsoSize
      ensures mem[k] == Image(h, text, ro, rw, nsoSize)[k - addr]
    {
      ImageAt(h, text, ro, rw, nsoSize, k - addr);
    }
  }

  method CheckSegmentHash(codec: Codec, s: SegmentInfo, mem: array<Byte>, addr: nat, ghost bytes: seq<Byte>) returns (r: Status)
    requires |bytes| == s.size && Holds(mem, addr + s.dstOffset, bytes)
    ensures r == if HashMatches(codec, s, bytes) then Ok else Err(InvalidNso)
  {
    if !s.checkHash {
      return Ok;
    }
    assert mem[addr + s.dstOffset..addr + s.End()] == bytes;
    var hash := codec.sha256(mem[addr + s.dstOffset..addr + s.End()]);
    return if hash == s.hash then Ok else Err(InvalidNso);
  }

  /** The hash checks of LoadAutoLoadModule, made on the finished image. */
  method CheckHashes(codec: Codec, h: NsoHeader, mem: array<Byte>, addr: nat, nsoSize: nat,
                     ghost text: seq<Byte>, ghost ro: seq<Byte>, ghost rw: seq<Byte>) returns (r: Status)
    requires h.WellPlaced() && h.Span() <= nsoSize
    requires |text| == h.text.size && |ro| == h.ro.size && |rw| == h.rw.size
    requires Holds(mem, addr, Image(h, text, ro, rw, nsoSize))
    ensures r == if HashMatches(codec, h.text, text) && HashMatches(codec, h.ro, ro) && HashMatches(codec, h.rw, rw)
                 then Ok else Err(InvalidNso)
  {
    forall k: nat | k < nsoSize
      ensures mem[addr + k] == Image(h, text, ro, rw, nsoSize)[k]
    {
    }
    forall k: nat | k < nsoSize { ImageAt(h, text, ro, rw, nsoSize, k); }
    r := CheckSegmentHash(codec, h.text, mem, addr, text);
    if r.Err? { return; }
    r := CheckSegmentHash(codec, h.ro, mem, addr, ro);
    if r.Err? { return; }
    r := CheckSegmentHash(codec, h.rw, mem, addr, rw);
  }

  /** What follows the three loads. */
  method FinishModule(codec: Codec, h: NsoHeader, mem: array<Byte>, addr: nat, nsoSize: nat,
                      ghost text: seq<Byte>, ghost ro: seq<Byte>, ghost rw: seq<Byte>) returns (r: Status)
    requires h.WellPlaced() && h.Span() <= nsoSize && addr + nsoSize <= mem.Length
    requires |text| == h.text.size && |ro| == h.ro.size && |rw| == h.rw.size
    requires Holds(mem, addr, text) && Holds(mem, addr + h.ro.dstOffset, ro) && Holds(mem, addr + h.rw.dstOffset, rw)
    modifies mem
    ensures r == if HashMatches(codec, h.text, text) && HashMatches(codec, h.ro, ro) && HashMatches(codec, h.rw, rw)
                 then Ok else Err(InvalidNso)
    ensures Holds(mem, addr, Image(h, text, ro, rw, nsoSize))
    ensures forall k | 0 <= k < addr || addr + nsoSize <= k < mem.Length :: mem[k] == old(mem[k])
  {
    ClearUnused(h, mem, addr, nsoSize, text, ro, rw);
    r := CheckHashes(codec, h, mem, addr, nsoSize, text, ro, rw);
  }

  /** Loading one module.  `addr` and the two sizes are what the layout chose. */
  method LoadModule(codec: Codec, file: File, h: NsoHeader, mem: array<Byte>, addr: nat, nsoSize: nat, mapSize: nat,
                    ghost image: Loaded)
    returns (r: Status)
    requires h.WellPlaced() && h.Span() <= nsoSize <= mapSize && addr + mapSize <= mem.Length
    requires image == ModuleImage(codec, file, h, nsoSize, mapSize)
    modifies mem
    ensures r == StatusOf(image)
    ensures r.Ok? ==> Holds(mem, addr, image.bytes)
    ensures forall k | 0 <= k < addr || addr + mapSize <= k < mem.Length :: mem[k] == old(mem[k])
  {
    ghost var text := SegmentBytes(codec, file, h.text, h.useZbic, mapSize - h.text.dstOffset);
    ghost var ro := SegmentBytes(codec, file, h.ro, h.useZbic, mapSize - h.ro.dstOffset);
    ghost var rw := SegmentBytes(codec, file, h.rw, h.useZbic, mapSize - h.rw.dstOffset);
    r := LoadSegments(codec, file, h, mem, addr, mapSize, text, ro, rw);
    if r.Err? { return; }
    r := FinishModule(codec, h, mem, addr, nsoSize, text.bytes, ro.bytes, rw.bytes);
  }

  // ---- 1.11: all modules ----

  /** A laid-out program: its headers, the file each came from, and the size of the argument region. */
  datatype Program = Program(headers: seq<NsoHeader>, indices: seq<nat>, args: nat) {
    ghost predicate Valid() {
      && |headers| == |indices| <= NSO_COUNT
      && (forall k | 0 <= k < |indices| :: indices[k] < NSO_COUNT)
      && (forall k | 0 <= k < |headers| :: HeaderAllowed(headers[k]))
    }

    function Start(k: nat): nat requires k <= |headers| { Offset(Sizes(headers), args, k) }

    function Size(k: nat): nat requires k < |headers| { ModuleSize(headers[k]) }

    /** A Zstd module is mapped up to the end of the process, any other over its own range. */
    function MapSize(k: nat): (m: nat)
      requires k < |headers|
      ensures Size(k) <= m && Start(k) + m <= TotalSize(Sizes(headers), args)
      ensures if headers[k].useZbic then Start(k) + m == TotalSize(Sizes(headers), args) else m == Size(k)
    {
      OffsetsIncrease(Sizes(headers), args, k, |headers|);
      if headers[k].useZbic then TotalSize(Sizes(headers), args) - Start(k) else Size(k)
    }

    function Expected(codec: Codec, files: Files, k: nat): (r: Loaded)
      requires Valid() && k < |headers|
      ensures r.Bytes? ==> |r.bytes| == Size(k)
    {
      match files[indices[k]]
      case None => Failed(OpenFailed)
      case Some(file) =>
        MaskCutsNothing(headers[k]);
        ModuleImage(codec, file, headers[k], Size(k), MapSize(k))
    }
  }

  /** Module `k` stands in memory exactly as its file says: text, zeros, read-only data, zeros, data,
      zeros up to its rounded size. */
  ghost predicate InPlace(m: seq<Byte>, codec: Codec, files: Files, p: Program, k: nat)
    requires p.Valid() && k < |p.headers|
  {
    p.Expected(codec, files, k).Bytes? && HoldsIn(m, p.Start(k), p.Expected(codec, files, k).bytes)
  }

  /** A module stays in place when something is written at or behind its end. */
  lemma StaysInPlace(v: seq<Byte>, w: seq<Byte>, codec: Codec, files: Files, p: Program, k: nat, lo: nat, hi: nat)
    requires p.Valid() && k < |p.headers| && InPlace(v, codec, files, p, k) && |v| == |w|
    requires p.Start(k) + p.Size(k) <= lo || hi <= p.Start(k)
    requires forall j | 0 <= j < |v| && (j < lo || hi <= j) :: w[j] == v[j]
    ensures InPlace(w, codec, files, p, k)
  {
    StillHolds(v, w, lo, hi, p.Start(k), p.Expected(codec, files, k).bytes);
  }

  /** Byte by byte: module `k` in memory is the image of its file, made with the room its mapping leaves. */
  lemma InPlaceAt(m: seq<Byte>, codec: Codec, files: Files, p: Program, k: nat, j: nat, file: File, mapSize: nat)
    requires p.Valid() && k < |p.headers| && InPlace(m, codec, files, p, k) && j < p.Size(k)
    requires files[p.indices[k]] == Some(file)
    requires if p.headers[k].useZbic then p.Start(k) + mapSize == TotalSize(Sizes(p.headers), p.args) else mapSize == p.Size(k)
    ensures p.headers[k].Span() <= p.Size(k) <= mapSize && p.Start(k) + j < |m|
    ensures ModuleImage(codec, file, p.headers[k], p.Size(k), mapSize).Bytes?
    ensures m[p.Start(k) + j] == ModuleImage(codec, file, p.headers[k], p.Size(k), mapSize).bytes[j]
  {
    MaskCutsNothing(p.headers[k]);
    assert p.MapSize(k) == mapSize;
    assert m[p.Start(k) + j] == p.Expected(codec, files, k).bytes[j];
  }

  /** The first n modules are in place. */
  ghost predicate LoadedUpTo(m: seq<Byte>, codec: Codec, files: Files, p: Program, n: nat)
    requires p.Valid() && n <= |p.headers|
  {
    forall k: nat | k < n :: InPlace(m, codec, files, p, k)
  }

  /** What is written from the i-th module on leaves the modules before it in place. */
  lemma RestStaysInPlace(v: seq<Byte>, w: seq<Byte>, codec: Codec, files: Files, p: Program, i: nat)
    requires p.Valid() && i < |p.headers| && LoadedUpTo(v, codec, files, p, i) && |v| == |w|
    requires forall j | 0 <= j < p.Start(i) && j < |v| :: w[j] == v[j]
    ensures LoadedUpTo(w, codec, files, p, i)
  {
    forall k: nat | k < i
      ensures InPlace(w, codec, files, p, k)
    {
      OffsetsIncrease(Sizes(p.headers), p.args, k, i);
      StaysInPlace(v, w, codec, files, p, k, p.Start(i), |v|);
    }
  }

  /** One turn of the loop of LoadAutoLoadModules. */
  method LoadNext(codec: Codec, files: Files, p: Program, info: ProcessInfo, mem: array<Byte>, i: nat) returns (r: Status)
    requires p.Valid() && i < |p.headers|
    requires info.Laid(Sizes(p.headers), p.args) && mem.Length == info.totalSize
    requires LoadedUpTo(mem[..], codec, files, p, i)
    modifies mem
    ensures r == StatusOf(p.Expected(codec, files, i))
    ensures r.Ok? ==> LoadedUpTo(mem[..], codec, files, p, i + 1)
  {
    MaskCutsNothing(p.headers[i]);
    OffsetsIncrease(Sizes(p.headers), p.args, i, |p.headers|);
    var totalEnd := info.codeAddress + info.totalSize;
    var mapSize := if p.headers[i].useZbic then totalEnd - info.nsoAddress[i] else info.nsoSize[i];
    r := LoadSlot(codec, files, p, mem, i, info.nsoAddress[i] - info.codeAddress, info.nsoSize[i], mapSize);
  }

  method LoadSlot(codec: Codec, files: Files, p: Program, mem: array<Byte>, i: nat, at: nat, size: nat, mapSize: nat)
    returns (r: Status)
    requires p.Valid() && i < |p.headers| && LoadedUpTo(mem[..], codec, files, p, i)
    requires at == p.Start(i) && size == p.Size(i) && mapSize == p.MapSize(i) && at + mapSize <= mem.Length
    modifies mem
    ensures r == StatusOf(p.Expected(codec, files, i))
    ensures r.Ok? ==> LoadedUpTo(mem[..], codec, files, p, i + 1)
  {
    var file := files[p.indices[i]];
    if file.None? {
      return Err(OpenFailed);
    }
    var h := p.headers[i];
    MaskCutsNothing(h);
    ghost var before, expected := mem[..], p.Expected(codec, files, i);
    r := LoadModule(codec, file.value, h, mem, at, size, mapSize, expected);
    if r.Ok? {
      AsImage(mem, at, expected.bytes);
      RestStaysInPlace(before, mem[..], codec, files, p, i);
    }
  }

  /** The loop over the modules.  Scratch bytes and what Zstd spills fall on modules that are not
      loaded yet, so at the end every module is in place. */
  method LoadEach(codec: Codec, files: Files, p: Program, info: ProcessInfo, mem: array<Byte>) returns (r: Status)
    requires p.Valid() && info.Laid(Sizes(p.headers), p.args) && mem.Length == info.totalSize
    modifies mem
    ensures r.Ok? ==> LoadedUpTo(mem[..], codec, files, p, |p.headers|)
    ensures r.Err? ==> exists k: nat :: FirstToFail(codec, files, p, k) && p.Expected(codec, files, k).error == r.error
  {
    var i := 0;
    while i < |p.headers|
      invariant i <= |p.headers|
      invariant LoadedUpTo(mem[..], codec, files, p, i)
    {
      ghost var before := mem[..];
      r := LoadNext(codec, files, p, info, mem, i);
      if r.Err? {
        LoadedBeforeFailure(before, codec, files, p, i);
        return;
      }
      i := i + 1;
    }
    r := Ok;
  }

  lemma LoadedBeforeFailure(m: seq<Byte>, codec: Codec, files: Files, p: Program, i: nat)
    requires p.Valid() && i < |p.headers| && LoadedUpTo(m, codec, files, p, i) && p.Expected(codec, files, i).Failed?
    ensures FirstToFail(codec, files, p, i)
  {
    forall j: nat | j < i
      ensures p.Expected(codec, files, j).Bytes?
    {
      assert InPlace(m, codec, files, p, j);
    }
  }

  ghost predicate FirstToFail(codec: Codec, files: Files, p: Program, k: nat)
    requires p.Valid()
  {
    k < |p.headers| && p.Expected(codec, files, k).Failed? && forall j: nat | j < k :: p.Expected(codec, files, j).Bytes?
  }

  /** No module overlaps the argument region, which lies in the code region. */
  lemma ArgumentsApart(p: Program, k: nat)
    requires p.Valid() && k < |p.headers|
    ensures p.Start(k) + p.Size(k) <= p.Size(0) || p.Size(0) + p.args <= p.Start(k)
    ensures p.Size(0) + p.args <= TotalSize(Sizes(p.headers), p.args)
  {
    OffsetsIncrease(Sizes(p.headers), p.args, 0, k);
    OffsetsIncrease(Sizes(p.headers), p.args, 0, |p.headers|);
  }

  /** The arguments stand in their region. */
  ghost predicate ArgumentsStored(m: seq<Byte>, info: ProcessInfo, l: ArgumentLayout, args: nat, argument: seq<Byte>)
    requires l.Valid()
    reads info
  {
    info.codeAddress <= info.argsAddress && HoldsIn(m, info.argsAddress - info.codeAddress, ArgumentImage(l, args, argument))
  }

  /** The new process finds them at the address and of the size the layout gives. */
  lemma StoredArgumentsReadBack(m: seq<Byte>, info: ProcessInfo, l: ArgumentLayout, args: nat, argument: seq<Byte>)
    requires l.Valid() && ArgumentsStored(m, info, l, args, argument)
    ensures var at := info.argsAddress - info.codeAddress;
            && 0 <= at && at + l.headerSize + |argument| <= |m|
            && Number4(m, at + l.allocatedAt) == args % 0x1_0000_0000
            && Number4(m, at + l.sizeAt) == |argument| % 0x1_0000_0000
            && m[at + l.headerSize..at + l.headerSize + |argument|] == argument
  {
    ArgumentsReadBack(m, info.argsAddress - info.codeAddress, l, args, argument);
  }

  lemma StoredAt(m: seq<Byte>, info: ProcessInfo, l: ArgumentLayout, args: nat, argument: seq<Byte>, at: nat)
    requires l.Valid() && info.argsAddress == info.codeAddress + at && HoldsIn(m, at, ArgumentImage(l, args, argument))
    ensures ArgumentsStored(m, info, l, args, argument)
  {
  }

  method StoreArguments(p: Program, info: ProcessInfo, mem: array<Byte>, l: ArgumentLayout, argument: seq<Byte>,
                        ghost codec: Codec, ghost files: Files)
    requires p.Valid() && p.headers != [] && l.Valid() && l.headerSize + |argument| <= p.args && 0 < p.args
    requires info.Laid(Sizes(p.headers), p.args) && mem.Length == info.totalSize
    requires LoadedUpTo(mem[..], codec, files, p, |p.headers|)
    modifies mem
    ensures ArgumentsStored(mem[..], info, l, p.args, argument)
    ensures LoadedUpTo(mem[..], codec, files, p, |p.headers|)
  {
    ArgumentsApart(p, 0);
    var at := info.argsAddress - info.codeAddress;
    assert at == p.Size(0);
    ghost var before := mem[..];
    StoreProgramArguments(mem, at, l, info.argsSize, argument);
    AsImage(mem, at, ArgumentImage(l, p.args, argument));
    ArgumentsDisturbNothing(before, mem[..], codec, files, p, at, l.headerSize + |argument|);
  }

  lemma ArgumentsDisturbNothing(v: seq<Byte>, w: seq<Byte>, codec: Codec, files: Files, p: Program, at: nat, n: nat)
    requires p.Valid() && p.headers != [] && at == p.Size(0) && n <= p.args && LoadedUpTo(v, codec, files, p, |p.headers|)
    requires |v| == |w| && forall j | 0 <= j < |v| && (j < at || at + n <= j) :: w[j] == v[j]
    ensures LoadedUpTo(w, codec, files, p, |p.headers|)
  {
    forall k: nat | k < |p.headers|
      ensures InPlace(w, codec, files, p, k)
    {
      ArgumentsApart(p, k);
      StaysInPlace(v, w, codec, files, p, k, at, at + n);
    }
  }

  /** LoadAutoLoadModules: every module in place, then the arguments, or the first failure. */
  method LoadModules(codec: Codec, files: Files, p: Program, info: ProcessInfo, mem: array<Byte>, l: ArgumentLayout,
                     argument: Option<seq<Byte>>)
    returns (r: Status)
    requires p.Valid() && p.headers != [] && l.Valid()
    requires info.Laid(Sizes(p.headers), p.args) && mem.Length == info.totalSize
    requires argument.Some? ==> l.headerSize + |argument.value| <= p.args && 0 < p.args
    modifies mem
    ensures r.Ok? ==> LoadedUpTo(mem[..], codec, files, p, |p.headers|)
    ensures r.Ok? && argument.Some? ==> ArgumentsStored(mem[..], info, l, p.args, argument.value)
    ensures r.Err? ==> exists k: nat :: FirstToFail(codec, files, p, k) && p.Expected(codec, files, k).error == r.error
  {
    r := LoadEach(codec, files, p, info, mem);
    if r.Err? { return; }
    if argument.Some? {
      StoreArguments(p, info, mem, l, argument.value, codec, files);
    }
  }

  /** The Zstd module comes after rtld, and the arguments come right after rtld, so what Zstd spills
      behind its output never reaches them. */
  lemma ZstdSparesArguments(files: Files, browser: bool, p: Program, k: nat)
    requires p.Valid() && p.indices == PresentIndices(files, browser, NSO_COUNT) && k < |p.headers|
    requires ZbicAllowed(p.headers[k], k, DenseIndex(files, browser, NSO_COUNT, NSO_RTLD),
                         DenseIndex(files, browser, NSO_COUNT, NSO_MAIN), DenseIndex(files, browser, NSO_COUNT, NSO_SDK))
    requires p.headers[k].useZbic
    ensures p.Size(0) + p.args <= p.Start(k)
  {
    DenseIndexIsPosition(files, browser, NSO_COUNT, NSO_RTLD);
    DenseIndexIsPosition(files, browser, NSO_COUNT, NSO_MAIN);
    OffsetsIncrease(Sizes(p.headers), p.args, 0, k);
  }

  // ---- 1.10: sparse slots, every hash checked at once, bss cleared and nothing behind it ----

  method LoadCheckedSegment(codec: Codec, file: File, mem: array<Byte>, s: SegmentInfo, base: nat, mapEnd: nat,
                            ghost content: Loaded)
    returns (r: Status)
    requires base + s.size <= mapEnd <= mem.Length
    requires content == CheckedSegment(codec, file, s)
    modifies mem
    ensures r == StatusOf(content)
    ensures r.Ok? ==> Holds(mem, base, content.bytes)
    ensures forall k | 0 <= k < base || mapEnd <= k < mem.Length :: mem[k] == old(mem[k])
  {
    var fileSize := if s.compressed then s.compressedSize else s.size;
    if fileSize > s.size || s.size > S32_MAX {
      return Err(InvalidNso);
    }
    var load := if s.compressed then mapEnd - fileSize else base;
    var raw := file.Read(s.fileOffset, fileSize);
    if raw.Failed? {
      return Err(raw.error);
    }
    Store(mem, load, raw.bytes);
    if |raw.bytes| != fileSize {
      return Err(InvalidNso);
    }
    if s.compressed {
      var src := mem[load..load + fileSize];
      assert src == raw.bytes;
      var ok := DecompressLZ4(codec, mem, base, s.size, src);
      if !ok {
        return Err(InvalidNso);
      }
    }
    ghost var bytes := SegmentBytes(codec, file, s, false, 0).bytes;
    assert Holds(mem, base, bytes);
    if s.checkHash {
      assert mem[base..base + s.size] == bytes;
      var hash := codec.sha256(mem[base..base + s.size]);
      if hash != s.hash {
        return Err(InvalidNso);
      }
    }
    return Ok;
  }

  method LoadCheckedDataSegments(codec: Codec, file: File, mem: array<Byte>, roInfo: SegmentInfo, rwInfo: SegmentInfo,
                                 roBase: nat, rwBase: nat, mapEnd: nat, ghost ro: Loaded, ghost rw: Loaded)
    returns (r: Status)
    requires roBase + roInfo.size <= rwBase && rwBase + rwInfo.size <= mapEnd <= mem.Length
    requires ro == CheckedSegment(codec, file, roInfo) && rw == CheckedSegment(codec, file, rwInfo)
    modifies mem
    ensures r == if ro.Failed? then Err(ro.error) else StatusOf(rw)
    ensures r.Ok? ==> Holds(mem, roBase, ro.bytes) && Holds(mem, rwBase, rw.bytes)
    ensures forall k | 0 <= k < roBase || mapEnd <= k < mem.Length :: mem[k] == old(mem[k])
  {
    r := LoadCheckedSegment(codec, file, mem, roInfo, roBase, mapEnd, ro);
    if r.Err? { return; }
    r := LoadCheckedSegment(codec, file, mem, rwInfo, rwBase, mapEnd, rw);
  }

  method LoadThreeChecked(codec: Codec, file: File, mem: array<Byte>, textInfo: SegmentInfo, roInfo: SegmentInfo,
                          rwInfo: SegmentInfo, textBase: nat, roBase: nat, rwBase: nat, mapEnd: nat,
                          ghost text: Loaded, ghost ro: Loaded, ghost rw: Loaded)
    returns (r: Status)
    requires textBase + textInfo.size <= roBase && roBase + roInfo.size <= rwBase && rwBase + rwInfo.size <= mapEnd <= mem.Length
    requires text == CheckedSegment(codec, file, textInfo)
    requires ro == CheckedSegment(codec, file, roInfo) && rw == CheckedSegment(codec, file, rwInfo)
    modifies mem
    ensures r == if text.Failed? then Err(text.error) else if ro.Failed? then Err(ro.error) else StatusOf(rw)
    ensures r.Ok? ==> Holds(mem, textBase, text.bytes) && Holds(mem, roBase, ro.bytes) && Holds(mem, rwBase, rw.bytes)
    ensures forall k | 0 <= k < textBase || mapEnd <= k < mem.Length :: mem[k] == old(mem[k])
  {
    r := LoadCheckedSegment(codec, file, mem, textInfo, textBase, mapEnd, text);
    if r.Err? { return; }
    ghost var before := mem[..];
    r := LoadCheckedDataSegments(codec, file, mem, roInfo, rwInfo, roBase, rwBase, mapEnd, ro, rw);
    if r.Err? { return; }
    HoldsBelow(before, mem, textBase, text.bytes, roBase);
  }

  method LoadCheckedSegments(codec: Codec, file: File, h: NsoHeader, mem: array<Byte>, addr: nat, nsoSize: nat,
                             ghost text: Loaded, ghost ro: Loaded, ghost rw: Loaded)
    returns (r: Status)
    requires h.WellPlaced() && h.Span() <= nsoSize && addr + nsoSize <= mem.Length
    requires text == CheckedSegment(codec, file, h.text)
    requires ro == CheckedSegment(codec, file, h.ro)
    requires rw == CheckedSegment(codec, file, h.rw)
    modifies mem
    ensures r == if text.Failed? then Err(text.error) else if ro.Failed? then Err(ro.error) else StatusOf(rw)
    ensures r.Ok? ==> Holds(mem, addr, text.bytes) && Holds(mem, addr + h.ro.dstOffset, ro.bytes)
                      && Holds(mem, addr + h.rw.dstOffset, rw.bytes)
    ensures forall k | 0 <= k < addr || addr + nsoSize <= k < mem.Length :: mem[k] == old(mem[k])
  {
    r := LoadThreeChecked(codec, file, mem, h.text, h.ro, h.rw, addr, addr + h.ro.dstOffset, addr + h.rw.dstOffset,
                          addr + nsoSize, text, ro, rw);
  }

  method LoadSparseModule(codec: Codec, file: File, h: NsoHeader, mem: array<Byte>, addr: nat, nsoSize: nat,
                          ghost image: Loaded)
    returns (r: Status)
    requires h.WellPlaced() && h.Span() <= nsoSize && addr + nsoSize <= mem.Length
    requires image == SparseModuleImage(codec, file, h)
    modifies mem
    ensures r == StatusOf(image)
    ensures r.Ok? ==> Holds(mem, addr, image.bytes)
    ensures forall k | 0 <= k < addr || addr + nsoSize <= k < mem.Length :: mem[k] == old(mem[k])
  {
    ghost var text := CheckedSegment(codec, file, h.text);
    ghost var ro := CheckedSegment(codec, file, h.ro);
    ghost var rw := CheckedSegment(codec, file, h.rw);
    r := LoadCheckedSegments(codec, file, h, mem, addr, nsoSize, text, ro, rw);
    if r.Err? { return; }
    Clear(mem, addr, h.text.dstOffset);
    ClearUnused(h, mem, addr, h.rw.End() + h.bssSize, text.bytes, ro.bytes, rw.bytes);
  }

  /** The slots the loader visits are well placed. */
  ghost predicate PresentWellPlaced(headers: seq<NsoHeader>, has: seq<bool>) {
    |headers| == |has| == NSO_COUNT && forall i | 0 <= i < NSO_COUNT && has[i] :: headers[i].WellPlaced()
  }

  /** What 1.10 makes of slot `i`. */
  function SparseExpected(codec: Codec, files: Files, headers: seq<NsoHeader>, i: nat): Loaded
    requires |headers| == NSO_COUNT && i < NSO_COUNT && headers[i].WellPlaced()
  {
    match files[i]
    case None => Failed(OpenFailed)
    case Some(file) => SparseModuleImage(codec, file, headers[i])
  }

  ghost predicate InSparsePlace(m: seq<Byte>, codec: Codec, files: Files, headers: seq<NsoHeader>, at: nat, i: nat)
    requires |headers| == NSO_COUNT && i < NSO_COUNT && headers[i].WellPlaced()
  {
    && SparseExpected(codec, files, headers, i).Bytes?
    && HoldsIn(m, at, SparseExpected(codec, files, headers, i).bytes)
  }

  /** Byte by byte, up to the end of bss. */
  lemma InSparsePlaceAt(m: seq<Byte>, codec: Codec, files: Files, headers: seq<NsoHeader>, at: nat, i: nat, j: nat, file: File)
    requires |headers| == NSO_COUNT && i < NSO_COUNT && headers[i].WellPlaced()
    requires InSparsePlace(m, codec, files, headers, at, i) && files[i] == Some(file)
    requires j < headers[i].rw.dstOffset + headers[i].rw.size + headers[i].bssSize
    ensures at + j < |m| && SparseModuleImage(codec, file, headers[i]).Bytes?
    ensures m[at + j] == SparseModuleImage(codec, file, headers[i]).bytes[j]
  {
    assert m[at + j] == SparseExpected(codec, files, headers, i).bytes[j];
  }

  lemma StaysInSparsePlace(v: seq<Byte>, w: seq<Byte>, codec: Codec, files: Files, headers: seq<NsoHeader>, at: nat, i: nat,
                           lo: nat)
    requires |headers| == NSO_COUNT && i < NSO_COUNT && headers[i].WellPlaced() && InSparsePlace(v, codec, files, headers, at, i)
    requires at + headers[i].Span() <= lo && |v| == |w| && forall j | 0 <= j < lo && j < |v| :: w[j] == v[j]
    ensures InSparsePlace(w, codec, files, headers, at, i)
  {
    StillHolds(v, w, lo, |v|, at, SparseExpected(codec, files, headers, i).bytes);
  }

  /** The present slots below `n` are in place. */
  ghost predicate SparselyLoaded(m: seq<Byte>, codec: Codec, files: Files, headers: seq<NsoHeader>, has: seq<bool>,
                                 sizes: seq<nat>, args: nat, n: nat)
    requires PresentWellPlaced(headers, has) && |sizes| == NSO_COUNT && n <= NSO_COUNT
  {
    forall k: nat | k < n && has[k] :: InSparsePlace(m, codec, files, headers, SparseOffset(sizes, has, args, k), k)
  }

  ghost predicate SparseFirstToFail(codec: Codec, files: Files, headers: seq<NsoHeader>, has: seq<bool>, i: nat)
    requires PresentWellPlaced(headers, has)
  {
    && i < NSO_COUNT && has[i] && SparseExpected(codec, files, headers, i).Failed?
    && forall k: nat | k < i && has[k] :: SparseExpected(codec, files, headers, k).Bytes?
  }

  lemma SparselyLoadedBeforeFailure(m: seq<Byte>, codec: Codec, files: Files, headers: seq<NsoHeader>, has: seq<bool>,
                                    sizes: seq<nat>, args: nat, i: nat)
    requires PresentWellPlaced(headers, has) && |sizes| == NSO_COUNT && i < NSO_COUNT && has[i]
    requires SparselyLoaded(m, codec, files, headers, has, sizes, args, i) && SparseExpected(codec, files, headers, i).Failed?
    ensures SparseFirstToFail(codec, files, headers, has, i)
  {
    forall k: nat | k < i && has[k]
      ensures SparseExpected(codec, files, headers, k).Bytes?
    {
      assert InSparsePlace(m, codec, files, headers, SparseOffset(sizes, has, args, k), k);
    }
  }

  method LoadSparseNext(codec: Codec, files: Files, headers: seq<NsoHeader>, has: seq<bool>, info: ProcessInfo,
                        mem: array<Byte>, i: nat, ghost sizes: seq<nat>, ghost args: nat)
    returns (r: Status)
    requires PresentWellPlaced(headers, has)
    requires sizes == Sizes(headers) && info.SparselyLaid(sizes, has, args) && mem.Length == info.codeNumPages * PAGE_SIZE
    requires i < NSO_COUNT && has[i] && SparselyLoaded(mem[..], codec, files, headers, has, sizes, args, i)
    modifies mem
    ensures r == StatusOf(SparseExpected(codec, files, headers, i))
    ensures r.Ok? ==> SparselyLoaded(mem[..], codec, files, headers, has, sizes, args, i + 1)
  {
    SparseOffsetsIncrease(sizes, has, args, i + 1, NSO_COUNT);
    MaskCutsNothing(headers[i]);
    r := LoadSparseSlot(codec, files, headers, has, mem, i, info.nsoAddress[i] - info.codeAddress, info.nsoSize[i], sizes, args);
  }

  method LoadSparseSlot(codec: Codec, files: Files, headers: seq<NsoHeader>, has: seq<bool>, mem: array<Byte>, i: nat,
                        at: nat, size: nat, ghost sizes: seq<nat>, ghost args: nat)
    returns (r: Status)
    requires PresentWellPlaced(headers, has)
    requires sizes == Sizes(headers) && i < NSO_COUNT && has[i] && SparselyLoaded(mem[..], codec, files, headers, has, sizes, args, i)
    requires at == SparseOffset(sizes, has, args, i) && headers[i].Span() <= size && at + size <= mem.Length
    modifies mem
    ensures r == StatusOf(SparseExpected(codec, files, headers, i))
    ensures r.Ok? ==> SparselyLoaded(mem[..], codec, files, headers, has, sizes, args, i + 1)
  {
    var file := files[i];
    if file.None? {
      return Err(OpenFailed);
    }
    ghost var before, expected := mem[..], SparseExpected(codec, files, headers, i);
    r := LoadSparseModule(codec, file.value, headers[i], mem, at, size, expected);
    if r.Ok? {
      AsImage(mem, at, expected.bytes);
      SparseNextLoaded(before, mem[..], codec, files, headers, has, sizes, args, i, at);
    }
  }

  lemma SparseNextLoaded(v: seq<Byte>, w: seq<Byte>, codec: Codec, files: Files, headers: seq<NsoHeader>, has: seq<bool>,
                         sizes: seq<nat>, args: nat, i: nat, at: nat)
    requires PresentWellPlaced(headers, has)
    requires sizes == Sizes(headers) && i < NSO_COUNT && has[i] && at == SparseOffset(sizes, has, args, i)
    requires SparselyLoaded(v, codec, files, headers, has, sizes, args, i)
    requires |v| == |w| && forall j | 0 <= j < at && j < |v| :: w[j] == v[j]
    requires InSparsePlace(w, codec, files, headers, at, i)
    ensures SparselyLoaded(w, codec, files, headers, has, sizes, args, i + 1)
  {
    SparseRestStays(v, w, codec, files, headers, has, sizes, args, i);
  }

  lemma SparseSlotsApart(headers: seq<NsoHeader>, has: seq<bool>, sizes: seq<nat>, args: nat, k: nat, i: nat)
    requires |headers| == |has| && sizes == Sizes(headers) && k < i < |has| && has[k]
    ensures SparseOffset(sizes, has, args, k) + headers[k].Span() <= SparseOffset(sizes, has, args, i)
  {
    MaskCutsNothing(headers[k]);
    SparseOffsetsIncrease(sizes, has, args, k + 1, i);
  }

  lemma SparseRestStays(v: seq<Byte>, w: seq<Byte>, codec: Codec, files: Files, headers: seq<NsoHeader>, has: seq<bool>,
                        sizes: seq<nat>, args: nat, i: nat)
    requires PresentWellPlaced(headers, has)
    requires sizes == Sizes(headers) && i < NSO_COUNT && SparselyLoaded(v, codec, files, headers, has, sizes, args, i)
    requires |v| == |w| && forall j | 0 <= j < SparseOffset(sizes, has, args, i) && j < |v| :: w[j] == v[j]
    ensures SparselyLoaded(w, codec, files, headers, has, sizes, args, i)
  {
    forall k: nat | k < i && has[k]
      ensures InSparsePlace(w, codec, files, headers, SparseOffset(sizes, has, args, k), k)
    {
      SparseSlotsApart(headers, has, sizes, args, k, i);
      StaysInSparsePlace(v, w, codec, files, headers, SparseOffset(sizes, has, args, k), k, SparseOffset(sizes, has, args, i));
    }
  }

  /** One turn of the loop. */
  method LoadSparseTurn(codec: Codec, files: Files, headers: seq<NsoHeader>, has: seq<bool>, info: ProcessInfo,
                        mem: array<Byte>, i: nat, ghost sizes: seq<nat>, ghost args: nat)
    returns (r: Status)
    requires PresentWellPlaced(headers, has)
    requires sizes == Sizes(headers) && info.SparselyLaid(sizes, has, args) && mem.Length == info.codeNumPages * PAGE_SIZE
    requires i < NSO_COUNT && SparselyLoaded(mem[..], codec, files, headers, has, sizes, args, i)
    modifies mem
    ensures r.Ok? ==> SparselyLoaded(mem[..], codec, files, headers, has, sizes, args, i + 1)
    ensures r.Err? ==> SparseFirstToFail(codec, files, headers, has, i) && SparseExpected(codec, files, headers, i).error == r.error
  {
    if !has[i] {
      return Ok;
    }
    ghost var before := mem[..];
    r := LoadSparseNext(codec, files, headers, has, info, mem, i, sizes, args);
    if r.Err? {
      SparselyLoadedBeforeFailure(before, codec, files, headers, has, sizes, args, i);
    }
  }

  /** The loop over the slots of LoadAutoLoadModules of 1.10. */
  method LoadSparseModules(codec: Codec, files: Files, headers: seq<NsoHeader>, has: seq<bool>, info: ProcessInfo,
                           mem: array<Byte>, ghost args: nat)
    returns (r: Status)
    requires PresentWellPlaced(headers, has)
    requires info.SparselyLaid(Sizes(headers), has, args) && mem.Length == info.codeNumPages * PAGE_SIZE
    modifies mem
    ensures r.Ok? ==> SparselyLoaded(mem[..], codec, files, headers, has, Sizes(headers), args, NSO_COUNT)
    ensures r.Err? ==> exists i: nat ::
              SparseFirstToFail(codec, files, headers, has, i) && SparseExpected(codec, files, headers, i).error == r.error
  {
    ghost var sizes := Sizes(headers);
    var i := 0;
    while i < NSO_COUNT
      invariant i <= NSO_COUNT
      invariant SparselyLoaded(mem[..], codec, files, headers, has, sizes, args, i)
    {
      r := LoadSparseTurn(codec, files, headers, has, info, mem, i, sizes, args);
      if r.Err? { return; }
      i := i + 1;
    }
    r := Ok;
  }

  /** In the sparse layout, too, no module overlaps the argument region. */
  lemma SparseArgumentsApart(headers: seq<NsoHeader>, has: seq<bool>, sizes: seq<nat>, args: nat, k: nat)
    requires |headers| == |has| && sizes == Sizes(headers) && k < |has| && has[k] && AnyPresent(has, |has|)
    ensures var at := FirstSize(sizes, has, |has|);
            SparseOffset(sizes, has, args, k) + headers[k].Span() <= at || at + args <= SparseOffset(sizes, has, args, k)
  {
    MaskCutsNothing(headers[k]);
    assert AnyPresent(has, k + 1);
    FirstSizeStays(sizes, has, k + 1, |has|);
    if AnyPresent(has, k) {
      ArgumentsBeforeRest(sizes, has, args, k);
    } else {
      FirstPresentOffset(sizes, has, args, k);
    }
  }

  lemma SparseArgumentsDisturbNothing(v: seq<Byte>, w: seq<Byte>, codec: Codec, files: Files, headers: seq<NsoHeader>,
                                      has: seq<bool>, sizes: seq<nat>, args: nat, at: nat, n: nat)
    requires PresentWellPlaced(headers, has)
    requires sizes == Sizes(headers) && AnyPresent(has, |has|) && at == FirstSize(sizes, has, |has|) && n <= args
    requires SparselyLoaded(v, codec, files, headers, has, sizes, args, NSO_COUNT)
    requires |v| == |w| && forall j | 0 <= j < |v| && (j < at || at + n <= j) :: w[j] == v[j]
    ensures SparselyLoaded(w, codec, files, headers, has, sizes, args, NSO_COUNT)
  {
    forall k: nat | k < NSO_COUNT && has[k]
      ensures InSparsePlace(w, codec, files, headers, SparseOffset(sizes, has, args, k), k)
    {
      SparseArgumentsApart(headers, has, sizes, args, k);
      assert InSparsePlace(v, codec, files, headers, SparseOffset(sizes, has, args, k), k);
      StillHolds(v, w, at, at + n, SparseOffset(sizes, has, args, k), SparseExpected(codec, files, headers, k).bytes);
    }
  }

  lemma SparseArgumentsPlace(info: ProcessInfo, sizes: seq<nat>, has: seq<bool>, args: nat)
    requires |sizes| == |has| == NSO_COUNT && info.SparselyLaid(sizes, has, args) && AnyPresent(has, |has|) && 0 < args
    ensures info.argsAddress == info.codeAddress + FirstSize(sizes, has, |has|) && info.argsSize == args
    ensures FirstSize(sizes, has, |has|) + args <= info.codeNumPages * PAGE_SIZE
  {
    ArgumentsBeforeRest(sizes, has, args, |has|);
  }

  /** The arguments of 1.10. */
  method StoreSparseArguments(headers: seq<NsoHeader>, has: seq<bool>, info: ProcessInfo, mem: array<Byte>, l: ArgumentLayout,
                              argument: seq<Byte>, ghost codec: Codec, ghost files: Files, ghost sizes: seq<nat>, ghost args: nat)
    requires PresentWellPlaced(headers, has)
    requires sizes == Sizes(headers) && info.SparselyLaid(sizes, has, args) && mem.Length == info.codeNumPages * PAGE_SIZE
    requires AnyPresent(has, |has|) && l.Valid() && l.headerSize + |argument| <= args && 0 < args
    requires SparselyLoaded(mem[..], codec, files, headers, has, sizes, args, NSO_COUNT)
    modifies mem
    ensures ArgumentsStored(mem[..], info, l, args, argument)
    ensures SparselyLoaded(mem[..], codec, files, headers, has, sizes, args, NSO_COUNT)
  {
    SparseArgumentsPlace(info, sizes, has, args);
    var at: nat, size := info.argsAddress - info.codeAddress, info.argsSize;
    assert size == args;
    StoreSparseArgumentsAt(headers, has, mem, at, size, l, argument, codec, files, sizes);
    StoredAt(mem[..], info, l, args, argument, at);
  }

  method StoreSparseArgumentsAt(ghost headers: seq<NsoHeader>, ghost has: seq<bool>, mem: array<Byte>, at: nat, args: nat,
                                l: ArgumentLayout, argument: seq<Byte>, ghost codec: Codec, ghost files: Files, ghost sizes: seq<nat>)
    requires PresentWellPlaced(headers, has) && sizes == Sizes(headers)
    requires AnyPresent(has, |has|) && at == FirstSize(sizes, has, |has|) && at + args <= mem.Length
    requires l.Valid() && l.headerSize + |argument| <= args
    requires SparselyLoaded(mem[..], codec, files, headers, has, sizes, args, NSO_COUNT)
    modifies mem
    ensures HoldsIn(mem[..], at, ArgumentImage(l, args, argument))
    ensures SparselyLoaded(mem[..], codec, files, headers, has, sizes, args, NSO_COUNT)
  {
    ghost var before := mem[..];
    StoreProgramArguments(mem, at, l, args, argument);
    AsImage(mem, at, ArgumentImage(l, args, argument));
    SparseArgumentsDisturbNothing(before, mem[..], codec, files, headers, has, sizes, args, at, l.headerSize + |argument|);
  }

  /** The rest of LoadAutoLoadModules of 1.10: every present slot in place, then the arguments, or the first failure. */
  method LoadSparseAll(codec: Codec, files: Files, headers: seq<NsoHeader>, has: seq<bool>, info: ProcessInfo,
                       mem: array<Byte>, l: ArgumentLayout, argument: Option<seq<Byte>>, ghost args: nat)
    returns (r: Status)
    requires PresentWellPlaced(headers, has)
    requires info.SparselyLaid(Sizes(headers), has, args) && mem.Length == info.codeNumPages * PAGE_SIZE
    requires AnyPresent(has, |has|) && l.Valid()
    requires argument.Some? ==> l.headerSize + |argument.value| <= args && 0 < args
    modifies mem
    ensures r.Ok? ==> SparselyLoaded(mem[..], codec, files, headers, has, Sizes(headers), args, NSO_COUNT)
    ensures r.Ok? && argument.Some? ==> ArgumentsStored(mem[..], info, l, args, argument.value)
    ensures r.Err? ==> exists i: nat ::
              SparseFirstToFail(codec, files, headers, has, i) && SparseExpected(codec, files, headers, i).error == r.error
  {
    r := LoadSparseModules(codec, files, headers, has, info, mem, args);
    if r.Err? { return; }
    if argument.Some? {
      StoreSparseArguments(headers, has, info, mem, l, argument.value, codec, files, Sizes(headers), args);
    }
  }

  // ---- Dense refines sparse ----

  /** The two shapes of one set of files, which both generations accept and which use no Zstd. */
  ghost predicate SameProgram(files: Files, browser: bool, headers: seq<NsoHeader>, has: seq<bool>, p: Program) {
    && SparseHeadersOf(files, browser, headers, has) && PresentWellPlaced(headers, has)
    && p.Valid() && p.indices == PresentIndices(files, browser, NSO_COUNT) && p.headers == HeadersOf(files, p.indices)
    && forall k | 0 <= k < |p.headers| :: !p.headers[k].useZbic
  }

  /** Without Zstd, one loader can load a module exactly when the other can, and they agree on every byte of it
      up to the end of its bss. */
  lemma ModulesLoadAlike(codec: Codec, files: Files, browser: bool, headers: seq<NsoHeader>, has: seq<bool>, p: Program, k: nat)
    requires SameProgram(files, browser, headers, has, p) && k < |p.headers|
    ensures has[p.indices[k]] && headers[p.indices[k]] == p.headers[k]
    ensures p.Expected(codec, files, k).Bytes? <==> SparseExpected(codec, files, headers, p.indices[k]).Bytes?
    ensures p.Expected(codec, files, k).Bytes? ==>
              SparseExpected(codec, files, headers, p.indices[k]).bytes
              == p.Expected(codec, files, k).bytes[..p.headers[k].rw.End() + p.headers[k].bssSize]
  {
    var h := p.headers[k];
    MaskCutsNothing(h);
    HashOrderIrrelevant(codec, files[p.indices[k]].value, h, p.Size(k), p.MapSize(k));
  }

  /** So the two accept the same programs. */
  lemma LoadersAgree(codec: Codec, files: Files, browser: bool, headers: seq<NsoHeader>, has: seq<bool>, p: Program)
    requires SameProgram(files, browser, headers, has, p)
    ensures (forall k: nat | k < |p.headers| :: p.Expected(codec, files, k).Bytes?)
       <==> (forall i: nat | i < NSO_COUNT && has[i] :: SparseExpected(codec, files, headers, i).Bytes?)
  {
    forall k: nat | k < |p.headers|
      ensures has[p.indices[k]] && headers[p.indices[k]] == p.headers[k]
      ensures p.Expected(codec, files, k).Bytes? <==> SparseExpected(codec, files, headers, p.indices[k]).Bytes?
    {
      ModulesLoadAlike(codec, files, browser, headers, has, p, k);
    }
    forall i: nat | i < NSO_COUNT && has[i]
      ensures exists k: nat :: k < |p.headers| && p.indices[k] == i
    {
      DenseIndexIsPosition(files, browser, NSO_COUNT, i);
    }
  }

  /** And the first module to fail is the same. */
  lemma FirstFailuresAgree(codec: Codec, files: Files, browser: bool, headers: seq<NsoHeader>, has: seq<bool>, p: Program,
                           k: nat, i: nat)
    requires SameProgram(files, browser, headers, has, p)
    requires FirstToFail(codec, files, p, k) && SparseFirstToFail(codec, files, headers, has, i)
    ensures p.indices[k] == i
  {
    DenseIndexIsPosition(files, browser, NSO_COUNT, i);
    var j: nat := DenseIndex(files, browser, NSO_COUNT, i);
    if j < k {
      ModulesLoadAlike(codec, files, browser, headers, has, p, j);
      assert false;
    } else if k < j {
      ModulesLoadAlike(codec, files, browser, headers, has, p, k);
      PresentIndicesIncrease(files, browser, NSO_COUNT, k, j);
      assert false;
    }
  }

  /** `n` bytes from `at` on are there and the same. */
  ghost predicate SameRange(m: seq<Byte>, w: seq<Byte>, at: nat, n: nat) {
    at + n <= |m| && at + n <= |w| && forall i | at <= i < at + n :: m[i] == w[i]
  }

  /** The memories agree on every module up to the end of its bss. */
  ghost predicate ModulesAgree(m: seq<Byte>, w: seq<Byte>, p: Program) {
    forall k: nat | k < |p.headers| :: SameRange(m, w, p.Start(k), p.headers[k].rw.End() + p.headers[k].bssSize)
  }

  lemma ModulesAgreeAt(m: seq<Byte>, w: seq<Byte>, p: Program, k: nat, j: nat)
    requires ModulesAgree(m, w, p) && k < |p.headers|
    requires j < p.headers[k].rw.dstOffset + p.headers[k].rw.size + p.headers[k].bssSize
    ensures p.Start(k) + j < |m| && p.Start(k) + j < |w| && m[p.Start(k) + j] == w[p.Start(k) + j]
  {
  }

  /** What the two loaders leave in memory is the same, wherever 1.10 says what it leaves. */
  lemma MemoriesAgree(m: seq<Byte>, w: seq<Byte>, codec: Codec, files: Files, browser: bool,
                      headers: seq<NsoHeader>, has: seq<bool>, p: Program)
    requires SameProgram(files, browser, headers, has, p)
    requires LoadedUpTo(m, codec, files, p, |p.headers|)
    requires SparselyLoaded(w, codec, files, headers, has, Sizes(headers), p.args, NSO_COUNT)
    ensures ModulesAgree(m, w, p)
  {
    forall k: nat | k < |p.headers|
      ensures SameRange(m, w, p.Start(k), p.headers[k].rw.End() + p.headers[k].bssSize)
    {
      var i := p.indices[k];
      ModulesLoadAlike(codec, files, browser, headers, has, p, k);
      SlotAgrees(files, browser, headers, has, p.args, k);
      assert InPlace(m, codec, files, p, k);
      assert InSparsePlace(w, codec, files, headers, SparseOffset(Sizes(headers), has, p.args, i), i);
      HeldBytesAgree(m, w, p.Start(k), p.Expected(codec, files, k).bytes, SparseExpected(codec, files, headers, i).bytes);
    }
  }

  lemma HeldBytesAgree(m: seq<Byte>, w: seq<Byte>, at: nat, long: seq<Byte>, short: seq<Byte>)
    requires HoldsIn(m, at, long) && HoldsIn(w, at, short) && |short| <= |long| && short == long[..|short|]
    ensures SameRange(m, w, at, |short|)
  {
  }
}
