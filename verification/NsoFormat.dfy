/** Vocabulary shared by the two generations of the NSO loader: headers, files, the foreign codecs,
    and the bytes a module must hold once it is loaded.  Sizes and addresses are unbounded; header
    fields are 32 bits wide, and NsoLayout shows that no 64-bit sum built from them can wrap. */
module NsoFormat {
  import opened Common

  const PAGE_SIZE: nat := 0x1000
  const AUTO_LOAD_MODULE_SIZE_MAX: nat := 0x8_0000_0000
  const NSO_COUNT: nat := 23
  const S32_MAX: nat := 0x7FFF_FFFF

  type Byte = x: int | 0 <= x < 0x100

  datatype Error = InvalidNso | OutOfMemory | OpenFailed | ReadFailed

  /** The outcome of a step that yields bytes, and of one that yields nothing. */
  datatype Loaded = Bytes(bytes: seq<Byte>) | Failed(error: Error)
  datatype Status = Ok | Err(error: Error)

  function StatusOf(l: Loaded): Status {
    if l.Bytes? then Ok else Err(l.error)
  }

  /** One of the three segments of a module.  The flag bits that concern it are named booleans. */
  datatype SegmentInfo = SegmentInfo(
    fileOffset: u32, dstOffset: u32, size: u32, compressedSize: u32,
    compressed: bool, checkHash: bool, hash: seq<Byte>)
  {
    function End(): nat { dstOffset + size }
  }

  datatype NsoHeader = NsoHeader(
    text: SegmentInfo, ro: SegmentInfo, rw: SegmentInfo, bssSize: u32,
    preventCodeReads: bool, useZbic: bool)
  {
    /** The extent rules that CheckAutoLoad enforces on every present module. */
    predicate WellPlaced() {
      && text.dstOffset == 0
      && text.End() <= ro.dstOffset
      && ro.End() <= rw.dstOffset
    }

    predicate PageAligned() {
      && text.dstOffset % PAGE_SIZE == 0
      && ro.dstOffset % PAGE_SIZE == 0
      && rw.dstOffset % PAGE_SIZE == 0
    }

    /** Bytes the module occupies before rounding up to pages. */
    function Span(): nat {
      Max(Max(text.End(), ro.End()), rw.End()) + bssSize
    }
  }

  /** Bss follows the segment that ends last. */
  lemma SpanIs(h: NsoHeader)
    ensures var text, ro, rw := h.text.dstOffset + h.text.size, h.ro.dstOffset + h.ro.size, h.rw.dstOffset + h.rw.size;
            var last := h.Span() - h.bssSize;
            && text <= last && ro <= last && rw <= last && (last == text || last == ro || last == rw)
  {
  }

  const NO_SEGMENT := SegmentInfo(0, 0, 0, 0, false, false, [])
  const NO_HEADER := NsoHeader(NO_SEGMENT, NO_SEGMENT, NO_SEGMENT, 0, false, false)

  /** What reading a header from the start of a file gives: the whole of it, fewer bytes, or an error. */
  datatype HeaderRead = Whole(value: NsoHeader) | Short | Unreadable {
    function Outcome(): Status {
      match this
      case Whole(_) => Ok
      case Short => Err(InvalidNso)
      case Unreadable => Err(ReadFailed)
    }
  }

  /** A file of the code mount. */
  datatype File = File(header: HeaderRead, data: seq<Byte>) {
    /** Reading past the end fails; a read that crosses the end comes back short. */
    function Read(offset: nat, size: nat): Loaded {
      if offset > |data| then Failed(ReadFailed)
      else if offset + size > |data| then Bytes(data[offset..])
      else Bytes(data[offset..offset + size])
    }
  }

  /** The foreign algorithms, as functions of the bytes they are given.  `zstd` also sees the room
      there is at its destination, because the loader passes it. */
  datatype Codec = Codec(
    lz4: (seq<Byte>, nat) -> Option<seq<Byte>>,
    zstd: (seq<Byte>, nat, nat) -> Option<seq<Byte>>,
    sha256: seq<Byte> -> seq<Byte>)

  function AlignUp(n: nat): nat {
    n + PAGE_SIZE - 1 - (n + PAGE_SIZE - 1) % PAGE_SIZE
  }

  function Zeros(n: nat): (z: seq<Byte>)
    ensures |z| == n && forall i | 0 <= i < n :: z[i] == 0
  {
    seq(n, _ => 0)
  }

  /** What the decompressor makes of `src`, when that is exactly `size` bytes. */
  function Expand(codec: Codec, src: seq<Byte>, zstd: bool, capacity: nat, size: nat): (r: Loaded)
    ensures r.Bytes? ==> |r.bytes| == size
  {
    var out := if zstd then codec.zstd(src, capacity, size) else codec.lz4(src, size);
    if out.Some? && |out.value| == size then Bytes(out.value) else Failed(InvalidNso)
  }

  /** The bytes of a segment as they are in the file, or why they cannot be read. */
  function StoredBytes(file: File, s: SegmentInfo): (r: Loaded)
    ensures r.Bytes? ==> |r.bytes| == (if s.compressed then s.compressedSize else s.size) <= s.size
  {
    var fileSize := if s.compressed then s.compressedSize else s.size;
    if fileSize > s.size || s.size > S32_MAX then Failed(InvalidNso) else
    var raw := file.Read(s.fileOffset, fileSize);
    if raw.Bytes? && |raw.bytes| != fileSize then Failed(InvalidNso) else raw
  }

  /** The final contents of one segment, or why it cannot be loaded. */
  function SegmentBytes(codec: Codec, file: File, s: SegmentInfo, zstd: bool, capacity: nat): (r: Loaded)
    ensures r.Bytes? ==> |r.bytes| == s.size
  {
    var raw := StoredBytes(file, s);
    if raw.Failed? || !s.compressed then raw else Expand(codec, raw.bytes, zstd, capacity, s.size)
  }

  predicate HashMatches(codec: Codec, s: SegmentInfo, bytes: seq<Byte>) {
    s.checkHash ==> codec.sha256(bytes) == s.hash
  }

  /** Text, zeros, read-only data, zeros, data, zeros up to `size`. */
  function Image(h: NsoHeader, text: seq<Byte>, ro: seq<Byte>, rw: seq<Byte>, size: nat): (m: seq<Byte>)
    requires h.WellPlaced() && h.rw.End() <= size
    requires |text| == h.text.size && |ro| == h.ro.size && |rw| == h.rw.size
    ensures |m| == size
  {
    text + Zeros(h.ro.dstOffset - h.text.End()) + ro + Zeros(h.rw.dstOffset - h.ro.End()) + rw + Zeros(size - h.rw.End())
  }

  /** Which of the six parts byte `k` of an image comes from. */
  lemma ImageAt(h: NsoHeader, text: seq<Byte>, ro: seq<Byte>, rw: seq<Byte>, size: nat, k: nat)
    requires h.WellPlaced() && h.rw.End() <= size && k < size
    requires |text| == h.text.size && |ro| == h.ro.size && |rw| == h.rw.size
    ensures Image(h, text, ro, rw, size)[k] ==
            if k < h.text.End() then text[k]
            else if h.ro.dstOffset <= k < h.ro.End() then ro[k - h.ro.dstOffset]
            else if h.rw.dstOffset <= k < h.rw.End() then rw[k - h.rw.dstOffset]
            else 0
  {
  }

  /** 1.11: all three segments are read first, then all three hashes are checked. */
  function ModuleImage(codec: Codec, file: File, h: NsoHeader, nsoSize: nat, mapSize: nat): (r: Loaded)
    requires h.WellPlaced() && h.Span() <= nsoSize <= mapSize
    ensures r.Bytes? ==> |r.bytes| == nsoSize
  {
    var text := SegmentBytes(codec, file, h.text, h.useZbic, mapSize - h.text.dstOffset);
    var ro := SegmentBytes(codec, file, h.ro, h.useZbic, mapSize - h.ro.dstOffset);
    var rw := SegmentBytes(codec, file, h.rw, h.useZbic, mapSize - h.rw.dstOffset);
    if text.Failed? then text
    else if ro.Failed? then ro
    else if rw.Failed? then rw
    else if HashMatches(codec, h.text, text.bytes) && HashMatches(codec, h.ro, ro.bytes) && HashMatches(codec, h.rw, rw.bytes)
    then Bytes(Image(h, text.bytes, ro.bytes, rw.bytes, nsoSize))
    else Failed(InvalidNso)
  }

  /** 1.10: every segment is checked as soon as it is read, and Zstd is unknown. */
  function CheckedSegment(codec: Codec, file: File, s: SegmentInfo): (r: Loaded)
    ensures r.Bytes? ==> |r.bytes| == s.size
  {
    var bytes := SegmentBytes(codec, file, s, false, 0);
    if bytes.Bytes? && !HashMatches(codec, s, bytes.bytes) then Failed(InvalidNso) else bytes
  }

  /** 1.10 defines the bytes up to the end of bss only. */
  function SparseModuleImage(codec: Codec, file: File, h: NsoHeader): (r: Loaded)
    requires h.WellPlaced()
    ensures r.Bytes? ==> |r.bytes| == h.rw.End() + h.bssSize
  {
    var text := CheckedSegment(codec, file, h.text);
    var ro := CheckedSegment(codec, file, h.ro);
    var rw := CheckedSegment(codec, file, h.rw);
    if text.Failed? then text
    else if ro.Failed? then ro
    else if rw.Failed? then rw
    else Bytes(Image(h, text.bytes, ro.bytes, rw.bytes, h.rw.End() + h.bssSize))
  }

  /** Without Zstd the two loaders accept the same modules, whatever the order of their hash
      checks, and agree on every byte up to the end of bss. */
  lemma HashOrderIrrelevant(codec: Codec, file: File, h: NsoHeader, nsoSize: nat, mapSize: nat)
    requires h.WellPlaced() && h.Span() <= nsoSize <= mapSize
    requires !h.useZbic
    ensures ModuleImage(codec, file, h, nsoSize, mapSize).Bytes? <==> SparseModuleImage(codec, file, h).Bytes?
    ensures ModuleImage(codec, file, h, nsoSize, mapSize).Bytes? ==>
              SparseModuleImage(codec, file, h).bytes
              == ModuleImage(codec, file, h, nsoSize, mapSize).bytes[..h.rw.End() + h.bssSize]
  {
    if SparseModuleImage(codec, file, h).Bytes? {
      var text := CheckedSegment(codec, file, h.text).bytes;
      var ro := CheckedSegment(codec, file, h.ro).bytes;
      var rw := CheckedSegment(codec, file, h.rw).bytes;
      var n := h.rw.End() + h.bssSize;
      assert Zeros(nsoSize - h.rw.End())[..h.bssSize] == Zeros(h.bssSize);
      assert Image(h, text, ro, rw, nsoSize)[..n] == Image(h, text, ro, rw, n);
    }
  }

  /** A segment that reads well has a wrong hash, and a later one cannot be read. */
  predicate WrongHashBeforeUnreadable(codec: Codec, file: File, h: NsoHeader) {
    var text := SegmentBytes(codec, file, h.text, false, 0);
    var ro := SegmentBytes(codec, file, h.ro, false, 0);
    var rw := SegmentBytes(codec, file, h.rw, false, 0);
    && text.Bytes?
    && if HashMatches(codec, h.text, text.bytes) then ro.Bytes? && !HashMatches(codec, h.ro, ro.bytes) && rw == Failed(ReadFailed)
       else ro == Failed(ReadFailed) || (ro.Bytes? && rw == Failed(ReadFailed))
  }

  /** When the hashes are checked does show in the error: the two loaders report the same one unless a
      wrong hash comes before an unreadable segment. */
  lemma SameErrorExactly(codec: Codec, file: File, h: NsoHeader, nsoSize: nat, mapSize: nat)
    requires h.WellPlaced() && h.Span() <= nsoSize <= mapSize
    requires !h.useZbic
    ensures StatusOf(ModuleImage(codec, file, h, nsoSize, mapSize)) == StatusOf(SparseModuleImage(codec, file, h))
       <==> !WrongHashBeforeUnreadable(codec, file, h)
  {
    var text, ro := SegmentBytes(codec, file, h.text, false, 0), SegmentBytes(codec, file, h.ro, false, 0);
    var rw := SegmentBytes(codec, file, h.rw, false, 0);
    LateStatus(codec, file, h, nsoSize, mapSize, text, ro, rw);
    EarlyStatus(codec, file, h, text, ro, rw);
    SegmentFailsExactly(codec, file, h.text, false, 0);
    SegmentFailsExactly(codec, file, h.ro, false, 0);
    SegmentFailsExactly(codec, file, h.rw, false, 0);
  }

  /** What 1.11 reports, in terms of the segments: all of them come before any hash. */
  lemma LateStatus(codec: Codec, file: File, h: NsoHeader, nsoSize: nat, mapSize: nat, text: Loaded, ro: Loaded, rw: Loaded)
    requires h.WellPlaced() && h.Span() <= nsoSize <= mapSize && !h.useZbic
    requires text == SegmentBytes(codec, file, h.text, false, 0) && ro == SegmentBytes(codec, file, h.ro, false, 0)
    requires rw == SegmentBytes(codec, file, h.rw, false, 0)
    ensures StatusOf(ModuleImage(codec, file, h, nsoSize, mapSize)) ==
            if text.Failed? then Err(text.error) else if ro.Failed? then Err(ro.error) else if rw.Failed? then Err(rw.error)
            else if HashMatches(codec, h.text, text.bytes) && HashMatches(codec, h.ro, ro.bytes)
                    && HashMatches(codec, h.rw, rw.bytes) then Ok
            else Err(InvalidNso)
  {
    ZstdIsUnused(codec, file, h.text, mapSize - h.text.dstOffset);
    ZstdIsUnused(codec, file, h.ro, mapSize - h.ro.dstOffset);
    ZstdIsUnused(codec, file, h.rw, mapSize - h.rw.dstOffset);
  }

  lemma ZstdIsUnused(codec: Codec, file: File, s: SegmentInfo, capacity: nat)
    ensures SegmentBytes(codec, file, s, false, capacity) == SegmentBytes(codec, file, s, false, 0)
  {
  }

  /** What 1.10 reports: each segment's hash comes before the next segment. */
  lemma EarlyStatus(codec: Codec, file: File, h: NsoHeader, text: Loaded, ro: Loaded, rw: Loaded)
    requires h.WellPlaced()
    requires text == SegmentBytes(codec, file, h.text, false, 0) && ro == SegmentBytes(codec, file, h.ro, false, 0)
    requires rw == SegmentBytes(codec, file, h.rw, false, 0)
    ensures StatusOf(SparseModuleImage(codec, file, h)) ==
            if text.Failed? then Err(text.error) else if !HashMatches(codec, h.text, text.bytes) then Err(InvalidNso)
            else if ro.Failed? then Err(ro.error) else if !HashMatches(codec, h.ro, ro.bytes) then Err(InvalidNso)
            else if rw.Failed? then Err(rw.error) else if !HashMatches(codec, h.rw, rw.bytes) then Err(InvalidNso)
            else Ok
  {
  }

  /** Then 1.11 reports the read error, and 1.10 the invalid module. */
  lemma ErrorsDiffer(codec: Codec, file: File, h: NsoHeader, nsoSize: nat, mapSize: nat)
    requires h.WellPlaced() && h.Span() <= nsoSize <= mapSize
    requires !h.useZbic && WrongHashBeforeUnreadable(codec, file, h)
    ensures StatusOf(ModuleImage(codec, file, h, nsoSize, mapSize)) == Err(ReadFailed)
    ensures StatusOf(SparseModuleImage(codec, file, h)) == Err(InvalidNso)
  {
    assert SegmentBytes(codec, file, h.text, false, 0) == SegmentBytes(codec, file, h.text, h.useZbic, mapSize - h.text.dstOffset);
    assert SegmentBytes(codec, file, h.ro, false, 0) == SegmentBytes(codec, file, h.ro, h.useZbic, mapSize - h.ro.dstOffset);
    assert SegmentBytes(codec, file, h.rw, false, 0) == SegmentBytes(codec, file, h.rw, h.useZbic, mapSize - h.rw.dstOffset);
  }

  /** Whatever the hash function, there are such a file and header. */
  lemma ErrorsCanDiffer(codec: Codec) returns (file: File, h: NsoHeader)
    ensures h.WellPlaced() && !h.useZbic && WrongHashBeforeUnreadable(codec, file, h)
  {
    var text := NO_SEGMENT.(checkHash := true, hash := codec.sha256([]) + [0]);
    var unreadable := NO_SEGMENT.(fileOffset := 1);
    h := NsoHeader(text, unreadable, NO_SEGMENT, 0, false, false);
    file := File(Whole(h), []);
    assert SegmentBytes(codec, file, text, false, 0) == Bytes([]);
    assert |codec.sha256([])| != |text.hash|;
    assert SegmentBytes(codec, file, unreadable, false, 0) == Failed(ReadFailed);
  }

  /** When a segment loads and what it then is.  Its sizes fit and the file reaches to its end; without compression it is
      the bytes of the file, else what the decompressor chosen by `zstd` gives, if that is as long as the segment. */
  lemma SegmentLoadsExactly(codec: Codec, file: File, s: SegmentInfo, zstd: bool, capacity: nat, out: seq<Byte>)
    ensures SegmentBytes(codec, file, s, zstd, capacity) == Bytes(out) <==>
            var n := if s.compressed then s.compressedSize else s.size;
            && n <= s.size <= 0x7FFF_FFFF && s.fileOffset + n <= |file.data| && |out| == s.size
            && var stored := file.data[s.fileOffset..s.fileOffset + n];
               if !s.compressed then out == stored
               else if zstd then codec.zstd(stored, capacity, s.size) == Some(out)
               else codec.lz4(stored, s.size) == Some(out)
  {
  }

  /** Why a segment does not load: only an offset behind the end of the file is a read error. */
  lemma SegmentFailsExactly(codec: Codec, file: File, s: SegmentInfo, zstd: bool, capacity: nat)
    ensures var n := if s.compressed then s.compressedSize else s.size;
            SegmentBytes(codec, file, s, zstd, capacity) == Failed(ReadFailed)
            <==> n <= s.size <= 0x7FFF_FFFF && s.fileOffset > |file.data|
    ensures SegmentBytes(codec, file, s, zstd, capacity).Failed? ==>
              SegmentBytes(codec, file, s, zstd, capacity).error == ReadFailed
              || SegmentBytes(codec, file, s, zstd, capacity).error == InvalidNso
  {
  }

  /** The image of 1.11, segment by segment: each is decompressed as the header says, with room up to the end of the
      mapping, and each that asks for it has the hash of the header. */
  lemma ModuleLoadsExactly(codec: Codec, file: File, h: NsoHeader, nsoSize: nat, mapSize: nat,
                           text: seq<Byte>, ro: seq<Byte>, rw: seq<Byte>)
    requires h.WellPlaced() && h.Span() <= nsoSize <= mapSize
    requires |text| == h.text.size && |ro| == h.ro.size && |rw| == h.rw.size
    requires SegmentBytes(codec, file, h.text, h.useZbic, mapSize) == Bytes(text)
    requires SegmentBytes(codec, file, h.ro, h.useZbic, mapSize - h.ro.dstOffset) == Bytes(ro)
    requires SegmentBytes(codec, file, h.rw, h.useZbic, mapSize - h.rw.dstOffset) == Bytes(rw)
    ensures ModuleImage(codec, file, h, nsoSize, mapSize) ==
            if (h.text.checkHash && codec.sha256(text) != h.text.hash) || (h.ro.checkHash && codec.sha256(ro) != h.ro.hash)
               || (h.rw.checkHash && codec.sha256(rw) != h.rw.hash)
            then Failed(InvalidNso) else Bytes(Image(h, text, ro, rw, nsoSize))
  {
  }

  /** Otherwise there is no image: the first segment that does not load decides. */
  lemma ModuleFailsExactly(codec: Codec, file: File, h: NsoHeader, nsoSize: nat, mapSize: nat)
    requires h.WellPlaced() && h.Span() <= nsoSize <= mapSize
    ensures var text := SegmentBytes(codec, file, h.text, h.useZbic, mapSize);
            var ro := SegmentBytes(codec, file, h.ro, h.useZbic, mapSize - h.ro.dstOffset);
            var rw := SegmentBytes(codec, file, h.rw, h.useZbic, mapSize - h.rw.dstOffset);
            && (text.Failed? ==> ModuleImage(codec, file, h, nsoSize, mapSize) == text)
            && (text.Bytes? && ro.Failed? ==> ModuleImage(codec, file, h, nsoSize, mapSize) == ro)
            && (text.Bytes? && ro.Bytes? && rw.Failed? ==> ModuleImage(codec, file, h, nsoSize, mapSize) == rw)
  {
  }

  /** The image of 1.10, where every segment is taken for LZ4. */
  lemma SparseModuleLoadsExactly(codec: Codec, file: File, h: NsoHeader, text: seq<Byte>, ro: seq<Byte>, rw: seq<Byte>)
    requires h.WellPlaced()
    requires |text| == h.text.size && |ro| == h.ro.size && |rw| == h.rw.size
    requires SegmentBytes(codec, file, h.text, false, 0) == Bytes(text)
    requires SegmentBytes(codec, file, h.ro, false, 0) == Bytes(ro)
    requires SegmentBytes(codec, file, h.rw, false, 0) == Bytes(rw)
    ensures SparseModuleImage(codec, file, h) ==
            if (h.text.checkHash && codec.sha256(text) != h.text.hash) || (h.ro.checkHash && codec.sha256(ro) != h.ro.hash)
               || (h.rw.checkHash && codec.sha256(rw) != h.rw.hash)
            then Failed(InvalidNso) else Bytes(Image(h, text, ro, rw, h.rw.dstOffset + h.rw.size + h.bssSize))
  {
  }
}
