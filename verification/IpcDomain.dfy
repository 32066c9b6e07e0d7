/** The domain layer: a message whose payload starts with a domain header and ends with a list of object ids.
    The list stands right behind the payload, at whatever byte that is, so its words may straddle the words of the message. */
module IpcDomain {
  import opened Common
  import opened IpcFormat
  import opened IpcMessage
  import opened IpcParsing

  const SEND_MESSAGE: Word := 1
  const CLOSE: Word := 2
  const DOMAIN_HEADER_SIZE: nat := 16
  /** ipcParseDomainRequest refuses lists that reach this far into the thread-local area. */
  const DOMAIN_LIMIT: nat := 0x100
  /** How far the domain header can be from the start of the area, in words, its own four included. */
  const DOMAIN_REACH: nat := 207

  datatype DomainError = UnknownType | TooManyObjectIds

  datatype DomainRequest =
    | Request(message: Parsed, isClose: bool, thisObjectId: Word, objectIds: seq<Word>)
    | Refused(error: DomainError)

  // ---- Words at any byte ----

  /** The word that starts `k` bytes into `lo` and goes on in `hi`. */
  function Join(lo: Word, hi: Word, k: nat): Word {
    if k == 0 then lo
    else if k == 1 then (lo >> 8) | (hi << 24)
    else if k == 2 then (lo >> 16) | (hi << 16)
    else (lo >> 24) | (hi << 8)
  }

  /** The two parts of `v` when it is stored there. */
  function PutLow(lo: Word, v: Word, k: nat): Word {
    if k == 0 then v
    else if k == 1 then (lo & 0xFF) | (v << 8)
    else if k == 2 then (lo & 0xFFFF) | (v << 16)
    else (lo & 0xFF_FFFF) | (v << 24)
  }

  function PutHigh(hi: Word, v: Word, k: nat): Word {
    if k == 0 then hi
    else if k == 1 then (hi & 0xFFFF_FF00) | (v >> 24)
    else if k == 2 then (hi & 0xFFFF_0000) | (v >> 16)
    else (hi & 0xFF00_0000) | (v >> 8)
  }

  lemma PutThenJoin(lo: Word, hi: Word, v: Word, k: nat)
    requires k <= 3
    ensures Join(PutLow(lo, v, k), PutHigh(hi, v, k), k) == v
  {
    if k == 1 {
      OneByteIn(lo, hi, v);
    } else if k == 2 {
      TwoBytesIn(lo, hi, v);
    } else if k == 3 {
      ThreeBytesIn(lo, hi, v);
    }
  }

  // The same with the shifts spelt out: what was put is read, and the next word's low part is not part of it.

  lemma OneByteIn(lo: Word, hi: Word, v: Word)
    ensures (((lo & 0xFF) | (v << 8)) >> 8) | (((hi & 0xFFFF_FF00) | (v >> 24)) << 24) == v
    ensures ((hi & 0xFF) | (v << 8)) << 24 == hi << 24
  {
  }

  lemma TwoBytesIn(lo: Word, hi: Word, v: Word)
    ensures (((lo & 0xFFFF) | (v << 16)) >> 16) | (((hi & 0xFFFF_0000) | (v >> 16)) << 16) == v
    ensures ((hi & 0xFFFF) | (v << 16)) << 16 == hi << 16
  {
  }

  lemma ThreeBytesIn(lo: Word, hi: Word, v: Word)
    ensures (((lo & 0xFF_FFFF) | (v << 24)) >> 24) | (((hi & 0xFF00_0000) | (v >> 8)) << 8) == v
    ensures ((hi & 0xFF_FFFF) | (v << 24)) << 8 == hi << 8
  {
  }

  /** The next word's low part does not disturb this one. */
  lemma PutLowKeeps(lo: Word, hi: Word, v: Word, k: nat)
    requires 0 < k <= 3
    ensures Join(lo, PutLow(hi, v, k), k) == Join(lo, hi, k)
  {
    if k == 1 {
      OneByteIn(lo, hi, v);
    } else if k == 2 {
      TwoBytesIn(lo, hi, v);
    } else {
      ThreeBytesIn(lo, hi, v);
    }
  }

  function WordAt(w: seq<Word>, byte: nat): Word
    requires byte + 4 <= 4 * |w|
  {
    Join(w[byte / 4], if byte % 4 == 0 then 0 else w[byte / 4 + 1], byte % 4)
  }

  function Stored(w: seq<Word>, byte: nat, v: Word): (x: seq<Word>)
    requires byte + 4 <= 4 * |w|
    ensures |x| == |w|
  {
    var k := byte / 4;
    if byte % 4 == 0 then w[k := v] else w[k := PutLow(w[k], v, byte % 4)][k + 1 := PutHigh(w[k + 1], v, byte % 4)]
  }

  /** The first `n` ids stand from byte `at` on. */
  ghost predicate IdsUpTo(w: seq<Word>, at: nat, ids: seq<Word>, n: nat) {
    && n <= |ids| && at + 4 * n <= 4 * |w|
    && forall i {:trigger ids[i]} | 0 <= i < n :: WordAt(w, at + 4 * i) == ids[i]
  }

  lemma StoreIsRead(w: seq<Word>, byte: nat, v: Word)
    requires byte + 4 <= 4 * |w|
    ensures WordAt(Stored(w, byte, v), byte) == v
  {
    if byte % 4 != 0 { PutThenJoin(w[byte / 4], w[byte / 4 + 1], v, byte % 4); }
  }

  lemma StoreKeepsEarlier(w: seq<Word>, earlier: nat, byte: nat, v: Word)
    requires earlier < byte && earlier % 4 == byte % 4 && byte + 4 <= 4 * |w|
    ensures WordAt(Stored(w, byte, v), earlier) == WordAt(w, earlier)
  {
    if byte % 4 != 0 { PutLowKeeps(w[earlier / 4], w[earlier / 4 + 1], v, byte % 4); }
  }

  lemma EarlierIdStays(v: seq<Word>, w: seq<Word>, at: nat, i: nat, n: nat, id: Word)
    requires i < n && at + 4 * n + 4 <= 4 * |v| && w == Stored(v, at + 4 * n, id)
    ensures WordAt(w, at + 4 * i) == WordAt(v, at + 4 * i)
  {
    StoreKeepsEarlier(v, at + 4 * i, at + 4 * n, id);
  }

  lemma IdIsRead(v: seq<Word>, w: seq<Word>, byte: nat, id: Word)
    requires byte + 4 <= 4 * |v| && w == Stored(v, byte, id)
    ensures WordAt(w, byte) == id
  {
    StoreIsRead(v, byte, id);
  }

  lemma IdsStep(v: seq<Word>, w: seq<Word>, at: nat, ids: seq<Word>, n: nat, id: Word)
    requires IdsUpTo(v, at, ids, n) && n < |ids| && ids[n] == id && at + 4 * n + 4 <= 4 * |v|
    requires w == Stored(v, at + 4 * n, id)
    ensures IdsUpTo(w, at, ids, n + 1)
  {
    forall i {:trigger ids[i]} | 0 <= i < n + 1
      ensures WordAt(w, at + 4 * i) == ids[i]
    {
      if i < n {
        EarlierIdStays(v, w, at, i, n, id);
      } else {
        IdIsRead(v, w, at + 4 * n, id);
      }
    }
  }

  // ---- Bytes that are left alone ----

  function ByteOf(w: Word, j: nat): Word {
    if j == 0 then w & 0xFF else if j == 1 then (w >> 8) & 0xFF else if j == 2 then (w >> 16) & 0xFF else w >> 24
  }

  function ByteAt(w: seq<Word>, b: nat): Word
    requires b < 4 * |w|
  {
    ByteOf(w[b / 4], b % 4)
  }

  /** `v` and `w` differ at most in the bytes first..end. */
  ghost predicate SameOutsideBytes(v: seq<Word>, w: seq<Word>, first: nat, end: nat) {
    |v| == |w| && forall b: nat | b < 4 * |v| && !(first <= b < end) :: ByteAt(w, b) == ByteAt(v, b)
  }

  lemma PutLowKeepsByte(lo: Word, v: Word, k: nat, j: nat)
    requires j < k <= 3
    ensures ByteOf(PutLow(lo, v, k), j) == ByteOf(lo, j)
  {
    if k == 1 {
      LowByteStays(lo, v << 8);
    } else if k == 2 {
      LowBytesStay(lo, v << 16);
    } else {
      LowThreeStay(lo, v << 24);
    }
  }

  lemma LowByteStays(lo: Word, v: Word)
    requires v & 0xFF == 0
    ensures ((lo & 0xFF) | v) & 0xFF == lo & 0xFF
  {
  }

  lemma LowBytesStay(lo: Word, v: Word)
    requires v & 0xFFFF == 0
    ensures ((lo & 0xFFFF) | v) & 0xFF == lo & 0xFF
    ensures (((lo & 0xFFFF) | v) >> 8) & 0xFF == (lo >> 8) & 0xFF
  {
  }

  lemma LowThreeStay(lo: Word, v: Word)
    requires v & 0xFF_FFFF == 0
    ensures ((lo & 0xFF_FFFF) | v) & 0xFF == lo & 0xFF
    ensures (((lo & 0xFF_FFFF) | v) >> 8) & 0xFF == (lo >> 8) & 0xFF
    ensures (((lo & 0xFF_FFFF) | v) >> 16) & 0xFF == (lo >> 16) & 0xFF
  {
  }

  lemma PutHighKeepsByte(hi: Word, v: Word, k: nat, j: nat)
    requires 0 < k <= j <= 3
    ensures ByteOf(PutHigh(hi, v, k), j) == ByteOf(hi, j)
  {
    if k == 1 {
      HighThreeStay(hi, v >> 24);
    } else if k == 2 {
      HighBytesStay(hi, v >> 16);
    } else {
      HighByteStays(hi, v >> 8);
    }
  }

  lemma HighThreeStay(hi: Word, v: Word)
    requires v <= 0xFF
    ensures (((hi & 0xFFFF_FF00) | v) >> 8) & 0xFF == (hi >> 8) & 0xFF
    ensures (((hi & 0xFFFF_FF00) | v) >> 16) & 0xFF == (hi >> 16) & 0xFF
    ensures ((hi & 0xFFFF_FF00) | v) >> 24 == hi >> 24
  {
  }

  lemma HighBytesStay(hi: Word, v: Word)
    requires v <= 0xFFFF
    ensures (((hi & 0xFFFF_0000) | v) >> 16) & 0xFF == (hi >> 16) & 0xFF
    ensures ((hi & 0xFFFF_0000) | v) >> 24 == hi >> 24
  {
  }

  lemma HighByteStays(hi: Word, v: Word)
    requires v <= 0xFF_FFFF
    ensures ((hi & 0xFF00_0000) | v) >> 24 == hi >> 24
  {
  }

  /** Storing a word changes its own four bytes only. */
  lemma StoreKeepsByte(w: seq<Word>, byte: nat, v: Word, b: nat)
    requires byte + 4 <= 4 * |w| && b < 4 * |w| && !(byte <= b < byte + 4)
    ensures ByteAt(Stored(w, byte, v), b) == ByteAt(w, b)
  {
    if byte % 4 != 0 {
      if b / 4 == byte / 4 {
        PutLowKeepsByte(w[byte / 4], v, byte % 4, b % 4);
      } else if b / 4 == byte / 4 + 1 {
        PutHighKeepsByte(w[byte / 4 + 1], v, byte % 4, b % 4);
      }
    }
  }

  /** Those four are the bytes of the word, lowest first, and they are what is read from there. */
  lemma WordAtBytes(w: seq<Word>, byte: nat, j: nat)
    requires byte + 4 <= 4 * |w| && j <= 3
    ensures ByteOf(WordAt(w, byte), j) == ByteAt(w, byte + j)
  {
    if byte % 4 != 0 { JoinBytes(w[byte / 4], w[byte / 4 + 1], byte % 4, j); }
  }

  lemma JoinBytes(lo: Word, hi: Word, k: nat, j: nat)
    requires 0 < k <= 3 && j <= 3
    ensures ByteOf(Join(lo, hi, k), j) == if k + j <= 3 then ByteOf(lo, k + j) else ByteOf(hi, k + j - 4)
  {
    if k == 1 {
      JoinBytes1(lo, hi);
    } else if k == 2 {
      JoinBytes2(lo, hi);
    } else {
      JoinBytes3(lo, hi);
    }
  }

  lemma JoinBytes1(lo: Word, hi: Word)
    ensures var w := (lo >> 8) | (hi << 24);
            && w & 0xFF == (lo >> 8) & 0xFF && (w >> 8) & 0xFF == (lo >> 16) & 0xFF
            && (w >> 16) & 0xFF == lo >> 24 && w >> 24 == hi & 0xFF
  {
  }

  lemma JoinBytes2(lo: Word, hi: Word)
    ensures var w := (lo >> 16) | (hi << 16);
            && w & 0xFF == (lo >> 16) & 0xFF && (w >> 8) & 0xFF == lo >> 24
            && (w >> 16) & 0xFF == hi & 0xFF && w >> 24 == (hi >> 8) & 0xFF
  {
  }

  lemma JoinBytes3(lo: Word, hi: Word)
    ensures var w := (lo >> 24) | (hi << 8);
            && w & 0xFF == lo >> 24 && (w >> 8) & 0xFF == hi & 0xFF
            && (w >> 16) & 0xFF == (hi >> 8) & 0xFF && w >> 24 == (hi >> 16) & 0xFF
  {
  }

  lemma StoreKeepsOthers(u: seq<Word>, v: seq<Word>, w: seq<Word>, first: nat, byte: nat, id: Word)
    requires SameOutsideBytes(u, v, first, byte) && first <= byte && byte + 4 <= 4 * |v| && w == Stored(v, byte, id)
    ensures SameOutsideBytes(u, w, first, byte + 4)
  {
    forall b: nat | b < 4 * |u| && !(first <= b < byte + 4)
      ensures ByteAt(w, b) == ByteAt(u, b)
    {
      StoreKeepsByte(v, byte, id, b);
    }
  }

  lemma StoreStaysInside(u: seq<Word>, v: seq<Word>, w: seq<Word>, byte: nat, id: Word, lo: nat, hi: nat)
    requires SameOutside(u, v, lo, hi) && byte + 4 <= 4 * |v| && 4 * lo <= byte && byte + 4 <= 4 * hi
    requires w == Stored(v, byte, id)
    ensures SameOutside(u, w, lo, hi)
  {
  }

  // ---- The domain header ----

  function HeaderWord(numObjectIds: nat, sizeofRaw: nat): Word {
    SEND_MESSAGE | (WordOf(numObjectIds) << 8) | (WordOf(sizeofRaw) << 16)
  }

  function MessageType(header: Word): Word { header & 0xFF }

  function NumObjectIds(header: Word): nat { NumberOf((header >> 8) & 0xFF) }

  function PayloadLength(header: Word): nat { NumberOf(header >> 16) }

  lemma HeaderBits(n: Word, size: Word)
    requires n <= 15
    ensures var w := SEND_MESSAGE | (n << 8) | (size << 16); w & 0xFF == SEND_MESSAGE && (w >> 8) & 0xFF == n && w >> 16 == size & 0xFFFF
  {
  }

  /** Type and count are read back from the domain header whatever the payload, its length exactly when it has 16 bits. */
  lemma HeaderReadBack(n: nat, size: nat)
    requires n < 16
    ensures var h := HeaderWord(n, size);
            MessageType(h) == 1 && NumObjectIds(h) == n && (PayloadLength(h) == size <==> size < 0x1_0000)
  {
    var h := HeaderWord(n, size);
    NumberOfWord(n, 16, 0x10);
    HeaderBits(WordOf(n), WordOf(size));
    LengthReadBack(h, size);
  }

  lemma LengthReadBack(h: Word, size: nat)
    requires h >> 16 == WordOf(size) & 0xFFFF
    ensures PayloadLength(h) == size <==> size < 0x1_0000
  {
    NumberBounded(h >> 16, 0x1_0000, 0x1_0000);
    if size < 0x1_0000 {
      NumberOfWord(size, 0x1_0000, 0x1_0000);
      SixteenBits(WordOf(size));
    }
  }

  lemma SixteenBits(w: Word)
    requires w < 0x1_0000
    ensures w & 0xFFFF == w
  {
  }

  // ---- What a finished domain message looks like ----

  /** The bytes behind the descriptors: header, payload, ids. */
  function DomainSize(c: Command, sizeofRaw: nat): nat { sizeofRaw + DOMAIN_HEADER_SIZE + 4 * |c.objectIds| }

  /** The byte, from the start of the area, at which the ids stand. */
  function IdsAt(raw: nat, sizeofRaw: nat): nat { 4 * raw + DOMAIN_HEADER_SIZE + sizeofRaw }

  ghost predicate DomainPartsWritten(c: Command, sizeofRaw: nat, objectId: Word, w: seq<Word>, raw: nat) {
    && raw + 4 <= |w|
    && w[raw] == HeaderWord(|c.objectIds|, sizeofRaw) && w[raw + 1] == objectId && w[raw + 2] == 0 && w[raw + 3] == 0
    && IdsUpTo(w, IdsAt(raw, sizeofRaw), c.objectIds, |c.objectIds|)
  }

  ghost predicate DomainPrepared(c: Command, sizeofRaw: nat, objectId: Word, w: seq<Word>, raw: nat) {
    Prepared(c, DomainSize(c, sizeofRaw), w) && DomainPartsWritten(c, sizeofRaw, objectId, w, raw)
  }

  lemma DomainPartsAre(c: Command, sizeofRaw: nat, objectId: Word, w: seq<Word>, raw: nat, i: nat)
    requires DomainPrepared(c, sizeofRaw, objectId, w, raw) && i < |c.objectIds|
    ensures w[raw + 1] == objectId && w[raw + 2] == 0 && w[raw + 3] == 0
    ensures IdsAt(raw, sizeofRaw) + 4 * i + 4 <= 4 * |w| && WordAt(w, 4 * raw + 16 + sizeofRaw + 4 * i) == c.objectIds[i]
  {
    assert WordAt(w, IdsAt(raw, sizeofRaw) + 4 * i) == c.objectIds[i];
  }

  /** The payload, its padding and the ids all end before the table of receive sizes. */
  lemma DomainPartsFit(c: Command, sizeofRaw: nat, raw: nat, base: nat)
    requires raw == c.RawAt(base)
    ensures c.DescriptorsEnd() <= raw && IdsAt(raw, sizeofRaw) + 4 * |c.objectIds| <= 4 * c.TableAt(DomainSize(c, sizeofRaw))
    ensures c.TableAt(DomainSize(c, sizeofRaw)) <= c.Length(DomainSize(c, sizeofRaw))
  {
  }

  // ---- Writing ----

  method StoreWord(tls: array<Word>, byte: nat, v: Word)
    requires byte + 4 <= 4 * tls.Length
    modifies tls
    ensures tls[..] == Stored(old(tls[..]), byte, v)
  {
    var k := byte / 4;
    if byte % 4 == 0 {
      tls[k] := v;
    } else {
      tls[k] := PutLow(tls[k], v, byte % 4);
      tls[k + 1] := PutHigh(tls[k + 1], v, byte % 4);
    }
  }

  method WriteIds(cmd: IpcCommand, tls: array<Word>, at: nat, ghost ids: seq<Word>, ghost lo: nat, ghost hi: nat)
    requires cmd.Valid() && cmd.Apart(tls) && ids == cmd.objectIds[..cmd.numObjectIds]
    requires 4 * lo <= at && at + 4 * |ids| <= 4 * hi && hi <= tls.Length
    modifies tls
    ensures IdsUpTo(tls[..], at, ids, |ids|)
    ensures SameOutsideBytes(old(tls[..]), tls[..], at, at + 4 * |ids|)
    ensures SameOutside(old(tls[..]), tls[..], lo, hi)
  {
    ghost var u := tls[..];
    var i := 0;
    while i < cmd.numObjectIds
      invariant i <= |ids|
      invariant IdsUpTo(tls[..], at, ids, i)
      invariant SameOutsideBytes(u, tls[..], at, at + 4 * i)
      invariant SameOutside(u, tls[..], lo, hi)
    {
      assert ids[i] == cmd.objectIds[i];
      WriteId(tls, at, i, cmd.objectIds[i], ids, u, lo, hi);
      i := i + 1;
    }
  }

  method WriteId(tls: array<Word>, at: nat, i: nat, id: Word, ghost ids: seq<Word>, ghost u: seq<Word>,
                 ghost lo: nat, ghost hi: nat)
    requires i < |ids| && ids[i] == id && 4 * lo <= at && at + 4 * |ids| <= 4 * hi && hi <= tls.Length
    requires IdsUpTo(tls[..], at, ids, i) && SameOutsideBytes(u, tls[..], at, at + 4 * i) && SameOutside(u, tls[..], lo, hi)
    modifies tls
    ensures IdsUpTo(tls[..], at, ids, i + 1)
    ensures SameOutsideBytes(u, tls[..], at, at + 4 * i + 4)
    ensures SameOutside(u, tls[..], lo, hi)
  {
    ghost var v := tls[..];
    StoreWord(tls, at + 4 * i, id);
    IdsStep(v, tls[..], at, ids, i, id);
    StoreKeepsOthers(u, v, tls[..], at, at + 4 * i, id);
    StoreStaysInside(u, v, tls[..], at + 4 * i, id, lo, hi);
  }

  method WriteDomainHeader(tls: array<Word>, raw: nat, header: Word, objectId: Word)
    requires raw + 4 <= tls.Length
    modifies tls
    ensures tls[raw] == header && tls[raw + 1] == objectId && tls[raw + 2] == 0 && tls[raw + 3] == 0
    ensures SameOutside(old(tls[..]), tls[..], raw, raw + 4)
  {
    tls[raw], tls[raw + 1], tls[raw + 2], tls[raw + 3] := header, objectId, 0, 0;
  }

  /** The header and the ids; every other byte stays, and every word outside `raw` and `hi`. */
  method WriteDomainParts(cmd: IpcCommand, tls: array<Word>, raw: nat, sizeofRaw: nat, objectId: Word, ghost ids: seq<Word>,
                          ghost hi: nat)
    requires cmd.Valid() && cmd.Apart(tls) && ids == cmd.objectIds[..cmd.numObjectIds]
    requires IdsAt(raw, sizeofRaw) + 4 * |ids| <= 4 * hi && hi <= tls.Length
    modifies tls
    ensures tls[raw] == HeaderWord(|ids|, sizeofRaw) && tls[raw + 1] == objectId && tls[raw + 2] == 0 && tls[raw + 3] == 0
    ensures IdsUpTo(tls[..], IdsAt(raw, sizeofRaw), ids, |ids|)
    ensures OnlyDomainParts(old(tls[..]), tls[..], raw, IdsAt(raw, sizeofRaw), IdsAt(raw, sizeofRaw) + 4 * |ids|)
    ensures SameOutside(old(tls[..]), tls[..], raw, hi)
  {
    ghost var u := tls[..];
    WriteDomainHeader(tls, raw, HeaderWord(cmd.numObjectIds, sizeofRaw), objectId);
    ghost var v := tls[..];
    WriteIds(cmd, tls, IdsAt(raw, sizeofRaw), ids, raw + 4, hi);
    DomainPartsOnly(u, v, tls[..], raw, IdsAt(raw, sizeofRaw), IdsAt(raw, sizeofRaw) + 4 * |ids|);
  }

  /** `v` and `w` differ at most in the sixteen bytes of the header and in the bytes first..end of the ids. */
  ghost predicate OnlyDomainParts(v: seq<Word>, w: seq<Word>, raw: nat, first: nat, end: nat) {
    && |v| == |w|
    && forall b: nat | b < 4 * |v| && !(4 * raw <= b < 4 * raw + 16) && !(first <= b < end) :: ByteAt(w, b) == ByteAt(v, b)
  }

  lemma DomainPartsOnly(u: seq<Word>, v: seq<Word>, w: seq<Word>, raw: nat, first: nat, end: nat)
    requires SameOutside(u, v, raw, raw + 4) && SameOutsideBytes(v, w, first, end)
    ensures OnlyDomainParts(u, w, raw, first, end)
  {
    forall b: nat | b < 4 * |u| && !(4 * raw <= b < 4 * raw + 16) && !(first <= b < end)
      ensures ByteAt(w, b) == ByteAt(u, b)
    {
      SameByte(u, v, b);
    }
  }

  lemma SameByte(v: seq<Word>, w: seq<Word>, b: nat)
    requires b < 4 * |v| && |v| == |w| && v[b / 4] == w[b / 4]
    ensures ByteAt(v, b) == ByteAt(w, b)
  {
  }

  /** What a domain message leaves alone: of the bytes the message does not own, all but those of the header and the ids.
      The payload is among them. */
  ghost predicate RestKept(c: Command, sizeofRaw: nat, raw: nat, v: seq<Word>, w: seq<Word>) {
    && |v| == |w|
    && forall b: nat | b < 4 * |v| && Unowned(c, DomainSize(c, sizeofRaw), b / 4) && !(4 * raw <= b < 4 * raw + DOMAIN_HEADER_SIZE)
                       && !(IdsAt(raw, sizeofRaw) <= b < IdsAt(raw, sizeofRaw) + 4 * |c.objectIds|) ::
         ByteAt(w, b) == ByteAt(v, b)
  }

  lemma RestIsKept(c: Command, sizeofRaw: nat, raw: nat, u: seq<Word>, v: seq<Word>, w: seq<Word>)
    requires UnownedKept(c, DomainSize(c, sizeofRaw), u, v)
    requires OnlyDomainParts(v, w, raw, IdsAt(raw, sizeofRaw), IdsAt(raw, sizeofRaw) + 4 * |c.objectIds|)
    ensures RestKept(c, sizeofRaw, raw, u, w)
  {
    forall b: nat | b < 4 * |u| && Unowned(c, DomainSize(c, sizeofRaw), b / 4) && !(4 * raw <= b < 4 * raw + DOMAIN_HEADER_SIZE)
                    && !(IdsAt(raw, sizeofRaw) <= b < IdsAt(raw, sizeofRaw) + 4 * |c.objectIds|)
      ensures ByteAt(w, b) == ByteAt(u, b)
    {
      SameByte(u, v, b);
    }
  }

  /** In particular a payload that is there already stays, and so does what is behind the ids and behind the message. */
  lemma PayloadIsKept(c: Command, sizeofRaw: nat, base: nat, raw: nat, v: seq<Word>, w: seq<Word>, b: nat)
    requires RestKept(c, sizeofRaw, raw, v, w) && raw == c.RawAt(base)
    requires b < 4 * |v| && 4 * raw + 16 <= b
    requires var size, end := DomainSize(c, sizeofRaw), 4 * raw + 16 + sizeofRaw + 4 * |c.objectIds|;
             b < 4 * raw + 16 + sizeofRaw || end <= b < 4 * c.TableAt(size)
             || 4 * (c.RecvListAt(size) + 2 * |c.staticsOut|) <= b
    ensures ByteAt(w, b) == ByteAt(v, b)
  {
    DomainPartsFit(c, sizeofRaw, raw, base);
  }

  /** ipcPrepareHeaderForDomain. The header stands at word `raw`, the payload four words behind. */
  method PrepareHeaderForDomain(cmd: IpcCommand, tls: array<Word>, base: nat, sizeofRaw: nat, objectId: Word, ghost c: Command)
    returns (payload: nat)
    requires cmd.Valid() && cmd.Apart(tls) && base % 4 == 0
    requires c == cmd.View() && c.Length(DomainSize(c, sizeofRaw)) <= tls.Length
    modifies tls
    ensures payload == c.RawAt(base) + 4
    ensures DomainPrepared(c, sizeofRaw, objectId, tls[..], c.RawAt(base))
    ensures RestKept(c, sizeofRaw, c.RawAt(base), old(tls[..]), tls[..])
  {
    var size := sizeofRaw + DOMAIN_HEADER_SIZE + cmd.numObjectIds * 4;
    assert c.objectIds == cmd.objectIds[..cmd.numObjectIds];
    assert size == DomainSize(c, sizeofRaw);
    ghost var u := tls[..];
    var raw := cmd.PrepareHeader(tls, base, size, c);
    ghost var v := tls[..];
    FillDomainParts(cmd, tls, raw, sizeofRaw, size, objectId, c, base);
    RestIsKept(c, sizeofRaw, raw, u, v, tls[..]);
    return raw + 4;
  }

  method FillDomainParts(cmd: IpcCommand, tls: array<Word>, raw: nat, sizeofRaw: nat, ghost size: nat, objectId: Word,
                         ghost c: Command, ghost base: nat)
    requires cmd.Valid() && cmd.Apart(tls) && c.objectIds == cmd.objectIds[..cmd.numObjectIds]
    requires size == DomainSize(c, sizeofRaw) && Prepared(c, size, tls[..]) && raw == c.RawAt(base)
    modifies tls
    ensures DomainPrepared(c, sizeofRaw, objectId, tls[..], raw)
    ensures OnlyDomainParts(old(tls[..]), tls[..], raw, IdsAt(raw, sizeofRaw), IdsAt(raw, sizeofRaw) + 4 * |c.objectIds|)
  {
    ghost var u, hi := tls[..], c.TableAt(size);
    DomainPartsFit(c, sizeofRaw, raw, base);
    WriteDomainParts(cmd, tls, raw, sizeofRaw, objectId, c.objectIds, hi);
    PayloadIsFree(c, size, u, tls[..]);
  }

  // ---- Reading ----

  function IdsFrom(w: seq<Word>, at: nat, n: nat): (ids: seq<Word>)
    requires at + 4 * n <= 4 * |w|
    ensures |ids| == n && forall i | 0 <= i < n :: ids[i] == WordAt(w, at + 4 * i)
  {
    if n == 0 then [] else IdsFrom(w, at, n - 1) + [WordAt(w, at + 4 * (n - 1))]
  }

  /** What the domain header at word `raw` of the parsed message says. */
  ghost function RequestIn(w: seq<Word>, message: Parsed, raw: nat): DomainRequest
    requires |w| >= DOMAIN_REACH && raw + 4 <= |w|
  {
    var n := Min(NumObjectIds(w[raw]), IPC_MAX_OBJECTS);
    var at := IdsAt(raw, PayloadLength(w[raw]));
    if MessageType(w[raw]) != SEND_MESSAGE && MessageType(w[raw]) != CLOSE then Refused(UnknownType)
    else if at + 4 * n >= DOMAIN_LIMIT then Refused(TooManyObjectIds)
    else Request(message.(raw := message.raw + DOMAIN_HEADER_SIZE), MessageType(w[raw]) == CLOSE, w[raw + 1], IdsFrom(w, at, n))
  }

  /** Which headers are understood: 1 sends, 2 closes; lists of more than eight ids are cut to eight, and one that reaches
      byte 0x100 of the area is refused. */
  lemma RequestExactly(w: seq<Word>, message: Parsed, raw: nat)
    requires |w| >= DOMAIN_REACH && raw + 4 <= |w|
    ensures var t, r := w[raw] & 0xFF, RequestIn(w, message, raw);
            var count, length := NumberOf((w[raw] >> 8) & 0xFF), NumberOf(w[raw] >> 16);
            var n, at := if count < 8 then count else 8, 4 * raw + 16 + length;
            && (r == Refused(UnknownType) <==> t != 1 && t != 2)
            && (r == Refused(TooManyObjectIds) <==> (t == 1 || t == 2) && at + 4 * n >= 0x100)
            && (r.Request? ==>
                  && (r.isClose <==> t == 2) && r.thisObjectId == w[raw + 1] && r.message.raw == message.raw + 16
                  && |r.objectIds| == n && forall i | 0 <= i < n :: r.objectIds[i] == WordAt(w, at + 4 * i))
  {
  }

  method ReadIds(tls: array<Word>, at: nat, n: nat) returns (ids: seq<Word>)
    requires at + 4 * n <= 4 * tls.Length
    ensures ids == IdsFrom(tls[..], at, n)
  {
    ids := [];
    var i := 0;
    while i < n
      invariant i <= n && ids == IdsFrom(tls[..], at, i)
    {
      var k := (at + 4 * i) / 4;
      ids := ids + [Join(tls[k], if (at + 4 * i) % 4 == 0 then 0 else tls[k + 1], (at + 4 * i) % 4)];
      i := i + 1;
    }
  }

  method ReadRequest(tls: array<Word>, message: Parsed, raw: nat) returns (r: DomainRequest)
    requires tls.Length >= DOMAIN_REACH && raw + 4 <= tls.Length
    ensures r == RequestIn(tls[..], message, raw)
  {
    var header := tls[raw];
    if MessageType(header) != SEND_MESSAGE && MessageType(header) != CLOSE {
      return Refused(UnknownType);
    }
    var n := if NumObjectIds(header) > 8 then 8 else NumObjectIds(header);
    var at := IdsAt(raw, PayloadLength(header));
    if at + 4 * n >= DOMAIN_LIMIT {
      return Refused(TooManyObjectIds);
    }
    var ids := ReadIds(tls, at, n);
    r := Request(message.(raw := message.raw + DOMAIN_HEADER_SIZE), MessageType(header) == CLOSE, tls[raw + 1], ids);
  }

  /** However the counts of a message are chosen, its domain header lies within the reach. */
  lemma HeaderWithinReach(w: seq<Word>, base: nat)
    requires |w| >= DOMAIN_REACH && base % 4 == 0
    ensures base <= ParsedOf(w, base).raw && (ParsedOf(w, base).raw - base) / 4 + 4 <= DOMAIN_REACH
  {
    var p := PlanOf(w);
    assert p.buffersAt + 3 * p.buffers <= MESSAGE_REACH;
    RoundedBounds(p.End(base));
  }

  lemma RoundedBounds(address: nat)
    ensures address <= RoundUp16(address) <= address + 15
  {
  }

  /** What ipcParseDomainRequest makes of the words, whatever they are. */
  ghost function DomainRequestOf(w: seq<Word>, base: nat): DomainRequest
    requires |w| >= DOMAIN_REACH && base % 4 == 0
  {
    HeaderWithinReach(w, base);
    RequestIn(w, ParsedOf(w, base), (ParsedOf(w, base).raw - base) / 4)
  }

  method ParseDomainRequest(tls: array<Word>, base: nat) returns (r: DomainRequest)
    requires tls.Length >= DOMAIN_REACH && base % 4 == 0
    ensures r == DomainRequestOf(tls[..], base)
  {
    var m := Parse(tls, base);
    HeaderWithinReach(tls[..], base);
    var raw := (m.raw - base) / 4;
    r := ReadRequest(tls, m, raw);
  }

  // ---- The round trip ----

  lemma RequestReadBack(c: Command, sizeofRaw: nat, objectId: Word, w: seq<Word>, raw: nat, m: Parsed)
    requires |w| >= DOMAIN_REACH && |c.objectIds| <= IPC_MAX_OBJECTS && sizeofRaw < 0x1_0000
    requires DomainPartsWritten(c, sizeofRaw, objectId, w, raw)
    ensures RequestIn(w, m, raw) ==
            if IdsAt(raw, sizeofRaw) + 4 * |c.objectIds| < DOMAIN_LIMIT
            then Request(m.(raw := m.raw + DOMAIN_HEADER_SIZE), false, objectId, c.objectIds)
            else Refused(TooManyObjectIds)
  {
    HeaderReadBack(|c.objectIds|, sizeofRaw);
    assert IdsFrom(w, IdsAt(raw, sizeofRaw), |c.objectIds|) == c.objectIds;
  }

  lemma PlaceReadBack(c: Command, size: nat, w: seq<Word>, base: nat, raw: nat, m: Parsed)
    requires Prepared(c, size, w) && base % 4 == 0 && |w| >= PARSE_REACH && raw == c.RawAt(base) && m == ParsedOf(w, base)
    requires c.RawTotal(size) < 0x8000_0000
    ensures m.raw == base + 4 * raw
  {
    RoundTrip(c, size, w, base, m);
  }

  lemma TotalIsSmall(c: Command, sizeofRaw: nat, w: seq<Word>)
    requires Prepared(c, DomainSize(c, sizeofRaw), w) && sizeofRaw < 0x1_0000
    ensures |c.objectIds| <= IPC_MAX_OBJECTS && c.RawTotal(DomainSize(c, sizeofRaw)) < 0x8000_0000
  {
  }

  lemma RequestIsIn(w: seq<Word>, base: nat, raw: nat, m: Parsed)
    requires |w| >= DOMAIN_REACH && base % 4 == 0 && m == ParsedOf(w, base) && m.raw == base + 4 * raw && raw + 4 <= |w|
    ensures DomainRequestOf(w, base) == RequestIn(w, m, raw)
  {
    assert (m.raw - base) / 4 == raw;
  }

  /** A domain message is understood exactly when it ends below the limit; then its object id, its ids,
      its payload position and the whole message around it come back. */
  lemma DomainRoundTrip(c: Command, sizeofRaw: nat, objectId: Word, w: seq<Word>, base: nat, raw: nat, m: Parsed)
    requires DomainPrepared(c, sizeofRaw, objectId, w, raw) && base % 4 == 0 && raw == c.RawAt(base)
    requires |w| >= DOMAIN_REACH && m == ParsedOf(w, base) && sizeofRaw < 0x1_0000
    ensures m.raw == base + 4 * raw
    ensures DomainRequestOf(w, base) ==
            if 4 * raw + 16 + sizeofRaw + 4 * |c.objectIds| < 0x100
            then Request(m.(raw := m.raw + 16), false, objectId, c.objectIds)
            else Refused(TooManyObjectIds)
  {
    TotalIsSmall(c, sizeofRaw, w);
    PlaceReadBack(c, DomainSize(c, sizeofRaw), w, base, raw, m);
    RequestIsIn(w, base, raw, m);
    RequestReadBack(c, sizeofRaw, objectId, w, raw, m);
  }
}
