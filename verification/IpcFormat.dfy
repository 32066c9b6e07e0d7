/** The words of an IPC message: how each descriptor is packed, and where each part of a message lies.
    Words are bit-vectors, so packing and unpacking are the shifts and masks of the C code. */
module IpcFormat {

  const IPC_MAX_BUFFERS: nat := 8
  const IPC_MAX_OBJECTS: nat := 8
  const REQUEST: bv32 := 4

  type Word = bv32

  datatype BufferType = Normal | Type1 | Invalid | Type3
  datatype BufferDirection = Send | Recv | Exch

  datatype Buffer = Buffer(address: bv64, size: bv64, kind: BufferType) {
    /** Addresses of 40 bits and sizes of 32 are all a descriptor has room for. */
    predicate Fits() { address < 0x100_0000_0000 && size < 0x1_0000_0000 }
  }

  datatype Static = Static(address: bv64, size: bv64, index: bv8) {
    predicate Fits() { address < 0x100_0000_0000 && size < 0x1_0000 && index < 64 }
  }

  /** An IpcCommand as its six lists. */
  datatype Command = Command(
    sends: seq<Buffer>, recvs: seq<Buffer>, exchs: seq<Buffer>,
    staticsIn: seq<Static>, staticsOut: seq<Static>,
    sendPid: bool, copies: seq<Word>, moves: seq<Word>, objectIds: seq<Word>)
  {
    predicate WithinLimits() {
      && |sends| + |recvs| + |exchs| <= IPC_MAX_BUFFERS
      && |staticsIn| + |staticsOut| <= IPC_MAX_BUFFERS
      && |copies| + |moves| <= IPC_MAX_OBJECTS
      && |objectIds| <= IPC_MAX_OBJECTS
    }

    predicate Encodable() {
      && (forall i | 0 <= i < |staticsIn| :: staticsIn[i].Fits())
      && (forall i | 0 <= i < |Buffers()| :: Buffers()[i].Fits())
    }

    function Buffers(): seq<Buffer> { sends + recvs + exchs }
    function Handles(): seq<Word> { copies + moves }
    predicate HasSpecialHeader() { sendPid || |copies| > 0 || |moves| > 0 }

    // Word offsets of the parts of the message.
    function HandlesAt(): nat { if !HasSpecialHeader() then 2 else if sendPid then 5 else 3 }
    function StaticsAt(): nat { HandlesAt() + |Handles()| }
    function BuffersAt(): nat { StaticsAt() + 2 * |staticsIn| }
    function DescriptorsEnd(): nat { BuffersAt() + 3 * |Buffers()| }
    /** The raw size the header gives, in words. */
    function RawTotal(sizeofRaw: nat): nat { RawWords(sizeofRaw) + TableWords(|staticsOut|) }
    function RawAt(base: nat): nat { Aligned(DescriptorsEnd(), base) }
    function TableAt(sizeofRaw: nat): nat { DescriptorsEnd() + RawWords(sizeofRaw) }
    function RecvListAt(sizeofRaw: nat): nat { TableAt(sizeofRaw) + TableWords(|staticsOut|) }
    function Length(sizeofRaw: nat): nat { RecvListAt(sizeofRaw) + 2 * |staticsOut| }
  }

  /** Words from `address` up to the next multiple of 16. */
  function Padding(address: nat): (p: nat)
    ensures p <= 3
  {
    (16 - address % 16) % 16 / 4
  }

  /** The first word index from `at` on whose address is a multiple of 16. */
  function Aligned(at: nat, base: nat): nat { at + Padding(base + 4 * at) }

  function RawWords(sizeofRaw: nat): nat { sizeofRaw / 4 + 4 }

  function TableWords(n: nat): nat { (2 * n + 3) / 4 }

  function Low32(x: bv64): Word { (x & 0xFFFF_FFFF) as bv32 }

  function TypeBits(t: BufferType): (b: bv64)
    ensures b <= 3
  {
    match t case Normal => 0 case Type1 => 1 case Invalid => 2 case Type3 => 3
  }

  function TypeOfBits(b: bv64): BufferType {
    if b == 0 then Normal else if b == 1 then Type1 else if b == 2 then Invalid else Type3
  }

  function PackBuffer(b: Buffer): Word {
    Low32(TypeBits(b.kind) | (((b.address >> 32) & 15) << 28) | ((b.address >> 36) << 2))
  }

  function UnpackBuffer(size: Word, addr: Word, packed: Word): Buffer {
    var p := packed as bv64;
    Buffer(addr as bv64 | ((p >> 28) << 32) | (((p >> 2) & 15) << 36), size as bv64, TypeOfBits(p & 3))
  }

  function PackStatic(s: Static): Word {
    Low32(s.index as bv64 | (s.size << 16) | (((s.address >> 32) & 15) << 12) | (((s.address >> 36) & 15) << 6))
  }

  function UnpackStatic(packed: Word, addr: Word): Static {
    var p := packed as bv64;
    Static(addr as bv64 | (((p >> 12) & 15) << 32) | (((p >> 6) & 15) << 36), p >> 16, (p & 63) as bv8)
  }

  function PackRecvStatic(s: Static): Word {
    Low32((s.address >> 32) | (s.size << 16))
  }

  /** A buffer descriptor is recovered exactly when the buffer fits. */
  lemma BufferRoundTrip(b: Buffer)
    ensures UnpackBuffer(Low32(b.size), Low32(b.address), PackBuffer(b)) == b <==> b.Fits()
  {
    BufferBits(b.address, b.size, b.kind);
  }

  lemma BufferBits(address: bv64, size: bv64, kind: BufferType)
    ensures var p := Low32(TypeBits(kind) | (((address >> 32) & 15) << 28) | ((address >> 36) << 2)) as bv64;
            && TypeOfBits(p & 3) == kind
            && (Low32(address) as bv64 | ((p >> 28) << 32) | (((p >> 2) & 15) << 36) == address <==> address < 0x100_0000_0000)
            && (Low32(size) as bv64 == size <==> size < 0x1_0000_0000)
  {
  }

  /** So is a send-static descriptor. */
  lemma StaticRoundTrip(s: Static)
    ensures UnpackStatic(PackStatic(s), Low32(s.address)) == s <==> s.Fits()
  {
  }

  /** Where the third word of a buffer descriptor holds the type and the high address bits. */
  lemma BufferWordBits(b: Buffer)
    requires b.Fits()
    ensures var p := PackBuffer(b) as bv64;
            && p & 3 == (match b.kind case Normal => 0 case Type1 => 1 case Invalid => 2 case Type3 => 3)
            && p >> 28 == (b.address >> 32) & 15 && (p >> 2) & 0x3FF_FFFF == b.address >> 36
  {
  }

  /** Where the first word of a static descriptor holds index, size and the high address bits. */
  lemma StaticWordBits(s: Static)
    requires s.Fits()
    ensures var p := PackStatic(s) as bv64;
            && p & 63 == s.index as bv64 && p >> 16 == s.size
            && (p >> 12) & 15 == (s.address >> 32) & 15 && (p >> 6) & 15 == s.address >> 36
  {
  }

  /** What the receiver finds in the two words of a receive descriptor: the first word is the low half of the address, the
      low half of the second is bits 32 to 47, and the high half of the second is the size. */
  predicate RecvStaticFound(first: Word, second: Word, address: bv64, size: bv64) {
    (first as bv64 | (((second as bv64) & 0xFFFF) << 32)) == address && (second as bv64) >> 16 == size
  }

  /** It finds what was put in exactly when the address has 48 bits and the size 16. */
  lemma RecvStaticReadBack(s: Static)
    ensures RecvStaticFound(Low32(s.address), PackRecvStatic(s), s.address, s.size)
       <==> s.address < 0x1_0000_0000_0000 && s.size < 0x1_0000
  {
  }

  // ---- Counts as bits ----

  /** One more bit, at the low end. */
  function Appended(w: Word, bit: nat): Word { (w << 1) | (if bit == 1 then 1 else 0) }

  /** A count as a word, bit by bit. */
  function WordOf(n: nat): Word {
    if n == 0 then 0 else Appended(WordOf(n / 2), n % 2)
  }

  /** A word as a number. */
  function NumberOf(w: Word): nat {
    if w == 0 then 0 else 2 * NumberOf(w >> 1) + if w & 1 != 0 then 1 else 0
  }

  /** `high` marks the bits that no number below the power of two `m` needs. */
  predicate Room(m: nat, high: Word) {
    (m == 1 && high == 0xFFFF_FFFF) || (m > 1 && m % 2 == 0 && high & 1 == 0 && Room(m / 2, (high >> 1) | 0x8000_0000))
  }

  /** The widths of the fields that a number is put into. */
  predicate Width(m: nat, lim: Word) {
    || (m == 16 && lim == 0x10) || (m == 512 && lim == 0x200) || (m == 1024 && lim == 0x400)
    || (m == 0x1_0000 && lim == 0x1_0000) || (m == 0x4000_0000 && lim == 0x4000_0000)
    || (m == 0x8000_0000 && lim == 0x8000_0000)
  }

  function HighBits(lim: Word): Word {
    if lim == 0x10 then 0xFFFF_FFF0 else if lim == 0x200 then 0xFFFF_FE00 else if lim == 0x400 then 0xFFFF_FC00
    else if lim == 0x1_0000 then 0xFFFF_0000 else if lim == 0x4000_0000 then 0xC000_0000 else 0x8000_0000
  }

  lemma WidthsAreRooms(m: nat, lim: Word)
    requires Width(m, lim)
    ensures Room(m, HighBits(lim))
  {
    assert Room(0x1, 0xFFFFFFFF);
    assert Room(0x2, 0xFFFFFFFE);
    assert Room(0x4, 0xFFFFFFFC);
    assert Room(0x8, 0xFFFFFFF8);
    assert Room(0x10, 0xFFFFFFF0);
    assert Room(0x20, 0xFFFFFFE0);
    assert Room(0x40, 0xFFFFFFC0);
    assert Room(0x80, 0xFFFFFF80);
    assert Room(0x100, 0xFFFFFF00);
    assert Room(0x200, 0xFFFFFE00);
    assert Room(0x400, 0xFFFFFC00);
    assert Room(0x800, 0xFFFFF800);
    assert Room(0x1000, 0xFFFFF000);
    assert Room(0x2000, 0xFFFFE000);
    assert Room(0x4000, 0xFFFFC000);
    assert Room(0x8000, 0xFFFF8000);
    assert Room(0x10000, 0xFFFF0000);
    assert Room(0x20000, 0xFFFE0000);
    assert Room(0x40000, 0xFFFC0000);
    assert Room(0x80000, 0xFFF80000);
    assert Room(0x100000, 0xFFF00000);
    assert Room(0x200000, 0xFFE00000);
    assert Room(0x400000, 0xFFC00000);
    assert Room(0x800000, 0xFF800000);
    assert Room(0x1000000, 0xFF000000);
    assert Room(0x2000000, 0xFE000000);
    assert Room(0x4000000, 0xFC000000);
    assert Room(0x8000000, 0xF8000000);
    assert Room(0x10000000, 0xF0000000);
    assert Room(0x20000000, 0xE0000000);
    assert Room(0x40000000, 0xC0000000);
    assert Room(0x80000000, 0x80000000);
  }

  lemma NoHighBits(w: Word, m: nat, lim: Word)
    requires Width(m, lim)
    ensures w & HighBits(lim) == 0 <==> w < lim
  {
  }

  lemma AppendInRoom(w: Word, bit: nat, high: Word)
    requires w & ((high >> 1) | 0x8000_0000) == 0 && high & 1 == 0
    ensures Appended(w, bit) & high == 0
  {
  }

  lemma {:induction false} WordOfInRoom(n: nat, m: nat, high: Word)
    requires Room(m, high) && n < m
    ensures WordOf(n) & high == 0
    decreases m
  {
    if n > 0 {
      WordOfInRoom(n / 2, m / 2, (high >> 1) | 0x8000_0000);
      AppendInRoom(WordOf(n / 2), n % 2, high);
    }
  }

  lemma WordOfFits(n: nat, m: nat, lim: Word)
    requires Width(m, lim) && n < m
    ensures WordOf(n) < lim
  {
    WidthsAreRooms(m, lim);
    WordOfInRoom(n, m, HighBits(lim));
    NoHighBits(WordOf(n), m, lim);
  }

  lemma {:induction false} NumberOfSmallWord(n: nat)
    requires n < 0x8000_0000
    ensures NumberOf(WordOf(n)) == n
  {
    if n > 0 {
      NumberOfSmallWord(n / 2);
      WordOfFits(n / 2, 0x4000_0000, 0x4000_0000);
      OneMoreBit(WordOf(n / 2), n % 2, WordOf(n));
    }
  }

  lemma OneMoreBit(w: Word, bit: nat, v: Word)
    requires w < 0x4000_0000 && bit < 2 && v == Appended(w, bit)
    ensures NumberOf(v) == 2 * NumberOf(w) + bit
  {
    AppendedShifted(w, bit);
    AppendedLowBit(w, bit);
    NumberOfAppended(w, bit == 1, v);
  }

  /** Below 2^31 the two conversions are inverse. */
  lemma NumberOfWord(n: nat, m: nat, lim: Word)
    requires Width(m, lim) && n < m
    ensures WordOf(n) < lim && NumberOf(WordOf(n)) == n
  {
    WordOfFits(n, m, lim);
    NumberOfSmallWord(n);
  }

  lemma AppendedShifted(w: Word, bit: nat)
    requires w < 0x4000_0000
    ensures Appended(w, bit) >> 1 == w
  {
  }

  lemma AppendedLowBit(w: Word, bit: nat)
    ensures Appended(w, bit) & 1 != 0 <==> bit == 1
  {
  }

  lemma NumberOfAppended(w: Word, b: bool, v: Word)
    requires v >> 1 == w && (v & 1 != 0 <==> b)
    ensures NumberOf(v) == 2 * NumberOf(w) + if b then 1 else 0
  {
    if v == 0 { assert w == 0 && !b; }
  }

  lemma {:induction false} NumberInRoom(w: Word, m: nat, high: Word)
    requires Room(m, high) && w & high == 0
    ensures NumberOf(w) < m
    decreases m
  {
    if w != 0 {
      HalfInRoom(w, high);
      NumberInRoom(w >> 1, m / 2, (high >> 1) | 0x8000_0000);
    }
  }

  lemma HalfInRoom(w: Word, high: Word)
    requires w & high == 0
    ensures (w >> 1) & ((high >> 1) | 0x8000_0000) == 0
  {
  }

  lemma NumberBounded(w: Word, m: nat, lim: Word)
    requires Width(m, lim) && w < lim
    ensures NumberOf(w) < m
  {
    WidthsAreRooms(m, lim);
    NoHighBits(w, m, lim);
    NumberInRoom(w, m, HighBits(lim));
  }

  /** The number in the four low bits of a word. */
  function Field(w: Word): (n: nat)
    ensures n < 16
  {
    NumberBounded(w & 15, 16, 0x10);
    NumberOf(w & 15)
  }

  /** A field that holds the bits of a small number holds that number. */
  lemma FieldIs(w: Word, n: nat)
    requires n < 16 && w & 15 == WordOf(n)
    ensures Field(w) == n
  {
    NumberOfWord(n, 16, 0x10);
  }

  // ---- The three control words ----

  function Control0(statics: nat, sends: nat, recvs: nat, exchs: nat): Word
    requires statics < 16 && sends < 16 && recvs < 16 && exchs < 16
  {
    REQUEST | (WordOf(statics) << 16) | (WordOf(sends) << 20) | (WordOf(recvs) << 24) | (WordOf(exchs) << 28)
  }

  /** The raw size is put in as it is: from 512 on it reaches the other fields. */
  function Control1(staticsOut: nat, special: bool, rawSize: nat): Word
    requires staticsOut < 14
  {
    WithSize(Control1WithoutSize(staticsOut, special), WordOf(rawSize))
  }

  function Control2(sendPid: bool, copies: nat, moves: nat): Word
    requires copies < 16 && moves < 16
  {
    (if sendPid then 1 else 0) | (WordOf(copies) << 1) | (WordOf(moves) << 5)
  }

  // Reading the control words back, field by field.

  function CommandTypeOf(ctrl0: Word): Word { ctrl0 & 0xFFFF }

  function NumStatics(ctrl0: Word): (n: nat)
    ensures n < 16
  {
    Field(ctrl0 >> 16)
  }

  function NumSends(ctrl0: Word): (n: nat)
    ensures n < 16
  {
    Field(ctrl0 >> 20)
  }

  function NumRecvs(ctrl0: Word): (n: nat)
    ensures n < 16
  {
    Field(ctrl0 >> 24)
  }

  function NumExchs(ctrl0: Word): (n: nat)
    ensures n < 16
  {
    Field(ctrl0 >> 28)
  }

  predicate Special(ctrl1: Word) { ctrl1 & 0x8000_0000 != 0 }

  function StaticsOutCode(ctrl1: Word): nat { Field(ctrl1 >> 10) }

  /** 0 and 1 stand for themselves, 2 for one descriptor, 3 and more for two less. */
  function StaticsOutOf(v: nat): nat { if v < 2 then v else if v == 2 then 1 else v - 2 }

  function RawSizeWords(ctrl1: Word): nat { NumberOf(ctrl1 & 0x1FF) }

  predicate HasPid(ctrl2: Word) { ctrl2 & 1 != 0 }

  function NumCopies(ctrl2: Word): (n: nat)
    ensures n < 16
  {
    Field(ctrl2 >> 1)
  }

  function NumMoves(ctrl2: Word): (n: nat)
    ensures n < 16
  {
    Field(ctrl2 >> 5)
  }

  lemma CountBits(statics: nat, sends: nat, recvs: nat, exchs: nat)
    requires statics < 16 && sends < 16 && recvs < 16 && exchs < 16
    ensures var w := Control0(statics, sends, recvs, exchs);
            && w & 0xFFFF == 4 && (w >> 16) & 15 == WordOf(statics) && (w >> 20) & 15 == WordOf(sends)
            && (w >> 24) & 15 == WordOf(recvs) && (w >> 28) & 15 == WordOf(exchs)
  {
    NumberOfWord(statics, 16, 0x10);
    NumberOfWord(sends, 16, 0x10);
    NumberOfWord(recvs, 16, 0x10);
    NumberOfWord(exchs, 16, 0x10);
    Control0Bits(WordOf(statics), WordOf(sends), WordOf(recvs), WordOf(exchs));
  }

  lemma StaticsFieldIs(w: Word, n: nat)
    requires n < 16 && (w >> 16) & 15 == WordOf(n)
    ensures NumStatics(w) == n
  {
    FieldIs(w >> 16, n);
  }

  lemma StaticsField(statics: nat, sends: nat, recvs: nat, exchs: nat)
    requires statics < 16 && sends < 16 && recvs < 16 && exchs < 16
    ensures NumStatics(Control0(statics, sends, recvs, exchs)) == statics
  {
    CountBits(statics, sends, recvs, exchs);
    StaticsFieldIs(Control0(statics, sends, recvs, exchs), statics);
  }

  lemma SendsFieldIs(w: Word, n: nat)
    requires n < 16 && (w >> 20) & 15 == WordOf(n)
    ensures NumSends(w) == n
  {
    FieldIs(w >> 20, n);
  }

  lemma SendsField(statics: nat, sends: nat, recvs: nat, exchs: nat)
    requires statics < 16 && sends < 16 && recvs < 16 && exchs < 16
    ensures NumSends(Control0(statics, sends, recvs, exchs)) == sends
  {
    CountBits(statics, sends, recvs, exchs);
    SendsFieldIs(Control0(statics, sends, recvs, exchs), sends);
  }

  lemma RecvsFieldIs(w: Word, n: nat)
    requires n < 16 && (w >> 24) & 15 == WordOf(n)
    ensures NumRecvs(w) == n
  {
    FieldIs(w >> 24, n);
  }

  lemma RecvsField(statics: nat, sends: nat, recvs: nat, exchs: nat)
    requires statics < 16 && sends < 16 && recvs < 16 && exchs < 16
    ensures NumRecvs(Control0(statics, sends, recvs, exchs)) == recvs
  {
    CountBits(statics, sends, recvs, exchs);
    RecvsFieldIs(Control0(statics, sends, recvs, exchs), recvs);
  }

  lemma ExchsFieldIs(w: Word, n: nat)
    requires n < 16 && (w >> 28) & 15 == WordOf(n)
    ensures NumExchs(w) == n
  {
    FieldIs(w >> 28, n);
  }

  lemma ExchsField(statics: nat, sends: nat, recvs: nat, exchs: nat)
    requires statics < 16 && sends < 16 && recvs < 16 && exchs < 16
    ensures NumExchs(Control0(statics, sends, recvs, exchs)) == exchs
  {
    CountBits(statics, sends, recvs, exchs);
    ExchsFieldIs(Control0(statics, sends, recvs, exchs), exchs);
  }

  lemma Control0Bits(a: Word, b: Word, c: Word, d: Word)
    requires a <= 15 && b <= 15 && c <= 15 && d <= 15
    ensures var w := REQUEST | (a << 16) | (b << 20) | (c << 24) | (d << 28);
            w & 0xFFFF == REQUEST && (w >> 16) & 15 == a && (w >> 20) & 15 == b && (w >> 24) & 15 == c && (w >> 28) & 15 == d
  {
  }

  function CountField(n: Word): Word { n << 10 }

  function Marked(count: Word, mark: Word): Word { count | mark }

  function WithSize(ctrl1: Word, rawSize: Word): Word { ctrl1 | rawSize }

  function SpecialMark(special: bool): Word { if special then 0x8000_0000 else 0 }

  /** The second control word is built in steps; its raw size is filled in last. */
  function Control1WithoutSize(staticsOut: nat, special: bool): Word
    requires staticsOut < 14
  {
    Marked(StaticsOutCount(staticsOut), SpecialMark(special))
  }

  function StaticsOutCount(staticsOut: nat): Word
    requires staticsOut < 14
  {
    if staticsOut > 0 then CountField(WordOf(staticsOut + 2)) else 0
  }

  lemma CountFieldIs(staticsOut: nat)
    requires staticsOut < 14
    ensures StaticsOutCount(staticsOut) == CountField(StaticsOutBits(staticsOut))
  {
  }

  /** The bits that the count of receive statics is stored in. */
  function StaticsOutBits(staticsOut: nat): Word
    requires staticsOut < 14
  {
    WordOf(if staticsOut > 0 then staticsOut + 2 else 0)
  }

  /** The bits of a raw size that reach that field. */
  function Overflow(rawSize: nat): Word { (WordOf(rawSize) >> 10) & 15 }

  /** A raw size leaves the count as it is. */
  predicate NoneAdded(staticsOut: nat, rawSize: nat)
    requires staticsOut < 14
  {
    StaticsOutBits(staticsOut) | Overflow(rawSize) == StaticsOutBits(staticsOut)
  }

  /** The three fields of the second control word, as bits, whatever the raw size. */
  lemma Control1Parts(staticsOut: nat, special: bool, rawSize: nat)
    requires staticsOut < 14
    ensures Control1(staticsOut, special, rawSize) & 0x1FF == WordOf(rawSize) & 0x1FF
    ensures (Control1(staticsOut, special, rawSize) >> 10) & 15 == StaticsOutBits(staticsOut) | Overflow(rawSize)
    ensures WordOf(rawSize) < 0x8000_0000 ==> (Special(Control1(staticsOut, special, rawSize)) <==> special)
  {
    var n := if staticsOut > 0 then staticsOut + 2 else 0;
    NumberOfWord(n, 16, 0x10);
    CountFieldIs(staticsOut);
    FieldsOf(WordOf(n), special, WordOf(rawSize), Control1(staticsOut, special, rawSize));
  }

  /** The same with every bit named, for a raw size that leaves bit 31 alone. */
  lemma Control1Bits(staticsOut: nat, special: bool, rawSize: nat)
    requires staticsOut < 14 && rawSize < 0x8000_0000
    ensures var w := Control1(staticsOut, special, rawSize);
            && w & 0x1FF == WordOf(rawSize) & 0x1FF
            && (w >> 10) & 15 == WordOf(if staticsOut > 0 then staticsOut + 2 else 0) | ((WordOf(rawSize) >> 10) & 15)
            && (w & 0x8000_0000 != 0 <==> special)
  {
    NumberOfWord(rawSize, 0x8000_0000, 0x8000_0000);
    Control1Parts(staticsOut, special, rawSize);
  }

  lemma FieldsOf(n: Word, special: bool, raw: Word, w: Word)
    requires n <= 15 && w == WithSize(Marked(CountField(n), SpecialMark(special)), raw)
    ensures w & 0x1FF == raw & 0x1FF && (w >> 10) & 15 == n | ((raw >> 10) & 15)
    ensures raw < 0x8000_0000 ==> (w & 0x8000_0000 != 0 <==> special)
  {
    RawBits(n, special, raw);
    CountBitsStay(n, special, raw);
    if raw < 0x8000_0000 { SpecialStays(n, special, raw); }
  }

  lemma RawBits(n: Word, special: bool, raw: Word)
    requires n <= 15
    ensures (CountField(n) | SpecialMark(special) | raw) & 0x1FF == raw & 0x1FF
  {
  }

  lemma CountBitsStay(n: Word, special: bool, raw: Word)
    requires n <= 15
    ensures ((CountField(n) | SpecialMark(special) | raw) >> 10) & 15 == n | ((raw >> 10) & 15)
  {
  }

  lemma SpecialStays(n: Word, special: bool, raw: Word)
    requires n <= 15 && raw < 0x8000_0000
    ensures (CountField(n) | SpecialMark(special) | raw) & 0x8000_0000 != 0 <==> special
  {
  }

  /** The raw size is read back exactly when it has at most nine bits. */
  lemma RawSizeField(staticsOut: nat, special: bool, rawSize: nat)
    requires staticsOut < 14
    ensures RawSizeWords(Control1(staticsOut, special, rawSize)) == rawSize <==> rawSize < 512
  {
    var w := Control1(staticsOut, special, rawSize);
    Control1Parts(staticsOut, special, rawSize);
    NumberBounded(w & 0x1FF, 512, 0x200);
    if rawSize < 512 {
      NumberOfWord(rawSize, 512, 0x200);
      NineBits(WordOf(rawSize));
    }
  }

  lemma NineBits(w: Word)
    requires w < 0x200
    ensures w & 0x1FF == w
  {
  }

  /** The count of receive statics is read back exactly when the raw size adds no bit to its field. */
  lemma StaticsOutField(staticsOut: nat, special: bool, rawSize: nat)
    requires staticsOut < 14
    ensures StaticsOutOf(StaticsOutCode(Control1(staticsOut, special, rawSize))) == staticsOut
       <==> NoneAdded(staticsOut, rawSize)
  {
    var n := if staticsOut > 0 then staticsOut + 2 else 0;
    var v := StaticsOutBits(staticsOut) | Overflow(rawSize);
    Control1Parts(staticsOut, special, rawSize);
    NumberOfWord(n, 16, 0x10);
    CodeIsExact(staticsOut, WordOf(n), v, Overflow(rawSize));
  }

  /** No code but its own stands for a count, if all bits of its own code are there. */
  lemma CodeIsExact(staticsOut: nat, own: Word, v: Word, more: Word)
    requires staticsOut < 14 && own == WordOf(if staticsOut > 0 then staticsOut + 2 else 0) && own <= 15
    requires NumberOf(own) == (if staticsOut > 0 then staticsOut + 2 else 0) && v == own | more && v <= 15
    ensures StaticsOutOf(NumberOf(v)) == staticsOut <==> v == own
  {
    SmallNumber(own);
    SmallNumber(v);
  }

  /** The sixteen small words, one by one. */
  lemma SmallNumber(w: Word)
    requires w <= 15
    ensures NumberOf(w) == w as nat
  {
    if w > 0 {
      SmallNumber(w >> 1);
    }
  }

  /** Below 1024 words it never does. */
  lemma NoOverflow(rawSize: nat)
    requires rawSize < 1024
    ensures Overflow(rawSize) == 0
  {
    NumberOfWord(rawSize, 1024, 0x400);
    NoBitsFrom10(WordOf(rawSize));
  }

  lemma NoBitsFrom10(w: Word)
    requires w < 0x400
    ensures (w >> 10) & 15 == 0
  {
  }

  lemma SpecialBit(staticsOut: nat, special: bool, rawSize: nat)
    requires staticsOut < 14 && rawSize < 0x8000_0000
    ensures Special(Control1(staticsOut, special, rawSize)) <==> special
  {
    NumberOfWord(rawSize, 0x8000_0000, 0x8000_0000);
    Control1Parts(staticsOut, special, rawSize);
  }

  lemma Control2Fields(sendPid: bool, copies: nat, moves: nat)
    requires copies < 16 && moves < 16
    ensures var w := Control2(sendPid, copies, moves);
            (w & 1 != 0 <==> sendPid) && (w >> 1) & 15 == WordOf(copies) && (w >> 5) & 15 == WordOf(moves)
    ensures var w := Control2(sendPid, copies, moves); HasPid(w) == sendPid && NumCopies(w) == copies && NumMoves(w) == moves
  {
    NumberOfWord(copies, 16, 0x10);
    NumberOfWord(moves, 16, 0x10);
    Control2Bits(sendPid, WordOf(copies), WordOf(moves));
    FieldIs(Control2(sendPid, copies, moves) >> 1, copies);
    FieldIs(Control2(sendPid, copies, moves) >> 5, moves);
  }

  lemma Control2Bits(pid: bool, a: Word, b: Word)
    requires a <= 15 && b <= 15
    ensures var w := (if pid then 1 else 0) | (a << 1) | (b << 5);
            (w & 1 != 0 <==> pid) && (w >> 1) & 15 == a && (w >> 5) & 15 == b
  {
  }
}
