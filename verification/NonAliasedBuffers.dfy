/** TinyMemBench's allocator of four buffers whose addresses never agree modulo 1 MiB. */
module NonAliasedBuffers {
  import opened Common

  const ALIGN_PADDING: nat := 0x10_0000
  const PATTERN_MASK: bv32 := (0x10_0000 - 1) & !(128 - 1)

  const INT_LIMIT: nat := 0x8000_0000
  const UINT_LIMIT: nat := 0x1_0000_0000
  const SIZE_LIMIT: nat := 0x1_0000_0000_0000_0000

  type int32 = x: int | -0x8000_0000 <= x < 0x8000_0000

  /** A null out-pointer asks for nothing; a negative size counts as 0. */
  datatype Request = Absent | Wanted(size: int32) {
    function Size(): nat { if Absent? || size < 0 then 0 else size }
  }

  /** The alternating bit patterns that tell the buffers apart. */
  function Pattern(i: nat): bv32 {
    if i == 0 then 0xAAAA_AAAA else if i == 1 then 0x5555_5555 else if i == 2 then 0xCCCC_CCCC else 0x3333_3333
  }

  /** Where in its megabyte buffer i starts. */
  function Offset(i: nat): (n: nat)
    ensures n == if i == 0 then 0xA_AA80 else if i == 1 then 0x5_5500 else if i == 2 then 0xC_CC80 else 0x3_3300
  {
    (Pattern(i) & PATTERN_MASK) as nat
  }

  /** The next multiple of 1 MiB. */
  function AlignUp(p: nat): (q: nat)
    ensures q % ALIGN_PADDING == 0 && p <= q < p + ALIGN_PADDING
  {
    (p + ALIGN_PADDING - 1) / ALIGN_PADDING * ALIGN_PADDING
  }

  lemma OffsetIsResidue(ptr: nat, offset: nat)
    requires ptr % ALIGN_PADDING == 0 && offset < ALIGN_PADDING
    ensures (ptr + offset) % ALIGN_PADDING == offset
  {
  }

  /** The four offsets in turn; together they are less than 2 MiB. */
  method Offsets() returns (o: seq<nat>)
    ensures |o| == 4 && o[0] + o[1] + o[2] + o[3] < 2 * ALIGN_PADDING
    ensures forall i | 0 <= i < 4 :: o[i] == Offset(i) < ALIGN_PADDING
  {
    o := [Offset(0), Offset(1), Offset(2), Offset(3)];
  }

  method Place(ptr: nat, r: Request, offset: nat) returns (b: Option<nat>, next: nat)
    requires ptr % ALIGN_PADDING == 0 && offset < ALIGN_PADDING
    ensures Between(b, r, ptr, next)
    ensures b.Some? ==> b.value == ptr + offset && b.value % ALIGN_PADDING == offset
    ensures next % ALIGN_PADDING == 0 && next < ptr + offset + r.Size() + ALIGN_PADDING
  {
    if r.Wanted? {
      var start := ptr + offset;
      OffsetIsResidue(ptr, offset);
      return Some(start), AlignUp(start + r.Size());
    }
    return None, ptr;
  }

  /** Between `from` and `to` there is the buffer of one request, if it asks for any. */
  ghost predicate Between(b: Option<nat>, r: Request, from: nat, to: nat) {
    && from <= to && (b.Some? <==> r.Wanted?)
    && (b.Some? ==> from <= b.value && b.value + r.Size() <= to)
  }

  /** What the four buffers need: their sizes and nine times the padding; six would do. */
  function Needed(r: seq<Request>): nat
    requires |r| == 4
  {
    r[0].Size() + r[1].Size() + r[2].Size() + r[3].Size() + 9 * ALIGN_PADDING
  }

  /** A sum of `int`s, which wraps. */
  function IntOf(n: nat): (i: int32) {
    if n % UINT_LIMIT < INT_LIMIT then n % UINT_LIMIT else n % UINT_LIMIT - UINT_LIMIT
  }

  /** A negative `int` becomes a huge size_t. */
  function SizeOf(i: int32): nat {
    if i >= 0 then i else i + SIZE_LIMIT
  }

  /** What malloc is asked for. */
  function BlockSize(r: seq<Request>): nat
    requires |r| == 4
  {
    SizeOf(IntOf(Needed(r)))
  }

  lemma NeededBounded(r: seq<Request>)
    requires |r| == 4
    ensures Needed(r) < 4 * UINT_LIMIT
  {
  }

  lemma SumIsItselfExactly(n: nat)
    requires n < 4 * UINT_LIMIT
    ensures SizeOf(IntOf(n)) == n <==> n < INT_LIMIT
    ensures SizeOf(IntOf(n)) < INT_LIMIT <==> n % UINT_LIMIT < INT_LIMIT
  {
  }

  /** The block has the size that is needed exactly when that fits an `int`. */
  lemma BlockIsNeededExactly(r: seq<Request>)
    requires |r| == 4
    ensures BlockSize(r) == Needed(r) <==> Needed(r) < INT_LIMIT
  {
    NeededBounded(r);
    SumIsItselfExactly(Needed(r));
  }

  /** A null pointer and a negative size ask for nothing, any other size for itself. */
  lemma EachSizeCounts(size: int32)
    ensures Needed([Wanted(size), Absent, Absent, Absent]) == 9 * 0x10_0000 + if size < 0 then 0 else size
  {
  }

  /** One request of the largest size already makes the sum negative; four of them wrap all the way round, and malloc is
      asked for 9 MiB less four bytes. */
  lemma LargeSizesWrap()
    ensures BlockSize([Wanted(0x7FFF_FFFF), Absent, Absent, Absent]) == SIZE_LIMIT - 0x7F70_0001
    ensures var most := Wanted(0x7FFF_FFFF); BlockSize([most, most, most, most]) == 9 * ALIGN_PADDING - 4
  {
    assert IntOf(0x7FFF_FFFF + 9 * ALIGN_PADDING) == -0x7F70_0001;
    assert IntOf(4 * 0x7FFF_FFFF + 9 * ALIGN_PADDING) == 9 * ALIGN_PADDING - 4;
  }

  /** The buffers of `b`, for the requests `r`, that lie in order from `buf` on. */
  ghost predicate InOrder(b: seq<Option<nat>>, r: seq<Request>, buf: nat) {
    && |b| == |r| == 4
    && (forall i | 0 <= i < 4 :: b[i].Some? <==> r[i].Wanted?)
    && (forall i | 0 <= i < 4 && b[i].Some? :: buf <= b[i].value)
    && (forall i, k | 0 <= i < k < 4 && b[i].Some? && b[k].Some? :: b[i].value + r[i].Size() <= b[k].value)
  }

  ghost predicate EndBelow(b: seq<Option<nat>>, r: seq<Request>, end: nat) {
    |b| == |r| && forall i | 0 <= i < |b| && b[i].Some? :: b[i].value + r[i].Size() <= end
  }

  /** Buffers in order are together no longer than what they lie in. */
  lemma SizesFit(b: seq<Option<nat>>, r: seq<Request>, buf: nat, end: nat)
    requires InOrder(b, r, buf) && EndBelow(b, r, end) && buf <= end
    ensures buf + Needed(r) <= end + 9 * ALIGN_PADDING
  {
    var e0 := if b[0].Some? then b[0].value + r[0].Size() else buf;
    var e1 := if b[1].Some? then b[1].value + r[1].Size() else e0;
    var e2 := if b[2].Some? then b[2].value + r[2].Size() else e1;
    var e3 := if b[3].Some? then b[3].value + r[3].Size() else e2;
    assert buf + r[0].Size() <= e0;
    assert e0 + r[1].Size() <= e1;
    assert e1 + r[2].Size() <= e2;
    assert e2 + r[3].Size() <= e3 <= end;
  }

  /** The buffers lie in a block that malloc can have been asked for exactly when the sum does not wrap. */
  lemma InsideBlockExactly(b: seq<Option<nat>>, r: seq<Request>, buf: nat)
    requires InOrder(b, r, buf) && EndBelow(b, r, buf + Needed(r))
    ensures BlockSize(r) < INT_LIMIT && EndBelow(b, r, buf + BlockSize(r)) <==> Needed(r) < INT_LIMIT
  {
    BlockIsNeededExactly(r);
    NeededBounded(r);
    SumIsItselfExactly(Needed(r));
    if BlockSize(r) < INT_LIMIT && EndBelow(b, r, buf + BlockSize(r)) {
      SizesFit(b, r, buf, buf + BlockSize(r));
    }
  }

  lemma FourInOrder(b: seq<Option<nat>>, r: seq<Request>, buf: nat, p0: nat, p1: nat, p2: nat, p3: nat, end: nat)
    requires |b| == |r| == 4 && buf <= p0 && end <= buf + Needed(r) - 3 * ALIGN_PADDING
    requires Between(b[0], r[0], p0, p1) && Between(b[1], r[1], p1, p2)
    requires Between(b[2], r[2], p2, p3) && Between(b[3], r[3], p3, end)
    ensures InOrder(b, r, buf) && EndBelow(b, r, buf + Needed(r) - 3 * ALIGN_PADDING)
  {
  }

  lemma AddedUp(buf: nat, p0: nat, p1: nat, p2: nat, p3: nat, o0: nat, o1: nat, o2: nat, o3: nat, r: seq<Request>)
    requires |r| == 4 && p0 < buf + ALIGN_PADDING && o0 + o1 + o2 + o3 < 2 * ALIGN_PADDING
    requires p1 < p0 + o0 + r[0].Size() + ALIGN_PADDING && p2 < p1 + o1 + r[1].Size() + ALIGN_PADDING
    requires p3 < p2 + o2 + r[2].Size() + ALIGN_PADDING
    ensures p3 + o3 + r[3].Size() <= buf + Needed(r) - 3 * ALIGN_PADDING
  {
  }

  /** The block is at `buf`.  Buffers come in order, each at its own residue, and inside the block, with 3 MiB to spare,
      exactly when the size of the block does not wrap. */
  method AllocFour(buf: nat, r: seq<Request>) returns (b: seq<Option<nat>>)
    requires |r| == 4
    ensures InOrder(b, r, buf)
    ensures forall i | 0 <= i < 4 && b[i].Some? :: b[i].value % ALIGN_PADDING == Offset(i)
    ensures EndBelow(b, r, buf + Needed(r) - 3 * ALIGN_PADDING)
    ensures BlockSize(r) < INT_LIMIT && EndBelow(b, r, buf + BlockSize(r)) <==> Needed(r) < INT_LIMIT
  {
    var o := Offsets();
    var p0 := AlignUp(buf);
    var b0, p1 := Place(p0, r[0], o[0]);
    var b1, p2 := Place(p1, r[1], o[1]);
    var b2, p3 := Place(p2, r[2], o[2]);
    var b3, _ := Place(p3, r[3], o[3]);
    b := [b0, b1, b2, b3];
    ghost var end := p3 + o[3] + r[3].Size();
    assert end <= buf + Needed(r) - 3 * ALIGN_PADDING by {
      AddedUp(buf, p0, p1, p2, p3, o[0], o[1], o[2], o[3], r);
    }
    FourInOrder(b, r, buf, p0, p1, p2, p3, end);
    InsideBlockExactly(b, r, buf);
  }

  /** No byte of one buffer has the same address modulo 1 MiB as the byte at the same index of another. */
  lemma NeverAliased(a: nat, b: nat, i: nat, k: nat, n: nat)
    requires i < 4 && k < 4 && i != k && a % ALIGN_PADDING == Offset(i) && b % ALIGN_PADDING == Offset(k)
    ensures (a + n) % ALIGN_PADDING != (b + n) % ALIGN_PADDING
  {
  }
}
