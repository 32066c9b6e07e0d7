/** Parsing a message back: what the words of any thread-local area mean, the loop that reads them,
    and the round trip through PrepareHeader. */
module IpcParsing {
  import opened Common
  import opened IpcFormat
  import opened IpcMessage

  /** How far the lists that Parse keeps can reach, and how far the descriptors it skips can, in words. */
  const PARSE_REACH: nat := 89
  const MESSAGE_REACH: nat := 200

  /** IpcParsedCommand; the two payload positions are addresses. */
  datatype Parsed = Parsed(
    commandType: Word, hasPid: bool, pid: bv64, numStaticsOut: nat,
    handles: seq<Word>, wasCopied: seq<bool>, statics: seq<Static>,
    buffers: seq<Buffer>, directions: seq<BufferDirection>,
    raw: nat, rawWithoutPadding: nat, rawSize: nat)

  function StaticAt(w: seq<Word>, at: nat): Static
    requires at + 1 < |w|
  {
    UnpackStatic(w[at], w[at + 1])
  }

  function BufferAt(w: seq<Word>, at: nat): Buffer
    requires at + 2 < |w|
  {
    UnpackBuffer(w[at], w[at + 1], w[at + 2])
  }

  /** The first word-aligned address from `address` on that is a multiple of 16. */
  function RoundUp16(address: nat): (r: nat)
    ensures r % 16 == 0 && address <= r < address + 16
  {
    (address + 15) / 16 * 16
  }

  // ---- The lists of a message, one entry at a time ----

  function CopiedMarks(n: nat, copies: nat): (s: seq<bool>)
    ensures |s| == n && forall i | 0 <= i < n :: s[i] <==> i < copies
  {
    if n == 0 then [] else CopiedMarks(n - 1, copies) + [n - 1 < copies]
  }

  function StaticsAt(w: seq<Word>, at: nat, n: nat): (s: seq<Static>)
    requires at + 2 * n <= |w|
    ensures |s| == n && forall i | 0 <= i < n :: s[i] == StaticAt(w, at + 2 * i)
  {
    if n == 0 then [] else StaticsAt(w, at, n - 1) + [StaticAt(w, at + 2 * (n - 1))]
  }

  function BuffersAt(w: seq<Word>, at: nat, n: nat): (s: seq<Buffer>)
    requires at + 3 * n <= |w|
    ensures |s| == n && forall i | 0 <= i < n :: s[i] == BufferAt(w, at + 3 * i)
  {
    if n == 0 then [] else BuffersAt(w, at, n - 1) + [BufferAt(w, at + 3 * (n - 1))]
  }

  /** The buffers are sends, then receives, then exchanges. */
  function Directions(n: nat, sends: nat, recvs: nat): (s: seq<BufferDirection>)
    ensures |s| == n && forall i | 0 <= i < n :: s[i] == if i < sends then Send else if i < sends + recvs then Recv else Exch
  {
    if n == 0 then []
    else Directions(n - 1, sends, recvs) + [if n - 1 < sends then Send else if n - 1 < sends + recvs then Recv else Exch]
  }

  /** Where the lists of a message lie and how much of each is read. */
  datatype Plan = Plan(pid: bool, handlesAt: nat, handles: nat, copies: nat, staticsAt: nat, statics: nat,
                       buffersAt: nat, buffers: nat, sends: nat, recvs: nat, staticsOut: nat, rawSize: nat)
  {
    /** All of it is within the first `n` words. */
    predicate Fits(n: nat) {
      && handlesAt + handles <= n && staticsAt + 2 * statics <= n
      && buffersAt + 3 * Min(buffers, IPC_MAX_BUFFERS) <= n
    }

    /** The address behind the last buffer descriptor. */
    function End(base: nat): nat { base + 4 * (buffersAt + 3 * buffers) }
  }

  /** Where the handles start. */
  function FirstHandle(special: bool, pid: bool): nat { if !special then 2 else if pid then 5 else 3 }

  /** The plan that the counts of a header make. Lists longer than eight are cut, but still skipped in full. */
  function PlanFor(special: bool, pid: bool, copies: nat, moves: nat, statics: nat,
                   sends: nat, recvs: nat, exchs: nat, staticsOut: nat, rawSize: nat): (p: Plan)
    requires copies < 16 && moves < 16 && statics < 16 && sends < 16 && recvs < 16 && exchs < 16
    ensures p.Fits(PARSE_REACH) && p.buffersAt + 3 * p.buffers <= MESSAGE_REACH
  {
    var staticsAt := FirstHandle(special, pid) + copies + moves;
    Plan(pid, FirstHandle(special, pid), Min(copies + moves, IPC_MAX_OBJECTS), copies, staticsAt, Min(statics, IPC_MAX_BUFFERS),
         staticsAt + 2 * statics, sends + recvs + exchs, sends, recvs, staticsOut, rawSize)
  }

  function PlanOf(w: seq<Word>): (p: Plan)
    requires |w| >= PARSE_REACH
    ensures p.Fits(PARSE_REACH) && p.buffersAt + 3 * p.buffers <= MESSAGE_REACH
  {
    var special := Special(w[1]);
    PlanFor(special, special && HasPid(w[2]), if special then NumCopies(w[2]) else 0, if special then NumMoves(w[2]) else 0,
            NumStatics(w[0]), NumSends(w[0]), NumRecvs(w[0]), NumExchs(w[0]),
            StaticsOutOf(StaticsOutCode(w[1])), 4 * RawSizeWords(w[1]))
  }

  /** What a message says, read by a plan. */
  ghost function ReadBy(p: Plan, w: seq<Word>, base: nat): Parsed
    requires |w| >= PARSE_REACH && p.Fits(|w|)
  {
    var end := p.End(base);
    Parsed(
      CommandTypeOf(w[0]), p.pid, if p.pid then Wide(w[3], w[4]) else 0, p.staticsOut,
      w[p.handlesAt..p.handlesAt + p.handles], CopiedMarks(p.handles, p.copies), StaticsAt(w, p.staticsAt, p.statics),
      BuffersAt(w, p.buffersAt, Min(p.buffers, IPC_MAX_BUFFERS)), Directions(Min(p.buffers, IPC_MAX_BUFFERS), p.sends, p.recvs),
      RoundUp16(end), end, p.rawSize)
  }

  function Wide(low: Word, high: Word): bv64 { low as bv64 | ((high as bv64) << 32) }

  /** What ipcParse finds, whatever the words are. */
  ghost function ParsedOf(w: seq<Word>, base: nat): Parsed
    requires |w| >= PARSE_REACH
  {
    ReadBy(PlanOf(w), w, base)
  }

  // ---- The round trip ----

  /** A static read back from its descriptor is the static, exactly when it fits. */
  lemma StaticsReadBack(w: seq<Word>, at: nat, statics: seq<Static>)
    requires StaticsWritten(w, at, statics)
    ensures StaticsAt(w, at, |statics|) == statics <==> forall i | 0 <= i < |statics| :: statics[i].Fits()
  {
    var read := StaticsAt(w, at, |statics|);
    forall i | 0 <= i < |statics|
      ensures read[i] == statics[i] <==> statics[i].Fits()
    {
      StaticRoundTrip(statics[i]);
    }
  }

  lemma BuffersReadBack(w: seq<Word>, at: nat, buffers: seq<Buffer>)
    requires BuffersWritten(w, at, buffers)
    ensures BuffersAt(w, at, |buffers|) == buffers <==> forall i | 0 <= i < |buffers| :: buffers[i].Fits()
  {
    var read := BuffersAt(w, at, |buffers|);
    forall i | 0 <= i < |buffers|
      ensures read[i] == buffers[i] <==> buffers[i].Fits()
    {
      BufferRoundTrip(buffers[i]);
    }
  }

  /** The padding the writer adds ends where the reader rounds up to. */
  lemma PaddingRoundsUp(address: nat)
    requires address % 4 == 0
    ensures address + 4 * Padding(address) == RoundUp16(address)
  {
    var q, r := address / 16, address % 16;
    assert r == 0 || r == 4 || r == 8 || r == 12;
    assert (address + 15) / 16 == if r == 0 then q else q + 1;
  }

  /** The plan a command's message has to be read by, but for what the raw size may disturb. */
  function PlanOfCommand(c: Command, staticsOut: nat, rawSize: nat): (p: Plan)
    requires c.WithinLimits()
    ensures p.Fits(c.DescriptorsEnd())
  {
    Plan(c.sendPid, c.HandlesAt(), |c.Handles()|, |c.copies|, c.StaticsAt(), |c.staticsIn|,
         c.BuffersAt(), |c.Buffers()|, |c.sends|, |c.recvs|, staticsOut, rawSize)
  }

  lemma AlignedRoundsUp(at: nat, base: nat)
    requires base % 4 == 0
    ensures base + 4 * Aligned(at, base) == RoundUp16(base + 4 * at)
  {
    PaddingRoundsUp(base + 4 * at);
  }

  /** `r` is read by the command's own plan. */
  ghost predicate ReadByOwnPlan(c: Command, w: seq<Word>, base: nat, staticsOut: nat, rawSize: nat, r: Parsed) {
    && |w| >= PARSE_REACH && c.WithinLimits() && c.DescriptorsEnd() <= |w|
    && r == ReadBy(PlanOfCommand(c, staticsOut, rawSize), w, base)
  }

  // By that plan, the lists are read back.

  lemma HandlesReadBack(c: Command, w: seq<Word>, base: nat, staticsOut: nat, rawSize: nat, r: Parsed)
    requires ReadByOwnPlan(c, w, base, staticsOut, rawSize, r) && HandlesWritten(w, c.HandlesAt(), c.Handles())
    ensures r.handles == c.Handles() && r.wasCopied == CopiedMarks(|c.Handles()|, |c.copies|)
  {
  }

  lemma DescriptorsReadBack(c: Command, w: seq<Word>, base: nat, staticsOut: nat, rawSize: nat, r: Parsed)
    requires ReadByOwnPlan(c, w, base, staticsOut, rawSize, r)
    requires PartsWritten(w, c.HandlesAt(), c.Handles(), c.staticsIn, c.Buffers())
    ensures |r.statics| == |c.staticsIn| && |r.buffers| == |c.Buffers()|
    ensures r.statics == c.staticsIn && r.buffers == c.Buffers() <==> c.Encodable()
  {
    StaticsReadBack(w, c.StaticsAt(), c.staticsIn);
    BuffersReadBack(w, c.BuffersAt(), c.Buffers());
  }

  lemma PlacesReadBack(c: Command, w: seq<Word>, base: nat, staticsOut: nat, rawSize: nat, r: Parsed)
    requires ReadByOwnPlan(c, w, base, staticsOut, rawSize, r) && base % 4 == 0
    ensures r.raw == base + 4 * c.RawAt(base) && r.rawWithoutPadding == base + 4 * c.DescriptorsEnd()
  {
    EndReadBack(c, w, base, staticsOut, rawSize, r);
    AlignedRoundsUp(c.DescriptorsEnd(), base);
  }

  lemma EndReadBack(c: Command, w: seq<Word>, base: nat, staticsOut: nat, rawSize: nat, r: Parsed)
    requires ReadByOwnPlan(c, w, base, staticsOut, rawSize, r)
    ensures r.rawWithoutPadding == base + 4 * c.DescriptorsEnd() && r.raw == RoundUp16(r.rawWithoutPadding)
  {
  }

  lemma FieldsReadBack(c: Command, w: seq<Word>, base: nat, staticsOut: nat, rawSize: nat, r: Parsed)
    requires ReadByOwnPlan(c, w, base, staticsOut, rawSize, r)
    ensures r.commandType == CommandTypeOf(w[0]) && r.hasPid == c.sendPid && r.numStaticsOut == staticsOut && r.rawSize == rawSize
    ensures r.directions == Directions(|c.Buffers()|, |c.sends|, |c.recvs|)
  {
  }

  // The counts of each control word.

  lemma Counts0ReadBack(c: Command, sizeofRaw: nat, w: seq<Word>)
    requires Prepared(c, sizeofRaw, w)
    ensures NumStatics(w[0]) == |c.staticsIn| && NumSends(w[0]) == |c.sends|
    ensures NumRecvs(w[0]) == |c.recvs| && NumExchs(w[0]) == |c.exchs|
  {
    StaticsField(|c.staticsIn|, |c.sends|, |c.recvs|, |c.exchs|);
    SendsField(|c.staticsIn|, |c.sends|, |c.recvs|, |c.exchs|);
    RecvsField(|c.staticsIn|, |c.sends|, |c.recvs|, |c.exchs|);
    ExchsField(|c.staticsIn|, |c.sends|, |c.recvs|, |c.exchs|);
  }

  lemma SpecialReadBack(c: Command, sizeofRaw: nat, w: seq<Word>)
    requires Prepared(c, sizeofRaw, w) && c.RawTotal(sizeofRaw) < 0x8000_0000
    ensures Special(w[1]) == c.HasSpecialHeader()
  {
    SpecialBit(|c.staticsOut|, c.HasSpecialHeader(), c.RawTotal(sizeofRaw));
  }

  lemma Counts2ReadBack(c: Command, sizeofRaw: nat, w: seq<Word>)
    requires Prepared(c, sizeofRaw, w) && c.HasSpecialHeader()
    ensures HasPid(w[2]) == c.sendPid && NumCopies(w[2]) == |c.copies| && NumMoves(w[2]) == |c.moves|
  {
    Control2Fields(c.sendPid, |c.copies|, |c.moves|);
  }

  /** A header with the command's counts makes the command's plan. */
  lemma PlanForCommand(c: Command, staticsOut: nat, rawSize: nat)
    requires c.WithinLimits()
    ensures PlanFor(c.HasSpecialHeader(), c.sendPid, |c.copies|, |c.moves|, |c.staticsIn|,
                    |c.sends|, |c.recvs|, |c.exchs|, staticsOut, rawSize) == PlanOfCommand(c, staticsOut, rawSize)
  {
  }

  lemma PlanByCounts(w: seq<Word>, special: bool, pid: bool, copies: nat, moves: nat, statics: nat,
                     sends: nat, recvs: nat, exchs: nat, staticsOut: nat, rawSize: nat)
    requires |w| >= PARSE_REACH && copies < 16 && moves < 16 && statics < 16 && sends < 16 && recvs < 16 && exchs < 16
    requires NumStatics(w[0]) == statics && NumSends(w[0]) == sends && NumRecvs(w[0]) == recvs && NumExchs(w[0]) == exchs
    requires Special(w[1]) == special && StaticsOutOf(StaticsOutCode(w[1])) == staticsOut && 4 * RawSizeWords(w[1]) == rawSize
    requires if special then HasPid(w[2]) == pid && NumCopies(w[2]) == copies && NumMoves(w[2]) == moves
             else !pid && copies == moves == 0
    ensures PlanOf(w) == PlanFor(special, pid, copies, moves, statics, sends, recvs, exchs, staticsOut, rawSize)
  {
  }

  /** All the counts together.  The two that share a word with the raw size are whatever that word says. */
  lemma PlanReadBack(c: Command, sizeofRaw: nat, w: seq<Word>)
    requires Prepared(c, sizeofRaw, w) && |w| >= PARSE_REACH && c.RawTotal(sizeofRaw) < 0x8000_0000
    ensures PlanOf(w) == PlanOfCommand(c, StaticsOutOf(StaticsOutCode(w[1])), 4 * RawSizeWords(w[1]))
  {
    var staticsOut, rawSize := StaticsOutOf(StaticsOutCode(w[1])), 4 * RawSizeWords(w[1]);
    Counts0ReadBack(c, sizeofRaw, w);
    SpecialReadBack(c, sizeofRaw, w);
    if c.HasSpecialHeader() { Counts2ReadBack(c, sizeofRaw, w); }
    PlanForCommand(c, staticsOut, rawSize);
    PlanByCounts(w, c.HasSpecialHeader(), c.sendPid, |c.copies|, |c.moves|, |c.staticsIn|,
                 |c.sends|, |c.recvs|, |c.exchs|, staticsOut, rawSize);
  }

  lemma NothingAdded(code: Word, more: Word)
    requires more == 0
    ensures code | more == code
  {
  }

  lemma SizesAreParsed(w: seq<Word>, base: nat, r: Parsed)
    requires |w| >= PARSE_REACH && r == ParsedOf(w, base)
    ensures r.rawSize == 4 * RawSizeWords(w[1]) && r.numStaticsOut == StaticsOutOf(StaticsOutCode(w[1]))
  {
  }

  lemma SizeWord(staticsOut: nat, special: bool, total: nat, ctrl1: Word)
    requires staticsOut < 14 && ctrl1 == Control1(staticsOut, special, total)
    ensures RawSizeWords(ctrl1) == total <==> total < 512
    ensures StaticsOutOf(StaticsOutCode(ctrl1)) == staticsOut <==> NoneAdded(staticsOut, total)
    ensures total < 1024 ==> StaticsOutOf(StaticsOutCode(ctrl1)) == staticsOut
  {
    RawSizeField(staticsOut, special, total);
    StaticsOutField(staticsOut, special, total);
    if total < 1024 {
      NoOverflow(total);
      NothingAdded(StaticsOutBits(staticsOut), Overflow(total));
    }
  }

  /** The two counts in the word of the raw size: that size comes back exactly when it has nine bits, and the number of
      receive statics exactly when the size adds no bit to it, as it never does below 1024 words. */
  lemma SizesReadBack(c: Command, sizeofRaw: nat, w: seq<Word>, base: nat, r: Parsed)
    requires Prepared(c, sizeofRaw, w) && |w| >= PARSE_REACH && r == ParsedOf(w, base)
    ensures r.rawSize == 4 * c.RawTotal(sizeofRaw) <==> c.RawTotal(sizeofRaw) < 512
    ensures r.numStaticsOut == |c.staticsOut| <==> NoneAdded(|c.staticsOut|, c.RawTotal(sizeofRaw))
    ensures c.RawTotal(sizeofRaw) < 1024 ==> r.numStaticsOut == |c.staticsOut|
  {
    SizesAreParsed(w, base, r);
    SizeWord(|c.staticsOut|, c.HasSpecialHeader(), c.RawTotal(sizeofRaw), w[1]);
  }

  lemma RequestType(c: Command, sizeofRaw: nat, w: seq<Word>)
    requires Prepared(c, sizeofRaw, w)
    ensures CommandTypeOf(w[0]) == 4
  {
    CountBits(|c.staticsIn|, |c.sends|, |c.recvs|, |c.exchs|);
  }

  /** Whatever the command, its counts, handles, directions and payload position come back; its descriptors come back
      exactly when every one of them fits, and the raw size exactly when it is below 512 words. */
  lemma RoundTrip(c: Command, sizeofRaw: nat, w: seq<Word>, base: nat, r: Parsed)
    requires Prepared(c, sizeofRaw, w) && base % 4 == 0 && |w| >= PARSE_REACH && r == ParsedOf(w, base)
    requires c.RawTotal(sizeofRaw) < 0x8000_0000
    ensures r.commandType == 4 && r.hasPid == c.sendPid
    ensures r.handles == c.Handles() && r.wasCopied == CopiedMarks(|c.Handles()|, |c.copies|)
    ensures |r.statics| == |c.staticsIn| && |r.buffers| == |c.Buffers()|
    ensures r.directions == Directions(|c.Buffers()|, |c.sends|, |c.recvs|)
    ensures r.raw == base + 4 * c.RawAt(base) && r.rawWithoutPadding == base + 4 * c.DescriptorsEnd()
    ensures r.statics == c.staticsIn && r.buffers == c.Buffers() <==> c.Encodable()
    ensures r.rawSize == 4 * c.RawTotal(sizeofRaw) <==> c.RawTotal(sizeofRaw) < 512
    ensures c.RawTotal(sizeofRaw) < 1024 ==> r.numStaticsOut == |c.staticsOut|
  {
    var staticsOut, rawSize := StaticsOutOf(StaticsOutCode(w[1])), 4 * RawSizeWords(w[1]);
    PlanReadBack(c, sizeofRaw, w);
    RequestType(c, sizeofRaw, w);
    FieldsReadBack(c, w, base, staticsOut, rawSize, r);
    HandlesReadBack(c, w, base, staticsOut, rawSize, r);
    DescriptorsReadBack(c, w, base, staticsOut, rawSize, r);
    PlacesReadBack(c, w, base, staticsOut, rawSize, r);
    SizesReadBack(c, sizeofRaw, w, base, r);
  }

  /** The process id is two words, the low one first, and is there exactly when both marks are set. */
  lemma PidReadBack(w: seq<Word>, base: nat, r: Parsed)
    requires |w| >= PARSE_REACH && r == ParsedOf(w, base)
    ensures r.hasPid <==> w[1] & 0x8000_0000 != 0 && w[2] & 1 != 0
    ensures r.hasPid ==> IsPid(w[3], w[4], r.pid)
  {
    PidIsRead(w, base, r);
    WideIsPid(w[3], w[4]);
  }

  predicate IsPid(low: Word, high: Word, pid: bv64) { pid & 0xFFFF_FFFF == low as bv64 && pid >> 32 == high as bv64 }

  lemma PidIsWhole(low: Word, high: Word, pid: bv64)
    requires IsPid(low, high, pid)
    ensures pid == low as bv64 | ((high as bv64) << 32)
  {
  }

  lemma PidIsRead(w: seq<Word>, base: nat, r: Parsed)
    requires |w| >= PARSE_REACH && r == ParsedOf(w, base)
    ensures r.hasPid <==> w[1] & 0x8000_0000 != 0 && w[2] & 1 != 0
    ensures r.hasPid ==> r.pid == Wide(w[3], w[4])
  {
  }

  lemma WideIsPid(low: Word, high: Word)
    ensures IsPid(low, high, Wide(low, high))
  {
  }

  // ---- What any words mean, in masks and shifts ----

  lemma TypeAndSizeRead(w: seq<Word>, base: nat, r: Parsed)
    requires |w| >= PARSE_REACH && r == ParsedOf(w, base)
    ensures r.commandType == w[0] & 0xFFFF
    ensures r.rawSize == 4 * NumberOf(w[1] & 0x1FF)
  {
  }

  /** Lists longer than eight are cut to eight, but the next list starts behind the whole of them. */
  lemma ListsLie(w: seq<Word>, copies: nat, moves: nat, statics: nat)
    requires |w| >= PARSE_REACH
    requires copies == if w[1] & 0x8000_0000 != 0 then NumberOf((w[2] >> 1) & 15) else 0
    requires moves == if w[1] & 0x8000_0000 != 0 then NumberOf((w[2] >> 5) & 15) else 0
    requires statics == NumberOf((w[0] >> 16) & 15)
    ensures var p := PlanOf(w);
            && p.handlesAt == (if w[1] & 0x8000_0000 == 0 then 2 else if w[2] & 1 != 0 then 5 else 3)
            && p.handles == (if copies + moves < 8 then copies + moves else 8) && p.copies == copies
            && p.staticsAt == p.handlesAt + copies + moves && p.statics == (if statics < 8 then statics else 8)
            && p.buffersAt == p.staticsAt + 2 * statics
  {
  }

  lemma BuffersLie(w: seq<Word>)
    requires |w| >= PARSE_REACH
    ensures var p := PlanOf(w);
            && p.sends == NumberOf((w[0] >> 20) & 15) && p.recvs == NumberOf((w[0] >> 24) & 15)
            && p.buffers == p.sends + p.recvs + NumberOf((w[0] >> 28) & 15)
  {
  }

  lemma HandlesRead(w: seq<Word>, base: nat, r: Parsed, p: Plan)
    requires |w| >= PARSE_REACH && r == ParsedOf(w, base) && p == PlanOf(w)
    ensures |r.handles| == |r.wasCopied| == p.handles
    ensures forall i | 0 <= i < p.handles :: r.handles[i] == w[p.handlesAt + i] && (r.wasCopied[i] <==> i < p.copies)
  {
  }

  lemma StaticsRead(w: seq<Word>, base: nat, r: Parsed, p: Plan)
    requires |w| >= PARSE_REACH && r == ParsedOf(w, base) && p == PlanOf(w)
    ensures |r.statics| == p.statics && forall i | 0 <= i < p.statics :: r.statics[i] == StaticAt(w, p.staticsAt + 2 * i)
  {
  }

  lemma BuffersRead(w: seq<Word>, base: nat, r: Parsed, p: Plan)
    requires |w| >= PARSE_REACH && r == ParsedOf(w, base) && p == PlanOf(w)
    ensures |r.buffers| == |r.directions| == if p.buffers < 8 then p.buffers else 8
    ensures forall i | 0 <= i < |r.buffers| :: r.buffers[i] == BufferAt(w, p.buffersAt + 3 * i)
    ensures forall i | 0 <= i < |r.directions| ::
              r.directions[i] == if i < p.sends then Send else if i < p.sends + p.recvs then Recv else Exch
  {
  }

  // ---- The parser ----

  method ReadHandles(tls: array<Word>, buf: nat, num: nat, copies: nat) returns (handles: seq<Word>, wasCopied: seq<bool>)
    requires buf + num <= tls.Length
    ensures handles == tls[buf..buf + num] && wasCopied == CopiedMarks(num, copies)
  {
    handles, wasCopied := [], [];
    var i := 0;
    while i < num
      invariant i <= num && handles == tls[buf..buf + i] && wasCopied == CopiedMarks(i, copies)
    {
      handles := handles + [tls[buf + i]];
      wasCopied := wasCopied + [i < copies];
      i := i + 1;
    }
  }

  method ReadStatics(tls: array<Word>, at: nat, num: nat) returns (statics: seq<Static>)
    requires at + 2 * num <= tls.Length
    ensures statics == StaticsAt(tls[..], at, num)
  {
    statics := [];
    var i, buf := 0, at;
    while i < num
      invariant i <= num && buf == at + 2 * i && statics == StaticsAt(tls[..], at, i)
    {
      statics := statics + [UnpackStatic(tls[buf], tls[buf + 1])];
      i, buf := i + 1, buf + 2;
    }
  }

  method ReadBuffers(tls: array<Word>, at: nat, num: nat, sends: nat, recvs: nat)
    returns (buffers: seq<Buffer>, directions: seq<BufferDirection>)
    requires at + 3 * num <= tls.Length
    ensures buffers == BuffersAt(tls[..], at, num) && directions == Directions(num, sends, recvs)
  {
    buffers, directions := [], [];
    var i, buf := 0, at;
    while i < num
      invariant i <= num && buf == at + 3 * i
      invariant buffers == BuffersAt(tls[..], at, i) && directions == Directions(i, sends, recvs)
    {
      buffers := buffers + [UnpackBuffer(tls[buf], tls[buf + 1], tls[buf + 2])];
      directions := directions + [if i < sends then Send else if i < sends + recvs then Recv else Exch];
      i, buf := i + 1, buf + 3;
    }
  }

  /** The special header and the handles; `buf` is where the statics start. */
  method ParseSpecialHeader(tls: array<Word>, special: bool, pid: bool, copies: nat, moves: nat, ghost at: nat, num: nat)
    returns (buf: nat, id: bv64, handles: seq<Word>, wasCopied: seq<bool>)
    requires tls.Length >= PARSE_REACH && copies < 16 && moves < 16 && (pid || copies + moves > 0 ==> special)
    requires at == FirstHandle(special, pid) && num == Min(copies + moves, IPC_MAX_OBJECTS)
    ensures buf == at + copies + moves && handles == tls[..][at..at + num] && wasCopied == CopiedMarks(num, copies)
    ensures id == if pid then Wide(tls[3], tls[4]) else 0
  {
    buf, id, handles, wasCopied := 2, 0, [], [];
    if special {
      buf := buf + 1;
      if pid {
        id := Wide(tls[buf], tls[buf + 1]);
        buf := buf + 2;
      }
      handles, wasCopied := ReadHandles(tls, buf, num, copies);
      buf := buf + copies + moves;
    }
  }

  /** The statics and the buffers, by a plan. */
  method ParseDescriptors(tls: array<Word>, buf: nat, statics: nat, num: nat,
                          sends: nat, recvs: nat, ghost p: Plan)
    returns (foundStatics: seq<Static>, buffers: seq<Buffer>, directions: seq<BufferDirection>, next: nat)
    requires tls.Length >= PARSE_REACH && p.Fits(tls.Length) && buf == p.staticsAt && Min(statics, IPC_MAX_BUFFERS) == p.statics
    requires buf + 2 * statics == p.buffersAt && num == p.buffers && sends == p.sends && recvs == p.recvs
    ensures foundStatics == StaticsAt(tls[..], p.staticsAt, p.statics)
    ensures buffers == BuffersAt(tls[..], p.buffersAt, Min(p.buffers, IPC_MAX_BUFFERS))
    ensures directions == Directions(Min(p.buffers, IPC_MAX_BUFFERS), p.sends, p.recvs)
    ensures next == p.buffersAt
  {
    foundStatics := ReadStatics(tls, buf, Min(statics, IPC_MAX_BUFFERS));
    next := buf + 2 * statics;
    buffers, directions := ReadBuffers(tls, next, Min(num, IPC_MAX_BUFFERS), sends, recvs);
  }

  lemma ReadByIs(p: Plan, w: seq<Word>, base: nat, end: nat, r: Parsed)
    requires |w| >= PARSE_REACH && p.Fits(|w|) && end == p.End(base)
    requires r.commandType == CommandTypeOf(w[0]) && r.hasPid == p.pid && r.pid == if p.pid then Wide(w[3], w[4]) else 0
    requires r.handles == w[p.handlesAt..p.handlesAt + p.handles] && r.wasCopied == CopiedMarks(p.handles, p.copies)
    requires r.statics == StaticsAt(w, p.staticsAt, p.statics)
    requires r.buffers == BuffersAt(w, p.buffersAt, Min(p.buffers, IPC_MAX_BUFFERS))
    requires r.directions == Directions(Min(p.buffers, IPC_MAX_BUFFERS), p.sends, p.recvs)
    requires r.raw == RoundUp16(end) && r.rawWithoutPadding == end && r.numStaticsOut == p.staticsOut && r.rawSize == p.rawSize
    ensures r == ReadBy(p, w, base)
  {
  }

  /** Everything behind the control words, with the counts taken from them. */
  method ParseLists(tls: array<Word>, base: nat, special: bool, pid: bool, copies: nat, moves: nat, statics: nat,
                    sends: nat, recvs: nat, exchs: nat, staticsOut: nat, rawSize: nat, ghost p: Plan) returns (r: Parsed)
    requires tls.Length >= PARSE_REACH && (pid || copies + moves > 0 ==> special)
    requires copies < 16 && moves < 16 && statics < 16 && sends < 16 && recvs < 16 && exchs < 16
    requires p == PlanFor(special, pid, copies, moves, statics, sends, recvs, exchs, staticsOut, rawSize)
    ensures r == ReadBy(p, tls[..], base)
  {
    var numHandles := Min(copies + moves, IPC_MAX_OBJECTS);
    var buf, id, handles, wasCopied := ParseSpecialHeader(tls, special, pid, copies, moves, p.handlesAt, numHandles);
    var num := sends + recvs + exchs;
    var foundStatics, buffers, directions, next := ParseDescriptors(tls, buf, statics, num, sends, recvs, p);
    var end := base + 4 * (next + 3 * num);
    r := Parsed(CommandTypeOf(tls[0]), pid, id, staticsOut, handles, wasCopied, foundStatics, buffers, directions,
                RoundUp16(end), end, rawSize);
    ReadByIs(p, tls[..], base, end, r);
  }

  /** ipcParse: it never fails and reads no more than the first 89 words, whatever they are. */
  method Parse(tls: array<Word>, base: nat) returns (r: Parsed)
    requires tls.Length >= PARSE_REACH
    ensures r == ParsedOf(tls[..], base)
  {
    var ctrl0, ctrl1 := tls[0], tls[1];
    var special, pid, copies, moves := Special(ctrl1), false, 0, 0;
    if special {
      var ctrl2 := tls[2];
      pid, copies, moves := HasPid(ctrl2), NumCopies(ctrl2), NumMoves(ctrl2);
    }
    var staticsOut := DecodeStaticsOut(StaticsOutCode(ctrl1));
    ghost var p := PlanFor(special, pid, copies, moves, NumStatics(ctrl0), NumSends(ctrl0), NumRecvs(ctrl0), NumExchs(ctrl0),
                           staticsOut, 4 * RawSizeWords(ctrl1));
    assert p == PlanOf(tls[..]);
    r := ParseLists(tls, base, special, pid, copies, moves, NumStatics(ctrl0), NumSends(ctrl0), NumRecvs(ctrl0), NumExchs(ctrl0),
                    staticsOut, 4 * RawSizeWords(ctrl1), p);
  }

  method DecodeStaticsOut(code: nat) returns (n: nat)
    ensures n == StaticsOutOf(code)
  {
    n := code;
    if n / 2 > 0 { n := n - 1; }
    if n / 2 > 0 { n := n - 1; }
  }
}
