/** Building an IPC request.  An array of words is the memory from the thread-local area on: the area is 0x80 words long,
    but nothing in the code stops there, so a message may be as long as that memory. */
module IpcMessage {
  import opened IpcFormat

  // ---- What a finished message looks like ----

  /** The first `n` handles stand at `at`. */
  ghost predicate HandlesUpTo(w: seq<Word>, at: nat, handles: seq<Word>, n: nat) {
    n <= |handles| && at + n <= |w| && forall i {:trigger handles[i]} | 0 <= i < n :: w[at + i] == handles[i]
  }

  ghost predicate HandlesWritten(w: seq<Word>, at: nat, handles: seq<Word>) {
    HandlesUpTo(w, at, handles, |handles|)
  }

  /** A send-static descriptor is two words. */
  ghost predicate StaticsUpTo(w: seq<Word>, at: nat, statics: seq<Static>, n: nat) {
    && n <= |statics| && at + 2 * n <= |w|
    && forall i {:trigger statics[i]} | 0 <= i < n ::
         w[at + 2 * i] == PackStatic(statics[i]) && w[at + 2 * i + 1] == Low32(statics[i].address)
  }

  ghost predicate StaticsWritten(w: seq<Word>, at: nat, statics: seq<Static>) {
    StaticsUpTo(w, at, statics, |statics|)
  }

  /** A buffer descriptor is three. */
  ghost predicate BuffersUpTo(w: seq<Word>, at: nat, buffers: seq<Buffer>, n: nat) {
    && n <= |buffers| && at + 3 * n <= |w|
    && forall i {:trigger buffers[i]} | 0 <= i < n ::
         w[at + 3 * i] == Low32(buffers[i].size) && w[at + 3 * i + 1] == Low32(buffers[i].address)
         && w[at + 3 * i + 2] == PackBuffer(buffers[i])
  }

  ghost predicate BuffersWritten(w: seq<Word>, at: nat, buffers: seq<Buffer>) {
    BuffersUpTo(w, at, buffers, |buffers|)
  }

  /** The table of 16-bit receive sizes, two to a word; a size of more than 16 bits is written as 0. */
  ghost predicate TableUpTo(w: seq<Word>, at: nat, statics: seq<Static>, n: nat) {
    && n <= |statics| && at + TableWords(|statics|) <= |w|
    && forall i {:trigger statics[i]} | 0 <= i < n :: Half(w[at + i / 2], i % 2 == 1) == TableEntry(statics[i])
  }

  ghost predicate TableWritten(w: seq<Word>, at: nat, statics: seq<Static>) {
    TableUpTo(w, at, statics, |statics|)
  }

  function Half(w: Word, high: bool): Word { if high then w >> 16 else w & 0xFFFF }

  function WithHalf(w: Word, high: bool, v: Word): Word {
    if high then (w & 0xFFFF) | (v << 16) else (w & 0xFFFF_0000) | v
  }

  function TableEntry(s: Static): (v: Word)
    ensures v <= 0xFFFF
  {
    if s.size > 0xFFFF then 0 else Low32(s.size)
  }

  /** Writing one half of a word leaves the other half alone. */
  lemma TableStep(v: seq<Word>, w: seq<Word>, at: nat, statics: seq<Static>, n: nat)
    requires TableUpTo(v, at, statics, n) && n < |statics|
    requires w == v[at + n / 2 := WithHalf(v[at + n / 2], n % 2 == 1, TableEntry(statics[n]))]
    ensures TableUpTo(w, at, statics, n + 1)
  {
    var before, e := v[at + n / 2], TableEntry(statics[n]);
    forall i {:trigger statics[i]} | 0 <= i < n + 1
      ensures Half(w[at + i / 2], i % 2 == 1) == TableEntry(statics[i])
    {
      if i / 2 != n / 2 {
        assert w[at + i / 2] == v[at + i / 2];
      } else if n % 2 == 1 {
        HighHalf(before, e);
      } else {
        LowHalf(before, e);
      }
    }
  }

  lemma HighHalf(w: Word, v: Word)
    requires v <= 0xFFFF
    ensures Half(WithHalf(w, true, v), true) == v && Half(WithHalf(w, true, v), false) == Half(w, false)
  {
  }

  lemma LowHalf(w: Word, v: Word)
    requires v <= 0xFFFF
    ensures Half(WithHalf(w, false, v), false) == v && Half(WithHalf(w, false, v), true) == Half(w, true)
  {
  }

  ghost predicate RecvListUpTo(w: seq<Word>, at: nat, statics: seq<Static>, n: nat) {
    && n <= |statics| && at + 2 * n <= |w|
    && forall i {:trigger statics[i]} | 0 <= i < n ::
         w[at + 2 * i] == Low32(statics[i].address) && w[at + 2 * i + 1] == PackRecvStatic(statics[i])
  }

  ghost predicate RecvListWritten(w: seq<Word>, at: nat, statics: seq<Static>) {
    RecvListUpTo(w, at, statics, |statics|)
  }

  lemma StaticsStep(v: seq<Word>, w: seq<Word>, at: nat, statics: seq<Static>, n: nat)
    requires StaticsUpTo(v, at, statics, n) && n < |statics| && at + 2 * n + 2 <= |v|
    requires w == v[at + 2 * n + 1 := Low32(statics[n].address)][at + 2 * n := PackStatic(statics[n])]
    ensures StaticsUpTo(w, at, statics, n + 1)
  {
  }

  lemma BuffersStep(v: seq<Word>, w: seq<Word>, at: nat, buffers: seq<Buffer>, n: nat)
    requires BuffersUpTo(v, at, buffers, n) && n < |buffers| && at + 3 * n + 3 <= |v|
    requires w == v[at + 3 * n := Low32(buffers[n].size)][at + 3 * n + 1 := Low32(buffers[n].address)]
                   [at + 3 * n + 2 := PackBuffer(buffers[n])]
    ensures BuffersUpTo(w, at, buffers, n + 1)
  {
  }

  lemma RecvListStep(v: seq<Word>, w: seq<Word>, at: nat, statics: seq<Static>, n: nat)
    requires RecvListUpTo(v, at, statics, n) && n < |statics| && at + 2 * n + 2 <= |v|
    requires w == v[at + 2 * n := Low32(statics[n].address)][at + 2 * n + 1 := PackRecvStatic(statics[n])]
    ensures RecvListUpTo(w, at, statics, n + 1)
  {
  }

  /** The three kinds of descriptor, one behind the other from `at` on. */
  ghost predicate PartsWritten(w: seq<Word>, at: nat, handles: seq<Word>, statics: seq<Static>, buffers: seq<Buffer>) {
    && HandlesWritten(w, at, handles)
    && StaticsWritten(w, at + |handles|, statics)
    && BuffersWritten(w, at + |handles| + 2 * |statics|, buffers)
  }

  /** Everything up to the last buffer descriptor; the control words are given. */
  ghost predicate DescriptorsWritten(c: Command, w: seq<Word>, ctrl0: Word, ctrl1: Word, ctrl2: Word) {
    && c.DescriptorsEnd() <= |w|
    && w[0] == ctrl0 && w[1] == ctrl1 && (c.HasSpecialHeader() ==> w[2] == ctrl2)
    && PartsWritten(w, c.HandlesAt(), c.Handles(), c.staticsIn, c.Buffers())
  }

  /** `w` carries the message of `c` with room for `sizeofRaw` bytes of payload. */
  ghost predicate Prepared(c: Command, sizeofRaw: nat, w: seq<Word>) {
    && c.WithinLimits()
    && c.Length(sizeofRaw) <= |w|
    && DescriptorsWritten(c, w, Control0(|c.staticsIn|, |c.sends|, |c.recvs|, |c.exchs|),
                          Control1(|c.staticsOut|, c.HasSpecialHeader(), c.RawTotal(sizeofRaw)),
                          Control2(c.sendPid, |c.copies|, |c.moves|))
    && ListsWritten(c, sizeofRaw, w)
  }

  /** The receive-size table and the receive list behind the payload. */
  ghost predicate ListsWritten(c: Command, sizeofRaw: nat, w: seq<Word>) {
    TableWritten(w, c.TableAt(sizeofRaw), c.staticsOut) && RecvListWritten(w, c.RecvListAt(sizeofRaw), c.staticsOut)
  }

  /** The receiver finds each receive static in its two words behind the table.  Address and size are right exactly when
      the address has 48 bits and the size 16. */
  lemma RecvListReadBack(c: Command, sizeofRaw: nat, w: seq<Word>, i: nat)
    requires Prepared(c, sizeofRaw, w) && i < |c.staticsOut|
    ensures var at, s := c.RecvListAt(sizeofRaw) + 2 * i, c.staticsOut[i];
            RecvStaticFound(w[at], w[at + 1], s.address, s.size) <==> s.address < 0x1_0000_0000_0000 && s.size < 0x1_0000
  {
    var at := c.RecvListAt(sizeofRaw);
    RecvWords(w, at, c.staticsOut, i);
  }

  lemma RecvWords(w: seq<Word>, at: nat, statics: seq<Static>, i: nat)
    requires RecvListWritten(w, at, statics) && i < |statics|
    ensures RecvStaticFound(w[at + 2 * i], w[at + 2 * i + 1], statics[i].address, statics[i].size)
       <==> statics[i].address < 0x1_0000_0000_0000 && statics[i].size < 0x1_0000
  {
    RecvStaticReadBack(statics[i]);
  }

  /** The 16-bit number `i` of the table is the size of receive static `i`, or 0 if that has more bits. */
  lemma TableReadBack(c: Command, sizeofRaw: nat, w: seq<Word>, i: nat)
    requires Prepared(c, sizeofRaw, w) && i < |c.staticsOut|
    ensures var word, s := w[c.TableAt(sizeofRaw) + i / 2], c.staticsOut[i];
            (if i % 2 == 1 then word >> 16 else word & 0xFFFF) as bv64 == if s.size <= 0xFFFF then s.size else 0
  {
    var s := c.staticsOut[i];
    assert Half(w[c.TableAt(sizeofRaw) + i / 2], i % 2 == 1) == TableEntry(s);
    EntryIs(s);
  }

  lemma EntryIs(s: Static)
    ensures TableEntry(s) as bv64 == if s.size <= 0xFFFF then s.size else 0
  {
  }

  /** `v` and `w` differ at most within lo..hi. */
  ghost predicate SameOutside(v: seq<Word>, w: seq<Word>, lo: nat, hi: nat) {
    |v| == |w| && forall k | 0 <= k < |v| && !(lo <= k < hi) :: w[k] == v[k]
  }

  /** The words a message does not own: the process id the kernel fills in, the payload, and the rest. */
  predicate Unowned(c: Command, sizeofRaw: nat, k: int) {
    || (c.sendPid && 3 <= k < 5)
    || c.DescriptorsEnd() <= k < c.TableAt(sizeofRaw)
    || c.Length(sizeofRaw) <= k
  }

  ghost predicate UnownedKept(c: Command, sizeofRaw: nat, v: seq<Word>, w: seq<Word>) {
    |v| == |w| && forall k | 0 <= k < |v| && Unowned(c, sizeofRaw, k) :: w[k] == v[k]
  }

  lemma UnownedWords(c: Command, sizeofRaw: nat, v: seq<Word>, w: seq<Word>, k: nat)
    requires UnownedKept(c, sizeofRaw, v, w) && k < |v|
    ensures c.sendPid && (k == 3 || k == 4) ==> w[k] == v[k]
    ensures c.DescriptorsEnd() <= k < c.DescriptorsEnd() + 4 + sizeofRaw / 4 ==> w[k] == v[k]
    ensures c.RecvListAt(sizeofRaw) + 2 * |c.staticsOut| <= k ==> w[k] == v[k]
  {
  }

  /** The words in front of the payload are written first, those behind it and the raw size after that. */
  lemma UnownedAcross(c: Command, sizeofRaw: nat, u: seq<Word>, v: seq<Word>, w: seq<Word>)
    requires |u| == |v| == |w|
    requires forall k | 0 <= k < |u| && (3 <= k < c.HandlesAt() || c.DescriptorsEnd() <= k) :: v[k] == u[k]
    requires forall k | 0 <= k < |v| && (2 <= k < c.TableAt(sizeofRaw) || c.Length(sizeofRaw) <= k) :: w[k] == v[k]
    ensures UnownedKept(c, sizeofRaw, u, w)
  {
  }

  /** A part of a message survives changes elsewhere. */
  lemma HandlesKept(v: seq<Word>, w: seq<Word>, lo: nat, hi: nat, at: nat, handles: seq<Word>)
    requires HandlesWritten(v, at, handles) && SameOutside(v, w, lo, hi) && (at + |handles| <= lo || hi <= at)
    ensures HandlesWritten(w, at, handles)
  {
  }

  lemma StaticsKept(v: seq<Word>, w: seq<Word>, lo: nat, hi: nat, at: nat, statics: seq<Static>)
    requires StaticsWritten(v, at, statics) && SameOutside(v, w, lo, hi) && (at + 2 * |statics| <= lo || hi <= at)
    ensures StaticsWritten(w, at, statics)
  {
  }

  lemma BuffersKept(v: seq<Word>, w: seq<Word>, lo: nat, hi: nat, at: nat, buffers: seq<Buffer>)
    requires BuffersWritten(v, at, buffers) && SameOutside(v, w, lo, hi) && (at + 3 * |buffers| <= lo || hi <= at)
    ensures BuffersWritten(w, at, buffers)
  {
  }

  lemma TableKept(v: seq<Word>, w: seq<Word>, lo: nat, hi: nat, at: nat, statics: seq<Static>)
    requires TableWritten(v, at, statics) && SameOutside(v, w, lo, hi) && (at + TableWords(|statics|) <= lo || hi <= at)
    ensures TableWritten(w, at, statics)
  {
  }

  lemma RecvListKept(v: seq<Word>, w: seq<Word>, lo: nat, hi: nat, at: nat, statics: seq<Static>)
    requires RecvListWritten(v, at, statics) && SameOutside(v, w, lo, hi) && (at + 2 * |statics| <= lo || hi <= at)
    ensures RecvListWritten(w, at, statics)
  {
  }

  lemma PartsKept(v: seq<Word>, w: seq<Word>, lo: nat, hi: nat, at: nat,
                  handles: seq<Word>, statics: seq<Static>, buffers: seq<Buffer>)
    requires PartsWritten(v, at, handles, statics, buffers) && SameOutside(v, w, lo, hi)
    requires at + |handles| + 2 * |statics| + 3 * |buffers| <= lo || hi <= at
    ensures PartsWritten(w, at, handles, statics, buffers)
  {
    HandlesKept(v, w, lo, hi, at, handles);
    StaticsKept(v, w, lo, hi, at + |handles|, statics);
    BuffersKept(v, w, lo, hi, at + |handles| + 2 * |statics|, buffers);
  }

  /** The descriptors survive a change of anything behind them. */
  lemma DescriptorsKept(c: Command, v: seq<Word>, w: seq<Word>, lo: nat, hi: nat, ctrl0: Word, ctrl1: Word, ctrl2: Word)
    requires DescriptorsWritten(c, v, ctrl0, ctrl1, ctrl2) && SameOutside(v, w, lo, hi) && c.DescriptorsEnd() <= lo
    ensures DescriptorsWritten(c, w, ctrl0, ctrl1, ctrl2)
  {
    PartsKept(v, w, lo, hi, c.HandlesAt(), c.Handles(), c.staticsIn, c.Buffers());
  }

  /** The three kinds of descriptor, written one after the other. */
  lemma PartsAssembled(v: seq<Word>, w: seq<Word>, x: seq<Word>, at: nat,
                       handles: seq<Word>, statics: seq<Static>, buffers: seq<Buffer>)
    requires HandlesWritten(v, at, handles)
    requires var s := at + |handles|; SameOutside(v, w, s, s + 2 * |statics|) && StaticsWritten(w, s, statics)
    requires var b := at + |handles| + 2 * |statics|; SameOutside(w, x, b, b + 3 * |buffers|) && BuffersWritten(x, b, buffers)
    ensures PartsWritten(x, at, handles, statics, buffers)
    ensures SameOutside(v, x, at + |handles|, at + |handles| + 2 * |statics| + 3 * |buffers|)
  {
    var s := at + |handles|;
    var b := s + 2 * |statics|;
    HandlesKept(v, w, s, b, at, handles);
    HandlesKept(w, x, b, b + 3 * |buffers|, at, handles);
    StaticsKept(w, x, b, b + 3 * |buffers|, s, statics);
  }

  /** Filling in the raw size, and writing behind the descriptors. */
  lemma RawSizeFilledIn(c: Command, v: seq<Word>, w: seq<Word>, ctrl0: Word, ctrl1: Word, ctrl2: Word, filled: Word)
    requires DescriptorsWritten(c, v, ctrl0, ctrl1, ctrl2) && |w| == |v| && w[1] == filled
    requires forall k | 0 <= k < c.DescriptorsEnd() && k != 1 :: w[k] == v[k]
    ensures DescriptorsWritten(c, w, ctrl0, filled, ctrl2)
  {
    var x := v[1 := filled];
    PartsKept(v, x, 1, 2, c.HandlesAt(), c.Handles(), c.staticsIn, c.Buffers());
    PartsKept(x, w, c.DescriptorsEnd(), |w|, c.HandlesAt(), c.Handles(), c.staticsIn, c.Buffers());
  }

  lemma MessageIsPrepared(c: Command, sizeofRaw: nat, w: seq<Word>, ctrl0: Word, ctrl1: Word, ctrl2: Word)
    requires c.WithinLimits() && c.Length(sizeofRaw) <= |w|
    requires ctrl0 == Control0(|c.staticsIn|, |c.sends|, |c.recvs|, |c.exchs|)
    requires ctrl1 == Control1(|c.staticsOut|, c.HasSpecialHeader(), c.RawTotal(sizeofRaw))
    requires ctrl2 == Control2(c.sendPid, |c.copies|, |c.moves|)
    requires DescriptorsWritten(c, w, ctrl0, ctrl1, ctrl2)
    requires ListsWritten(c, sizeofRaw, w)
    ensures Prepared(c, sizeofRaw, w)
  {
  }

  lemma ListsKept(c: Command, sizeofRaw: nat, v: seq<Word>, w: seq<Word>, lo: nat, hi: nat)
    requires ListsWritten(c, sizeofRaw, v) && SameOutside(v, w, lo, hi) && hi <= c.TableAt(sizeofRaw)
    ensures ListsWritten(c, sizeofRaw, w)
  {
    TableKept(v, w, lo, hi, c.TableAt(sizeofRaw), c.staticsOut);
    RecvListKept(v, w, lo, hi, c.RecvListAt(sizeofRaw), c.staticsOut);
  }

  /** Filling in the payload, and its padding, leaves the message prepared. */
  lemma PayloadIsFree(c: Command, sizeofRaw: nat, v: seq<Word>, w: seq<Word>)
    requires Prepared(c, sizeofRaw, v)
    requires SameOutside(v, w, c.DescriptorsEnd(), c.TableAt(sizeofRaw))
    ensures Prepared(c, sizeofRaw, w)
  {
    var ctrl0 := Control0(|c.staticsIn|, |c.sends|, |c.recvs|, |c.exchs|);
    var ctrl1 := Control1(|c.staticsOut|, c.HasSpecialHeader(), c.RawTotal(sizeofRaw));
    var ctrl2 := Control2(c.sendPid, |c.copies|, |c.moves|);
    DescriptorsKept(c, v, w, c.DescriptorsEnd(), c.TableAt(sizeofRaw), ctrl0, ctrl1, ctrl2);
    ListsKept(c, sizeofRaw, v, w, c.DescriptorsEnd(), c.TableAt(sizeofRaw));
    MessageIsPrepared(c, sizeofRaw, w, ctrl0, ctrl1, ctrl2);
  }

  lemma CutTwice(a: seq<Word>, m: nat, n: nat)
    requires m + n <= |a|
    ensures a[..m] + a[m..m + n] == a[..m + n]
  {
  }

  /** What was cut out from the written place on is then cut out one place later. */
  lemma WindowMoves(a: seq<Buffer>, b: seq<Buffer>, at: nat, n: nat, x: Buffer)
    requires 0 < n && at + n < |a| && b == a[at := x]
    ensures b[at + 1..at + 1 + n] == a[at..at + n][1..] + [a[at + n]]
  {
  }

  lemma CutThrice(a: seq<Buffer>, l: nat, m: nat, n: nat)
    requires l + m + n <= |a|
    ensures a[..l] + a[l..l + m] + a[l + m..l + m + n] == a[..l + m + n]
  {
  }

  // ---- The builder ----

  /** The buffer of a smart pair is empty exactly when the static carries the data. */
  ghost function SmartBuffer(pointerBufferSize: bv64, address: bv64, size: bv64): Buffer {
    if pointerBufferSize != 0 && size <= pointerBufferSize then Buffer(0, 0, Normal) else Buffer(address, size, Normal)
  }

  ghost function SmartStatic(pointerBufferSize: bv64, address: bv64, size: bv64, index: bv8): Static {
    if pointerBufferSize != 0 && size <= pointerBufferSize then Static(address, size, index) else Static(0, 0, index)
  }

  class IpcCommand {
    var numSend: nat
    var numRecv: nat
    var numExch: nat
    const buffers: array<Buffer>
    var numStaticIn: nat
    var numStaticOut: nat
    const statics: array<Static>
    var sendPid: bool
    var numHandlesCopy: nat
    var numHandlesMove: nat
    const handles: array<Word>
    var numObjectIds: nat
    const objectIds: array<Word>

    ghost predicate Valid()
      reads this
    {
      && buffers.Length == statics.Length == IPC_MAX_BUFFERS
      && handles.Length == objectIds.Length == IPC_MAX_OBJECTS
      && handles != objectIds && buffers as object != statics && buffers as object != handles && buffers as object != objectIds
      && statics as object != handles && statics as object != objectIds
      && numSend + numRecv + numExch <= IPC_MAX_BUFFERS
      && numStaticIn + numStaticOut <= IPC_MAX_BUFFERS
      && numHandlesCopy + numHandlesMove <= IPC_MAX_OBJECTS
      && numObjectIds <= IPC_MAX_OBJECTS
    }

    /** `tls` is none of the command's own arrays. */
    ghost predicate Apart(tls: array<Word>) {
      tls != handles && tls != objectIds && tls as object != buffers && tls as object != statics
    }

    // The lists the counters cut out of the arrays.

    ghost function Sends(): seq<Buffer>
      requires numSend <= buffers.Length
      reads this`numSend, buffers
    {
      buffers[..numSend]
    }

    ghost function Recvs(): seq<Buffer>
      requires numSend + numRecv <= buffers.Length
      reads this`numSend, this`numRecv, buffers
    {
      buffers[numSend..numSend + numRecv]
    }

    ghost function Exchs(): seq<Buffer>
      requires numSend + numRecv + numExch <= buffers.Length
      reads this`numSend, this`numRecv, this`numExch, buffers
    {
      buffers[numSend + numRecv..numSend + numRecv + numExch]
    }

    ghost function StaticsIn(): seq<Static>
      requires numStaticIn <= statics.Length
      reads this`numStaticIn, statics
    {
      statics[..numStaticIn]
    }

    ghost function StaticsOut(): seq<Static>
      requires numStaticIn + numStaticOut <= statics.Length
      reads this`numStaticIn, this`numStaticOut, statics
    {
      statics[numStaticIn..numStaticIn + numStaticOut]
    }

    ghost function Copies(): seq<Word>
      requires numHandlesCopy <= handles.Length
      reads this`numHandlesCopy, handles
    {
      handles[..numHandlesCopy]
    }

    ghost function Moves(): seq<Word>
      requires numHandlesCopy + numHandlesMove <= handles.Length
      reads this`numHandlesCopy, this`numHandlesMove, handles
    {
      handles[numHandlesCopy..numHandlesCopy + numHandlesMove]
    }

    ghost function ObjectIds(): seq<Word>
      requires numObjectIds <= objectIds.Length
      reads this`numObjectIds, objectIds
    {
      objectIds[..numObjectIds]
    }

    ghost function View(): (c: Command)
      requires Valid()
      reads this, buffers, statics, handles, objectIds
      ensures c.WithinLimits()
    {
      Command(Sends(), Recvs(), Exchs(), StaticsIn(), StaticsOut(), sendPid, Copies(), Moves(), ObjectIds())
    }

    constructor ()
      ensures Valid() && fresh(buffers) && fresh(statics) && fresh(handles) && fresh(objectIds)
      ensures View() == Command([], [], [], [], [], false, [], [], [])
    {
      numSend, numRecv, numExch, numStaticIn, numStaticOut := 0, 0, 0, 0, 0;
      numHandlesCopy, numHandlesMove, numObjectIds, sendPid := 0, 0, 0, false;
      buffers := new Buffer[IPC_MAX_BUFFERS](_ => Buffer(0, 0, Normal));
      statics := new Static[IPC_MAX_BUFFERS](_ => Static(0, 0, 0));
      handles := new Word[IPC_MAX_OBJECTS](_ => 0);
      objectIds := new Word[IPC_MAX_OBJECTS](_ => 0);
    }

    /** A send buffer goes behind the send buffers, so it must come before any other kind:
        otherwise it overwrites the first of those. */
    method AddSendBuffer(b: Buffer)
      requires Valid() && numSend + numRecv + numExch < IPC_MAX_BUFFERS
      modifies this`numSend, buffers
      ensures Valid()
      ensures numSend == old(numSend) + 1 && buffers[..] == old(buffers[..][numSend := b])
      ensures old(numRecv == 0 && numExch == 0) ==> View() == old(View().(sends := View().sends + [b]))
      ensures old(numRecv > 0) ==> View().recvs == old(View().recvs[1..] + [buffers[numSend + numRecv]])
    {
      ghost var before := buffers[..];
      buffers[numSend] := b;
      numSend := numSend + 1;
      if numRecv > 0 { WindowMoves(before, buffers[..], numSend - 1, numRecv, b); }
      assert Recvs() == buffers[..][numSend..numSend + numRecv];
      assert Sends() == old(Sends()) + [b];
      assert old(numRecv == 0 && numExch == 0) ==> Recvs() == old(Recvs()) && Exchs() == old(Exchs());
    }

    method AddRecvBuffer(b: Buffer)
      requires Valid() && numSend + numRecv + numExch < IPC_MAX_BUFFERS
      modifies this`numRecv, buffers
      ensures Valid()
      ensures numRecv == old(numRecv) + 1 && buffers[..] == old(buffers[..][numSend + numRecv := b])
      ensures old(numExch == 0) ==> View() == old(View().(recvs := View().recvs + [b]))
    {
      buffers[numSend + numRecv] := b;
      numRecv := numRecv + 1;
      assert Sends() == old(Sends()) && Recvs() == old(Recvs()) + [b];
      assert old(numExch == 0) ==> Exchs() == old(Exchs());
    }

    method AddExchBuffer(b: Buffer)
      requires Valid() && numSend + numRecv + numExch < IPC_MAX_BUFFERS
      modifies this`numExch, buffers
      ensures Valid()
      ensures View() == old(View().(exchs := View().exchs + [b]))
    {
      buffers[numSend + numRecv + numExch] := b;
      numExch := numExch + 1;
      assert Sends() == old(Sends()) && Recvs() == old(Recvs()) && Exchs() == old(Exchs()) + [b];
    }

    method AddSendStatic(s: Static)
      requires Valid() && numStaticIn + numStaticOut < IPC_MAX_BUFFERS
      modifies this`numStaticIn, statics
      ensures Valid()
      ensures numStaticIn == old(numStaticIn) + 1 && statics[..] == old(statics[..][numStaticIn := s])
      ensures old(numStaticOut == 0) ==> View() == old(View().(staticsIn := View().staticsIn + [s]))
    {
      statics[numStaticIn] := s;
      numStaticIn := numStaticIn + 1;
      assert StaticsIn() == old(StaticsIn()) + [s];
      assert old(numStaticOut == 0) ==> StaticsOut() == old(StaticsOut());
    }

    method AddRecvStatic(s: Static)
      requires Valid() && numStaticIn + numStaticOut < IPC_MAX_BUFFERS
      modifies this`numStaticOut, statics
      ensures Valid()
      ensures numStaticOut == old(numStaticOut) + 1 && statics[..] == old(statics[..][numStaticIn + numStaticOut := s])
      ensures View() == old(View().(staticsOut := View().staticsOut + [s]))
    {
      statics[numStaticIn + numStaticOut] := s;
      numStaticOut := numStaticOut + 1;
      assert StaticsIn() == old(StaticsIn()) && StaticsOut() == old(StaticsOut()) + [s];
    }

    method AddSendPair(b: Buffer, s: Static)
      requires Valid() && numSend + numRecv + numExch < IPC_MAX_BUFFERS && numStaticIn + numStaticOut < IPC_MAX_BUFFERS
      modifies this`numSend, this`numStaticIn, buffers, statics
      ensures Valid() && numSend == old(numSend) + 1 && numStaticIn == old(numStaticIn) + 1
      ensures buffers[..] == old(buffers[..][numSend := b]) && statics[..] == old(statics[..][numStaticIn := s])
      ensures old(numRecv == 0 && numExch == 0 && numStaticOut == 0) ==>
                View() == old(View().(sends := View().sends + [b], staticsIn := View().staticsIn + [s]))
    {
      AddSendBuffer(b);
      AddSendStatic(s);
    }

    method AddRecvPair(b: Buffer, s: Static)
      requires Valid() && numSend + numRecv + numExch < IPC_MAX_BUFFERS && numStaticIn + numStaticOut < IPC_MAX_BUFFERS
      modifies this`numRecv, this`numStaticOut, buffers, statics
      ensures Valid() && numRecv == old(numRecv) + 1 && numStaticOut == old(numStaticOut) + 1
      ensures buffers[..] == old(buffers[..][numSend + numRecv := b])
      ensures statics[..] == old(statics[..][numStaticIn + numStaticOut := s])
      ensures old(numExch == 0) ==>
                View() == old(View().(recvs := View().recvs + [b], staticsOut := View().staticsOut + [s]))
    {
      AddRecvBuffer(b);
      AddRecvStatic(s);
    }

    /** A pair of which exactly one carries the data: the static if it fits the pointer buffer. */
    method AddSendSmart(pointerBufferSize: bv64, address: bv64, size: bv64, index: bv8)
      requires Valid() && numSend + numRecv + numExch < IPC_MAX_BUFFERS && numStaticIn + numStaticOut < IPC_MAX_BUFFERS
      modifies this`numSend, this`numStaticIn, buffers, statics
      ensures Valid() && numSend == old(numSend) + 1 && numStaticIn == old(numStaticIn) + 1
      ensures buffers[..] == old(buffers[..][numSend := SmartBuffer(pointerBufferSize, address, size)])
      ensures statics[..] == old(statics[..][numStaticIn := SmartStatic(pointerBufferSize, address, size, index)])
      ensures old(numRecv == 0 && numExch == 0 && numStaticOut == 0) ==>
                View() == old(View().(sends := View().sends + [SmartBuffer(pointerBufferSize, address, size)],
                                      staticsIn := View().staticsIn + [SmartStatic(pointerBufferSize, address, size, index)]))
    {
      if pointerBufferSize != 0 && size <= pointerBufferSize {
        AddSendPair(Buffer(0, 0, Normal), Static(address, size, index));
      } else {
        AddSendPair(Buffer(address, size, Normal), Static(0, 0, index));
      }
    }

    method AddRecvSmart(pointerBufferSize: bv64, address: bv64, size: bv64, index: bv8)
      requires Valid() && numSend + numRecv + numExch < IPC_MAX_BUFFERS && numStaticIn + numStaticOut < IPC_MAX_BUFFERS
      modifies this`numRecv, this`numStaticOut, buffers, statics
      ensures Valid() && numRecv == old(numRecv) + 1 && numStaticOut == old(numStaticOut) + 1
      ensures buffers[..] == old(buffers[..][numSend + numRecv := SmartBuffer(pointerBufferSize, address, size)])
      ensures statics[..] == old(statics[..][numStaticIn + numStaticOut := SmartStatic(pointerBufferSize, address, size, index)])
      ensures old(numExch == 0) ==>
                View() == old(View().(recvs := View().recvs + [SmartBuffer(pointerBufferSize, address, size)],
                                      staticsOut := View().staticsOut + [SmartStatic(pointerBufferSize, address, size, index)]))
    {
      if pointerBufferSize != 0 && size <= pointerBufferSize {
        AddRecvPair(Buffer(0, 0, Normal), Static(address, size, index));
      } else {
        AddRecvPair(Buffer(address, size, Normal), Static(0, 0, index));
      }
    }

    method SendPid()
      requires Valid()
      modifies this`sendPid
      ensures Valid() && View() == old(View().(sendPid := true))
    {
      sendPid := true;
    }

    method SendHandleCopy(h: Word)
      requires Valid() && numHandlesCopy + numHandlesMove < IPC_MAX_OBJECTS
      modifies this`numHandlesCopy, handles
      ensures Valid()
      ensures numHandlesCopy == old(numHandlesCopy) + 1 && handles[..] == old(handles[..][numHandlesCopy := h])
      ensures old(numHandlesMove == 0) ==> View() == old(View().(copies := View().copies + [h]))
    {
      handles[numHandlesCopy] := h;
      numHandlesCopy := numHandlesCopy + 1;
      assert Copies() == old(Copies()) + [h];
      assert old(numHandlesMove == 0) ==> Moves() == old(Moves());
    }

    method SendHandleMove(h: Word)
      requires Valid() && numHandlesCopy + numHandlesMove < IPC_MAX_OBJECTS
      modifies this`numHandlesMove, handles
      ensures Valid()
      ensures View() == old(View().(moves := View().moves + [h]))
    {
      handles[numHandlesCopy + numHandlesMove] := h;
      numHandlesMove := numHandlesMove + 1;
      assert Copies() == old(Copies()) && Moves() == old(Moves()) + [h];
    }

    method SendObjectId(id: Word)
      requires Valid() && numObjectIds < IPC_MAX_OBJECTS
      modifies this`numObjectIds, objectIds
      ensures Valid() && View() == old(View().(objectIds := View().objectIds + [id]))
    {
      objectIds[numObjectIds] := id;
      numObjectIds := numObjectIds + 1;
      assert ObjectIds() == old(ObjectIds()) + [id];
    }

    // ---- Writing the message ----

    method WriteHandles(tls: array<Word>, at: nat, ghost list: seq<Word>)
      requires Valid() && Apart(tls) && list == handles[..numHandlesCopy + numHandlesMove] && at + |list| <= tls.Length
      modifies tls
      ensures HandlesWritten(tls[..], at, list)
      ensures SameOutside(old(tls[..]), tls[..], at, at + |list|)
    {
      var i := 0;
      while i < numHandlesCopy + numHandlesMove
        invariant i <= |list|
        invariant HandlesUpTo(tls[..], at, list, i)
        invariant SameOutside(old(tls[..]), tls[..], at, at + i)
      {
        assert list[i] == handles[i];
        tls[at + i] := handles[i];
        i := i + 1;
      }
    }

    method WriteStatics(tls: array<Word>, at: nat, ghost list: seq<Static>)
      requires Valid() && Apart(tls) && list == statics[..numStaticIn] && at + 2 * |list| <= tls.Length
      modifies tls
      ensures StaticsWritten(tls[..], at, list)
      ensures SameOutside(old(tls[..]), tls[..], at, at + 2 * |list|)
    {
      var i, buf := 0, at;
      while i < numStaticIn
        invariant i <= |list| && buf == at + 2 * i
        invariant StaticsUpTo(tls[..], at, list, i)
        invariant SameOutside(old(tls[..]), tls[..], at, buf)
      {
        ghost var before := tls[..];
        assert list[i] == statics[i];
        tls[buf + 1] := Low32(statics[i].address);
        tls[buf] := PackStatic(statics[i]);
        StaticsStep(before, tls[..], at, list, i);
        i, buf := i + 1, buf + 2;
      }
    }

    method WriteBuffers(tls: array<Word>, at: nat, ghost list: seq<Buffer>)
      requires Valid() && Apart(tls) && list == buffers[..numSend + numRecv + numExch] && at + 3 * |list| <= tls.Length
      modifies tls
      ensures BuffersWritten(tls[..], at, list)
      ensures SameOutside(old(tls[..]), tls[..], at, at + 3 * |list|)
    {
      var i, buf := 0, at;
      while i < numSend + numRecv + numExch
        invariant i <= |list| && buf == at + 3 * i
        invariant BuffersUpTo(tls[..], at, list, i)
        invariant SameOutside(old(tls[..]), tls[..], at, buf)
      {
        ghost var before := tls[..];
        assert list[i] == buffers[i];
        tls[buf] := Low32(buffers[i].size);
        tls[buf + 1] := Low32(buffers[i].address);
        tls[buf + 2] := PackBuffer(buffers[i]);
        BuffersStep(before, tls[..], at, list, i);
        i, buf := i + 1, buf + 3;
      }
    }

    method WriteTable(tls: array<Word>, at: nat, ghost list: seq<Static>)
      requires Valid() && Apart(tls) && list == StaticsOut() && at + TableWords(|list|) <= tls.Length
      modifies tls
      ensures TableWritten(tls[..], at, list)
      ensures SameOutside(old(tls[..]), tls[..], at, at + TableWords(|list|))
    {
      var i := 0;
      while i < numStaticOut
        invariant i <= |list|
        invariant TableUpTo(tls[..], at, list, i)
        invariant SameOutside(old(tls[..]), tls[..], at, at + TableWords(|list|))
      {
        assert list[i] == statics[numStaticIn + i];
        var v := TableEntry(statics[numStaticIn + i]);
        ghost var before := tls[..];
        tls[at + i / 2] := WithHalf(tls[at + i / 2], i % 2 == 1, v);
        TableStep(before, tls[..], at, list, i);
        i := i + 1;
      }
    }

    method WriteRecvList(tls: array<Word>, at: nat, ghost list: seq<Static>)
      requires Valid() && Apart(tls) && list == StaticsOut() && at + 2 * |list| <= tls.Length
      modifies tls
      ensures RecvListWritten(tls[..], at, list)
      ensures SameOutside(old(tls[..]), tls[..], at, at + 2 * |list|)
    {
      var i, buf := 0, at;
      while i < numStaticOut
        invariant i <= |list| && buf == at + 2 * i
        invariant RecvListUpTo(tls[..], at, list, i)
        invariant SameOutside(old(tls[..]), tls[..], at, buf)
      {
        assert list[i] == statics[numStaticIn + i];
        var s := statics[numStaticIn + i];
        ghost var before := tls[..];
        tls[buf] := Low32(s.address);
        tls[buf + 1] := PackRecvStatic(s);
        RecvListStep(before, tls[..], at, list, i);
        i, buf := i + 1, buf + 2;
      }
    }

    /** The control words and the handles, which stand at `at`. */
    method WriteControl(tls: array<Word>, ctrl0: Word, ctrl1: Word, ctrl2: Word, ghost at: nat, ghost hs: seq<Word>)
      returns (buf: nat)
      requires Valid() && Apart(tls) && hs == handles[..numHandlesCopy + numHandlesMove]
      requires at == (if !sendPid && |hs| == 0 then 2 else if sendPid then 5 else 3) && at + |hs| <= tls.Length
      modifies tls
      ensures buf == at + |hs|
      ensures tls[0] == ctrl0 && tls[1] == ctrl1 && (2 < at ==> tls[2] == ctrl2)
      ensures HandlesWritten(tls[..], at, hs)
      ensures forall k | 0 <= k < tls.Length && (3 <= k < at || buf <= k) :: tls[k] == old(tls[k])
    {
      tls[0], tls[1] := ctrl0, ctrl1;
      buf := 2;
      if sendPid || numHandlesCopy > 0 || numHandlesMove > 0 {
        tls[2] := ctrl2;
        buf := if sendPid then 5 else 3;
        WriteHandles(tls, buf, hs);
        buf := buf + numHandlesCopy + numHandlesMove;
      }
    }

    /** Up to the buffer descriptors. */
    method WriteDescriptors(tls: array<Word>, ctrl0: Word, ctrl1: Word, ctrl2: Word,
                            ghost at: nat, ghost hs: seq<Word>, ghost ss: seq<Static>, ghost bs: seq<Buffer>) returns (buf: nat)
      requires Valid() && Apart(tls)
      requires hs == handles[..numHandlesCopy + numHandlesMove] && ss == statics[..numStaticIn]
      requires bs == buffers[..numSend + numRecv + numExch]
      requires at == if !sendPid && |hs| == 0 then 2 else if sendPid then 5 else 3
      requires at + |hs| + 2 * |ss| + 3 * |bs| <= tls.Length
      modifies tls
      ensures PartsWritten(tls[..], at, hs, ss, bs) && buf == at + |hs| + 2 * |ss| + 3 * |bs|
      ensures tls[0] == ctrl0 && tls[1] == ctrl1 && (2 < at ==> tls[2] == ctrl2)
      ensures forall k | 0 <= k < tls.Length && (3 <= k < at || buf <= k) :: tls[k] == old(tls[k])
    {
      buf := WriteControl(tls, ctrl0, ctrl1, ctrl2, at, hs);
      ghost var v := tls[..];
      WriteStatics(tls, buf, ss);
      buf := buf + 2 * numStaticIn;
      ghost var w := tls[..];
      WriteBuffers(tls, buf, bs);
      buf := buf + 3 * (numSend + numRecv + numExch);
      PartsAssembled(v, w, tls[..], at, hs, ss, bs);
    }

    /** The table behind the payload at `at`, the raw size, and the receive list behind that. */
    method WriteLists(tls: array<Word>, at: nat, sizeofRaw: nat, ghost list: seq<Static>, ghost listAt: nat,
                      ghost total: nat, ghost filled: Word)
      requires Valid() && Apart(tls) && 2 <= at && list == StaticsOut()
      requires listAt == at + TableWords(|list|) && listAt + 2 * |list| <= tls.Length
      requires total == RawWords(sizeofRaw) + TableWords(|list|) && filled == WithSize(tls[1], WordOf(total))
      modifies tls
      ensures tls[1] == filled
      ensures TableWritten(tls[..], at, list)
      ensures RecvListWritten(tls[..], listAt, list)
      ensures forall k | 0 <= k < tls.Length && k != 1 && (k < at || listAt + 2 * |list| <= k) :: tls[k] == old(tls[k])
    {
      WriteTable(tls, at, list);
      var u16sSize := (2 * numStaticOut + 3) / 4;
      ghost var v := tls[..];
      FillInSize(tls, sizeofRaw / 4 + 4 + u16sSize);
      ghost var w := tls[..];
      TableKept(v, w, 1, 2, at, list);
      var next := at + u16sSize;
      assert next == listAt;
      WriteRecvList(tls, next, list);
      TableKept(w, tls[..], next, next + 2 * |list|, at, list);
    }

    static method FillInSize(tls: array<Word>, rawSize: nat)
      requires tls.Length >= 2
      modifies tls
      ensures tls[1] == WithSize(old(tls[1]), WordOf(rawSize))
      ensures SameOutside(old(tls[..]), tls[..], 1, 2)
    {
      tls[1] := WithSize(tls[1], WordOf(rawSize));
    }

    /** Everything in front of the payload, for the command `c`. */
    method WriteFront(tls: array<Word>, ctrl0: Word, ctrl1: Word, ctrl2: Word, ghost c: Command) returns (buf: nat)
      requires Valid() && Apart(tls) && c == View() && c.DescriptorsEnd() <= tls.Length
      modifies tls
      ensures buf == c.DescriptorsEnd()
      ensures DescriptorsWritten(c, tls[..], ctrl0, ctrl1, ctrl2)
      ensures forall k | 0 <= k < tls.Length && (3 <= k < c.HandlesAt() || buf <= k) :: tls[k] == old(tls[k])
    {
      ListsAreCutOut(c);
      buf := WriteDescriptors(tls, ctrl0, ctrl1, ctrl2, c.HandlesAt(), c.Handles(), c.staticsIn, c.Buffers());
    }

    /** The whole message, for given control words. */
    method WriteMessage(tls: array<Word>, sizeofRaw: nat, ctrl0: Word, ctrl1: Word, ctrl2: Word,
                        ghost c: Command, ghost filled: Word) returns (buf: nat)
      requires Valid() && Apart(tls) && c == View() && c.Length(sizeofRaw) <= tls.Length
      requires filled == WithSize(ctrl1, WordOf(c.RawTotal(sizeofRaw)))
      modifies tls
      ensures buf == c.DescriptorsEnd()
      ensures DescriptorsWritten(c, tls[..], ctrl0, filled, ctrl2)
      ensures ListsWritten(c, sizeofRaw, tls[..])
      ensures UnownedKept(c, sizeofRaw, old(tls[..]), tls[..])
    {
      ghost var u := tls[..];
      buf := WriteFront(tls, ctrl0, ctrl1, ctrl2, c);
      ghost var v := tls[..];
      WriteBack(tls, buf + RawWords(sizeofRaw), sizeofRaw, ctrl0, ctrl1, ctrl2, c, filled);
      UnownedAcross(c, sizeofRaw, u, v, tls[..]);
    }

    /** Everything behind the payload, which starts at `at`, and the raw size. */
    method WriteBack(tls: array<Word>, at: nat, sizeofRaw: nat, ghost ctrl0: Word, ghost ctrl1: Word, ghost ctrl2: Word,
                     ghost c: Command, ghost filled: Word)
      requires Valid() && Apart(tls) && c == View() && c.Length(sizeofRaw) <= tls.Length
      requires at == c.TableAt(sizeofRaw) && DescriptorsWritten(c, tls[..], ctrl0, ctrl1, ctrl2)
      requires filled == WithSize(ctrl1, WordOf(c.RawTotal(sizeofRaw)))
      modifies tls
      ensures DescriptorsWritten(c, tls[..], ctrl0, filled, ctrl2)
      ensures ListsWritten(c, sizeofRaw, tls[..])
      ensures forall k | 2 <= k < at || c.Length(sizeofRaw) <= k < tls.Length :: tls[k] == old(tls[k])
    {
      ghost var v := tls[..];
      WriteLists(tls, at, sizeofRaw, c.staticsOut, c.RecvListAt(sizeofRaw), c.RawTotal(sizeofRaw), filled);
      RawSizeFilledIn(c, v, tls[..], ctrl0, ctrl1, ctrl2, filled);
    }

    /** The combined lists are prefixes of the arrays. */
    lemma ListsAreCutOut(c: Command)
      requires Valid() && c == View()
      ensures c.Handles() == handles[..numHandlesCopy + numHandlesMove]
      ensures c.Buffers() == buffers[..numSend + numRecv + numExch]
      ensures c.staticsIn == statics[..numStaticIn] && c.staticsOut == StaticsOut() && c.sendPid == sendPid
      ensures c.HasSpecialHeader() <==> sendPid || numHandlesCopy + numHandlesMove > 0
    {
      CutTwice(handles[..], numHandlesCopy, numHandlesMove);
      CutThrice(buffers[..], numSend, numRecv, numExch);
    }

    /** ipcPrepareHeader: writes the message of the command, `c`, and returns where the payload goes, as a word index.
        `base` is the address of the thread-local area. */
    method PrepareHeader(tls: array<Word>, base: nat, sizeofRaw: nat, ghost c: Command) returns (raw: nat)
      requires Valid() && Apart(tls) && base % 4 == 0
      requires c == View() && c.Length(sizeofRaw) <= tls.Length
      modifies tls
      ensures raw == c.RawAt(base)
      ensures Prepared(c, sizeofRaw, tls[..])
      ensures UnownedKept(c, sizeofRaw, old(tls[..]), tls[..])
    {
      var ctrl0, ctrl1, ctrl2 := ControlWords(c);
      ghost var filled := Control1(|c.staticsOut|, c.HasSpecialHeader(), c.RawTotal(sizeofRaw));
      var buf := WriteMessage(tls, sizeofRaw, ctrl0, ctrl1, ctrl2, c, filled);
      raw := Aligned(buf, base);
      MessageIsPrepared(c, sizeofRaw, tls[..], ctrl0, filled, ctrl2);
    }

    /** The control words, the second without its raw size. */
    method ControlWords(ghost c: Command) returns (ctrl0: Word, ctrl1: Word, ctrl2: Word)
      requires Valid() && c == View()
      ensures ctrl0 == Control0(|c.staticsIn|, |c.sends|, |c.recvs|, |c.exchs|)
      ensures ctrl1 == Control1WithoutSize(|c.staticsOut|, c.HasSpecialHeader())
      ensures ctrl2 == Control2(c.sendPid, |c.copies|, |c.moves|)
    {
      assert numStaticIn == |c.staticsIn| && numSend == |c.sends| && numRecv == |c.recvs| && numExch == |c.exchs|;
      assert numStaticOut == |c.staticsOut| && sendPid == c.sendPid && numHandlesCopy == |c.copies| && numHandlesMove == |c.moves|;
      ctrl0 := Control0(numStaticIn, numSend, numRecv, numExch);
      ctrl1 := Control1WithoutSize(numStaticOut, sendPid || numHandlesCopy > 0 || numHandlesMove > 0);
      ctrl2 := Control2(sendPid, numHandlesCopy, numHandlesMove);
    }
  }
}
