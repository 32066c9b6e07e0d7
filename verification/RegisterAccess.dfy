/** The register access tables of the secure monitor: a list of registers becomes a bit table, the table is
    trimmed at both ends and moved to where it starts, and looking a register up still asks the list. */
module RegisterAccess {
  import opened Common

  const ADDRESS_LIMIT: nat := 0x1_0000_0000

  /** A trimmed table and the addresses it covers, which are 32 bits wide. */
  datatype AccessTableEntry = AccessTableEntry(table: seq<bv8>, address: u32, size: u32) {
    /** The size is what 32 bits leave of the length of the table. */
    predicate Valid() { size % 32 == 0 && size <= 32 * |table| }
  }

  // ---- Bits ----

  function Mask(k: nat): bv8
    requires k < 8
  {
    if k == 0 then 1 else if k == 1 then 2 else if k == 2 then 4 else if k == 3 then 8
    else if k == 4 then 0x10 else if k == 5 then 0x20 else if k == 6 then 0x40 else 0x80
  }

  lemma MaskIs(k: nat)
    requires k < 8
    ensures Mask(k) == (1 as bv8) << k
  {
  }

  predicate HasBit(b: bv8, k: nat)
    requires k < 8
  {
    b & Mask(k) != 0
  }

  lemma SetBit(b: bv8, k: nat, j: nat)
    requires k < 8 && j < 8
    ensures HasBit(b | Mask(k), j) <==> j == k || HasBit(b, j)
  {
    if j == k {
      OwnBit(b, k);
    } else {
      OtherBit(b, k, j);
    }
  }

  lemma OwnBit(b: bv8, k: nat)
    requires k < 8
    ensures HasBit(b | Mask(k), k)
  {
    MaskIsSomething(k);
    OrOwn(b, Mask(k));
  }

  lemma MaskIsSomething(k: nat)
    requires k < 8
    ensures Mask(k) != 0
  {
  }

  lemma OtherBit(b: bv8, k: nat, j: nat)
    requires k < 8 && j < 8 && j != k
    ensures HasBit(b | Mask(k), j) <==> HasBit(b, j)
  {
    MasksApart(k, j);
    OrOther(b, Mask(k), Mask(j));
  }

  lemma MasksApart(k: nat, j: nat)
    requires k < 8 && j < 8 && k != j
    ensures Mask(k) & Mask(j) == 0
  {
  }

  lemma OrOwn(b: bv8, m: bv8)
    requires m != 0
    ensures (b | m) & m != 0
  {
  }

  lemma OrOther(b: bv8, m: bv8, o: bv8)
    requires m & o == 0
    ensures (b | m) & o == b & o
  {
  }

  lemma SomeBit(b: bv8)
    ensures b != 0 <==> exists k: nat :: k < 8 && HasBit(b, k)
  {
    if b != 0 {
      AllMasks(b);
      assert HasBit(b, 0) || HasBit(b, 1) || HasBit(b, 2) || HasBit(b, 3)
             || HasBit(b, 4) || HasBit(b, 5) || HasBit(b, 6) || HasBit(b, 7);
    }
  }

  lemma AllMasks(b: bv8)
    requires b != 0
    ensures b & 1 != 0 || b & 2 != 0 || b & 4 != 0 || b & 8 != 0 || b & 0x10 != 0 || b & 0x20 != 0 || b & 0x40 != 0 || b & 0x80 != 0
  {
  }

  /** The bit of the w-th 32-bit register. */
  predicate Allowed(table: seq<bv8>, w: nat)
    requires w < 8 * |table|
  {
    HasBit(table[w / 8], w % 8)
  }

  /** No register is allowed from the lo-th up to the hi-th. */
  ghost predicate NoneIn(table: seq<bv8>, lo: nat, hi: nat)
    requires hi <= 8 * |table|
  {
    forall w: nat | lo <= w < hi :: !Allowed(table, w)
  }

  lemma NoneInByte(table: seq<bv8>, i: nat)
    requires i < |table|
    ensures table[i] == 0 <==> NoneIn(table, 8 * i, 8 * i + 8)
  {
    SomeBit(table[i]);
    if table[i] != 0 {
      var k: nat :| k < 8 && HasBit(table[i], k);
      assert Allowed(table, 8 * i + k);
    }
  }

  // ---- Building the table ----

  /** `after` is `before` with one more register. */
  ghost predicate Added(before: seq<bv8>, after: seq<bv8>, word: nat) {
    |after| == |before| && forall w: nat | w < 8 * |before| :: Allowed(after, w) <==> w == word || Allowed(before, w)
  }

  lemma SettingAdds(before: seq<bv8>, word: nat)
    requires word < 8 * |before|
    ensures Added(before, before[word / 8 := before[word / 8] | Mask(word % 8)], word)
  {
    var after := before[word / 8 := before[word / 8] | Mask(word % 8)];
    forall w: nat | w < 8 * |before|
      ensures Allowed(after, w) <==> w == word || Allowed(before, w)
    {
      if w / 8 == word / 8 { SetBit(before[word / 8], word % 8, w % 8); }
    }
  }

  /** Whether anything stands behind the new register is the same before and after it is set. */
  lemma SameBehind(before: seq<bv8>, after: seq<bv8>, word: nat)
    requires word < 8 * |before| && Added(before, after, word)
    ensures NoneIn(before, word, 8 * |before|) <==> NoneIn(after, word + 1, 8 * |after|) && !Allowed(before, word)
  {
    if !NoneIn(after, word + 1, 8 * |after|) {
      var w: nat :| word + 1 <= w < 8 * |after| && Allowed(after, w);
      assert Allowed(before, w);
    }
  }

  /** SetRegisterTableAllowed; a failed assumption stops the build. */
  method SetRegisterTableAllowed(arr: array<bv8>, reg: nat) returns (ok: bool)
    modifies arr
    ensures ok <==> reg % 4 == 0 && reg / 4 < 8 * arr.Length && NoneIn(old(arr[..]), reg / 4, 8 * arr.Length)
    ensures ok ==> Added(old(arr[..]), arr[..], reg / 4)
  {
    if reg % 4 != 0 {
      return false;
    }
    var word := reg / 4;
    if word / 8 >= arr.Length {
      return false;
    }
    ok := SetBitInOrder(arr, word, arr[..]);
  }

  method SetBitInOrder(arr: array<bv8>, word: nat, ghost before: seq<bv8>) returns (ok: bool)
    requires word < 8 * arr.Length && before == arr[..]
    modifies arr
    ensures ok <==> NoneIn(before, word, 8 * |before|)
    ensures ok ==> Added(before, arr[..], word)
  {
    assert HasBit(arr[word / 8], word % 8) == Allowed(before, word);
    if HasBit(arr[word / 8], word % 8) {
      return false;
    }
    SetOneBit(arr, word, before);
    SameBehind(before, arr[..], word);
    ok := NothingBehind(arr, word);
  }

  method SetOneBit(arr: array<bv8>, word: nat, ghost before: seq<bv8>)
    requires word < 8 * arr.Length && before == arr[..]
    modifies arr
    ensures Added(before, arr[..], word)
  {
    var index := word / 8;
    SettingAdds(before, word);
    arr[index] := arr[index] | Mask(word % 8);
    assert arr[..] == before[index := before[index] | Mask(word % 8)];
  }

  /** The check that registers are set in increasing order. */
  method NothingBehind(arr: array<bv8>, word: nat) returns (ok: bool)
    requires word < 8 * arr.Length
    ensures ok <==> NoneIn(arr[..], word + 1, 8 * arr.Length)
  {
    var index := word / 8;
    var i := word % 8 + 1;
    while i < 8
      invariant word % 8 < i <= 8
      invariant NoneIn(arr[..], word + 1, 8 * index + i)
    {
      assert HasBit(arr[index], i) == Allowed(arr[..], 8 * index + i);
      if HasBit(arr[index], i) {
        return false;
      }
      i := i + 1;
    }
    ok := BytesAreZero(arr, index + 1);
    NoneInParts(arr[..], word + 1, 8 * index + 8, 8 * arr.Length);
  }

  lemma NoneInParts(table: seq<bv8>, lo: nat, mid: nat, hi: nat)
    requires lo <= mid <= hi <= 8 * |table|
    ensures NoneIn(table, lo, hi) <==> NoneIn(table, lo, mid) && NoneIn(table, mid, hi)
  {
  }

  method BytesAreZero(arr: array<bv8>, start: nat) returns (ok: bool)
    requires start <= arr.Length
    ensures ok <==> NoneIn(arr[..], 8 * start, 8 * arr.Length)
  {
    var i := start;
    while i < arr.Length
      invariant start <= i <= arr.Length
      invariant NoneIn(arr[..], 8 * start, 8 * i)
    {
      NoneInByte(arr[..], i);
      if arr[i] != 0 {
        NoneInParts(arr[..], 8 * start, 8 * i, 8 * arr.Length);
        NoneInParts(arr[..], 8 * i, 8 * i + 8, 8 * arr.Length);
        return false;
      }
      i := i + 1;
    }
    return true;
  }

  // ---- The whole pipeline ----

  /** Four-byte aligned, within a table of `n` bytes, and strictly increasing. */
  ghost predicate WellFormed(regs: seq<nat>, n: nat) {
    && (forall i | 0 <= i < |regs| :: regs[i] % 4 == 0 && regs[i] / 4 < 8 * n)
    && (forall i, k | 0 <= i < k < |regs| :: regs[i] < regs[k])
  }

  /** The raw table holds exactly the registers of the list. */
  ghost predicate Holds(table: seq<bv8>, regs: seq<nat>) {
    forall w: nat | w < 8 * |table| :: Allowed(table, w) <==> 4 * w in regs
  }

  method BuildRawTable(regs: seq<nat>, n: nat) returns (r: Option<seq<bv8>>)
    ensures r.Some? <==> WellFormed(regs, n)
    ensures r.Some? ==> |r.value| == n && Holds(r.value, regs)
  {
    var arr := new bv8[n](_ => 0);
    var i := 0;
    while i < |regs|
      invariant i <= |regs|
      invariant WellFormed(regs[..i], n) && Holds(arr[..], regs[..i])
    {
      ghost var before := arr[..];
      var ok := SetRegisterTableAllowed(arr, regs[i]);
      OneMore(before, regs, i, n);
      if !ok {
        return None;
      }
      AddedHolds(before, arr[..], regs, i);
      i := i + 1;
    }
    assert regs[..|regs|] == regs;
    return Some(arr[..]);
  }

  /** The next register is accepted exactly when the list up to it is well-formed. */
  lemma OneMore(table: seq<bv8>, regs: seq<nat>, i: nat, n: nat)
    requires |table| == n && i < |regs| && WellFormed(regs[..i], n) && Holds(table, regs[..i])
    ensures regs[i] % 4 == 0 && regs[i] / 4 < 8 * n && NoneIn(table, regs[i] / 4, 8 * n) <==> WellFormed(regs[..i + 1], n)
    ensures WellFormed(regs, n) ==> WellFormed(regs[..i + 1], n)
  {
    var w := regs[i] / 4;
    if regs[i] % 4 == 0 && w < 8 * n {
      if NoneIn(table, w, 8 * n) {
        forall k | 0 <= k < i
          ensures regs[k] < regs[i]
        {
          assert regs[..i][k] == regs[k] && Allowed(table, regs[k] / 4);
        }
      }
    }
  }

  lemma AddedHolds(before: seq<bv8>, after: seq<bv8>, regs: seq<nat>, i: nat)
    requires i < |regs| && regs[i] % 4 == 0 && Holds(before, regs[..i]) && Added(before, after, regs[i] / 4)
    ensures Holds(after, regs[..i + 1])
  {
    assert regs[..i + 1] == regs[..i] + [regs[i]];
  }

  /** GetReducedAccessTableInfo: from the first byte that is not 0 to the last. An empty table stops the build. */
  method GetReducedAccessTableInfo(raw: seq<bv8>) returns (r: Option<(nat, nat)>)
    ensures r.None? <==> NoneIn(raw, 0, 8 * |raw|)
    ensures r.Some? ==> var (start, end) := r.value;
              && start < end <= |raw| && raw[start] != 0 && raw[end - 1] != 0
              && NoneIn(raw, 0, 8 * start) && NoneIn(raw, 8 * end, 8 * |raw|)
  {
    var last: int := |raw| - 1;
    while last >= 0
      invariant -1 <= last < |raw|
      invariant NoneIn(raw, 8 * (last + 1), 8 * |raw|)
    {
      NoneInByte(raw, last);
      if raw[last] != 0 {
        var start := FirstNonZero(raw, last);
        return Some((start, last + 1));
      }
      last := last - 1;
    }
    return None;
  }

  method FirstNonZero(raw: seq<bv8>, last: nat) returns (start: nat)
    requires last < |raw| && raw[last] != 0
    ensures start <= last && raw[start] != 0 && NoneIn(raw, 0, 8 * start)
  {
    start := 0;
    while raw[start] == 0
      invariant start <= last && NoneIn(raw, 0, 8 * start)
      decreases last - start
    {
      NoneInByte(raw, start);
      start := start + 1;
    }
  }

  /** AccessTable: the bytes from the first to the last that holds a register, and the address of the first. */
  method MakeAccessTable(base: u32, raw: seq<bv8>) returns (r: Option<AccessTableEntry>)
    ensures r.Some? ==> Trimmed(base, raw, r.value) && r.value.size <= 0x1000
    ensures r.None? ==> NoneIn(raw, 0, 8 * |raw|) || exists e :: Trimmed(base, raw, e) && e.size > 0x1000
  {
    var info := GetReducedAccessTableInfo(raw);
    if info.None? {
      return None;
    }
    var (start, end) := info.value;
    var reduced := [];
    var i := start;
    while i < end
      invariant start <= i <= end && reduced == raw[start..i]
    {
      reduced := reduced + [raw[i]];
      i := i + 1;
    }
    var entry := AccessTableEntry(reduced, (base + start * 32) % ADDRESS_LIMIT, (end - start) * 32 % ADDRESS_LIMIT);
    assert TrimmedAt(base, raw, entry, start);
    if entry.size > 0x1000 {
      return None;
    }
    return Some(entry);
  }

  /** The entry is the stretch of the raw table from byte `start` on; it starts and ends with a register and leaves none out. */
  ghost predicate TrimmedAt(base: u32, raw: seq<bv8>, e: AccessTableEntry, start: nat) {
    var end := start + |e.table|;
    && start < end <= |raw| && e.table == raw[start..end] && raw[start] != 0 && raw[end - 1] != 0
    && NoneIn(raw, 0, 8 * start) && NoneIn(raw, 8 * end, 8 * |raw|)
    && e.address == (base + start * 32) % ADDRESS_LIMIT && e.size == (end - start) * 32 % ADDRESS_LIMIT
  }

  ghost predicate Trimmed(base: u32, raw: seq<bv8>, e: AccessTableEntry) {
    exists start: nat :: TrimmedAt(base, raw, e, start)
  }

  // ---- Looking a register up ----

  /** The address is in the table's range, whose end is a 32-bit sum, and its register's bit is set. */
  predicate AccessAllowed(entry: AccessTableEntry, address: nat)
    requires entry.Valid()
  {
    && entry.address <= address < (entry.address + entry.size) % ADDRESS_LIMIT
    && Allowed(entry.table, (address - entry.address) / 4)
  }

  /** IsAccessAllowed. The range check alone keeps the index inside the table, so the second check never refuses. */
  method IsAccessAllowed(entry: AccessTableEntry, address: nat) returns (allowed: bool)
    requires entry.Valid()
    ensures allowed <==> AccessAllowed(entry, address)
  {
    if !(entry.address <= address < (entry.address + entry.size) % ADDRESS_LIMIT) {
      return false;
    }
    var register := (address - entry.address) / 4;
    var index := register / 8;
    assert index < |entry.table| && index < entry.size / 4;
    if index >= entry.size / 4 {
      return false;
    }
    return HasBit(entry.table[index], register % 8);
  }

  /** The register at the address is in the list. */
  predicate InList(base: u32, regs: seq<nat>, address: nat) { base <= address && (address - base) / 4 * 4 in regs }

  /** Every address is answered by the list. */
  ghost predicate AsksTheList(base: u32, regs: seq<nat>, e: AccessTableEntry)
    requires e.Valid()
  {
    forall address: nat :: AccessAllowed(e, address) <==> InList(base, regs, address)
  }

  /** Where the last byte of the table that holds a register of the list ends. */
  function EndOf(base: u32, regs: seq<nat>): nat
    requires regs != []
  {
    base + (regs[|regs| - 1] / 32 + 1) * 32
  }

  lemma CutOnlyAtTheTop(n: nat, size: u32)
    requires size == n * 32 % ADDRESS_LIMIT
    ensures size % 32 == 0 && size <= 32 * n
  {
  }

  /** Below 2^32 nothing is cut off. */
  lemma NothingCut(base: u32, start: nat, length: nat, address: u32, size: u32)
    requires address == (base + start * 32) % ADDRESS_LIMIT && size == length * 32 % ADDRESS_LIMIT
    requires base + 32 * (start + length) < ADDRESS_LIMIT
    ensures address == base + 32 * start && size == 32 * length && (address + size) % ADDRESS_LIMIT == address + size
  {
  }

  /** The trimmed table answers what the raw one does, and nothing outside of it. */
  lemma LookupInRaw(raw: seq<bv8>, table: seq<bv8>, start: nat, word: nat, offset: nat)
    requires start + |table| <= |raw| && table == raw[start..start + |table|] && word == offset / 4
    requires NoneIn(raw, 0, 8 * start) && NoneIn(raw, 8 * (start + |table|), 8 * |raw|)
    ensures 32 * start <= offset < 32 * (start + |table|) && Allowed(table, (offset - 32 * start) / 4)
       <==> word < 8 * |raw| && Allowed(raw, word)
  {
    if 32 * start <= offset < 32 * (start + |table|) {
      assert (offset - 32 * start) / 4 == word - 8 * start;
      assert Allowed(table, word - 8 * start) == Allowed(raw, word);
    } else if word < 8 * |raw| {
      assert word < 8 * start || 8 * (start + |table|) <= word;
    }
  }

  /** The lookup in terms of the offset from the raw table's start. */
  lemma AllowedMeans(e: AccessTableEntry, base: u32, start: nat, offset: nat)
    requires e.Valid() && e.address == base + 32 * start && e.size == 32 * |e.table|
    requires (e.address + e.size) % ADDRESS_LIMIT == e.address + e.size
    ensures AccessAllowed(e, base + offset)
       <==> 32 * start <= offset < 32 * (start + |e.table|) && Allowed(e.table, (offset - 32 * start) / 4)
  {
  }

  /** Within 32 bits, trimming and moving the table changes no answer: an address is allowed exactly if its register is in
      the list. */
  lemma LookupAsksTheList(base: u32, regs: seq<nat>, raw: seq<bv8>, e: AccessTableEntry, start: nat, address: nat)
    requires Holds(raw, regs) && WellFormed(regs, |raw|) && TrimmedAt(base, raw, e, start)
    requires base + 32 * (start + |e.table|) < ADDRESS_LIMIT
    ensures e.Valid() && (AccessAllowed(e, address) <==> InList(base, regs, address))
  {
    NothingCut(base, start, |e.table|, e.address, e.size);
    CutOnlyAtTheTop(|e.table|, e.size);
    if base <= address {
      var offset := address - base;
      AllowedMeans(e, base, start, offset);
      LookupInRaw(raw, e.table, start, offset / 4, offset);
      RawAsksTheList(regs, raw, offset / 4);
    }
  }

  lemma RawAsksTheList(regs: seq<nat>, raw: seq<bv8>, word: nat)
    requires Holds(raw, regs) && WellFormed(regs, |raw|)
    ensures word < 8 * |raw| && Allowed(raw, word) <==> word * 4 in regs
  {
    if word >= 8 * |raw| { assert 4 * word !in regs; }
  }

  lemma {:induction false} WholeTurns(n: nat, k: nat)
    ensures (n + k * ADDRESS_LIMIT) % ADDRESS_LIMIT == n % ADDRESS_LIMIT
  {
    if k > 0 {
      WholeTurns(n, k - 1);
      assert n + k * ADDRESS_LIMIT == (n + (k - 1) * ADDRESS_LIMIT) + ADDRESS_LIMIT;
    }
  }

  /** The end of the range is what 32 bits leave of the end of the table. */
  lemma EndIsCut(base: u32, first: nat, length: nat, address: u32, size: u32)
    requires address == (base + first * 32) % ADDRESS_LIMIT && size == length * 32 % ADDRESS_LIMIT
    ensures (address + size) % ADDRESS_LIMIT == (base + 32 * (first + length)) % ADDRESS_LIMIT
  {
    var k, l := (base + first * 32) / ADDRESS_LIMIT, length * 32 / ADDRESS_LIMIT;
    WholeTurns(address + size, k + l);
    assert base + 32 * (first + length) == address + size + (k + l) * ADDRESS_LIMIT;
  }

  lemma CutOnce(n: nat)
    requires ADDRESS_LIMIT <= n < 2 * ADDRESS_LIMIT
    ensures n % ADDRESS_LIMIT == n - ADDRESS_LIMIT
  {
  }

  lemma CutBelow(n: nat)
    ensures n % ADDRESS_LIMIT < ADDRESS_LIMIT
  {
  }

  /** A table that reaches 2^32 refuses its own last register. */
  lemma LastIsRefused(base: u32, first: nat, length: nat, address: u32, size: u32, last: nat)
    requires address == (base + first * 32) % ADDRESS_LIMIT && size == length * 32 % ADDRESS_LIMIT
    requires base + 32 * (first + length) >= ADDRESS_LIMIT && length > 0 && last / 32 == first + length - 1
    ensures !(address <= base + last < (address + size) % ADDRESS_LIMIT)
  {
    var end := base + 32 * (first + length);
    EndIsCut(base, first, length, address, size);
    LastIsBehind(base, end, last);
  }

  lemma LastIsBehind(base: u32, end: nat, last: nat)
    requires end >= ADDRESS_LIMIT && end == base + 32 * (last / 32 + 1)
    ensures end % ADDRESS_LIMIT <= base + last
  {
    assert end - 32 <= base + last;
    if end < 2 * ADDRESS_LIMIT { CutOnce(end); } else { CutBelow(end); }
  }

  /** How much a list spans, in bytes of address. */
  function Span(regs: seq<nat>): nat
    requires regs != [] && regs[0] <= regs[|regs| - 1]
  {
    (regs[|regs| - 1] / 32 - regs[0] / 32 + 1) * 32
  }

  lemma FirstRegister(regs: seq<nat>, raw: seq<bv8>, start: nat)
    requires Holds(raw, regs) && WellFormed(regs, |raw|) && start < |raw| && raw[start] != 0 && NoneIn(raw, 0, 8 * start)
    ensures regs != [] && regs[0] / 32 == start
  {
    SomeBit(raw[start]);
    var k: nat :| k < 8 && HasBit(raw[start], k);
    assert Allowed(raw, 8 * start + k);
    assert Allowed(raw, regs[0] / 4);
  }

  lemma LastRegister(regs: seq<nat>, raw: seq<bv8>, last: nat)
    requires Holds(raw, regs) && WellFormed(regs, |raw|) && last < |raw| && raw[last] != 0
    requires NoneIn(raw, 8 * last + 8, 8 * |raw|)
    ensures regs != [] && regs[|regs| - 1] / 32 == last
  {
    SomeBit(raw[last]);
    var k: nat :| k < 8 && HasBit(raw[last], k);
    assert Allowed(raw, 8 * last + k);
    assert Allowed(raw, regs[|regs| - 1] / 4);
  }

  lemma TableSpansTheList(base: u32, regs: seq<nat>, raw: seq<bv8>, e: AccessTableEntry, start: nat)
    requires Holds(raw, regs) && WellFormed(regs, |raw|) && TrimmedAt(base, raw, e, start)
    ensures regs != [] && regs[0] <= regs[|regs| - 1]
    ensures regs[0] / 32 == start && regs[|regs| - 1] / 32 == start + |e.table| - 1
    ensures e.size == Span(regs) % ADDRESS_LIMIT && EndOf(base, regs) == base + 32 * (start + |e.table|)
  {
    FirstRegister(regs, raw, start);
    LastRegister(regs, raw, start + |e.table| - 1);
  }

  /** Every address is answered as the list says exactly when the table ends below 2^32. */
  lemma AsksTheListExactly(base: u32, regs: seq<nat>, raw: seq<bv8>, e: AccessTableEntry, start: nat)
    requires Holds(raw, regs) && WellFormed(regs, |raw|) && TrimmedAt(base, raw, e, start)
    ensures e.Valid() && regs != [] && (AsksTheList(base, regs, e) <==> EndOf(base, regs) < ADDRESS_LIMIT)
  {
    TableSpansTheList(base, regs, raw, e, start);
    CutOnlyAtTheTop(|e.table|, e.size);
    if EndOf(base, regs) < ADDRESS_LIMIT {
      forall address: nat
        ensures AccessAllowed(e, address) <==> InList(base, regs, address)
      {
        LookupAsksTheList(base, regs, raw, e, start, address);
      }
    } else {
      LastIsRefused(base, start, |e.table|, e.address, e.size, regs[|regs| - 1]);
      LastIsListed(base, regs, raw);
    }
  }

  lemma LastIsListed(base: u32, regs: seq<nat>, raw: seq<bv8>)
    requires WellFormed(regs, |raw|) && regs != []
    ensures InList(base, regs, base + regs[|regs| - 1])
  {
    assert regs[|regs| - 1] / 4 * 4 == regs[|regs| - 1];
  }

  lemma SomethingIsAllowed(regs: seq<nat>, raw: seq<bv8>)
    requires Holds(raw, regs) && WellFormed(regs, |raw|) && regs != []
    ensures !NoneIn(raw, 0, 8 * |raw|)
  {
    assert Allowed(raw, regs[0] / 4);
  }

  lemma TooLongOrEmpty(base: u32, regs: seq<nat>, raw: seq<bv8>)
    requires Holds(raw, regs) && WellFormed(regs, |raw|)
    requires NoneIn(raw, 0, 8 * |raw|) || exists e :: Trimmed(base, raw, e) && e.size > 0x1000
    ensures regs == [] || Span(regs) % ADDRESS_LIMIT > 0x1000
  {
    if regs != [] {
      SomethingIsAllowed(regs, raw);
      var e :| Trimmed(base, raw, e) && e.size > 0x1000;
      var start: nat :| TrimmedAt(base, raw, e, start);
      TableSpansTheList(base, regs, raw, e, start);
    }
  }

  /** From the list to the table the monitor consults. The build succeeds exactly for non-empty, aligned, strictly
      increasing lists within the raw table whose span, in 32 bits, is at most 0x1000 bytes; then looking up asks the list
      exactly when the table ends below 2^32. */
  method BuildAccessTable(base: u32, regs: seq<nat>, n: nat) returns (r: Option<AccessTableEntry>)
    ensures r.Some? <==> WellFormed(regs, n) && regs != [] && Span(regs) % ADDRESS_LIMIT <= 0x1000
    ensures r.Some? ==> r.value.Valid() && (AsksTheList(base, regs, r.value) <==> EndOf(base, regs) < ADDRESS_LIMIT)
  {
    var raw := BuildRawTable(regs, n);
    if raw.None? {
      return None;
    }
    r := MakeAccessTable(base, raw.value);
    if r.Some? {
      ghost var start: nat :| TrimmedAt(base, raw.value, r.value, start);
      TableSpansTheList(base, regs, raw.value, r.value, start);
      AsksTheListExactly(base, regs, raw.value, r.value, start);
      return;
    }
    TooLongOrEmpty(base, regs, raw.value);
  }
}
