/** MemTester's stuck-address test over memory with faulty address lines, and the two halves a worker tests. */
module MemTesterAddresses {

  const ADDRESS_SPACE: nat := 0x1_0000_0000_0000_0000

  /** Word i of the buffer lives in cell `lines[i]`; sound memory gives each word a cell of its own. */
  class CellMemory {
    const lines: seq<nat>
    const cells: array<nat>

    ghost predicate Valid() { forall i {:trigger lines[i]} | 0 <= i < |lines| :: lines[i] < cells.Length }

    constructor (lines: seq<nat>, size: nat)
      requires forall i | 0 <= i < |lines| :: lines[i] < size
      ensures Valid() && fresh(cells) && this.lines == lines
    {
      this.lines := lines;
      cells := new nat[size](_ => 0);
    }
  }

  ghost predicate Injective(lines: seq<nat>, count: nat)
    requires count <= |lines|
  {
    forall i, k | 0 <= i < k < count :: lines[i] != lines[k]
  }

  /** The word written to index i in pass j: its address, or the complement of that, in turns. */
  function Pattern(base: nat, j: nat, i: nat): int {
    if (j + i) % 2 == 0 then base + 8 * i else ADDRESS_SPACE - 1 - (base + 8 * i)
  }

  lemma PatternIs(base: nat, j: nat, i: nat)
    ensures Pattern(base, j, i) == if (i + j) % 2 == 0 then base + 8 * i else 0xFFFF_FFFF_FFFF_FFFF - (base + 8 * i)
  {
  }

  /** An aligned address is never the complement of another, so no two indices get the same word. */
  lemma PatternsDiffer(base: nat, j: nat, i: nat, k: nat)
    requires base % 8 == 0 && i != k
    ensures Pattern(base, j, i) != Pattern(base, j, k)
  {
  }

  /** The last of the first n indices that lives in the cell. */
  function Last(lines: seq<nat>, n: nat, cell: nat): (i: nat)
    requires n <= |lines| && cell in lines[..n]
    ensures i < n && lines[i] == cell && forall k | i < k < n :: lines[k] != cell
  {
    if lines[n - 1] == cell then n - 1 else Last(lines, n - 1, cell)
  }

  lemma LastIsIdentityExactly(lines: seq<nat>, count: nat)
    requires count <= |lines|
    ensures Injective(lines, count) <==> forall i {:trigger lines[i]} | 0 <= i < count :: Last(lines, count, lines[i]) == i
  {
    forall i, k | 0 <= i < k < count && (forall x {:trigger lines[x]} | 0 <= x < count :: Last(lines, count, lines[x]) == x)
      ensures lines[i] != lines[k]
    {
    }
  }

  /** After the n first words have been written, each cell holds the word of its last index. */
  ghost predicate Filled(m: CellMemory, base: nat, j: nat, n: nat)
    requires m.Valid() && n <= |m.lines|
    reads m.cells
  {
    forall k {:trigger m.lines[k]} | 0 <= k < n :: m.cells[m.lines[k]] == Pattern(base, j, Last(m.lines, n, m.lines[k]))
  }

  lemma FilledStep(lines: seq<nat>, n: nat, k: nat)
    requires k <= n < |lines|
    ensures Last(lines, n + 1, lines[k]) == if lines[k] == lines[n] then n else Last(lines, n, lines[k])
  {
  }

  method WriteAddress(m: CellMemory, base: nat, j: nat, i: nat) returns (next: nat)
    requires m.Valid() && i < |m.lines| && Filled(m, base, j, i) && base + 8 * i < ADDRESS_SPACE
    modifies m.cells
    ensures next == i + 1 && Filled(m, base, j, next)
  {
    var p1 := base + 8 * i;
    var word := if (j + i) % 2 == 0 then p1 else ADDRESS_SPACE - 1 - p1;
    assert word == Pattern(base, j, i);
    m.cells[m.lines[i]] := word;
    forall k {:trigger m.lines[k]} | 0 <= k < i + 1
      ensures m.cells[m.lines[k]] == Pattern(base, j, Last(m.lines, i + 1, m.lines[k]))
    {
      FilledStep(m.lines, i, k);
    }
    next := i + 1;
  }

  method WriteAddresses(m: CellMemory, base: nat, count: nat, j: nat)
    requires m.Valid() && count <= |m.lines| && base + 8 * count <= ADDRESS_SPACE
    modifies m.cells
    ensures Filled(m, base, j, count)
  {
    var i := 0;
    while i < count
      invariant i <= count && Filled(m, base, j, i)
    {
      i := WriteAddress(m, base, j, i);
    }
  }

  /** A word reads as written exactly when its index is the last of its cell. */
  lemma WordIsOwn(m: CellMemory, base: nat, count: nat, j: nat, i: nat, expected: int)
    requires m.Valid() && i < count <= |m.lines| && base % 8 == 0 && Filled(m, base, j, count) && expected == Pattern(base, j, i)
    ensures m.cells[m.lines[i]] == expected <==> Last(m.lines, count, m.lines[i]) == i
  {
    var last := Last(m.lines, count, m.lines[i]);
    assert m.cells[m.lines[i]] == Pattern(base, j, last);
    if last != i { PatternsDiffer(base, j, last, i); }
  }

  method AddressesAreThere(m: CellMemory, base: nat, count: nat, j: nat) returns (ok: bool)
    requires m.Valid() && count <= |m.lines| && base % 8 == 0 && base + 8 * count <= ADDRESS_SPACE
    requires Filled(m, base, j, count)
    ensures ok <==> Injective(m.lines, count)
  {
    LastIsIdentityExactly(m.lines, count);
    var i := 0;
    while i < count
      invariant i <= count
      invariant forall k {:trigger m.lines[k]} | 0 <= k < i :: Last(m.lines, count, m.lines[k]) == k
    {
      var p1 := base + 8 * i;
      var expected := if (j + i) % 2 == 0 then p1 else ADDRESS_SPACE - 1 - p1;
      WordIsOwn(m, base, count, j, i, expected);
      if m.cells[m.lines[i]] != expected {
        return false;
      }
      i := i + 1;
    }
    return true;
  }

  /** test_stuck_address: it returns 0 exactly when no two words share a cell, provided it makes a pass at all. */
  method TestStuckAddress(m: CellMemory, base: nat, count: nat, dividend: nat) returns (rc: int)
    requires m.Valid() && count <= |m.lines| && base % 8 == 0 && base + 8 * count <= ADDRESS_SPACE && dividend > 0
    modifies m.cells
    ensures rc == if dividend > 16 || Injective(m.lines, count) then 0 else -1
  {
    var j := 0;
    while j < 16 / dividend
      invariant j > 0 ==> Injective(m.lines, count)
    {
      WriteAddresses(m, base, count, j);
      var ok := AddressesAreThere(m, base, count, j);
      if !ok {
        return -1;
      }
      j := j + 1;
    }
    return 0;
  }

  // ---- The block of a worker ----

  const PAGE: nat := 4096

  /** Main's alignment of a block of `wanted` bytes at `buf`. The size is unsigned, so it wraps around. */
  method AlignBlock(buf: nat, wanted: nat) returns (aligned: nat, size: nat)
    requires buf + wanted + PAGE <= ADDRESS_SPACE
    ensures aligned % 4096 == 0 && buf <= aligned < buf + 4096
    ensures size == (wanted - (aligned - buf)) % 0x1_0000_0000_0000_0000
    ensures aligned + size == buf + wanted <==> aligned <= buf + wanted
    ensures wanted >= PAGE ==> aligned + size == buf + wanted
  {
    size := wanted;
    if buf % PAGE != 0 {
      aligned := buf / PAGE * PAGE + PAGE;
      size := (size + ADDRESS_SPACE - (aligned - buf)) % ADDRESS_SPACE;
    } else {
      aligned := buf;
    }
  }

  /** The halves a worker hands to a test: their addresses and their length in words. */
  function FirstHalf(aligned: nat, size: nat): (nat, nat) { (aligned, size / 8 / 2) }

  function SecondHalf(aligned: nat, size: nat): (nat, nat) { (aligned + size / 2, size / 8 / 2) }

  /** Both halves lie in the aligned block and do not overlap; the second is aligned like the first
      exactly when the size is 0 or 1 above a multiple of 16. */
  lemma HalvesAreDisjoint(aligned: nat, size: nat)
    ensures var (a, n) := FirstHalf(aligned, size); var (b, k) := SecondHalf(aligned, size);
            && n == k == size / 16 && aligned == a && b == aligned + size / 2
            && a + 8 * n <= b && b + 8 * k <= aligned + size
    ensures aligned % 8 == 0 ==> (SecondHalf(aligned, size).0 % 8 == 0 <==> size % 16 <= 1)
  {
    var q, r := size / 16, size % 16;
    assert size == 16 * q + r;
    assert size / 8 / 2 == q;
    assert size / 2 == 8 * q + r / 2;
    if aligned % 8 == 0 {
      assert (aligned + 8 * q + r / 2) % 8 == r / 2;
    }
  }
}
