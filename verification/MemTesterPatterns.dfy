/** MemTester's comparison tests over a pair of memory halves whose cells may have stuck bits:
    what each test can tell, and what the whole test table can. */
module MemTesterPatterns {

  type Word = bv64

  /** How many words there are. */
  const WORDS: nat := 0x1_0000_0000_0000_0000

  const ONES: Word := 0xFFFF_FFFF_FFFF_FFFF
  const CHECKERBOARD1: Word := 0x5555_5555_5555_5555
  const CHECKERBOARD2: Word := 0xAAAA_AAAA_AAAA_AAAA

  /** What a cell gives back: the bits of `zeros` are stuck at 0, those of `ones` at 1. */
  function Seen(zeros: Word, ones: Word, v: Word): Word { (v & !zeros) | ones }

  /** A cell is known by what it makes of one word and of its complement. */
  lemma ComplementsDecide(z1: Word, o1: Word, z2: Word, o2: Word, q: Word, v: Word)
    requires Seen(z1, o1, q) == Seen(z2, o2, q) && Seen(z1, o1, !q) == Seen(z2, o2, !q)
    ensures Seen(z1, o1, v) == Seen(z2, o2, v)
  {
    CellFromTwoReads(z1, o1, q, v);
    CellFromTwoReads(z2, o2, q, v);
  }

  lemma CellFromTwoReads(z: Word, o: Word, q: Word, v: Word)
    ensures Seen(z, o, v) == (v & (Seen(z, o, q) | Seen(z, o, !q))) | (Seen(z, o, q) & Seen(z, o, !q))
  {
    StuckOnes(z, o, q);
    NotStuckZeros(z, o, q);
    Absorbed(z, o, v);
  }

  lemma StuckOnes(z: Word, o: Word, q: Word)
    ensures Seen(z, o, q) & Seen(z, o, !q) == o
  {
  }

  lemma NotStuckZeros(z: Word, o: Word, q: Word)
    ensures Seen(z, o, q) | Seen(z, o, !q) == !z | o
  {
  }

  lemma Absorbed(z: Word, o: Word, v: Word)
    ensures (v & (!z | o)) | o == Seen(z, o, v)
  {
  }

  /** One half of a worker's block. */
  class Half {
    const zeros: seq<Word>
    const ones: seq<Word>
    const stored: array<Word>

    ghost predicate Valid() { |zeros| == |ones| == stored.Length }

    constructor (zeros: seq<Word>, ones: seq<Word>, init: Word)
      requires |zeros| == |ones|
      ensures Valid() && fresh(stored) && this.zeros == zeros && this.ones == ones
    {
      this.zeros, this.ones := zeros, ones;
      stored := new Word[|zeros|](_ => init);
    }

    function Read(i: nat): Word
      requires Valid() && i < stored.Length
      reads stored
    {
      Seen(zeros[i], ones[i], stored[i])
    }

    method Write(i: nat, v: Word)
      requires Valid() && i < stored.Length
      modifies stored
      ensures stored[..] == old(stored[..])[i := v]
    {
      stored[i] := v;
    }
  }

  /** Two halves of at least `count` words that are not the same memory. */
  ghost predicate Halves(a: Half, b: Half, count: nat) {
    a.Valid() && b.Valid() && a.stored != b.stored && count <= a.stored.Length && count <= b.stored.Length
  }

  /** Cell i of either half makes the same of `v`. */
  predicate Agree(a: Half, b: Half, i: nat, v: Word)
    requires Halves(a, b, i + 1)
  {
    Seen(a.zeros[i], a.ones[i], v) == Seen(b.zeros[i], b.ones[i], v)
  }

  /** The halves cannot be told apart. */
  ghost predicate Alike(a: Half, b: Half, count: nat)
    requires Halves(a, b, count)
  {
    forall i: nat, v: Word | i < count :: Agree(a, b, i, v)
  }

  /** Nothing behind the first `count` words has changed. */
  twostate predicate RestUnchanged(a: Half, b: Half, count: nat)
    requires Halves(a, b, count)
    reads a.stored, b.stored
  {
    && (forall k | count <= k < a.stored.Length :: a.stored[k] == old(a.stored[k]))
    && (forall k | count <= k < b.stored.Length :: b.stored[k] == old(b.stored[k]))
  }

  twostate lemma RestStays(a: Half, b: Half, count: nat, k: nat)
    requires Halves(a, b, count) && RestUnchanged(a, b, count) && count <= k
    ensures k < a.stored.Length ==> a.stored[k] == old(a.stored[k])
    ensures k < b.stored.Length ==> b.stored[k] == old(b.stored[k])
  {
  }

  /** At the moment they read the same. */
  ghost predicate Equal(a: Half, b: Half, count: nat)
    requires Halves(a, b, count)
    reads a.stored, b.stored
  {
    forall i: nat | i < count :: a.Read(i) == b.Read(i)
  }

  lemma SameWordsReadTheSame(a: Half, b: Half, count: nat)
    requires Halves(a, b, count) && Alike(a, b, count)
    requires forall i: nat | i < count :: a.stored[i] == b.stored[i]
    ensures Equal(a, b, count)
  {
    forall i: nat | i < count
      ensures a.Read(i) == b.Read(i)
    {
      assert Agree(a, b, i, a.stored[i]);
    }
  }

  method CompareRegions(a: Half, b: Half, count: nat) returns (r: int)
    requires Halves(a, b, count)
    ensures r == if Equal(a, b, count) then 0 else -1
  {
    r := 0;
    var i := 0;
    while i < count
      invariant i <= count
      invariant r == if Equal(a, b, i) then 0 else -1
    {
      if a.Read(i) != b.Read(i) { r := -1; }
      i := i + 1;
    }
  }

  // ---- Tests that change what is there ----

  /** Every word of both halves goes through the same operation `op`. */
  method UpdateTest(a: Half, b: Half, count: nat, op: Word -> Word) returns (rc: int)
    requires Halves(a, b, count)
    modifies a.stored, b.stored
    ensures rc == if Equal(a, b, count) then 0 else -1
    ensures forall i | 0 <= i < count :: a.stored[i] == op(old(a.Read(i))) && b.stored[i] == op(old(b.Read(i)))
    ensures old(Equal(a, b, count)) && Alike(a, b, count) ==> rc == 0
    ensures RestUnchanged(a, b, count)
  {
    var i := 0;
    while i < count
      invariant i <= count && RestUnchanged(a, b, count)
      invariant forall k | 0 <= k < i :: a.stored[k] == op(old(a.Read(k))) && b.stored[k] == op(old(b.Read(k)))
      invariant forall k | i <= k < count :: a.stored[k] == old(a.stored[k]) && b.stored[k] == old(b.stored[k])
    {
      a.Write(i, op(a.Read(i)));
      b.Write(i, op(b.Read(i)));
      i := i + 1;
    }
    if old(Equal(a, b, count)) && Alike(a, b, count) { SameWordsReadTheSame(a, b, count); }
    rc := CompareRegions(a, b, count);
  }

  // ---- Tests that write a pattern ----

  /** The words a test writes in its j-th pass. */
  datatype Pattern =
    | RandomValue(words: nat -> Word) | SequentialIncrement(start: Word) | SolidBits | BlockSequential | Checkerboard
    | BitSpread(tooFar: nat -> Word) | BitFlip | WalkingOnes | WalkingZeroes
  {
    function Passes(dividend: nat): nat
      requires dividend > 0
    {
      match this
      case RandomValue(_) => 1
      case SequentialIncrement(_) => 1
      case SolidBits => Reduced(64, dividend)
      case BlockSequential => Reduced(64, dividend)
      case Checkerboard => Reduced(64, dividend)
      case BitSpread(_) => Reduced(128, dividend)
      case BitFlip => Reduced(64, dividend) * 8
      case WalkingOnes => Reduced(128, dividend)
      case WalkingZeroes => Reduced(128, dividend)
    }

    /** The word for cell i. */
    function Value(j: nat, i: nat): Word {
      match this
      case RandomValue(words) => words(i)
      case SequentialIncrement(start) => start + IndexWord(i)
      case SolidBits => Alternate(i, if j % 2 == 0 then ONES else 0)
      case BlockSequential => RepeatedByte(IndexWord(j))
      case Checkerboard => Alternate(i, if j % 2 == 0 then CHECKERBOARD1 else CHECKERBOARD2)
      case BitSpread(tooFar) => Alternate(i, if Walk(j) < 62 then Bit(Walk(j)) | Bit(Walk(j) + 2) else tooFar(j))
      case BitFlip => Alternate(i, if j % 2 == 0 then Complement(Bit(j / 8)) else Bit(j / 8))
      case WalkingOnes => Complement(Bit(Walk(j)))
      case WalkingZeroes => Bit(Walk(j))
    }
  }

  /** Long tests do fewer passes when there is a dividend. */
  function Reduced(n: nat, dividend: nat): nat
    requires dividend > 0
  {
    n / dividend / dividend
  }

  function Complement(q: Word): Word { !q }

  function Alternate(i: nat, q: Word): Word { if i % 2 == 0 then q else Complement(q) }

  /** Up and back down. */
  function Walk(j: nat): int { if j < 64 then j else 127 - j }

  function Bit(k: int): Word { if k <= 0 then 1 else Bit(k - 1) << 1 }

  /** An index as a word. */
  function IndexWord(n: nat): Word { if n < WORDS then n as bv64 else (n % WORDS) as bv64 }

  function RepeatedByte(x: Word): Word {
    x | (x << 8) | (x << 16) | (x << 24) | (x << 32) | (x << 40) | (x << 48) | (x << 56)
  }

  /** The halves agree on every word the test writes. */
  ghost predicate AgreeOn(a: Half, b: Half, count: nat, p: Pattern, dividend: nat)
    requires Halves(a, b, count) && dividend > 0
  {
    forall j, i: nat | 0 <= j < p.Passes(dividend) && i < count :: Agree(a, b, i, p.Value(j, i))
  }

  method PatternTest(a: Half, b: Half, count: nat, p: Pattern, dividend: nat) returns (rc: int)
    requires Halves(a, b, count) && dividend > 0
    modifies a.stored, b.stored
    ensures rc == 0 || rc == -1
    ensures rc == 0 <==> AgreeOn(a, b, count, p, dividend)
    ensures rc == 0 && (old(Equal(a, b, count)) || p.Passes(dividend) > 0) ==> Equal(a, b, count)
    ensures RestUnchanged(a, b, count)
  {
    var j := 0;
    while j < p.Passes(dividend)
      invariant j <= p.Passes(dividend) && RestUnchanged(a, b, count)
      invariant forall k, i: nat | 0 <= k < j && i < count :: Agree(a, b, i, p.Value(k, i))
      invariant old(Equal(a, b, count)) || j > 0 ==> Equal(a, b, count)
    {
      var r := OnePass(a, b, count, p, j);
      if r != 0 {
        return -1;
      }
      j := j + 1;
    }
    return 0;
  }

  /** One pass writes its words and compares. */
  method OnePass(a: Half, b: Half, count: nat, p: Pattern, j: nat) returns (r: int)
    requires Halves(a, b, count)
    modifies a.stored, b.stored
    ensures r == if forall i: nat | i < count :: Agree(a, b, i, p.Value(j, i)) then 0 else -1
    ensures r == 0 ==> Equal(a, b, count)
    ensures RestUnchanged(a, b, count)
  {
    WritePass(a, b, count, p, j);
    r := CompareRegions(a, b, count);
    forall i: nat | i < count
      ensures a.Read(i) == b.Read(i) <==> Agree(a, b, i, p.Value(j, i))
    {
    }
  }

  method WritePass(a: Half, b: Half, count: nat, p: Pattern, j: nat)
    requires Halves(a, b, count)
    modifies a.stored, b.stored
    ensures forall i | 0 <= i < count :: a.stored[i] == b.stored[i] == p.Value(j, i)
    ensures RestUnchanged(a, b, count)
  {
    var i := 0;
    while i < count
      invariant i <= count && RestUnchanged(a, b, count)
      invariant forall k | 0 <= k < i :: a.stored[k] == b.stored[k] == p.Value(j, k)
    {
      var v := p.Value(j, i);
      b.Write(i, v);
      a.Write(i, v);
      i := i + 1;
    }
  }

  // ---- What the tests can tell ----

  /** Writing a word and its complement everywhere finds every difference there is. */
  lemma ComplementaryPassesDecide(a: Half, b: Half, count: nat, p: Pattern, dividend: nat)
    requires Halves(a, b, count) && dividend > 0 && p.Passes(dividend) >= 2
    requires forall i: nat | i < count :: p.Value(1, i) == !p.Value(0, i)
    ensures AgreeOn(a, b, count, p, dividend) <==> Alike(a, b, count)
  {
    if AgreeOn(a, b, count, p, dividend) {
      forall i: nat, v: Word | i < count
        ensures Agree(a, b, i, v)
      {
        assert Agree(a, b, i, p.Value(0, i)) && Agree(a, b, i, p.Value(1, i));
        ComplementsDecide(a.zeros[i], a.ones[i], b.zeros[i], b.ones[i], p.Value(0, i), v);
      }
    }
  }

  lemma DoubleComplement(q: Word)
    ensures !(!q) == q
  {
  }

  /** Solid Bits, Checkerboard and Bit Flip are exact whenever they make two passes. */
  lemma ExactTests(a: Half, b: Half, count: nat, p: Pattern, dividend: nat)
    requires Halves(a, b, count) && dividend > 0 && p.Passes(dividend) >= 2
    requires p.SolidBits? || p.Checkerboard? || p.BitFlip?
    ensures AgreeOn(a, b, count, p, dividend) <==> Alike(a, b, count)
  {
    DoubleComplement(1);
    ComplementaryPassesDecide(a, b, count, p, dividend);
  }

  // ---- The words of each test ----

  // What the tests with few words compare, in the words the code writes.

  lemma RandomValueExactly(a: Half, b: Half, count: nat, words: nat -> Word, dividend: nat)
    requires Halves(a, b, count) && dividend > 0
    ensures AgreeOn(a, b, count, RandomValue(words), dividend) <==> forall i: nat | i < count :: Agree(a, b, i, words(i))
  {
    var p := RandomValue(words);
    if AgreeOn(a, b, count, p, dividend) {
      forall i: nat | i < count
        ensures Agree(a, b, i, words(i))
      {
        assert Agree(a, b, i, p.Value(0, i));
      }
    }
  }

  lemma IndexWordIs(n: nat)
    requires n < WORDS
    ensures IndexWord(n) == n as bv64
  {
  }

  /** Cell i of either half makes the same of the start plus its index. */
  ghost predicate AgreeOnSum(a: Half, b: Half, i: nat, p: Pattern)
    requires Halves(a, b, i + 1) && p.SequentialIncrement?
  {
    Agree(a, b, i, p.start + IndexWord(i))
  }

  lemma SumIsWritten(a: Half, b: Half, i: nat, p: Pattern)
    requires Halves(a, b, i + 1) && p.SequentialIncrement?
    ensures AgreeOnSum(a, b, i, p) <==> Agree(a, b, i, p.Value(0, i))
  {
    assert p.Value(0, i) == p.start + IndexWord(i);
  }

  lemma SequentialIncrementExactly(a: Half, b: Half, count: nat, p: Pattern, dividend: nat)
    requires Halves(a, b, count) && dividend > 0 && p.SequentialIncrement?
    ensures AgreeOn(a, b, count, p, dividend) <==> forall i: nat | i < count :: AgreeOnSum(a, b, i, p)
  {
    forall i: nat | i < count
      ensures AgreeOnSum(a, b, i, p) <==> Agree(a, b, i, p.Value(0, i))
    {
      SumIsWritten(a, b, i, p);
    }
  }

  /** Cell i of either half makes the same of the word of eight bytes `n`. */
  ghost predicate AgreeOnBytes(a: Half, b: Half, i: nat, n: nat)
    requires Halves(a, b, i + 1) && n < 64
  {
    Agree(a, b, i, (n as bv64) * 0x0101_0101_0101_0101)
  }

  lemma BytesAre(n: nat)
    requires n < 64
    ensures RepeatedByte(IndexWord(n)) == (n as bv64) * 0x0101_0101_0101_0101
  {
    SmallIndex(n);
    RepeatedIsProduct(n as bv64);
  }

  lemma SmallIndex(n: nat)
    requires n < 64
    ensures (n as bv64) < 64
  {
  }

  lemma RepeatedIsProduct(x: Word)
    requires x < 64
    ensures RepeatedByte(x) == x * 0x0101_0101_0101_0101
  {
  }

  lemma BlockSequentialExactly(a: Half, b: Half, count: nat, dividend: nat)
    requires Halves(a, b, count) && dividend > 0
    ensures AgreeOn(a, b, count, BlockSequential, dividend)
       <==> forall i: nat, n: nat | i < count && n < 64 && n < 64 / dividend / dividend :: AgreeOnBytes(a, b, i, n)
  {
    var p := BlockSequential;
    FewPasses(dividend);
    forall i: nat, n: nat | i < count && n < 64
      ensures AgreeOnBytes(a, b, i, n) <==> Agree(a, b, i, p.Value(n, i))
    {
      BytesAre(n);
    }
  }

  lemma FewPasses(dividend: nat)
    requires dividend > 0
    ensures 64 / dividend / dividend <= 64
  {
  }

  // Shifting one place at a time is shifting at once.

  lemma {:induction false} BitIs(k: nat)
    requires k < 64
    ensures Bit(k) == (1 as bv64) << k
  {
    if k > 0 {
      BitIs(k - 1);
      OnePlaceMore(k);
    }
  }

  lemma OnePlaceMore(k: nat)
    requires 0 < k < 64
    ensures ((1 as bv64) << (k - 1)) << 1 == (1 as bv64) << k
  {
    SmallCount(k);
    CountBefore(k);
    ByteCount(k);
    ByteCount(k - 1);
    OnePlaceMoreByBits(k as bv8);
  }

  lemma SmallCount(k: nat)
    requires 0 < k < 64
    ensures 0 < (k as bv8) < 64
  {
  }

  lemma CountBefore(k: nat)
    requires 0 < k < 64
    ensures (k - 1) as bv8 == (k as bv8) - 1
  {
    CountIsBack(k - 1);
    CountIsBack(k);
    NextByNumber((k - 1) as bv8, k as bv8);
  }

  lemma CountIsBack(k: nat)
    requires k < 64
    ensures (k as bv8) as int == k
  {
  }

  lemma NextByNumber(m: bv8, n: bv8)
    requires m < 63 && n < 64 && m as int + 1 == n as int
    ensures m == n - 1
  {
  }

  lemma ByteCount(k: nat)
    requires k < 64
    ensures (1 as bv64) << k == (1 as bv64) << (k as bv8)
  {
  }

  lemma OnePlaceMoreByBits(n: bv8)
    requires 0 < n < 64
    ensures ((1 as bv64) << (n - 1)) << 1 == (1 as bv64) << n
  {
  }

  /** Cell i of either half makes the same of the word in which bit `k` alone is set. */
  ghost predicate AgreeOnBit(a: Half, b: Half, i: nat, k: nat)
    requires Halves(a, b, i + 1) && k < 64
  {
    Agree(a, b, i, (1 as bv64) << k)
  }

  /** Every bit is set in turn, alone. */
  lemma WalkingZeroesExactly(a: Half, b: Half, count: nat, dividend: nat)
    requires Halves(a, b, count) && dividend > 0
    ensures AgreeOn(a, b, count, WalkingZeroes, dividend)
       <==> forall i: nat, k: nat | i < count && k < 64 && k < 128 / dividend / dividend :: AgreeOnBit(a, b, i, k)
  {
    var p := WalkingZeroes;
    if AgreeOn(a, b, count, p, dividend) {
      forall i: nat, k: nat | i < count && k < 64 && k < 128 / dividend / dividend
        ensures AgreeOnBit(a, b, i, k)
      {
        BitIs(k);
        assert Agree(a, b, i, p.Value(k, i));
      }
    }
    if forall i: nat, k: nat | i < count && k < 64 && k < 128 / dividend / dividend :: AgreeOnBit(a, b, i, k) {
      forall j, i: nat | 0 <= j < p.Passes(dividend) && i < count
        ensures Agree(a, b, i, p.Value(j, i))
      {
        WalkStays(j, dividend);
        BitIs(Walk(j));
        assert AgreeOnBit(a, b, i, Walk(j));
      }
    }
  }

  /** Every bit is clear in turn, alone. */
  ghost predicate AgreeWithoutBit(a: Half, b: Half, i: nat, k: nat)
    requires Halves(a, b, i + 1) && k < 64
  {
    Agree(a, b, i, !((1 as bv64) << k))
  }

  lemma WithoutBit(a: Half, b: Half, i: nat, k: nat)
    requires Halves(a, b, i + 1) && k < 64
    ensures AgreeWithoutBit(a, b, i, k) <==> Agree(a, b, i, Complement(Bit(k)))
  {
    BitIs(k);
  }

  lemma WalkingOnesExactly(a: Half, b: Half, count: nat, dividend: nat)
    requires Halves(a, b, count) && dividend > 0
    ensures AgreeOn(a, b, count, WalkingOnes, dividend)
       <==> forall i: nat, k: nat | i < count && k < 64 && k < 128 / dividend / dividend :: AgreeWithoutBit(a, b, i, k)
  {
    var p := WalkingOnes;
    if AgreeOn(a, b, count, p, dividend) {
      forall i: nat, k: nat | i < count && k < 64 && k < 128 / dividend / dividend
        ensures AgreeWithoutBit(a, b, i, k)
      {
        assert Agree(a, b, i, p.Value(k, i));
        WithoutBit(a, b, i, k);
      }
    }
    if forall i: nat, k: nat | i < count && k < 64 && k < 128 / dividend / dividend :: AgreeWithoutBit(a, b, i, k) {
      forall j, i: nat | 0 <= j < p.Passes(dividend) && i < count
        ensures Agree(a, b, i, p.Value(j, i))
      {
        WalkStays(j, dividend);
        WithoutBit(a, b, i, Walk(j));
        assert AgreeWithoutBit(a, b, i, Walk(j));
      }
    }
  }

  /** On the way down the test meets bits it has met on the way up. */
  lemma WalkStays(j: nat, dividend: nat)
    requires dividend > 0 && j < 128 / dividend / dividend
    ensures 0 <= Walk(j) < 64 && Walk(j) < 128 / dividend / dividend
  {
  }

  /** So without a dividend the two walking tests return 0 exactly when the partners agree on all 64 single bits, and on
      the complements of those. */
  method TestWalkingZeroes(a: Half, b: Half, count: nat) returns (rc: int)
    requires Halves(a, b, count)
    modifies a.stored, b.stored
    ensures rc == if forall i: nat, k: nat | i < count && k < 64 :: AgreeOnBit(a, b, i, k) then 0 else -1
  {
    WalkingZeroesExactly(a, b, count, 1);
    rc := PatternTest(a, b, count, WalkingZeroes, 1);
  }

  method TestWalkingOnes(a: Half, b: Half, count: nat) returns (rc: int)
    requires Halves(a, b, count)
    modifies a.stored, b.stored
    ensures rc == if forall i: nat, k: nat | i < count && k < 64 :: AgreeWithoutBit(a, b, i, k) then 0 else -1
  {
    WalkingOnesExactly(a, b, count, 1);
    rc := PatternTest(a, b, count, WalkingOnes, 1);
  }

  /** The four tests that write a word and its complement to neighbouring cells. */
  lemma SolidBitsWords(j: nat, i: nat)
    ensures SolidBits.Value(j, i) == if (i + j) % 2 == 0 then 0xFFFF_FFFF_FFFF_FFFF else 0
  {
  }

  lemma CheckerboardWords(j: nat, i: nat)
    ensures Checkerboard.Value(j, i) == if (i + j) % 2 == 0 then 0x5555_5555_5555_5555 else 0xAAAA_AAAA_AAAA_AAAA
  {
  }

  lemma BitFlipWords(j: nat, i: nat)
    requires i % 2 == 0
    ensures j % 2 == 0 ==> BitFlip.Value(j, i) == Complement(Bit(j / 8))
    ensures j % 2 == 1 ==> BitFlip.Value(j, i) == Bit(j / 8)
    ensures BitFlip.Value(j, i + 1) == Complement(BitFlip.Value(j, i))
  {
  }

  lemma BitSpreadWords(p: Pattern, j: nat, i: nat, k: nat)
    requires p.BitSpread? && k < 62 && (j == k || j == 127 - k) && i % 2 == 0
    ensures p.Value(j, i) == Bit(k) | Bit(k + 2)
    ensures p.Value(j, i + 1) == Complement(p.Value(j, i))
  {
    assert Walk(j) == k;
  }

  /** In the four passes at the top the code shifts too far. */
  lemma TooFarWords(p: Pattern, j: nat, i: nat)
    requires p.BitSpread? && 62 <= j <= 65 && i % 2 == 0
    ensures p.Value(j, i) == p.tooFar(j) && p.Value(j, i + 1) == Complement(p.tooFar(j))
  {
  }

  /** How many passes the tests make. */
  lemma PassesAre(p: Pattern, dividend: nat)
    requires dividend > 0
    ensures p.Passes(dividend) ==
            match p
            case RandomValue(_) => 1
            case SequentialIncrement(_) => 1
            case BitFlip => 8 * (64 / dividend / dividend)
            case BitSpread(_) => 128 / dividend / dividend
            case WalkingOnes => 128 / dividend / dividend
            case WalkingZeroes => 128 / dividend / dividend
            case _ => 64 / dividend / dividend
  {
  }

  // ---- The whole table ----

  datatype Operation = Xor | Sub | Mul | Div | Or | And {
    /** What a test makes of a word; a divisor of 0 is replaced by 1. */
    function Apply(x: Word, q: Word): Word {
      match this
      case Xor => x ^ q
      case Sub => x - q
      case Mul => x * q
      case Div => if q == 0 then x else x / q
      case Or => x | q
      case And => x & q
    }
  }

  datatype Test = Update(op: Operation, q: Word) | Write(pattern: Pattern)

  /** tests[]: `q` holds the random words of the tests that draw one. */
  function Tests(words: nat -> Word, q: seq<Word>, tooFar: nat -> Word): seq<Test>
    requires |q| == 7
  {
    [ Write(RandomValue(words)),
      Update(Xor, q[0]),
      Update(Sub, q[1]),
      Update(Mul, q[2]),
      Update(Div, q[3]),
      Update(Or, q[4]),
      Update(And, q[5]),
      Write(SequentialIncrement(q[6])),
      Write(SolidBits),
      Write(BlockSequential),
      Write(Checkerboard),
      Write(BitSpread(tooFar)),
      Write(BitFlip),
      Write(WalkingOnes),
      Write(WalkingZeroes)]
  }

  /** The fifteen tests in order. */
  lemma TableIs(words: nat -> Word, q: seq<Word>, tooFar: nat -> Word)
    requires |q| == 7
    ensures |Tests(words, q, tooFar)| == 15
    ensures forall k | 1 <= k <= 6 :: Tests(words, q, tooFar)[k] == Update([Xor, Sub, Mul, Div, Or, And][k - 1], q[k - 1])
    ensures forall k | 8 <= k <= 10 :: Tests(words, q, tooFar)[k] == Write([SolidBits, BlockSequential, Checkerboard][k - 8])
    ensures forall k | 12 <= k <= 14 :: Tests(words, q, tooFar)[k] == Write([BitFlip, WalkingOnes, WalkingZeroes][k - 12])
    ensures Tests(words, q, tooFar)[0] == Write(RandomValue(words))
    ensures Tests(words, q, tooFar)[7] == Write(SequentialIncrement(q[6]))
    ensures Tests(words, q, tooFar)[11] == Write(BitSpread(tooFar))
  {
  }

  // What the six that update do to a word; a divisor of 0 leaves it as it is.

  lemma XorIs(x: Word, q: Word)
    ensures Xor.Apply(x, q) == x ^ q
  {
  }

  lemma OrIs(x: Word, q: Word)
    ensures Or.Apply(x, q) == x | q
  {
  }

  lemma AndIs(x: Word, q: Word)
    ensures And.Apply(x, q) == x & q
  {
  }

  lemma SubIs(x: Word, q: Word)
    ensures Sub.Apply(x, q) == x - q
  {
  }

  lemma MulIs(x: Word, q: Word)
    ensures Mul.Apply(x, q) == x * q
  {
  }

  lemma DivIs(x: Word, q: Word)
    ensures Div.Apply(x, 0) == x
    ensures q != 0 ==> Div.Apply(x, q) == x / q
  {
  }

  method RunTest(a: Half, b: Half, count: nat, dividend: nat, test: Test) returns (rc: int)
    requires Halves(a, b, count) && dividend > 0
    modifies a.stored, b.stored
    ensures Alike(a, b, count) && (old(Equal(a, b, count)) || test.Write?) ==> rc == 0
    ensures rc == 0 && test.Write? ==> AgreeOn(a, b, count, test.pattern, dividend)
    ensures rc == 0 && (old(Equal(a, b, count)) || test.Update? || test.pattern.Passes(dividend) > 0) ==> Equal(a, b, count)
  {
    match test
    case Update(op, q) => rc := UpdateTest(a, b, count, x => op.Apply(x, q));
    case Write(pattern) => rc := PatternTest(a, b, count, pattern, dividend);
  }

  /** A worker's loop over the table; `done` tests returned 0 before one failed, or the table ended. */
  method RunTests(a: Half, b: Half, count: nat, dividend: nat, tests: seq<Test>) returns (done: nat)
    requires Halves(a, b, count) && dividend > 0
    requires tests != [] && tests[0].Write? && tests[0].pattern.Passes(dividend) > 0
    modifies a.stored, b.stored
    ensures done <= |tests|
    ensures Alike(a, b, count) ==> done == |tests|
    ensures forall t | 0 <= t < done && tests[t].Write? :: AgreeOn(a, b, count, tests[t].pattern, dividend)
  {
    done := 0;
    while done < |tests|
      invariant done <= |tests|
      invariant done > 0 ==> Equal(a, b, count)
      invariant forall t | 0 <= t < done && tests[t].Write? :: AgreeOn(a, b, count, tests[t].pattern, dividend)
    {
      var rc := RunTest(a, b, count, dividend, tests[done]);
      if rc != 0 {
        return;
      }
      done := done + 1;
    }
  }

  /** With two passes of Solid Bits, as for dividends 1 and 4, the table finds stuck bits exactly
      if the two halves differ in one; on sound memory it never fails, whatever it holds and whatever is drawn. */
  method RunWholeTable(a: Half, b: Half, count: nat, dividend: nat, words: nat -> Word, q: seq<Word>, tooFar: nat -> Word)
    returns (rc: int)
    requires Halves(a, b, count) && dividend > 0 && |q| == 7
    modifies a.stored, b.stored
    ensures rc == 0 || rc == -1
    ensures Alike(a, b, count) ==> rc == 0
    ensures Reduced(64, dividend) >= 2 ==> (rc == 0 <==> Alike(a, b, count))
  {
    var tests := Tests(words, q, tooFar);
    var done := RunTests(a, b, count, dividend, tests);
    rc := if done == |tests| then 0 else -1;
    if rc == 0 && Reduced(64, dividend) >= 2 {
      assert tests[8] == Write(SolidBits);
      ExactTests(a, b, count, SolidBits, dividend);
    }
  }

  /** The three dividends of the menu. */
  lemma Dividends()
    ensures Reduced(64, 1) == 64 && Reduced(64, 4) == 4 && Reduced(64, 16) == 0
  {
  }

  /** Halves without stuck bits are alike. */
  lemma SoundMemoryIsAlike(a: Half, b: Half, count: nat)
    requires Halves(a, b, count)
    requires forall i: nat | i < count :: a.zeros[i] == a.ones[i] == b.zeros[i] == b.ones[i] == 0
    ensures Alike(a, b, count)
  {
  }
}
