/** How a cache derives its geometry from its configuration and takes addresses apart. */
module CacheAddress {
  import opened Arithmetic
  import opened Bits
  import opened CacheModel
  import opened WordArithmetic
  import opened Words

  datatype CacheConfig = CacheConfig(size: nat, associativity: nat, blockSize: nat, accessLatency: nat,
                                     missPenalty: nat)

  /** The bytes of one way of every set. */
  function Stride(c: CacheConfig): (r: nat)
    requires c.blockSize > 0 && c.associativity > 0
    ensures r > 0
  {
    c.blockSize * c.associativity
  }

  /** The configurations the constructor's assertions accept, with blocks of whole words. */
  predicate Accepted(c: CacheConfig) {
    && c.size > 0 && c.associativity > 0
    && c.blockSize >= 4 && c.blockSize == Pow2(Log2(c.blockSize))
    && c.size % Stride(c) == 0 && NumSets(c) > 0
  }

  function NumSets(c: CacheConfig): nat
    requires c.blockSize > 0 && c.associativity > 0
  {
    c.size / Stride(c)
  }

  lemma Log2AtLeast2(n: nat)
    requires n >= 4
    ensures Log2(n) >= 2
  {
    assert Log2(n) == 1 + Log2(n / 2) && n / 2 >= 2;
  }

  lemma BlockIsWords(b: nat)
    requires b >= 4 && b == Pow2(Log2(b))
    ensures b == 4 * (b / 4) && b / 4 > 0
  {
    hide Log2;
    Log2AtLeast2(b);
    var k := Log2(b);
    var p := Pow2(k - 2);
    assert Pow2(k) == 2 * Pow2(k - 1) && Pow2(k - 1) == 2 * p;
    assert b == 4 * p;
  }

  /** An index of Log2(sets) bits selects a power of two of the sets allocated. */
  function CalculateParameters(c: CacheConfig): (g: Geometry)
    requires Accepted(c)
    ensures g.Ok() && c.blockSize == 4 * g.words
  {
    BlockIsWords(c.blockSize);
    Geometry(c.blockSize / 4, Pow2(Log2(NumSets(c))), c.associativity, NumSets(c))
  }

  /** The block of an address, and the word in it, by its byte address. */
  lemma BlockOfAddress(g: Geometry, addr: nat)
    requires g.Ok()
    ensures var n, bytes := g.Block(addr / 4), 4 * g.words;
            && Quotient(addr, bytes) == n && Remainder(addr, bytes) == 4 * g.Index(addr / 4) + addr % 4
            && addr == 4 * g.FirstWord(n) + Remainder(addr, bytes)
  {
    var n, bytes := g.Block(addr / 4), 4 * g.words;
    Recomposed(addr / 4, g.words);
    TimesDoubled(n, 2 * g.words);
    TimesDoubled(n, g.words);
    Decomposed(n, 4 * g.Index(addr / 4) + addr % 4, bytes);
  }

  /** Set and tag in byte addresses. */
  lemma SetAndTag(g: Geometry, n: nat, bytes: nat)
    requires g.Ok()
    ensures Times(g.TagOf(n), Times(g.used, bytes)) + Times(g.SetOf(n), bytes) == Times(n, bytes)
  {
    BlockRebuilt(g, n);
    TimesDistributes(Times(g.TagOf(n), g.used), g.SetOf(n), bytes);
    TimesAssociates(g.TagOf(n), g.used, bytes);
  }

  /** Where the word at an address lives, in quotients and remainders. */
  lemma PartsOf(g: Geometry, addr: nat)
    requires g.Ok()
    ensures var n, bytes := g.Block(addr / 4), 4 * g.words;
            && Quotient(addr, bytes) == n
            && Times(g.used, bytes) > 0 && Quotient(addr, Times(g.used, bytes)) == g.TagOf(n)
            && Remainder(addr, bytes) / 4 == g.Index(addr / 4)
            && Times(g.TagOf(n), Times(g.used, bytes)) + Times(g.SetOf(n), bytes)
               == addr - Remainder(addr, bytes) == 4 * g.FirstWord(n)
  {
    hide Times, Quotient, Remainder;
    var bytes := 4 * g.words;
    BlockOfAddress(g, addr);
    Recomposed(addr, bytes);
    QuotientTwice(addr, bytes, g.used);
    SetAndTag(g, g.Block(addr / 4), bytes);
  }

  /** The bit counts of a 32-bit configuration are those of shifts within a word. */
  lemma BitCounts(c: CacheConfig)
    requires Accepted(c) && c.size < 0x1_0000_0000
    ensures Log2(c.blockSize) + Log2(NumSets(c)) < 32
    ensures Times(CalculateParameters(c).used, c.blockSize) == Pow2(Log2(c.blockSize) + Log2(NumSets(c)))
  {
    hide Log2, Pow2, Times, NumSets, CalculateParameters;
    AcceptedSizes(c);
    var o, i, n := Log2(c.blockSize), Log2(NumSets(c)), NumSets(c);
    Pow2Sum(o, i);
    TimesIsProduct(Pow2(i), c.blockSize);
    ProductGrows(c.blockSize, Pow2(i), n);
    if o + i >= 32 {
      Pow2Monotone(32, o + i);
      Pow2Of32();
    }
  }

  lemma AcceptedSizes(c: CacheConfig)
    requires Accepted(c)
    ensures c.blockSize == Pow2(Log2(c.blockSize)) && NumSets(c) > 0 && NumSets(c) * c.blockSize <= c.size
    ensures CalculateParameters(c).used == Pow2(Log2(NumSets(c)))
  {
    hide Log2, Pow2;
    OneWayFits(c.size, c.blockSize, c.associativity);
  }

  lemma OneWayFits(size: nat, block: nat, ways: nat)
    requires block > 0 && ways > 0
    ensures block * ways > 0 && size / (block * ways) * block <= size
  {
    AtLeastOnce(block, ways);
    MultipleFits(size, block * ways);
    ProductGrows(size / (block * ways), block, block * ways);
  }

  lemma AtLeastOnce(b: nat, w: nat)
    requires w > 0
    ensures b <= b * w
  {
    assert b * w == b + b * (w - 1);
  }

  lemma MultipleFits(a: nat, b: nat)
    requires b > 0
    ensures a / b * b <= a
  {
  }

  lemma ProductGrows(n: nat, x: nat, y: nat)
    requires x <= y
    ensures n * x <= n * y
  {
  }

  /** In every accepted 32-bit configuration, shifting and masking an address by the bit counts gives the
      tag and the set its block is filed under and the word in it, and joining tag and set, shifted
      back, gives the block's address. */
  lemma AddressParts(c: CacheConfig, addr: Word)
    requires Accepted(c) && c.size < 0x1_0000_0000
    ensures var g := CalculateParameters(c);
            var o, i := Log2(c.blockSize), Log2(NumSets(c));
            var n := g.Block(ValueOf(addr) / 4);
            var tag, set_ := ShiftRight(addr, o + i), And(ShiftRight(addr, o), Low(i));
            && ValueOf(tag) == g.TagOf(n) && ValueOf(set_) == g.SetOf(n)
            && ValueOf(And(addr, Low(o))) / 4 == g.Index(ValueOf(addr) / 4)
            && Or(ShiftLeft(tag, o + i), ShiftLeft(set_, o)) == Cleared(addr, Low(o))
            && ValueOf(Cleared(addr, Low(o))) == 4 * g.FirstWord(n)
  {
    hide ValueOf, ShiftRight, ShiftLeft, And, Or, Low, Cleared, Meets, Log2, Pow2, Times, Quotient, Remainder,
         NumSets, CalculateParameters;
    AcceptedSizes(c);
    var g := CalculateParameters(c);
    var o, i := Log2(c.blockSize), Log2(NumSets(c));
    var tag, set_ := ShiftRight(addr, o + i), And(ShiftRight(addr, o), Low(i));
    BitCounts(c);
    PartsOf(g, ValueOf(addr));
    ShiftRightValue(addr, o + i);
    ShiftRightValue(addr, o);
    MaskValue(ShiftRight(addr, o), i);
    MaskValue(addr, o);
    ClearedValue(addr, o);
    WordBound(addr);
    ShiftLeftValue(tag, o + i);
    ShiftLeftValue(set_, o);
    TimesMonotone(g.SetOf(g.Block(ValueOf(addr) / 4)), g.used, c.blockSize);
    ShiftedApart(tag, o + i, ShiftLeft(set_, o));
    JoinValue(ShiftLeft(tag, o + i), ShiftLeft(set_, o));
    SameValue(Or(ShiftLeft(tag, o + i), ShiftLeft(set_, o)), Cleared(addr, Low(o)));
  }

  lemma WordBound(w: Word)
    ensures ValueOf(w) < 0x1_0000_0000
  {
  }

  /** The mask is the block size less one. */
  lemma BlockMask(c: CacheConfig)
    requires Accepted(c) && c.size < 0x1_0000_0000
    ensures Low(Log2(c.blockSize)) == Bit(Log2(c.blockSize)) - 1 && ValueOf(Bit(Log2(c.blockSize))) == c.blockSize
  {
    AcceptedSizes(c);
    BitCounts(c);
    LowIsBit(Log2(c.blockSize));
    BitValue(Log2(c.blockSize));
  }

  /** The same in plain division: block, set and tag of a byte address, the word in the block, and the
      address of the block. */
  lemma PlainParts(c: CacheConfig, a: nat)
    requires Accepted(c)
    ensures var g := CalculateParameters(c);
            var n := g.Block(a / 4);
            && n == a / c.blockSize && g.SetOf(n) == n % g.used && g.TagOf(n) == n / g.used
            && g.Index(a / 4) == a % c.blockSize / 4 && 4 * g.FirstWord(n) == a - a % c.blockSize
  {
    var g := CalculateParameters(c);
    PartsOf(g, a);
    QuotientIsDivision(a, c.blockSize);
    QuotientIsDivision(g.Block(a / 4), g.used);
  }

  lemma {:induction false} Log2OfPow2(k: nat)
    ensures Log2(Pow2(k)) == k
  {
    if k > 0 {
      Log2OfPow2(k - 1);
    }
  }

  lemma DividesExactly(n: nat, b: nat, size: nat)
    requires b > 0 && size == n * b
    ensures size / b == n && size % b == 0
  {
    hide Times, Quotient, Remainder;
    TimesIsProduct(n, b);
    Decomposed(n, 0, b);
    QuotientIsDivision(size, b);
  }

  lemma WholeParts(a: nat, b: nat)
    requires b > 0 && a % b == 0
    ensures a == a / b * b
  {
  }

  lemma {:induction false} Log2Bounds(n: nat)
    requires n > 0
    ensures Pow2(Log2(n)) <= n < 2 * Pow2(Log2(n))
  {
    if n > 1 {
      Log2Bounds(n / 2);
    }
  }

  /** A cache of `sets` sets of `ways` blocks of 2^k bytes is accepted, and its geometry has all of
      them; the index reaches at least half of the sets, and all if they are a power of two. */
  lemma GeometryOf(sets: nat, ways: nat, k: nat, latency: nat, penalty: nat)
    requires sets > 0 && ways > 0 && k >= 2
    ensures var c := CacheConfig(sets * (Pow2(k) * ways), ways, Pow2(k), latency, penalty);
            && Accepted(c)
            && var g := CalculateParameters(c);
            && g.sets == sets && g.ways == ways && 4 * g.words == Pow2(k)
            && g.used <= sets < 2 * g.used && (forall j :: sets == Pow2(j) ==> g.used == sets)
  {
    hide Log2, Pow2;
    var b := Pow2(k);
    Log2OfPow2(k);
    AtLeastFour(k);
    AtLeastOnce(b, ways);
    DividesExactly(sets, b * ways, sets * (b * ways));
    ProductGrows(b * ways, 1, sets);
    Log2Bounds(sets);
    forall j | sets == Pow2(j) ensures Pow2(Log2(sets)) == sets {
      Log2OfPow2(j);
    }
  }

  lemma AtLeastFour(k: nat)
    requires k >= 2
    ensures Pow2(k) >= 4
  {
    assert Pow2(k) == 2 * Pow2(k - 1) && Pow2(k - 1) == 2 * Pow2(k - 2);
  }

  /** There are no other accepted configurations. */
  lemma AcceptedOnly(c: CacheConfig)
    requires Accepted(c)
    ensures var n, k := NumSets(c), Log2(c.blockSize);
            && n > 0 && c.associativity > 0 && k >= 2
            && c == CacheConfig(n * (Pow2(k) * c.associativity), c.associativity, Pow2(k), c.accessLatency,
                                c.missPenalty)
  {
    hide Log2, Pow2;
    Log2AtLeast2(c.blockSize);
    WholeParts(c.size, Stride(c));
  }
}
