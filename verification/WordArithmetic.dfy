/** What shifts, masks and joins of words do to the numbers the words stand for.

  A shift by k bits is k shifts by one. Every law is proved one bit at a time. */
module WordArithmetic {
  import opened Arithmetic
  import opened Bits
  import opened Words

  function ValueOf(w: Word): nat { w as nat }

  function DoubledAndOne(x: Word): Word { (x << 1) | 1 }

  function ShiftLeft(w: Word, k: nat): Word {
    if k == 0 then w else Doubled(ShiftLeft(w, k - 1))
  }

  /** The mask of the k lowest bits. */
  function Low(k: nat): Word {
    if k == 0 then 0 else DoubledAndOne(Low(k - 1))
  }

  function Or(x: Word, y: Word): Word { x | y }

  // ----- one bit -----

  /** The top bit is clear. */
  predicate Small(w: Word) { w < 0x8000_0000 }

  lemma SmallIff(w: Word)
    ensures Small(w) <==> ValueOf(w) < 0x8000_0000
  {
  }

  lemma DoubledEven(w: Word)
    requires Small(w)
    ensures ValueOf(Doubled(w)) == 2 * ValueOf(w)
  {
  }

  lemma DoubledOdd(w: Word)
    requires Small(w)
    ensures ValueOf(DoubledAndOne(w)) == 2 * ValueOf(w) + 1
  {
  }

  predicate Odd(w: Word) { w & 1 != 0 }

  lemma LastBit(w: Word)
    ensures Small(Halved(w))
    ensures w == if Odd(w) then DoubledAndOne(Halved(w)) else Doubled(Halved(w))
  {
  }

  lemma HalvedValue(w: Word)
    ensures ValueOf(w) == 2 * ValueOf(Halved(w)) + (if Odd(w) then 1 else 0)
  {
    hide ValueOf, Halved, Doubled, DoubledAndOne, Small, Odd;
    LastBit(w);
    if Odd(w) {
      DoubledOdd(Halved(w));
    } else {
      DoubledEven(Halved(w));
    }
  }

  lemma ZeroIff(w: Word)
    ensures ValueOf(w) == 0 <==> w == 0
  {
  }

  // ----- shifts -----

  lemma {:induction false} ShiftRightValue(w: Word, k: nat)
    ensures ValueOf(ShiftRight(w, k)) == Quotient(ValueOf(w), Pow2(k))
  {
    hide ValueOf, Halved, Odd, Quotient;
    if k == 0 {
      TimesIsProduct(ValueOf(w), 1);
      SplitOff(ValueOf(w), 1, ValueOf(w), 0);
    } else {
      ShiftRightValue(w, k - 1);
      HalvedValue(ShiftRight(w, k - 1));
      HalfOf(ValueOf(ShiftRight(w, k - 1)), ValueOf(ShiftRight(w, k)));
      QuotientTwice(ValueOf(w), Pow2(k - 1), 2);
      TimesIsProduct(2, Pow2(k - 1));
    }
  }

  lemma HalfOf(a: nat, h: nat)
    requires a == 2 * h || a == 2 * h + 1
    ensures Quotient(a, 2) == h && Remainder(a, 2) == a - 2 * h
  {
    TimesIsProduct(h, 2);
    SplitOff(a, 2, h, a - 2 * h);
  }

  /** A left shift multiplies, if the product is still a word. */
  lemma {:induction false} ShiftLeftValue(w: Word, k: nat)
    requires Times(ValueOf(w), Pow2(k)) < 0x1_0000_0000
    ensures ValueOf(ShiftLeft(w, k)) == Times(ValueOf(w), Pow2(k))
  {
    hide ValueOf, Doubled, Small;
    if k == 0 {
      TimesIsProduct(ValueOf(w), 1);
    } else {
      TimesDoubled(ValueOf(w), Pow2(k - 1));
      ShiftLeftValue(w, k - 1);
      SmallIff(ShiftLeft(w, k - 1));
      DoubledEven(ShiftLeft(w, k - 1));
    }
  }

  // ----- masks -----

  lemma {:induction false} LowIsBit(k: nat)
    ensures Low(k) == Bit(k) - 1
  {
    if k == 0 {
    } else {
      LowIsBit(k - 1);
      OneLess(Bit(k - 1));
    }
  }

  lemma OneLess(x: Word)
    ensures DoubledAndOne(x - 1) == Doubled(x) - 1
  {
  }

  lemma OddMasked(w: Word, m: Word)
    requires Odd(w)
    ensures w & ((m << 1) | 1) == (((w >> 1) & m) << 1) | 1
  {
  }

  lemma EvenMasked(w: Word, m: Word)
    requires !Odd(w)
    ensures w & ((m << 1) | 1) == ((w >> 1) & m) << 1
  {
  }

  lemma MaskOdd(w: Word, m: Word)
    requires Odd(w)
    ensures And(w, DoubledAndOne(m)) == DoubledAndOne(And(Halved(w), m))
  {
    hide Odd;
    OddMasked(w, m);
  }

  lemma MaskEven(w: Word, m: Word)
    requires !Odd(w)
    ensures And(w, DoubledAndOne(m)) == Doubled(And(Halved(w), m))
  {
    hide Odd;
    EvenMasked(w, m);
  }

  lemma MaskSmall(w: Word, m: Word)
    ensures Small(And(Halved(w), m))
  {
    assert ((w >> 1) & m) < 0x8000_0000;
  }

  /** Masking to the k lowest bits leaves the remainder. */
  lemma {:induction false} MaskValue(w: Word, k: nat)
    ensures ValueOf(And(w, Low(k))) == Remainder(ValueOf(w), Pow2(k))
    decreases k
  {
    hide ValueOf, Halved, Doubled, DoubledAndOne, Odd, Small, And, Quotient, Remainder;
    if k == 0 {
      MaskedByNothing(w);
      assert Remainder(ValueOf(w), 1) == 0;
    } else {
      var h := Halved(w);
      MaskSmall(w, Low(k - 1));
      MaskValue(h, k - 1);
      HalvedValue(w);
      if Odd(w) {
        MaskOdd(w, Low(k - 1));
        DoubledOdd(And(h, Low(k - 1)));
      } else {
        MaskEven(w, Low(k - 1));
        DoubledEven(And(h, Low(k - 1)));
      }
      RemainderStep(ValueOf(w), ValueOf(h), Pow2(k - 1));
    }
  }

  lemma MaskedByNothing(w: Word)
    ensures ValueOf(And(w, 0)) == 0
  {
    assert w & 0 == 0;
  }

  lemma RemainderStep(a: nat, h: nat, b: nat)
    requires b > 0 && (a == 2 * h || a == 2 * h + 1)
    ensures Remainder(a, 2 * b) == 2 * Remainder(h, b) + (a - 2 * h)
  {
    hide Quotient, Remainder;
    Recomposed(h, b);
    TimesDoubled(Quotient(h, b), b);
    SplitOff(a, 2 * b, Quotient(h, b), 2 * Remainder(h, b) + (a - 2 * h));
  }

  // ----- joins -----

  lemma JoinStep(x: Word, y: Word)
    requires !Meets(x, y)
    ensures !Meets(Halved(x), Halved(y)) && Halved(Or(x, y)) == Or(Halved(x), Halved(y))
    ensures !(Odd(x) && Odd(y)) && Odd(Or(x, y)) == (Odd(x) || Odd(y))
  {
  }

  lemma JoinNothing(y: Word)
    ensures Or(0, y) == y
  {
  }

  /** Joining two words that share no bit adds them. */
  lemma {:induction false} JoinValue(x: Word, y: Word)
    requires !Meets(x, y)
    ensures ValueOf(Or(x, y)) == ValueOf(x) + ValueOf(y)
    decreases ValueOf(x)
  {
    hide ValueOf, Halved, Odd, Meets, Or;
    ZeroIff(x);
    if x == 0 {
      JoinNothing(y);
    } else {
      JoinStep(x, y);
      HalvedValue(x);
      HalvedValue(y);
      HalvedValue(Or(x, y));
      JoinValue(Halved(x), Halved(y));
    }
  }

  lemma ShiftedStep(p: Word, y: Word)
    requires !Meets(p, Halved(y))
    ensures !Meets(Doubled(p), y)
  {
  }

  /** A word shifted left by k bits shares none with a word below 2^k. */
  lemma {:induction false} ShiftedApart(w: Word, k: nat, y: Word)
    requires ValueOf(y) < Pow2(k)
    ensures !Meets(ShiftLeft(w, k), y)
    decreases k
  {
    hide ValueOf, Halved, Doubled, Odd, Meets;
    if k == 0 {
      ZeroIff(y);
      MeetsNothing(w);
    } else {
      HalvedValue(y);
      ShiftedApart(w, k - 1, Halved(y));
      ShiftedStep(ShiftLeft(w, k - 1), y);
    }
  }

  lemma MeetsNothing(w: Word)
    ensures !Meets(w, 0)
  {
    assert w & 0 == 0;
  }

  /** Clearing the k lowest bits subtracts the remainder. */
  lemma ClearedValue(w: Word, k: nat)
    ensures ValueOf(Cleared(w, Low(k))) == ValueOf(w) - Remainder(ValueOf(w), Pow2(k))
  {
    hide ValueOf, Cleared, And, Meets, Or, Low, Remainder;
    ClearedJoin(w, Low(k));
    JoinValue(Cleared(w, Low(k)), And(w, Low(k)));
    MaskValue(w, k);
  }

  lemma ClearedJoin(w: Word, m: Word)
    ensures !Meets(Cleared(w, m), And(w, m)) && Or(Cleared(w, m), And(w, m)) == w
  {
  }

  lemma {:induction false} BitValue(k: nat)
    requires k < 32
    ensures ValueOf(Bit(k)) == Pow2(k)
  {
    hide ValueOf, Doubled, Small;
    if k == 0 {
      OneValue();
    } else {
      BitValue(k - 1);
      Pow2Monotone(k, 31);
      Pow2Of32();
      SmallIff(Bit(k - 1));
      DoubledEven(Bit(k - 1));
    }
  }

  lemma OneValue()
    ensures ValueOf(1) == 1
  {
  }

  /** Words are told apart by the numbers they stand for. */
  lemma {:induction false} SameValue(x: Word, y: Word)
    requires ValueOf(x) == ValueOf(y)
    ensures x == y
    decreases ValueOf(x)
  {
    hide ValueOf, Halved, Doubled, DoubledAndOne, Odd;
    ZeroIff(x);
    ZeroIff(y);
    if x == 0 {
    } else {
      HalvedValue(x);
      HalvedValue(y);
      SameValue(Halved(x), Halved(y));
      LastBit(x);
      LastBit(y);
    }
  }

  // ----- sums -----

  function Next(x: Word): Word { x + 1 }

  function Plus(x: Word, y: Word): Word { x + y }

  lemma NextEven(x: Word)
    requires !Odd(x)
    ensures Next(x) == DoubledAndOne(Halved(x))
  {
  }

  lemma NextOdd(x: Word)
    requires Odd(x)
    ensures Next(x) == Doubled(Next(Halved(x)))
  {
  }

  lemma {:induction false} NextValue(x: Word)
    requires ValueOf(x) < 0xFFFF_FFFF
    ensures ValueOf(Next(x)) == ValueOf(x) + 1
    decreases ValueOf(x)
  {
    hide ValueOf, Halved, Doubled, DoubledAndOne, Odd, Next, Small;
    LastBit(x);
    HalvedValue(x);
    if Odd(x) {
      NextOdd(x);
      NextValue(Halved(x));
      SmallIff(Next(Halved(x)));
      DoubledEven(Next(Halved(x)));
    } else {
      NextEven(x);
      DoubledOdd(Halved(x));
    }
  }

  lemma LastWord(x: Word)
    ensures ValueOf(x) <= 0xFFFF_FFFF
    ensures ValueOf(x) == 0xFFFF_FFFF ==> Next(x) == 0
  {
    hide ValueOf;
    AllOnesValue();
    WordFits(x);
    if ValueOf(x) == 0xFFFF_FFFF {
      SameValue(x, 0xFFFF_FFFF);
    }
  }

  lemma AllOnesValue()
    ensures ValueOf(0xFFFF_FFFF) == 0xFFFF_FFFF && ValueOf(0) == 0
  {
  }

  lemma WordFits(x: Word)
    ensures ValueOf(x) < 0x1_0000_0000
  {
  }

  lemma PlusNothing(x: Word)
    ensures Plus(x, 0) == x
  {
  }

  lemma PlusNext(x: Word, y: Word)
    requires y != 0
    ensures Plus(x, y) == Next(Plus(x, y - 1)) && Next(y - 1) == y
  {
  }

  lemma Before(y: Word)
    requires y != 0
    ensures ValueOf(y - 1) == ValueOf(y) - 1
  {
    hide ValueOf, Next;
    PlusNext(0, y);
    LastWord(y - 1);
    ZeroIff(y);
    if ValueOf(y - 1) < 0xFFFF_FFFF {
      NextValue(y - 1);
    }
  }

  /** The sum of two words is that of their numbers, reduced to 32 bits. */
  lemma {:induction false} PlusValue(x: Word, y: Word)
    ensures ValueOf(Plus(x, y)) == (ValueOf(x) + ValueOf(y)) % 0x1_0000_0000
    decreases ValueOf(y)
  {
    hide ValueOf, Plus, Next;
    AllOnesValue();
    WordFits(x);
    if y == 0 {
      PlusNothing(x);
    } else {
      Before(y);
      PlusValue(x, y - 1);
      PlusNext(x, y);
      LastWord(Plus(x, y - 1));
      if ValueOf(Plus(x, y - 1)) < 0xFFFF_FFFF {
        NextValue(Plus(x, y - 1));
      }
    }
  }

  // ----- the bits of combined words -----

  function Xor(x: Word, y: Word): Word { x ^ y }

  lemma HalvedAnd(x: Word, y: Word)
    ensures Halved(And(x, y)) == And(Halved(x), Halved(y))
  {
  }

  lemma HalvedOr(x: Word, y: Word)
    ensures Halved(Or(x, y)) == Or(Halved(x), Halved(y))
  {
  }

  lemma HalvedXor(x: Word, y: Word)
    ensures Halved(Xor(x, y)) == Xor(Halved(x), Halved(y))
  {
  }

  lemma LastBitCombined(x: Word, y: Word)
    ensures Meets(And(x, y), 1) <==> Meets(x, 1) && Meets(y, 1)
    ensures Meets(Or(x, y), 1) <==> Meets(x, 1) || Meets(y, 1)
    ensures Meets(Xor(x, y), 1) <==> Meets(x, 1) != Meets(y, 1)
  {
  }

  lemma {:induction false} ShiftedCombined(x: Word, y: Word, k: nat)
    ensures ShiftRight(And(x, y), k) == And(ShiftRight(x, k), ShiftRight(y, k))
    ensures ShiftRight(Or(x, y), k) == Or(ShiftRight(x, k), ShiftRight(y, k))
    ensures ShiftRight(Xor(x, y), k) == Xor(ShiftRight(x, k), ShiftRight(y, k))
  {
    hide Halved, And, Or, Xor;
    if k == 0 {
    } else {
      ShiftedCombined(x, y, k - 1);
      HalvedAnd(ShiftRight(x, k - 1), ShiftRight(y, k - 1));
      HalvedOr(ShiftRight(x, k - 1), ShiftRight(y, k - 1));
      HalvedXor(ShiftRight(x, k - 1), ShiftRight(y, k - 1));
    }
  }

  /** And, or and exclusive or work bit by bit. */
  lemma BitsCombined(x: Word, y: Word, k: nat)
    ensures Test(And(x, y), k) <==> Test(x, k) && Test(y, k)
    ensures Test(Or(x, y), k) <==> Test(x, k) || Test(y, k)
    ensures Test(Xor(x, y), k) <==> Test(x, k) != Test(y, k)
  {
    hide ShiftRight, Meets, And, Or, Xor;
    ShiftedCombined(x, y, k);
    LastBitCombined(ShiftRight(x, k), ShiftRight(y, k));
  }

  // ----- bytes -----

  lemma WideByte(b: Byte)
    ensures ValueOf(b as bv32) == b as nat < 256
  {
  }

  lemma ShiftsOfJoin(b0: Byte, b1: Byte, b2: Byte, b3: Byte)
    ensures Join(b0, b1, b2, b3) ==
            Or(ShiftLeft(Or(ShiftLeft(Or(ShiftLeft(b3 as bv32, 8), b2 as bv32), 8), b1 as bv32), 8), b0 as bv32)
  {
    EightDoublings(b3 as bv32);
    EightDoublings(Or(ShiftLeft(b3 as bv32, 8), b2 as bv32));
    EightDoublings(Or(ShiftLeft(Or(ShiftLeft(b3 as bv32, 8), b2 as bv32), 8), b1 as bv32));
    hide ShiftLeft;
  }

  lemma EightDoublings(w: Word)
    ensures ShiftLeft(w, 8) == w << 8
  {
    assert ShiftLeft(w, 1) == Doubled(w) && ShiftLeft(w, 2) == Doubled(ShiftLeft(w, 1));
    assert ShiftLeft(w, 3) == Doubled(ShiftLeft(w, 2)) && ShiftLeft(w, 4) == Doubled(ShiftLeft(w, 3));
    assert ShiftLeft(w, 5) == Doubled(ShiftLeft(w, 4)) && ShiftLeft(w, 6) == Doubled(ShiftLeft(w, 5));
    assert ShiftLeft(w, 7) == Doubled(ShiftLeft(w, 6)) && ShiftLeft(w, 8) == Doubled(ShiftLeft(w, 7));
  }

  lemma Eight()
    ensures Pow2(8) == 256
  {
    assert Pow2(4) == 16;
  }

  lemma AppendedByte(w: Word, b: Byte)
    requires ValueOf(w) < 0x100_0000
    ensures ValueOf(Or(ShiftLeft(w, 8), b as bv32)) == 256 * ValueOf(w) + b as nat
  {
    hide ValueOf, ShiftLeft, Or, Meets, Pow2;
    Eight();
    WideByte(b);
    TimesIsProduct(ValueOf(w), 256);
    ShiftLeftValue(w, 8);
    ShiftedApart(w, 8, b as bv32);
    JoinValue(ShiftLeft(w, 8), b as bv32);
  }

  /** The number of a word, from its bytes. */
  lemma ValueOfJoin(b0: Byte, b1: Byte, b2: Byte, b3: Byte)
    ensures ValueOf(Join(b0, b1, b2, b3)) == b0 as nat + 0x100 * b1 as nat + 0x1_0000 * b2 as nat
            + 0x100_0000 * b3 as nat
  {
    hide ValueOf, ShiftLeft, Or, Join;
    WideByte(b3);
    WideByte(b2);
    WideByte(b1);
    WideByte(b0);
    var w := Or(ShiftLeft(b3 as bv32, 8), b2 as bv32);
    AppendedByte(b3 as bv32, b2);
    AppendedByte(w, b1);
    AppendedByte(Or(ShiftLeft(w, 8), b1 as bv32), b0);
    ShiftsOfJoin(b0, b1, b2, b3);
  }

  lemma ValueOfBytes(w: Word)
    ensures ValueOf(w) == ByteOf(w, 0) as nat + 0x100 * ByteOf(w, 1) as nat + 0x1_0000 * ByteOf(w, 2) as nat
                          + 0x100_0000 * ByteOf(w, 3) as nat
  {
    hide ValueOf, Join, ByteOf;
    JoinOfBytes(w);
    ValueOfJoin(ByteOf(w, 0), ByteOf(w, 1), ByteOf(w, 2), ByteOf(w, 3));
  }

  lemma Digits(v: nat, a: nat, b: nat, c: nat, d: nat)
    requires a < 0x100 && b < 0x100 && c < 0x100 && d < 0x100
    requires v == a + 0x100 * b + 0x1_0000 * c + 0x100_0000 * d
    ensures v % 0x100 == a && v / 0x100 % 0x100 == b && v / 0x1_0000 % 0x100 == c && v / 0x100_0000 == d
  {
    LowDigit(v, a, b + 0x100 * c + 0x1_0000 * d);
    LowDigit(v / 0x100, b, c + 0x100 * d);
    LowDigit(v / 0x100 / 0x100, c, d);
    assert v / 0x1_0000 == v / 0x100 / 0x100 && v / 0x100_0000 == v / 0x100 / 0x100 / 0x100;
  }

  lemma LowDigit(v: nat, a: nat, u: nat)
    requires a < 0x100 && v == a + 0x100 * u
    ensures v % 0x100 == a && v / 0x100 == u
  {
  }

  /** The bytes of a word are its digits to the base 256, the lowest first. */
  lemma ByteValues(w: Word)
    ensures ByteOf(w, 0) as nat == ValueOf(w) % 0x100 && ByteOf(w, 1) as nat == ValueOf(w) / 0x100 % 0x100
    ensures ByteOf(w, 2) as nat == ValueOf(w) / 0x1_0000 % 0x100 && ByteOf(w, 3) as nat == ValueOf(w) / 0x100_0000
  {
    hide ValueOf, ByteOf;
    var a, b, c, d := ByteOf(w, 0) as nat, ByteOf(w, 1) as nat, ByteOf(w, 2) as nat, ByteOf(w, 3) as nat;
    ValueOfBytes(w);
    Digits(ValueOf(w), a, b, c, d);
  }
}
