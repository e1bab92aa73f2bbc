/** Single bits of a word: tested by shifting them down, assigned under a mask. */
module Bits {
  import opened Words

  function Doubled(x: Word): Word { x << 1 }

  function Halved(x: Word): Word { x >> 1 }

  function And(x: Word, y: Word): Word { x & y }

  predicate Meets(x: Word, y: Word) { And(x, y) != 0 }

  function Bit(k: nat): Word {
    if k == 0 then 1 else Doubled(Bit(k - 1))
  }

  function ShiftRight(w: Word, k: nat): Word {
    if k == 0 then w else Halved(ShiftRight(w, k - 1))
  }

  predicate Test(w: Word, k: nat) { Meets(ShiftRight(w, k), 1) }

  function With(w: Word, mask: Word): Word { w | mask }

  function Cleared(w: Word, mask: Word): Word { w & !mask }

  function Assign(w: Word, k: nat, on: bool): Word { if on then With(w, Bit(k)) else Cleared(w, Bit(k)) }

  lemma DoubledApart(x: Word, y: Word)
    ensures !Meets(x, y) ==> !Meets(Doubled(x), Doubled(y))
    ensures !Meets(1, Doubled(y))
  {
  }

  lemma DoublingMoves(w: Word, x: Word)
    requires !Meets(x, 0x8000_0000)
    ensures Meets(Halved(w), x) <==> Meets(w, Doubled(x))
  {
  }

  lemma OrKeeps(w: Word, j: Word, k: Word)
    requires j & k == 0
    ensures (w | j) & k == w & k
  {
  }

  lemma AndNotKeeps(w: Word, j: Word, k: Word)
    requires j & k == 0
    ensures (w & !j) & k == w & k
  {
  }

  lemma WithOther(w: Word, j: Word, k: Word)
    requires !Meets(j, k)
    ensures And(With(w, j), k) == And(w, k)
  {
    OrKeeps(w, j, k);
  }

  lemma ClearedOther(w: Word, j: Word, k: Word)
    requires !Meets(j, k)
    ensures And(Cleared(w, j), k) == And(w, k)
  {
    AndNotKeeps(w, j, k);
  }

  lemma WithOwn(w: Word, k: Word)
    requires k != 0
    ensures Meets(With(w, k), k)
  {
    assert (w | k) & k == k;
  }

  lemma ClearedOwn(w: Word, k: Word)
    ensures !Meets(Cleared(w, k), k)
  {
  }

  lemma {:induction false} BitsDisjoint(j: nat, k: nat)
    requires j < k
    ensures !Meets(Bit(j), Bit(k))
  {
    hide Doubled, And, Meets;
    if j > 0 {
      BitsDisjoint(j - 1, k - 1);
      DoubledApart(Bit(j - 1), Bit(k - 1));
    } else {
      DoubledApart(1, Bit(k - 1));
    }
  }

  lemma TopBit()
    ensures Bit(31) == 0x8000_0000
  {
    assert Bit(0) == 0x1 && Bit(1) == 0x2 && Bit(2) == 0x4 && Bit(3) == 0x8;
    assert Bit(4) == 0x10 && Bit(5) == 0x20 && Bit(6) == 0x40 && Bit(7) == 0x80;
    assert Bit(8) == 0x100 && Bit(9) == 0x200 && Bit(10) == 0x400 && Bit(11) == 0x800;
    assert Bit(12) == 0x1000 && Bit(13) == 0x2000 && Bit(14) == 0x4000 && Bit(15) == 0x8000;
    assert Bit(16) == 0x10000 && Bit(17) == 0x20000 && Bit(18) == 0x40000 && Bit(19) == 0x80000;
    assert Bit(20) == 0x100000 && Bit(21) == 0x200000 && Bit(22) == 0x400000 && Bit(23) == 0x800000;
    assert Bit(24) == 0x1000000 && Bit(25) == 0x2000000 && Bit(26) == 0x4000000 && Bit(27) == 0x8000000;
    assert Bit(28) == 0x10000000 && Bit(29) == 0x20000000 && Bit(30) == 0x40000000 && Bit(31) == 0x80000000;
  }

  lemma {:induction false} ZeroStays(k: nat, n: nat)
    requires k <= n && Bit(k) == 0
    ensures Bit(n) == 0
  {
    if k == n {
    } else {
      ZeroStays(k, n - 1);
    }
  }

  lemma BitNonzero(k: nat)
    requires k < 32
    ensures Bit(k) != 0
  {
    hide Bit;
    TopBit();
    if Bit(k) == 0 {
      ZeroStays(k, 31);
    }
  }

  lemma {:induction false} ShiftedBits(w: Word, k: nat, m: nat)
    requires k + m < 32
    ensures Meets(ShiftRight(w, k), Bit(m)) <==> Meets(w, Bit(k + m))
    decreases k
  {
    hide Doubled, Halved, And, Meets;
    if k == 0 {
    } else {
      TopBit();
      BitsDisjoint(m, 31);
      DoublingMoves(ShiftRight(w, k - 1), Bit(m));
      ShiftedBits(w, k - 1, m + 1);
    }
  }

  /** Testing a bit by shifting it down is testing it under its mask. */
  lemma TestIsMask(w: Word, k: nat)
    requires k < 32
    ensures Test(w, k) <==> Meets(w, Bit(k))
  {
    hide Doubled, Halved, And, Meets;
    ShiftedBits(w, k, 0);
  }

  lemma AssignedMask(w: Word, j: nat, on: bool, k: nat)
    requires Bit(k) != 0 && (j != k ==> !Meets(Bit(j), Bit(k)))
    ensures Meets(Assign(w, j, on), Bit(k)) <==> if k == j then on else Meets(w, Bit(k))
  {
    hide Bit, And, With, Cleared;
    if k == j {
      WithOwn(w, Bit(k));
      ClearedOwn(w, Bit(k));
    } else {
      WithOther(w, Bit(j), Bit(k));
      ClearedOther(w, Bit(j), Bit(k));
    }
  }

  /** Assigning a bit changes that bit and no other. */
  lemma AssignedBit(w: Word, j: nat, on: bool, k: nat)
    requires j < 32 && k < 32
    ensures Test(Assign(w, j, on), k) == if k == j then on else Test(w, k)
  {
    hide Bit, Test, And, Meets, Assign;
    TestIsMask(w, k);
    TestIsMask(Assign(w, j, on), k);
    BitNonzero(k);
    DifferentBits(j, k);
    AssignedMask(w, j, on, k);
  }

  lemma DifferentBits(j: nat, k: nat)
    ensures j != k ==> !Meets(Bit(j), Bit(k))
  {
    hide Bit;
    if j < k {
      BitsDisjoint(j, k);
    } else if k < j {
      BitsDisjoint(k, j);
      MeetsEitherWay(Bit(j), Bit(k));
    }
  }

  lemma MeetsEitherWay(x: Word, y: Word)
    ensures Meets(x, y) == Meets(y, x)
  {
  }

  lemma {:induction false} ZeroWord(k: nat)
    ensures !Test(0, k) && ShiftRight(0, k) == 0
  {
    if k == 0 {
    } else {
      ZeroWord(k - 1);
    }
  }
}
