/** The load and store instructions of a core on its data cache.

  The cache holds words; the core reads bytes and halfwords out of the word that contains them
  and stores them by reading that word, replacing a part of it and writing it back. */
module LoadStore {
  import opened Bits
  import opened WordArithmetic
  import opened Words
  import opened CacheAddress
  import opened CacheModel
  import opened MemoryHierarchy
  import opened Hierarchy

  // ----- byte memory -----

  /** The bytes of a word memory, in address order. */
  function BytesOf(view: seq<Word>): (r: seq<Byte>)
    ensures |r| == 4 * |view|
    ensures forall a :: 0 <= a < |r| ==> r[a] == ByteOf(view[a / 4], a % 4)
  {
    seq(4 * |view|, a requires 0 <= a < 4 * |view| => ByteOf(view[a / 4], a % 4))
  }

  /** Words and bytes are two views of one memory. */
  lemma BytesOfWords(bytes: seq<Byte>)
    requires |bytes| % 4 == 0
    ensures BytesOf(WordsOf(bytes)) == bytes
  {
    hide Join, ByteOf;
    forall a | 0 <= a < |bytes|
      ensures BytesOf(WordsOf(bytes))[a] == bytes[a]
    {
      var w := a - a % 4;
      assert 4 * (a / 4) == w;
      BytesOfJoin(bytes[w], bytes[w + 1], bytes[w + 2], bytes[w + 3]);
    }
  }

  lemma FourBytes(view: seq<Word>, w: nat)
    requires w < |view|
    ensures var bytes, v := BytesOf(view), view[w];
            && bytes[4 * w] == ByteOf(v, 0) && bytes[4 * w + 1] == ByteOf(v, 1)
            && bytes[4 * w + 2] == ByteOf(v, 2) && bytes[4 * w + 3] == ByteOf(v, 3)
  {
    hide ByteOf;
  }

  lemma WordsOfBytes(view: seq<Word>)
    ensures WordsOf(BytesOf(view)) == view
  {
    hide Join, ByteOf, BytesOf;
    forall w | 0 <= w < |view|
      ensures WordsOf(BytesOf(view))[w] == view[w]
    {
      FourBytes(view, w);
      JoinOfBytes(view[w]);
    }
  }

  lemma Spliced(bytes: seq<Byte>, a: nat, data: seq<Byte>)
    requires a + |data| <= |bytes|
    ensures PutBlock(bytes, a, data)[a..a + |data|] == data
  {
    var r := PutBlock(bytes, a, data);
    forall j | 0 <= j < |data|
      ensures r[a..a + |data|][j] == data[j]
    {
      assert r[a + j] == data[a + j - a];
    }
  }

  datatype Instruction =
    | Lb(addr: nat) | Lbu(addr: nat) | Lh(addr: nat) | Lhu(addr: nat) | Lw(addr: nat)
    | Sb(addr: nat, v: Word) | Sh(addr: nat, v: Word) | Sw(addr: nat, v: Word)
  {
    function Width(): nat {
      match this
      case Lb(_) => 1
      case Lbu(_) => 1
      case Lh(_) => 2
      case Lhu(_) => 2
      case Lw(_) => 4
      case Sb(_, _) => 1
      case Sh(_, _) => 2
      case Sw(_, _) => 4
    }

    predicate Aligned() { addr % Width() == 0 }

    predicate IsStore() { Sb? || Sh? || Sw? }

    /** The address the core really uses: a misaligned access is moved within its word. */
    function Address(): (r: nat)
      ensures r / 4 == addr / 4 && r % 4 == Lane()
    {
      addr - addr % 4 + Lane()
    }

    /** The first byte of the word that it uses. */
    function Lane(): (r: nat)
      ensures r + Width() <= 4
    {
      match Width()
      case 1 => addr % 4
      case 2 => if addr % 4 == 0 then 0 else 2
      case _ => 0
    }

    /** The bytes it stores, lowest address first. */
    function Data(): seq<Byte> {
      match this
      case Sb(_, v) => [ByteOf(v, 0)]
      case Sh(_, v) => [ByteOf(v, 0), ByteOf(v, 1)]
      case Sw(_, v) => [ByteOf(v, 0), ByteOf(v, 1), ByteOf(v, 2), ByteOf(v, 3)]
      case _ => []
    }

    predicate Covers(a: nat) { IsStore() && Address() <= a < Address() + Width() }
  }

  lemma Parity(a: nat)
    ensures a % 2 == (a % 4) % 2
  {
  }

  /** The core uses the address it was given exactly when that is naturally aligned. */
  lemma AlignedIff(i: Instruction)
    ensures i.Address() == i.addr <==> i.Aligned()
  {
    Parity(i.addr);
    var lane := i.addr % 4;
    assert 0 <= lane < 4;
    assert i.Address() == i.addr <==> i.Lane() == lane;
  }

  function SignExtend8(b: Byte): Word { if b >= 0x80 then (b as bv32) | 0xFFFF_FF00 else b as bv32 }

  function SignExtend16(h: bv16): Word { if h >= 0x8000 then (h as bv32) | 0xFFFF_0000 else h as bv32 }

  function ZeroExtend8(b: Byte): Word { b as bv32 }

  function ZeroExtend16(h: bv16): Word { h as bv32 }

  /** The halfword whose lower byte is b0. */
  function HalfOf(b0: Byte, b1: Byte): bv16 { (b0 as bv16) | ((b1 as bv16) << 8) }

  /** What an instruction does to a little-endian byte memory. */
  function Stored(bytes: seq<Byte>, i: Instruction): seq<Byte> { PutBlock(bytes, i.Address(), i.Data()) }

  function StoredAll(bytes: seq<Byte>, run: seq<Instruction>): (r: seq<Byte>)
    ensures |r| == |bytes|
  {
    if run == [] then bytes else Stored(StoredAll(bytes, run[..|run| - 1]), run[|run| - 1])
  }

  /** The register value a load makes of the bytes it reads. */
  function FromBytes(i: Instruction, data: seq<Byte>): Word
    requires |data| == i.Width()
  {
    match i
    case Lb(_) => SignExtend8(data[0])
    case Lbu(_) => ZeroExtend8(data[0])
    case Lh(_) => SignExtend16(HalfOf(data[0], data[1]))
    case Lhu(_) => ZeroExtend16(HalfOf(data[0], data[1]))
    case Lw(_) => Join(data[0], data[1], data[2], data[3])
    case _ => 0
  }

  /** What a load returns from a little-endian byte memory. */
  function Loaded(bytes: seq<Byte>, i: Instruction): Word
    requires i.Address() + i.Width() <= |bytes|
  {
    FromBytes(i, bytes[i.Address()..i.Address() + i.Width()])
  }

  /** rd is what a load returns; a load outside the memory returns anything. */
  predicate Right(bytes: seq<Byte>, i: Instruction, rd: Word) {
    !i.IsStore() && i.Address() + i.Width() <= |bytes| ==> rd == Loaded(bytes, i)
  }

  /** A run leaves in every byte what the last store covering it put there, and bytes that no store
      covers as they were. */
  lemma {:induction false} LastByteWins(bytes: seq<Byte>, run: seq<Instruction>, k: int, a: nat)
    requires -1 <= k < |run| && a < |bytes|
    requires k >= 0 ==> run[k].Covers(a)
    requires forall j :: k < j < |run| ==> !run[j].Covers(a)
    ensures StoredAll(bytes, run)[a] == if k < 0 then bytes[a] else run[k].Data()[a - run[k].Address()]
  {
    if k == |run| - 1 {
    } else {
      assert !run[|run| - 1].Covers(a);
      LastByteWins(bytes, run[..|run| - 1], k, a);
    }
  }

  /** A load of what was just stored: the bytes of the stored register, extended. */
  lemma LoadAfterStore(bytes: seq<Byte>, i: Instruction, l: Instruction)
    requires i.IsStore() && !l.IsStore() && l.addr == i.addr && l.Width() == i.Width()
    requires i.Address() + i.Width() <= |bytes|
    ensures Loaded(Stored(bytes, i), l) == FromBytes(l, i.Data())
    ensures i.Sw? ==> Loaded(Stored(bytes, i), l) == i.v
  {
    hide ByteOf, Join, FromBytes;
    Spliced(bytes, i.Address(), i.Data());
    if i.Sw? {
      WholeWordLoaded(l.addr, i.v);
    }
  }

  lemma WholeWordLoaded(a: nat, v: Word)
    ensures FromBytes(Lw(a), Sw(a, v).Data()) == v
  {
    JoinOfBytes(v);
  }

  /** Sign extension keeps the two's complement value. */
  lemma SignExtends(b: Byte, h: bv16)
    ensures SignExtend8(b) == ((b as bv32) ^ 0x80) - 0x80
    ensures SignExtend16(h) == ((h as bv32) ^ 0x8000) - 0x8000
  {
  }

  // ----- in plain numbers -----

  lemma HighApart(b: Byte, h: bv16)
    ensures !Meets(b as bv32, 0xFFFF_FF00) && !Meets(h as bv32, 0xFFFF_0000)
  {
  }

  lemma HighValues()
    ensures ValueOf(0xFFFF_FF00) == 0xFFFF_FF00 && ValueOf(0xFFFF_0000) == 0xFFFF_0000
  {
  }

  lemma WideHalf(h: bv16)
    ensures ValueOf(h as bv32) == h as nat
  {
  }

  lemma Extended8(b: Byte)
    ensures ValueOf(ZeroExtend8(b)) == b as nat
    ensures ValueOf(SignExtend8(b)) == if b as nat < 0x80 then b as nat else 0xFFFF_FF00 + b as nat
  {
    hide ValueOf, Meets, WordArithmetic.Or;
    WideByte(b);
    HighApart(b, 0);
    HighValues();
    JoinValue(b as bv32, 0xFFFF_FF00);
    Joined8(b);
    TopOfByte(b);
  }

  lemma Joined8(b: Byte)
    ensures b >= 0x80 ==> SignExtend8(b) == WordArithmetic.Or(b as bv32, 0xFFFF_FF00)
    ensures b < 0x80 ==> SignExtend8(b) == b as bv32
  {
  }

  lemma TopOfByte(b: Byte)
    ensures b >= 0x80 <==> b as nat >= 0x80
  {
  }

  lemma Extended16(h: bv16)
    ensures ValueOf(ZeroExtend16(h)) == h as nat
    ensures ValueOf(SignExtend16(h)) == if h as nat < 0x8000 then h as nat else 0xFFFF_0000 + h as nat
  {
    hide ValueOf, Meets, WordArithmetic.Or;
    WideHalf(h);
    HighApart(0, h);
    HighValues();
    JoinValue(h as bv32, 0xFFFF_0000);
    Joined16(h);
    TopOfHalf(h);
  }

  lemma Joined16(h: bv16)
    ensures h >= 0x8000 ==> SignExtend16(h) == WordArithmetic.Or(h as bv32, 0xFFFF_0000)
    ensures h < 0x8000 ==> SignExtend16(h) == h as bv32
  {
  }

  lemma TopOfHalf(h: bv16)
    ensures h >= 0x8000 <==> h as nat >= 0x8000
  {
  }

  lemma HalfIsJoin(b0: Byte, b1: Byte)
    ensures HalfOf(b0, b1) as bv32 == Join(b0, b1, 0, 0)
  {
  }

  lemma HalfValue(b0: Byte, b1: Byte)
    ensures HalfOf(b0, b1) as nat == b0 as nat + 0x100 * b1 as nat
  {
    hide ValueOf, HalfOf, Join;
    WideHalf(HalfOf(b0, b1));
    HalfIsJoin(b0, b1);
    ValueOfJoin(b0, b1, 0, 0);
  }

  /** The address of the first byte of an access, in plain numbers. */
  function FirstByte(i: Instruction): nat {
    match i
    case Lb(a) => a
    case Lbu(a) => a
    case Sb(a, _) => a
    case Lh(a) => if a % 4 == 0 then a else a - a % 4 + 2
    case Lhu(a) => if a % 4 == 0 then a else a - a % 4 + 2
    case Sh(a, _) => if a % 4 == 0 then a else a - a % 4 + 2
    case Lw(a) => a - a % 4
    case Sw(a, _) => a - a % 4
  }

  lemma FirstByteUsed(i: Instruction)
    ensures i.Address() == FirstByte(i)
  {
  }

  /** The number that a load makes of its bytes. */
  lemma DataValue(i: Instruction, data: seq<Byte>)
    requires !i.IsStore() && |data| == i.Width()
    ensures var r := ValueOf(FromBytes(i, data));
            match i
            case Lb(_) => r == data[0] as nat + if data[0] as nat < 0x80 then 0 else 0xFFFF_FF00
            case Lbu(_) => r == data[0] as nat
            case Lh(_) =>
              var h := data[0] as nat + 0x100 * data[1] as nat;
              r == h + if h < 0x8000 then 0 else 0xFFFF_0000
            case Lhu(_) => r == data[0] as nat + 0x100 * data[1] as nat
            case Lw(_) => r == data[0] as nat + 0x100 * data[1] as nat + 0x1_0000 * data[2] as nat
                               + 0x100_0000 * data[3] as nat
            case _ => true
  {
    hide ValueOf, SignExtend8, SignExtend16, ZeroExtend8, ZeroExtend16, HalfOf, Join;
    if i.Lb? || i.Lbu? {
      Extended8(data[0]);
    } else if i.Lh? || i.Lhu? {
      HalfValue(data[0], data[1]);
      Extended16(HalfOf(data[0], data[1]));
    } else {
      ValueOfJoin(data[0], data[1], data[2], data[3]);
    }
  }

  /** What each load returns: the little-endian number of its bytes, with 2^32 less twice the weight of the
      sign bit added if that is set in a signed byte or halfword. */
  lemma LoadedValue(bytes: seq<Byte>, i: Instruction)
    requires !i.IsStore() && i.Address() + i.Width() <= |bytes|
    ensures var a, r := FirstByte(i), ValueOf(Loaded(bytes, i));
            match i
            case Lb(_) => r == bytes[a] as nat + if bytes[a] as nat < 0x80 then 0 else 0xFFFF_FF00
            case Lbu(_) => r == bytes[a] as nat
            case Lh(_) =>
              var h := bytes[a] as nat + 0x100 * bytes[a + 1] as nat;
              r == h + if h < 0x8000 then 0 else 0xFFFF_0000
            case Lhu(_) => r == bytes[a] as nat + 0x100 * bytes[a + 1] as nat
            case Lw(_) => r == bytes[a] as nat + 0x100 * bytes[a + 1] as nat + 0x1_0000 * bytes[a + 2] as nat
                               + 0x100_0000 * bytes[a + 3] as nat
            case _ => true
  {
    hide ValueOf, FromBytes, FirstByte, Instruction.Address;
    FirstByteUsed(i);
    DataValue(i, bytes[i.Address()..i.Address() + i.Width()]);
  }

  lemma StoredByte(bytes: seq<Byte>, i: Instruction, x: nat)
    requires i.IsStore() && x < |bytes|
    ensures var a := FirstByte(i);
            Stored(bytes, i)[x] == if a <= x < a + i.Width() then ByteOf(i.v, x - a) else bytes[x]
  {
    hide ByteOf, FirstByte, Instruction.Address;
    FirstByteUsed(i);
  }

  /** What each store leaves: the lowest digits of the register to the base 256, the lowest first. */
  lemma StoredValue(bytes: seq<Byte>, i: Instruction, x: nat)
    requires i.IsStore() && x < |bytes|
    ensures var a, v := FirstByte(i), ValueOf(i.v);
            Stored(bytes, i)[x] as nat ==
            if x == a then v % 0x100
            else if !i.Sb? && x == a + 1 then v / 0x100 % 0x100
            else if i.Sw? && x == a + 2 then v / 0x1_0000 % 0x100
            else if i.Sw? && x == a + 3 then v / 0x100_0000
            else bytes[x] as nat
  {
    hide ValueOf, ByteOf, FirstByte, Stored;
    ByteValues(i.v);
    StoredByte(bytes, i, x);
  }

  // ----- parts of a word -----

  /** The lower halfword of w, or the upper one. */
  function HalfAt(w: Word, upper: bool): bv16 {
    if upper then ((w >> 16) & 0xFFFF) as bv16 else (w & 0xFFFF) as bv16
  }

  function InsertByte(w: Word, k: nat, v: Word): Word
    requires k < 4
  {
    if k == 0 then (w & 0xFFFF_FF00) | (v & 0xFF)
    else if k == 1 then (w & 0xFFFF_00FF) | ((v & 0xFF) << 8)
    else if k == 2 then (w & 0xFF00_FFFF) | ((v & 0xFF) << 16)
    else (w & 0x00FF_FFFF) | ((v & 0xFF) << 24)
  }

  function InsertHalf(w: Word, upper: bool, v: Word): Word {
    if upper then (w & 0x0000_FFFF) | ((v & 0xFFFF) << 16) else (w & 0xFFFF_0000) | (v & 0xFFFF)
  }

  /** The four bytes of a word. */
  function Quad(w: Word): (r: seq<Byte>)
    ensures |r| == 4
  {
    [ByteOf(w, 0), ByteOf(w, 1), ByteOf(w, 2), ByteOf(w, 3)]
  }

  lemma InsertedByte(w: Word, k: nat, v: Word)
    requires k < 4
    ensures Quad(InsertByte(w, k, v)) == Quad(w)[k := ByteOf(v, 0)]
  {
    if k == 0 {
      InsertedByte0(w, v);
    } else if k == 1 {
      InsertedByte1(w, v);
    } else if k == 2 {
      InsertedByte2(w, v);
    } else {
      InsertedByte3(w, v);
    }
  }

  lemma InsertedByte0(w: Word, v: Word)
    ensures Quad(InsertByte(w, 0, v)) == Quad(w)[0 := ByteOf(v, 0)]
  {
  }

  lemma InsertedByte1(w: Word, v: Word)
    ensures Quad(InsertByte(w, 1, v)) == Quad(w)[1 := ByteOf(v, 0)]
  {
  }

  lemma InsertedByte2(w: Word, v: Word)
    ensures Quad(InsertByte(w, 2, v)) == Quad(w)[2 := ByteOf(v, 0)]
  {
  }

  lemma InsertedByte3(w: Word, v: Word)
    ensures Quad(InsertByte(w, 3, v)) == Quad(w)[3 := ByteOf(v, 0)]
  {
  }

  lemma InsertedHalf(w: Word, upper: bool, v: Word)
    ensures Quad(InsertHalf(w, upper, v)) ==
            if upper then Quad(w)[2 := ByteOf(v, 0)][3 := ByteOf(v, 1)]
            else Quad(w)[0 := ByteOf(v, 0)][1 := ByteOf(v, 1)]
  {
  }

  lemma LowerHalf(w: Word)
    ensures HalfAt(w, false) == HalfOf(ByteOf(w, 0), ByteOf(w, 1))
  {
  }

  lemma UpperHalf(w: Word)
    ensures HalfAt(w, true) == HalfOf(ByteOf(w, 2), ByteOf(w, 3))
  {
  }

  lemma PutBytes(view: seq<Word>, w: nat, v: Word, k: nat, data: seq<Byte>)
    requires k + |data| <= 4
    requires w < |view| ==>
               forall j :: 0 <= j < 4 ==> Quad(v)[j] == if k <= j < k + |data| then data[j - k] else Quad(view[w])[j]
    ensures BytesOf(Put(view, w, v)) == PutBlock(BytesOf(view), 4 * w + k, data)
  {
    hide ByteOf, BytesOf, PutBlock;
    var r, s := BytesOf(Put(view, w, v)), PutBlock(BytesOf(view), 4 * w + k, data);
    forall a | 0 <= a < |r|
      ensures r[a] == s[a]
    {
      if a / 4 == w {
        assert r[a] == Quad(v)[a % 4] && BytesOf(view)[a] == Quad(view[w])[a % 4];
      }
    }
  }

  lemma WholeWord(a: nat, v: Word)
    ensures Quad(v) == Sw(a, v).Data()
  {
  }

  /** A store replaces exactly its own bytes of the word. */
  lemma MergedBytes(i: Instruction, temp: Word, j: nat)
    requires i.IsStore() && j < 4
    ensures var k, data := i.Address() % 4, i.Data();
            Quad(Merge(i, temp))[j] == if k <= j < k + |data| then data[j - k] else Quad(temp)[j]
  {
    hide ByteOf, InsertByte, InsertHalf, Quad;
    match i {
      case Sb(a, v) => InsertedByte(temp, a % 4, v);
      case Sh(a, v) => InsertedHalf(temp, a % 4 != 0, v);
      case Sw(a, v) => WholeWord(a, v);
    }
  }

  /** Storing the changed word stores exactly the bytes of the instruction. */
  lemma WordStored(view: seq<Word>, i: Instruction, temp: Word)
    requires i.IsStore()
    requires !i.Sw? && i.addr / 4 < |view| ==> temp == view[i.addr / 4]
    ensures BytesOf(Put(view, i.addr / 4, Merge(i, temp))) == Stored(BytesOf(view), i)
  {
    hide ByteOf, Quad, Merge, Put, BytesOf, PutBlock;
    forall j | 0 <= j < 4
      ensures var k, data := i.Address() % 4, i.Data();
              Quad(Merge(i, temp))[j] == if k <= j < k + |data| then data[j - k] else Quad(temp)[j]
    {
      MergedBytes(i, temp, j);
    }
    PutBytes(view, i.addr / 4, Merge(i, temp), i.Address() % 4, i.Data());
  }

  /** The word a store writes, from the word it finds. */
  function Merge(i: Instruction, temp: Word): Word
    requires i.IsStore()
  {
    match i
    case Sb(a, v) => InsertByte(temp, a % 4, v)
    case Sh(a, v) => InsertHalf(temp, a % 4 != 0, v)
    case Sw(_, v) => v
  }

  /** What a load extracts from the word it finds. */
  function Extract(i: Instruction, temp: Word): Word {
    match i
    case Lb(a) => SignExtend8(ByteOf(temp, a % 4))
    case Lbu(a) => ZeroExtend8(ByteOf(temp, a % 4))
    case Lh(a) => SignExtend16(HalfAt(temp, a % 4 != 0))
    case Lhu(a) => ZeroExtend16(HalfAt(temp, a % 4 != 0))
    case _ => temp
  }

  lemma BytesOfWord(view: seq<Word>, w: nat)
    requires w < |view|
    ensures BytesOf(view)[4 * w..4 * w + 4] == Quad(view[w])
  {
  }

  lemma HalvesOf(w: Word, upper: bool)
    ensures HalfAt(w, upper) == if upper then HalfOf(Quad(w)[2], Quad(w)[3]) else HalfOf(Quad(w)[0], Quad(w)[1])
  {
    hide HalfAt, HalfOf, ByteOf;
    LowerHalf(w);
    UpperHalf(w);
  }

  lemma ExtractedBytes(i: Instruction, temp: Word)
    requires !i.IsStore()
    ensures Extract(i, temp) == FromBytes(i, Quad(temp)[i.Lane()..i.Lane() + i.Width()])
  {
    hide SignExtend8, SignExtend16, ZeroExtend8, ZeroExtend16, Join, HalfOf, HalfAt, ByteOf;
    var q := Quad(temp);
    match i {
      case Lb(_) => assert q[i.Lane()..i.Lane() + 1][0] == q[i.addr % 4];
      case Lbu(_) => assert q[i.Lane()..i.Lane() + 1][0] == q[i.addr % 4];
      case Lh(_) => HalvesOf(temp, i.addr % 4 != 0);
      case Lhu(_) => HalvesOf(temp, i.addr % 4 != 0);
      case Lw(_) =>
        JoinOfBytes(temp);
        assert q[0..4] == q;
      case _ =>
    }
  }

  lemma SliceOfSlice(s: seq<Byte>, a: nat, k: nat, n: nat)
    requires a + 4 <= |s| && k + n <= 4
    ensures s[a..a + 4][k..k + n] == s[a + k..a + k + n]
  {
    var l, r := s[a..a + 4][k..k + n], s[a + k..a + k + n];
    assert |l| == |r|;
    forall j | 0 <= j < n
      ensures l[j] == r[j]
    {
      assert l[j] == s[a..a + 4][k + j];
    }
  }

  lemma WordLoaded(view: seq<Word>, i: Instruction)
    requires i.addr / 4 < |view| && !i.IsStore()
    ensures Extract(i, view[i.addr / 4]) == Loaded(BytesOf(view), i)
  {
    hide Extract, FromBytes, Quad, BytesOf, ByteOf;
    var a, bytes := 4 * (i.addr / 4), BytesOf(view);
    BytesOfWord(view, i.addr / 4);
    ExtractedBytes(i, view[i.addr / 4]);
    assert i.Address() == a + i.Lane();
    SliceOfSlice(bytes, a, i.Lane(), i.Width());
  }

  // ----- running instructions on the cache -----

  /** The address handed to the cache: sub-word accesses align it, word accesses do not. */
  function WordAddress(i: Instruction): nat {
    if i.Lw? || i.Sw? then i.addr else i.addr - i.addr % 4
  }

  /** The requests of an instruction to the cache; which word a store writes does not matter here. */
  function Requests(i: Instruction): seq<Op> {
    if !i.IsStore() then [Load(WordAddress(i))]
    else if i.Sw? then [Store(i.addr, 0)]
    else [Load(WordAddress(i)), Store(WordAddress(i), 0)]
  }

  function RequestsAll(run: seq<Instruction>): seq<Op> {
    if run == [] then [] else RequestsAll(run[..|run| - 1]) + Requests(run[|run| - 1])
  }

  /** Every instruction of a program makes admissible requests, from a cache with the given recency orders
      and dirty blocks. */
  ghost predicate AdmissibleProgram(g: Geometry, stacked: bool, r: seq<seq<nat>>, d: iset<nat>, run: seq<Instruction>)
    requires g.Ok() && |r| == g.sets
  {
    forall k :: 0 <= k < |run| ==>
      var before := RequestsAll(run[..k]);
      AdmissibleRun(g, stacked, RecentAll(g, r, before), DirtyAll(g, r, d, before), Requests(run[k]))
  }

  /** The history of a cache does not depend on the words stored. */
  lemma WordDoesNotMatter(g: Geometry, stacked: bool, r: seq<seq<nat>>, d: iset<nat>, a: nat, v: Word)
    requires g.Ok() && |r| == g.sets
    ensures Recent(g, r, Store(a, v)) == Recent(g, r, Store(a, 0))
    ensures DirtyAfter(g, r, d, Store(a, v)) == DirtyAfter(g, r, d, Store(a, 0))
    ensures Admissible(g, stacked, d, Store(a, v)) == Admissible(g, stacked, d, Store(a, 0))
  {
    hide Held, Touched, Dropped;
    assert forall n: nat :: StoresInto(g, Store(a, v), n) == StoresInto(g, Store(a, 0), n);
    assert forall n: nat :: Clears(g, Store(a, v), n) == Clears(g, Store(a, 0), n);
  }

  lemma OneRequest(g: Geometry, stacked: bool, r: seq<seq<nat>>, d: iset<nat>, op: Op)
    requires g.Ok() && |r| == g.sets
    ensures RecentAll(g, r, [op]) == Recent(g, r, op) && DirtyAll(g, r, d, [op]) == DirtyAfter(g, r, d, op)
    ensures AdmissibleRun(g, stacked, r, d, [op]) ==> Admissible(g, stacked, d, op)
  {
    hide Recent, DirtyAfter, Admissible;
    var ops := [op];
    assert ops[..0] == [];
  }

  lemma TwoRequests(g: Geometry, stacked: bool, r: seq<seq<nat>>, d: iset<nat>, op: Op, op': Op)
    requires g.Ok() && |r| == g.sets
    ensures RecentAll(g, r, [op, op']) == Recent(g, Recent(g, r, op), op')
    ensures DirtyAll(g, r, d, [op, op']) == DirtyAfter(g, Recent(g, r, op), DirtyAfter(g, r, d, op), op')
    ensures AdmissibleRun(g, stacked, r, d, [op, op']) ==> Admissible(g, stacked, DirtyAfter(g, r, d, op), op')
  {
    hide Recent, DirtyAfter, Admissible;
    var ops := [op, op'];
    assert ops[..1] == [op];
    OneRequest(g, stacked, r, d, op);
  }

  lemma LoadsStoreNothing(bytes: seq<Byte>, i: Instruction)
    requires !i.IsStore()
    ensures Stored(bytes, i) == bytes
  {
  }

  lemma SameWord(i: Instruction)
    ensures WordAddress(i) / 4 == i.addr / 4
    ensures i.Sw? ==> WordAddress(i) == i.addr
  {
  }

  /** The store of an instruction to the cache, through which its history goes on. */
  method ExecuteStore(c: Cache, addr: nat, v: Word, core: nat)
    requires c.Valid() && Admissible(c.g, c.next.Level?, DirtyOf(c), Store(addr, 0))
    modifies c.Repr
    ensures c.Valid() && c.View == Put(old(c.View), addr / 4, v)
    ensures c.Recency() == Recent(c.g, old(c.Recency()), Store(addr, 0))
    ensures DirtyOf(c) == DirtyAfter(c.g, old(c.Recency()), old(DirtyOf(c)), Store(addr, 0))
  {
    hide Overlay, CleanAgrees, IsDirty, RecencyOf, OrdersOk, Resident, Put, Geometry.Block, Recent, DirtyAfter,
         Admissible, DirtyIn, WriteBacks, Memory.Repr, Memory.View, Memory.Depth;
    WordDoesNotMatter(c.g, c.next.Level?, c.Recency(), DirtyOf(c), addr, v);
    var hit := PerformStore(c, addr, v, core);
  }

  method ExecuteLoad(c: Cache, addr: nat, core: nat) returns (data: Word)
    requires c.Valid()
    modifies c.Repr
    ensures c.Valid() && c.View == old(c.View)
    ensures addr / 4 < |c.View| ==> data == c.View[addr / 4]
    ensures c.Recency() == Recent(c.g, old(c.Recency()), Load(addr))
    ensures DirtyOf(c) == DirtyAfter(c.g, old(c.Recency()), old(DirtyOf(c)), Load(addr))
  {
    hide Overlay, CleanAgrees, IsDirty, RecencyOf, OrdersOk, Resident, Geometry.Block, Recent, DirtyAfter, DirtyIn,
         WriteBacks, Memory.Repr, Memory.View, Memory.Depth;
    var hit;
    data, hit := Perform(c, Load(addr), core);
  }

  method Execute(c: Cache, i: Instruction, core: nat) returns (rd: Word)
    requires c.Valid() && AdmissibleRun(c.g, c.next.Level?, c.Recency(), DirtyOf(c), Requests(i))
    modifies c.Repr
    ensures c.Valid()
    ensures c.Recency() == RecentAll(c.g, old(c.Recency()), Requests(i))
    ensures DirtyOf(c) == DirtyAll(c.g, old(c.Recency()), old(DirtyOf(c)), Requests(i))
    ensures BytesOf(c.View) == Stored(BytesOf(old(c.View)), i)
    ensures Right(BytesOf(old(c.View)), i, rd)
  {
    hide BytesOf, Stored, PutBlock, InsertByte, InsertHalf, Extract, Loaded, WordAddress, Put, Overlay, CleanAgrees,
         IsDirty, RecencyOf, OrdersOk, Resident, Geometry.Block, Memory.Repr, Memory.View, Memory.Depth, Apply,
         Recent, DirtyAfter, DirtyIn, RecentAll, DirtyAll, Admissible, AdmissibleRun;
    rd := 0;
    SameWord(i);
    ghost var g, stacked, r, d, view := c.g, c.next.Level?, c.Recency(), DirtyOf(c), c.View;
    if i.Sw? {
      WordStored(view, i, 0);
      OneRequest(g, stacked, r, d, Store(i.addr, 0));
      ExecuteStore(c, i.addr, i.v, core);
    } else {
      OneRequest(g, stacked, r, d, Load(WordAddress(i)));
      var temp := ExecuteLoad(c, WordAddress(i), core);
      if i.IsStore() {
        WordStored(view, i, temp);
        TwoRequests(g, stacked, r, d, Load(WordAddress(i)), Store(WordAddress(i), 0));
        ExecuteStore(c, WordAddress(i), Merge(i, temp), core);
      } else {
        rd := Extract(i, temp);
        LoadsStoreNothing(BytesOf(view), i);
        if i.addr / 4 < |view| {
          WordLoaded(view, i);
        }
      }
    }
  }

  /** Every load of a run returned what the byte memory holds then. */
  ghost predicate AllRight(bytes: seq<Byte>, run: seq<Instruction>, rds: seq<Word>) {
    && |rds| == |run|
    && forall k :: 0 <= k < |run| ==> Right(StoredAll(bytes, run[..k]), run[k], rds[k])
  }

  lemma RightSnoc(bytes: seq<Byte>, run: seq<Instruction>, rds: seq<Word>, i: Instruction, rd: Word)
    requires AllRight(bytes, run, rds) && Right(StoredAll(bytes, run), i, rd)
    ensures AllRight(bytes, run + [i], rds + [rd])
    ensures StoredAll(bytes, run + [i]) == Stored(StoredAll(bytes, run), i)
  {
    hide Right, Stored;
    var all := run + [i];
    assert all[..|run|] == run;
    forall k | 0 <= k < |all|
      ensures Right(StoredAll(bytes, all[..k]), all[k], (rds + [rd])[k])
    {
      assert k < |run| ==> all[..k] == run[..k];
    }
  }

  /** Cached loads and stores implement a little-endian byte memory, for every interleaving of
      widths, whatever the caches below do. */
  method RunInstructions(c: Cache, run: seq<Instruction>, core: nat) returns (rds: seq<Word>)
    requires c.Valid() && AdmissibleProgram(c.g, c.next.Level?, c.Recency(), DirtyOf(c), run)
    modifies c.Repr
    ensures c.Valid() && BytesOf(c.View) == StoredAll(BytesOf(old(c.View)), run)
    ensures AllRight(BytesOf(old(c.View)), run, rds)
  {
    hide AdmissibleRun, Requests, RecentAll, DirtyAll, DirtyIn, Stored, Right, BytesOf, IsDirty, RecencyOf, Overlay,
         CleanAgrees, OrdersOk, Memory.Repr, Memory.View, Memory.Depth;
    rds := [];
    ghost var bytes, g, r, d := BytesOf(c.View), c.g, c.Recency(), DirtyOf(c);
    assert run[..0] == [];
    NoRequests(g, r, d);
    for k := 0 to |run|
      invariant c.Valid() && c.Recency() == RecentAll(g, r, RequestsAll(run[..k]))
      invariant DirtyOf(c) == DirtyAll(g, r, d, RequestsAll(run[..k]))
      invariant BytesOf(c.View) == StoredAll(bytes, run[..k]) && AllRight(bytes, run[..k], rds)
    {
      var rd := Execute(c, run[k], core);
      RunConcat(g, r, d, RequestsAll(run[..k]), Requests(run[k]));
      RightSnoc(bytes, run[..k], rds, run[k], rd);
      rds := rds + [rd];
      assert run[..k + 1] == run[..k] + [run[k]] && run[..k + 1][..k] == run[..k];
    }
    assert run[..|run|] == run;
  }

  lemma NoRequests(g: Geometry, r: seq<seq<nat>>, d: iset<nat>)
    requires g.Ok() && |r| == g.sets
    ensures RecentAll(g, r, RequestsAll([])) == r && DirtyAll(g, r, d, RequestsAll([])) == d
  {
  }

  /** The same for a freshly wired hierarchy of any number of accepted caches over zeroed memory. */
  method RunProgram(top: CacheConfig, levels: seq<CacheConfig>, size: nat, numCores: nat, core: nat,
                    run: seq<Instruction>)
    returns (rds: seq<Word>)
    requires Accepted(top)
    requires forall i :: 0 <= i < |levels| ==> Accepted(levels[i])
    requires var g := CalculateParameters(top);
             AdmissibleProgram(g, levels != [], NoRecency(g), iset{}, run)
    ensures AllRight(BytesOf(Zeros(size / 4)), run, rds)
  {
    hide Accepted, CalculateParameters, AdmissibleProgram, AllRight, CleanAgrees, Overlay, IsDirty, RecencyOf,
         OrdersOk, SetsOk, Memory.View, Memory.Depth;
    var below := Wire(levels, size, numCores);
    var c := new Cache(top, below, numCores);
    assert DirtyOf(c) == iset{};
    rds := RunInstructions(c, run, core);
  }
}
