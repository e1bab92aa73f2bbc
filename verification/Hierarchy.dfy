/** The memory hierarchy against the flat memory it implements, over whole runs.

  A core sees its first-level data cache, which is stacked on the levels below as the simulator
  wires them. Whatever the levels, their geometries and the evictions a run causes, every load
  returns the value last stored to its word, provided the run writes around the cache only in blocks
  that it has not written in the cache since they were last written back or dropped. */
module Hierarchy {
  import opened Arithmetic
  import opened Bits
  import opened WordArithmetic
  import opened Words
  import opened Lru
  import opened CacheModel
  import opened CacheAddress
  import opened MemoryHierarchy
  import CacheStats

  datatype Op =
    | Load(addr: nat)
    | Store(addr: nat, v: Word)
    | ReadWord(addr: nat)
    | WriteWord(addr: nat, v: Word)
    | AtomicOp(op: Amo, addr: nat, v: Word)
    | CompareSwap(addr: nat, expected: Word, v: Word)
    | FlushLine(addr: nat)
    | FlushAll(start: nat, size: nat)

  // ----- the flat memory -----

  /** What an operation does to a flat memory. */
  function Apply(m: seq<Word>, op: Op): (r: seq<Word>)
    ensures |r| == |m|
  {
    match op
    case Load(_) => m
    case Store(a, v) => Put(m, a / 4, v)
    case ReadWord(_) => m
    case WriteWord(a, v) => Put(m, a / 4, v)
    case AtomicOp(o, a, v) => if a / 4 < |m| then m[a / 4 := o.Apply(m[a / 4], v)] else m
    case CompareSwap(a, e, v) => if a / 4 < |m| && m[a / 4] == e then m[a / 4 := v] else m
    case FlushLine(_) => m
    case FlushAll(_, _) => m
  }

  function ApplyAll(m: seq<Word>, ops: seq<Op>): (r: seq<Word>)
    ensures |r| == |m|
  {
    if ops == [] then m else Apply(ApplyAll(m, ops[..|ops| - 1]), ops[|ops| - 1])
  }

  predicate Returns(op: Op) { op.Load? || op.ReadWord? || op.AtomicOp? || op.CompareSwap? }

  /** out is what the operation returns on a flat memory. Words outside it return anything. */
  predicate Correct(m: seq<Word>, op: Op, out: Word) {
    Returns(op) && op.addr / 4 < |m| ==> out == m[op.addr / 4]
  }

  /** The operation stores to word w. */
  predicate StoresTo(op: Op, w: nat) {
    (op.Store? || op.WriteWord? || op.AtomicOp? || op.CompareSwap?) && op.addr / 4 == w
  }

  /** A flat memory keeps in every word what was last stored there. */
  lemma {:induction false} LastStoreWins(m: seq<Word>, ops: seq<Op>, k: nat, w: nat)
    requires k < |ops| && w < |m| && (ops[k].Store? || ops[k].WriteWord?) && ops[k].addr / 4 == w
    requires forall j :: k < j < |ops| ==> !StoresTo(ops[j], w)
    ensures ApplyAll(m, ops)[w] == ops[k].v
  {
    if k == |ops| - 1 {
    } else {
      LastStoreWins(m, ops[..|ops| - 1], k, w);
    }
  }

  // ----- recency -----

  /** What an operation does to the recency order of every set. */
  function Recent(g: Geometry, r: seq<seq<nat>>, op: Op): (r': seq<seq<nat>>)
    requires g.Ok() && |r| == g.sets
    ensures |r'| == |r|
  {
    match op
    case Load(a) => Touched(g, r, g.Block(a / 4))
    case Store(a, _) => if Bypasses(a) then Dropped(g, r, g.Block(a / 4)) else Touched(g, r, g.Block(a / 4))
    case ReadWord(a) => Touched(g, r, g.Block(a / 4))
    case WriteWord(a, _) => Touched(g, r, g.Block(a / 4))
    case AtomicOp(_, a, _) => Dropped(g, r, g.Block(a / 4))
    case CompareSwap(a, _, _) => Dropped(g, r, g.Block(a / 4))
    case _ => r
  }

  function RecentAll(g: Geometry, r: seq<seq<nat>>, ops: seq<Op>): (r': seq<seq<nat>>)
    requires g.Ok() && |r| == g.sets
    ensures |r'| == |r|
  {
    if ops == [] then r else Recent(g, RecentAll(g, r, ops[..|ops| - 1]), ops[|ops| - 1])
  }

  predicate Cached(op: Op) { op.Load? || op.ReadWord? || op.WriteWord? || (op.Store? && !Bypasses(op.addr)) }

  /** The tags of the blocks of set i that a run accesses, in order. */
  function History(g: Geometry, ops: seq<Op>, i: nat): seq<nat>
    requires g.Ok()
  {
    if ops == [] then
      []
    else
      var op := ops[|ops| - 1];
      var before := History(g, ops[..|ops| - 1], i);
      if Cached(op) && g.SetOf(g.Block(op.addr / 4)) == i then before + [g.TagOf(g.Block(op.addr / 4))] else before
  }

  /** From empty caches and without operations that drop lines, each set holds the most recently
      accessed blocks of its history. */
  lemma {:induction false} RecencyIsHistory(g: Geometry, ops: seq<Op>, i: nat)
    requires g.Ok() && i < g.used
    requires forall k :: 0 <= k < |ops| ==> Cached(ops[k]) || ops[k].FlushLine? || ops[k].FlushAll?
    ensures RecentAll(g, NoRecency(g), ops)[i] == AfterHistory(History(g, ops, i), g.ways)
  {
    if ops == [] {
    } else {
      var before := ops[..|ops| - 1];
      RecencyIsHistory(g, before, i);
      var op := ops[|ops| - 1];
      assert Cached(op) || op.FlushLine? || op.FlushAll?;
      if Cached(op) && g.SetOf(g.Block(op.addr / 4)) == i {
        var h, t := History(g, before, i), g.TagOf(g.Block(op.addr / 4));
        assert History(g, ops, i) == h + [t];
        assert (h + [t])[..|h|] == h;
      }
    }
  }

  /** In such a run, the block of an address is resident exactly when it has been accessed before
      and fewer than the number of ways of other blocks of its set have been accessed since. */
  lemma HitRule(g: Geometry, ops: seq<Op>, addr: nat)
    requires g.Ok()
    requires forall k :: 0 <= k < |ops| ==> Cached(ops[k]) || ops[k].FlushLine? || ops[k].FlushAll?
    ensures var i, t := g.SetOf(g.Block(addr / 4)), g.TagOf(g.Block(addr / 4));
            var h := History(g, ops, i);
            t in RecentAll(g, NoRecency(g), ops)[i] <==> t in h && |Since(h, t)| < g.ways
  {
    var i, t := g.SetOf(g.Block(addr / 4)), g.TagOf(g.Block(addr / 4));
    RecencyIsHistory(g, ops, i);
    ResidentIff(History(g, ops, i), t, g.ways);
  }

  // ----- dirty blocks, and which runs are admissible -----

  /** The operation stores to the block in the cache, so that its line becomes dirty. */
  predicate StoresInto(g: Geometry, op: Op, n: nat)
    requires g.Ok()
  {
    ((op.Store? && !Bypasses(op.addr)) || (op.WriteWord? && !WriteThrough(op.addr))) && g.Block(op.addr / 4) == n
  }

  /** The operation drops the line of the block or writes it back. */
  predicate Clears(g: Geometry, op: Op, n: nat)
    requires g.Ok()
  {
    if op.FlushAll? then
      StartsIn(g, n, op.start, RangeEnd(op.start, op.size))
    else
      ((op.Store? && Bypasses(op.addr)) || op.AtomicOp? || op.CompareSwap? || op.FlushLine?)
      && g.Block(op.addr / 4) == n
  }

  /** The recency orders hold the block. */
  predicate Held(g: Geometry, r: seq<seq<nat>>, n: nat)
    requires g.Ok() && |r| == g.sets
  {
    g.TagOf(n) in r[g.SetOf(n)]
  }

  /** The blocks that are dirty after an operation, given the recency orders and the dirty blocks before:
      those stored to and those not cleared, as far as they have not been evicted. */
  ghost function DirtyAfter(g: Geometry, r: seq<seq<nat>>, d: iset<nat>, op: Op): iset<nat>
    requires g.Ok() && |r| == g.sets
  {
    iset n | (StoresInto(g, op, n) || (n in d && !Clears(g, op, n))) && Held(g, Recent(g, r, op), n)
  }

  /** How often an operation evicts a dirty block. */
  ghost function WriteBacks(g: Geometry, r: seq<seq<nat>>, d: iset<nat>, op: Op): nat
    requires g.Ok() && |r| == g.sets
  {
    if exists n :: n in d && !Clears(g, op, n) && !Held(g, Recent(g, r, op), n) then 1 else 0
  }

  ghost function DirtyAll(g: Geometry, r: seq<seq<nat>>, d: iset<nat>, ops: seq<Op>): iset<nat>
    requires g.Ok() && |r| == g.sets
  {
    if ops == [] then
      d
    else
      var before := ops[..|ops| - 1];
      DirtyAfter(g, RecentAll(g, r, before), DirtyAll(g, r, d, before), ops[|ops| - 1])
  }

  ghost function WriteBacksAll(g: Geometry, r: seq<seq<nat>>, d: iset<nat>, ops: seq<Op>): nat
    requires g.Ok() && |r| == g.sets
  {
    if ops == [] then
      0
    else
      var before := ops[..|ops| - 1];
      WriteBacksAll(g, r, d, before)
      + WriteBacks(g, RecentAll(g, r, before), DirtyAll(g, r, d, before), ops[|ops| - 1])
  }

  predicate HeldAfter(g: Geometry, ops: seq<Op>, n: nat, j: nat)
    requires g.Ok() && j < |ops|
  {
    Held(g, RecentAll(g, NoRecency(g), ops[..j + 1]), n)
  }

  /** From an operation of a run on, the block has stayed in the cache and has not been cleared. */
  ghost predicate KeptSince(g: Geometry, ops: seq<Op>, n: nat, k: nat)
    requires g.Ok()
  {
    forall j :: k <= j < |ops| ==> HeldAfter(g, ops, n, j) && (j > k ==> !Clears(g, ops[j], n))
  }

  lemma HeldInPrefix(g: Geometry, ops: seq<Op>, n: nat, j: nat)
    requires g.Ok() && j < |ops|
    ensures j == |ops| - 1 ==> HeldAfter(g, ops, n, j) == Held(g, RecentAll(g, NoRecency(g), ops), n)
    ensures j < |ops| - 1 ==> HeldAfter(g, ops, n, j) == HeldAfter(g, ops[..|ops| - 1], n, j)
  {
    hide Held, RecentAll;
    if j == |ops| - 1 {
      assert ops[..j + 1] == ops;
    } else {
      assert ops[..|ops| - 1][..j + 1] == ops[..j + 1];
    }
  }

  lemma KeptSnoc(g: Geometry, ops: seq<Op>, n: nat, k: nat)
    requires g.Ok() && k < |ops| - 1
    ensures KeptSince(g, ops, n, k) <==>
            && KeptSince(g, ops[..|ops| - 1], n, k)
            && Held(g, RecentAll(g, NoRecency(g), ops), n) && !Clears(g, ops[|ops| - 1], n)
  {
    hide Clears, Held, RecentAll, HeldAfter;
    var before, last := ops[..|ops| - 1], |ops| - 1;
    HeldInPrefix(g, ops, n, last);
    forall j | 0 <= j < last
      ensures HeldAfter(g, before, n, j) == HeldAfter(g, ops, n, j) && before[j] == ops[j]
    {
      HeldInPrefix(g, ops, n, j);
    }
  }

  lemma DirtySnoc(g: Geometry, ops: seq<Op>, n: nat)
    requires g.Ok() && ops != []
    ensures n in DirtyAll(g, NoRecency(g), iset{}, ops) <==>
            && (StoresInto(g, ops[|ops| - 1], n) || (n in DirtyAll(g, NoRecency(g), iset{}, ops[..|ops| - 1])
                                                     && !Clears(g, ops[|ops| - 1], n)))
            && Held(g, RecentAll(g, NoRecency(g), ops), n)
  {
  }

  lemma {:induction false} StoreIsDirty(g: Geometry, ops: seq<Op>, n: nat, k: nat)
    requires g.Ok() && k < |ops| && StoresInto(g, ops[k], n) && KeptSince(g, ops, n, k)
    ensures n in DirtyAll(g, NoRecency(g), iset{}, ops)
  {
    hide StoresInto, Clears, Held, RecentAll, DirtyAll, HeldAfter;
    DirtySnoc(g, ops, n);
    if k == |ops| - 1 {
      HeldInPrefix(g, ops, n, k);
      assert HeldAfter(g, ops, n, k);
    } else {
      KeptSnoc(g, ops, n, k);
      StoreIsDirty(g, ops[..|ops| - 1], n, k);
    }
  }

  lemma {:induction false} DirtyHasStore(g: Geometry, ops: seq<Op>, n: nat) returns (k: nat)
    requires g.Ok() && n in DirtyAll(g, NoRecency(g), iset{}, ops)
    ensures k < |ops| && StoresInto(g, ops[k], n) && KeptSince(g, ops, n, k)
  {
    assert ops != [];
    hide StoresInto, Clears, Held, RecentAll, DirtyAll, HeldAfter;
    DirtySnoc(g, ops, n);
    if StoresInto(g, ops[|ops| - 1], n) {
      k := |ops| - 1;
      HeldInPrefix(g, ops, n, k);
    } else {
      k := DirtyHasStore(g, ops[..|ops| - 1], n);
      KeptSnoc(g, ops, n, k);
    }
  }

  /** From an empty cache, a block is dirty exactly if it was stored to in the cache, and its line has
      been neither evicted nor dropped nor written back on request since. */
  lemma DirtyIff(g: Geometry, ops: seq<Op>, n: nat)
    requires g.Ok()
    ensures n in DirtyAll(g, NoRecency(g), iset{}, ops) <==>
            exists k :: 0 <= k < |ops| && StoresInto(g, ops[k], n) && KeptSince(g, ops, n, k)
  {
    hide StoresInto, KeptSince, DirtyAll;
    if n in DirtyAll(g, NoRecency(g), iset{}, ops) {
      var k := DirtyHasStore(g, ops, n);
    }
    if k :| 0 <= k < |ops| && StoresInto(g, ops[k], n) && KeptSince(g, ops, n, k) {
      StoreIsDirty(g, ops, n, k);
    }
  }

  /** What lies below the cache (another cache, if it is stacked) takes an address as that of its word. */
  predicate Lands(stacked: bool, addr: nat) { addr % 4 == 0 || (stacked && !WriteThrough(addr)) }

  /** Atomics, and stores that bypass the cache, are for blocks that are not dirty. */
  ghost predicate Admissible(g: Geometry, stacked: bool, d: iset<nat>, op: Op)
    requires g.Ok()
  {
    match op
    case Store(a, _) => Bypasses(a) ==> Lands(stacked, a) && g.Block(a / 4) !in d
    case WriteWord(a, _) => WriteThrough(a) ==> a % 4 == 0
    case AtomicOp(_, a, _) => Lands(stacked, a) && g.Block(a / 4) !in d
    case CompareSwap(a, _, _) => Lands(stacked, a) && g.Block(a / 4) !in d
    case _ => true
  }

  ghost predicate AdmissibleRun(g: Geometry, stacked: bool, r: seq<seq<nat>>, d: iset<nat>, ops: seq<Op>)
    requires g.Ok() && |r| == g.sets
  {
    forall k :: 0 <= k < |ops| ==> Admissible(g, stacked, DirtyAll(g, r, d, ops[..k]), ops[k])
  }

  /** An atomic, or a store to the page table or the synchronisation variables. */
  predicate GoesBelow(op: Op) {
    || op.AtomicOp? || op.CompareSwap?
    || (op.Store? && (0x82008 <= op.addr <= 0x8201F || 0x20000 <= op.addr <= 0x20FFF))
  }

  /** An aligned request is admissible unless it goes below while its block is dirty. */
  lemma AdmissibleIff(g: Geometry, stacked: bool, d: iset<nat>, op: Op)
    requires g.Ok() && (op.FlushAll? || op.addr % 4 == 0)
    ensures Admissible(g, stacked, d, op) <==> !GoesBelow(op) || g.Block(op.addr / 4) !in d
  {
  }

  /** Every run without such requests is admissible, from any state. */
  lemma PlainRunAdmissible(g: Geometry, stacked: bool, r: seq<seq<nat>>, d: iset<nat>, ops: seq<Op>)
    requires g.Ok() && |r| == g.sets
    requires forall k :: 0 <= k < |ops| ==> (ops[k].FlushAll? || ops[k].addr % 4 == 0) && !GoesBelow(ops[k])
    ensures AdmissibleRun(g, stacked, r, d, ops)
  {
    hide Admissible, DirtyAll, GoesBelow;
    forall k | 0 <= k < |ops|
      ensures Admissible(g, stacked, DirtyAll(g, r, d, ops[..k]), ops[k])
    {
      AdmissibleIff(g, stacked, DirtyAll(g, r, d, ops[..k]), ops[k]);
    }
  }

  /** On a cache, such an operation is exact for every contents of the addressed line if and only if the
      block is absent or clean; a store also if the block holds no other word of the memory. */
  lemma ExactIff(c: Cache, addr: nat, v: Word)
    requires c.Valid()
    ensures var n := c.g.Block(addr / 4);
            && (AlwaysExact(c.g, c.sets, c.next.View(), addr / 4, v) <==>
                !c.Dirty(n) || forall u :: 0 <= u < |c.View| && c.g.Block(u) == n ==> u == addr / 4)
            && (addr / 4 < |c.View| ==> (AlwaysCurrent(c.g, c.sets, c.next.View(), addr / 4) <==> !c.Dirty(n)))
  {
    hide AlwaysExact, AlwaysCurrent, Geometry.Block;
    BypassExactIff(c.g, c.sets, c.next.View(), addr / 4, v);
    if addr / 4 < |c.View| {
      AtomicExactIff(c.g, c.sets, c.next.View(), addr / 4);
    }
  }

  // ----- one operation -----

  /** The blocks of dirty lines. */
  ghost function DirtyIn(g: Geometry, sets: seq<seq<Entry>>): iset<nat>
    requires SetsOk(g, sets)
  {
    iset n | IsDirty(g, sets, n)
  }

  ghost function DirtyOf(c: Cache): iset<nat>
    requires SetsOk(c.g, c.sets)
    reads c
  {
    DirtyIn(c.g, c.sets)
  }

  lemma HoldingIsRecent(g: Geometry, sets: seq<seq<Entry>>, orders: seq<seq<nat>>, n: nat)
    requires SetsOk(g, sets) && OrdersOk(g, orders)
    ensures Resident(g, sets, n) <==> Held(g, RecencyOf(g, sets, orders), n)
  {
    var s, order, t := sets[g.SetOf(n)], orders[g.SetOf(n)], g.TagOf(n);
    StackMember(Slots(s), order, t);
    if Resident(g, sets, n) {
      var k := Find(s, t);
      assert k in order;
    }
  }

  /** The lines after an operation, and the dirty blocks evicted, are those that its history predicts. */
  ghost predicate Follows(g: Geometry, op: Op, sets: seq<seq<Entry>>, orders: seq<seq<nat>>, sets': seq<seq<Entry>>,
                          orders': seq<seq<nat>>, k: int)
    requires SetsOk(g, sets) && SetsOk(g, sets') && OrdersOk(g, orders) && OrdersOk(g, orders')
  {
    var r, d := RecencyOf(g, sets, orders), DirtyIn(g, sets);
    && RecencyOf(g, sets', orders') == Recent(g, r, op)
    && DirtyIn(g, sets') == DirtyAfter(g, r, d, op)
    && k == WriteBacks(g, r, d, op)
  }

  lemma AccessFollows(g: Geometry, op: Op, sets: seq<seq<Entry>>, orders: seq<seq<nat>>, sets': seq<seq<Entry>>,
                      orders': seq<seq<nat>>, stored: iset<nat>, k: int)
    requires SetsOk(g, sets) && SetsOk(g, sets') && OrdersOk(g, orders) && OrdersOk(g, orders')
    requires Cached(op) && Evicts(g, sets, sets', stored, k)
    requires RecencyOf(g, sets', orders') == Recent(g, RecencyOf(g, sets, orders), op)
    requires forall n :: n in stored <==> StoresInto(g, op, n)
    ensures Follows(g, op, sets, orders, sets', orders', k)
  {
    hide IsDirty, Resident, RecencyOf, Recent, Held, StoresInto, OrdersOk, Geometry.Block;
    forall n: nat
      ensures Resident(g, sets', n) <==> Held(g, RecencyOf(g, sets', orders'), n)
    {
      HoldingIsRecent(g, sets', orders', n);
    }
    assert forall n: nat :: !Clears(g, op, n);
  }

  lemma ClearingFollows(g: Geometry, op: Op, sets: seq<seq<Entry>>, orders: seq<seq<nat>>, sets': seq<seq<Entry>>,
                        orders': seq<seq<nat>>)
    requires SetsOk(g, sets) && SetsOk(g, sets') && OrdersOk(g, orders) && OrdersOk(g, orders')
    requires forall n :: IsDirty(g, sets', n) <==> IsDirty(g, sets, n) && !Clears(g, op, n)
    requires RecencyOf(g, sets', orders') == Recent(g, RecencyOf(g, sets, orders), op)
    requires forall n :: !StoresInto(g, op, n)
    ensures Follows(g, op, sets, orders, sets', orders', 0)
  {
    hide RecencyOf, Recent, Held, StoresInto, Clears, OrdersOk;
    forall n: nat | IsDirty(g, sets', n)
      ensures Held(g, RecencyOf(g, sets', orders'), n)
    {
      HoldingIsRecent(g, sets', orders', n);
    }
  }

  method PerformStore(c: Cache, addr: nat, v: Word, core: nat) returns (hit: bool)
    requires c.Valid() && Admissible(c.g, c.next.Level?, DirtyOf(c), Store(addr, v))
    modifies c.Repr
    ensures c.Valid() && c.View == Put(old(c.View), addr / 4, v)
    ensures Follows(c.g, Store(addr, v), old(c.sets), old(c.orders), c.sets, c.orders, c.writebacks - old(c.writebacks))
    ensures !Bypasses(addr) ==> hit == old(c.Holding(c.g.Block(addr / 4)))
    ensures c.stats == old(c.stats).Record(core, hit, c.latency, c.penalty)
  {
    hide Overlay, CleanAgrees, IsDirty, RecencyOf, OrdersOk, Resident, Put, OnlyDirtyChanged, Touched, Dropped,
         Geometry.Block, Evicts, Follows, Memory.Repr, Memory.View, Memory.Depth;
    ghost var n := c.g.Block(addr / 4);
    if Bypasses(addr) {
      ExposingClean(c.g, c.sets, c.next.View(), n);
      hit := c.Write(addr, v, core);
      ClearingFollows(c.g, Store(addr, v), old(c.sets), old(c.orders), c.sets, c.orders);
    } else {
      hit := c.Write(addr, v, core);
      AccessFollows(c.g, Store(addr, v), old(c.sets), old(c.orders), c.sets, c.orders, iset{n},
                    c.writebacks - old(c.writebacks));
    }
  }

  /** What an atomic operation makes of the word m and the operand v, in numbers and in bits. */
  ghost predicate Computes(o: Amo, m: Word, v: Word, r: Word) {
    match o
    case Add => ValueOf(r) == (ValueOf(m) + ValueOf(v)) % 0x1_0000_0000
    case Sub => (ValueOf(r) + ValueOf(v)) % 0x1_0000_0000 == ValueOf(m)
    case Swap => r == v
    case And => forall k :: 0 <= k < 32 ==> (Test(r, k) <==> Test(m, k) && Test(v, k))
    case Or => forall k :: 0 <= k < 32 ==> (Test(r, k) <==> Test(m, k) || Test(v, k))
    case Xor => forall k :: 0 <= k < 32 ==> (Test(r, k) <==> Test(m, k) != Test(v, k))
  }

  lemma DifferencePlus(m: Word, v: Word)
    ensures Plus(m - v, v) == m
  {
  }

  lemma SubComputes(m: Word, v: Word)
    ensures (ValueOf(m - v) + ValueOf(v)) % 0x1_0000_0000 == ValueOf(m)
  {
    hide ValueOf, Plus;
    PlusValue(m - v, v);
    DifferencePlus(m, v);
  }

  lemma BitwiseComputes(m: Word, v: Word)
    ensures Computes(Amo.And, m, v, Bits.And(m, v))
    ensures Computes(Amo.Or, m, v, WordArithmetic.Or(m, v))
    ensures Computes(Amo.Xor, m, v, WordArithmetic.Xor(m, v))
  {
    hide Test, Bits.And, WordArithmetic.Or, WordArithmetic.Xor;
    forall k: nat
      ensures Test(Bits.And(m, v), k) <==> Test(m, k) && Test(v, k)
      ensures Test(WordArithmetic.Or(m, v), k) <==> Test(m, k) || Test(v, k)
      ensures Test(WordArithmetic.Xor(m, v), k) <==> Test(m, k) != Test(v, k)
    {
      BitsCombined(m, v, k);
    }
  }

  lemma AmoAdd(m: Word, v: Word)
    ensures Add.Apply(m, v) == Plus(m, v)
  {
  }

  lemma AmoSub(m: Word, v: Word)
    ensures Sub.Apply(m, v) == m - v
  {
  }

  lemma AmoSwap(m: Word, v: Word)
    ensures Swap.Apply(m, v) == v
  {
  }

  lemma AmoAnd(m: Word, v: Word)
    ensures Amo.And.Apply(m, v) == Bits.And(m, v)
  {
  }

  lemma AmoOr(m: Word, v: Word)
    ensures Amo.Or.Apply(m, v) == WordArithmetic.Or(m, v)
  {
  }

  lemma AmoXor(m: Word, v: Word)
    ensures Amo.Xor.Apply(m, v) == WordArithmetic.Xor(m, v)
  {
  }

  lemma AmoComputes(o: Amo, m: Word, v: Word)
    ensures Computes(o, m, v, o.Apply(m, v))
  {
    hide Computes, Amo.Apply, Plus, Bits.And, WordArithmetic.Or, WordArithmetic.Xor;
    AmoAdd(m, v);
    AmoSub(m, v);
    AmoSwap(m, v);
    AmoAnd(m, v);
    AmoOr(m, v);
    AmoXor(m, v);
    BitwiseComputes(m, v);
    PlusComputes(m, v);
    MinusComputes(m, v);
    SwapComputes(m, v);
    assert o == Add || o == Sub || o == Swap || o == Amo.And || o == Amo.Or || o == Amo.Xor;
  }

  lemma PlusComputes(m: Word, v: Word)
    ensures Computes(Add, m, v, Plus(m, v))
  {
    hide Plus, ValueOf;
    PlusValue(m, v);
  }

  lemma MinusComputes(m: Word, v: Word)
    ensures Computes(Sub, m, v, m - v)
  {
    hide ValueOf;
    SubComputes(m, v);
  }

  lemma SwapComputes(m: Word, v: Word)
    ensures Computes(Swap, m, v, v)
  {
  }

  lemma PutThere(memory: seq<Word>, w: nat, v: Word)
    ensures |Put(memory, w, v)| == |memory| && (w < |memory| ==> Put(memory, w, v)[w] == v)
  {
  }

  method PerformAtomic(c: Cache, o: Amo, addr: nat, v: Word, core: nat) returns (out: Word)
    requires c.Valid() && Admissible(c.g, c.next.Level?, DirtyOf(c), AtomicOp(o, addr, v))
    modifies c.Repr
    ensures c.Valid() && (addr / 4 < |old(c.View)| ==> out == old(c.View)[addr / 4])
    ensures c.View == Put(old(c.View), addr / 4, o.Apply(out, v))
    ensures addr / 4 < |old(c.View)| ==> Computes(o, old(c.View)[addr / 4], v, c.View[addr / 4])
    ensures Follows(c.g, AtomicOp(o, addr, v), old(c.sets), old(c.orders), c.sets, c.orders,
                    c.writebacks - old(c.writebacks))
    ensures c.stats == old(c.stats).Record(core, false, c.latency, c.penalty)
  {
    hide Computes, IsDirty, RecencyOf, OrdersOk, Resident, Put, Dropped, Geometry.Block, Follows, Memory.Repr,
         Memory.View,
         Memory.Depth;
    ExposingClean(c.g, c.sets, c.next.View(), c.g.Block(addr / 4));
    out := c.Atomic(o, addr, v, core);
    AmoComputes(o, out, v);
    PutThere(old(c.View), addr / 4, o.Apply(out, v));
    ClearingFollows(c.g, AtomicOp(o, addr, v), old(c.sets), old(c.orders), c.sets, c.orders);
  }

  method PerformCompareSwap(c: Cache, addr: nat, expected: Word, v: Word, core: nat) returns (out: Word)
    requires c.Valid() && Admissible(c.g, c.next.Level?, DirtyOf(c), CompareSwap(addr, expected, v))
    modifies c.Repr
    ensures c.Valid() && (addr / 4 < |old(c.View)| ==> out == old(c.View)[addr / 4])
    ensures c.View == if out == expected then Put(old(c.View), addr / 4, v) else old(c.View)
    ensures Follows(c.g, CompareSwap(addr, expected, v), old(c.sets), old(c.orders), c.sets, c.orders,
                    c.writebacks - old(c.writebacks))
    ensures c.stats == old(c.stats).Record(core, false, c.latency, c.penalty)
  {
    hide IsDirty, RecencyOf, OrdersOk, Resident, Put, Dropped, Geometry.Block, Follows, Memory.Repr, Memory.View,
         Memory.Depth;
    ExposingClean(c.g, c.sets, c.next.View(), c.g.Block(addr / 4));
    out := c.CompareAndSwap(addr, expected, v, core);
    ClearingFollows(c.g, CompareSwap(addr, expected, v), old(c.sets), old(c.orders), c.sets, c.orders);
  }

  method PerformWriteWord(c: Cache, addr: nat, v: Word)
    requires c.Valid() && Admissible(c.g, c.next.Level?, DirtyOf(c), WriteWord(addr, v))
    modifies c.Repr
    ensures c.Valid() && c.View == Put(old(c.View), addr / 4, v)
    ensures Follows(c.g, WriteWord(addr, v), old(c.sets), old(c.orders), c.sets, c.orders,
                    c.writebacks - old(c.writebacks))
    ensures c.stats == old(c.stats).Record(0, old(c.Holding(c.g.Block(addr / 4))), c.latency, c.penalty)
  {
    hide Overlay, CleanAgrees, IsDirty, RecencyOf, OrdersOk, Resident, Put, OnlyDirtyChanged, Touched, Geometry.Block,
         Evicts, Follows, Memory.Repr, Memory.View, Memory.Depth;
    ghost var stored := if WriteThrough(addr) then iset{} else iset{c.g.Block(addr / 4)};
    c.WriteWord(addr, v);
    AccessFollows(c.g, WriteWord(addr, v), old(c.sets), old(c.orders), c.sets, c.orders, stored,
                  c.writebacks - old(c.writebacks));
  }

  /** Whether a request for a single word will hit. */
  method IsHeld(c: Cache, addr: nat) returns (held: bool)
    requires c.Valid()
    ensures held == c.Holding(c.g.Block(addr / 4))
  {
    var i, tag, k := c.FindEntry(addr);
    held := k < c.g.ways;
  }

  predicate InRecency(g: Geometry, r: seq<seq<nat>>, addr: nat)
    requires g.Ok() && |r| == g.sets
  {
    Held(g, r, g.Block(addr / 4))
  }

  /** The operation is counted as an access. */
  predicate IsAccess(op: Op) { !op.FlushLine? && !op.FlushAll? }

  /** The core an access is booked to: requests for single words come from above, not from a core. */
  function BookedTo(op: Op, core: nat): nat { if op.ReadWord? || op.WriteWord? then 0 else core }

  /** The accesses of a run of one core that are counted, given which of them hit. */
  function Counted(ops: seq<Op>, hits: seq<bool>, core: nat): seq<CacheStats.Access>
    requires |ops| == |hits|
  {
    if ops == [] then
      []
    else
      var n := |ops| - 1;
      Counted(ops[..n], hits[..n], core)
      + if IsAccess(ops[n]) then [CacheStats.Access(BookedTo(ops[n], core), hits[n])] else []
  }

  lemma CountedSnoc(s: CacheStats.Stats, ops: seq<Op>, hits: seq<bool>, core: nat, op: Op, hit: bool, latency: nat,
                    penalty: nat)
    requires |ops| == |hits|
    ensures var before := CacheStats.RecordAll(s, Counted(ops, hits, core), latency, penalty);
            CacheStats.RecordAll(s, Counted(ops + [op], hits + [hit], core), latency, penalty) ==
            if IsAccess(op) then before.Record(BookedTo(op, core), hit, latency, penalty) else before
  {
    var counted := Counted(ops, hits, core);
    assert (ops + [op])[..|ops|] == ops && (hits + [hit])[..|ops|] == hits;
    if IsAccess(op) {
      assert (counted + [CacheStats.Access(BookedTo(op, core), hit)])[..|counted|] == counted;
    } else {
      assert counted + [] == counted;
    }
  }

  method PerformRead(c: Cache, op: Op, core: nat) returns (out: Word, hit: bool)
    requires c.Valid() && (op.Load? || op.ReadWord?)
    modifies c.Repr
    ensures c.Valid() && c.View == old(c.View) && Correct(old(c.View), op, out)
    ensures Follows(c.g, op, old(c.sets), old(c.orders), c.sets, c.orders, c.writebacks - old(c.writebacks))
    ensures hit == old(c.Holding(c.g.Block(op.addr / 4)))
    ensures c.stats == old(c.stats).Record(BookedTo(op, core), hit, c.latency, c.penalty)
  {
    hide Overlay, CleanAgrees, IsDirty, RecencyOf, OrdersOk, Resident, OnlyDirtyChanged, Touched, Dropped, Follows,
         Evicts, Geometry.Block, Memory.Repr, Memory.View, Memory.Depth;
    if op.Load? {
      out, hit := c.Read(op.addr, core);
    } else {
      hit := IsHeld(c, op.addr);
      out := c.ReadWord(op.addr);
    }
    AccessFollows(c.g, op, old(c.sets), old(c.orders), c.sets, c.orders, iset{}, c.writebacks - old(c.writebacks));
  }

  /** A request that goes through the lines of the cache, or a store around them. */
  method PerformAccess(c: Cache, op: Op, core: nat) returns (out: Word, hit: bool)
    requires c.Valid() && Admissible(c.g, c.next.Level?, DirtyOf(c), op)
    requires op.Load? || op.Store? || op.ReadWord? || op.WriteWord?
    modifies c.Repr
    ensures c.Valid() && c.View == Apply(old(c.View), op) && Correct(old(c.View), op, out)
    ensures Follows(c.g, op, old(c.sets), old(c.orders), c.sets, c.orders, c.writebacks - old(c.writebacks))
    ensures Cached(op) ==> hit == InRecency(c.g, old(c.Recency()), op.addr)
    ensures c.stats == old(c.stats).Record(BookedTo(op, core), hit, c.latency, c.penalty)
  {
    hide Overlay, CleanAgrees, IsDirty, RecencyOf, OrdersOk, Resident, OnlyDirtyChanged, Touched, Dropped, Follows,
         Evicts, Geometry.Block, Memory.Repr, Memory.View, Memory.Depth;
    out, hit := 0, false;
    HoldingIsRecent(c.g, c.sets, c.orders, c.g.Block(op.addr / 4));
    match op
    case Store(a, v) =>
      hit := PerformStore(c, a, v, core);
    case WriteWord(a, v) =>
      hit := IsHeld(c, a);
      PerformWriteWord(c, a, v);
    case Load(_) =>
      out, hit := PerformRead(c, op, core);
    case ReadWord(_) =>
      out, hit := PerformRead(c, op, core);
  }

  /** An atomic operation. */
  method PerformAmo(c: Cache, op: Op, core: nat) returns (out: Word)
    requires c.Valid() && (op.AtomicOp? || op.CompareSwap?) && Admissible(c.g, c.next.Level?, DirtyOf(c), op)
    modifies c.Repr
    ensures c.Valid() && c.View == Apply(old(c.View), op) && Correct(old(c.View), op, out)
    ensures Follows(c.g, op, old(c.sets), old(c.orders), c.sets, c.orders, c.writebacks - old(c.writebacks))
    ensures c.stats == old(c.stats).Record(BookedTo(op, core), false, c.latency, c.penalty)
  {
    hide Overlay, CleanAgrees, IsDirty, RecencyOf, OrdersOk, Resident, Follows, Geometry.Block, Admissible,
         Memory.Repr, Memory.View, Memory.Depth;
    match op
    case AtomicOp(o, a, v) =>
      out := PerformAtomic(c, o, a, v, core);
    case CompareSwap(a, e, v) =>
      out := PerformCompareSwap(c, a, e, v, core);
  }

  /** A request to write back a line, or those of a range. */
  method PerformFlush(c: Cache, op: Op)
    requires c.Valid() && (op.FlushLine? || op.FlushAll?)
    modifies c.Repr
    ensures c.Valid() && c.View == Apply(old(c.View), op) && c.stats == old(c.stats)
    ensures Follows(c.g, op, old(c.sets), old(c.orders), c.sets, c.orders, c.writebacks - old(c.writebacks))
  {
    hide Overlay, CleanAgrees, IsDirty, RecencyOf, OrdersOk, Resident, Geometry.Block, Follows, Memory.Repr,
         Memory.View, Memory.Depth;
    match op {
      case FlushLine(a) => c.Flush(a);
      case FlushAll(start, size) => c.FlushRange(start, size);
    }
    ClearingFollows(c.g, op, old(c.sets), old(c.orders), c.sets, c.orders);
  }

  method Perform(c: Cache, op: Op, core: nat) returns (out: Word, hit: bool)
    requires c.Valid() && Admissible(c.g, c.next.Level?, DirtyOf(c), op)
    modifies c.Repr
    ensures c.Valid() && c.View == Apply(old(c.View), op) && Correct(old(c.View), op, out)
    ensures Follows(c.g, op, old(c.sets), old(c.orders), c.sets, c.orders, c.writebacks - old(c.writebacks))
    ensures Cached(op) ==> hit == InRecency(c.g, old(c.Recency()), op.addr)
    ensures c.stats == if IsAccess(op) then old(c.stats).Record(BookedTo(op, core), hit, c.latency, c.penalty)
                       else old(c.stats)
  {
    hide Apply, Overlay, CleanAgrees, IsDirty, RecencyOf, OrdersOk, Resident, Follows, InRecency, Admissible,
         BookedTo, Memory.Repr, Memory.View, Memory.Depth;
    out, hit := 0, false;
    if op.FlushLine? || op.FlushAll? {
      PerformFlush(c, op);
    } else if op.AtomicOp? || op.CompareSwap? {
      out := PerformAmo(c, op, core);
    } else {
      out, hit := PerformAccess(c, op, core);
    }
  }

  // ----- whole runs -----

  method Replay(c: Cache, ops: seq<Op>, core: nat) returns (outs: seq<Word>, hits: seq<bool>)
    requires c.Valid() && AdmissibleRun(c.g, c.next.Level?, c.Recency(), DirtyOf(c), ops)
    modifies c.Repr
    ensures c.Valid() && c.View == ApplyAll(old(c.View), ops) && |hits| == |ops|
    ensures c.Recency() == RecentAll(c.g, old(c.Recency()), ops)
    ensures DirtyOf(c) == DirtyAll(c.g, old(c.Recency()), old(DirtyOf(c)), ops)
    ensures c.writebacks == old(c.writebacks) + WriteBacksAll(c.g, old(c.Recency()), old(DirtyOf(c)), ops)
    ensures Outcome(c.g, old(c.View), old(c.Recency()), ops, outs, hits)
    ensures c.stats == CacheStats.RecordAll(old(c.stats), Counted(ops, hits, core), c.latency, c.penalty)
  {
    hide Apply, Recent, Admissible, DirtyAfter, WriteBacks, DirtyIn, IsDirty, RecencyOf, Overlay, CleanAgrees,
         OrdersOk, InRecency, Memory.Repr, Memory.View, Memory.Depth;
    outs, hits := [], [];
    ghost var view, recency, g, stats := c.View, c.Recency(), c.g, c.stats;
    ghost var d, writebacks := DirtyOf(c), c.writebacks;
    assert ops[..0] == [];
    for k := 0 to |ops|
      invariant c.Valid() && c.View == ApplyAll(view, ops[..k])
      invariant c.Recency() == RecentAll(g, recency, ops[..k]) && DirtyOf(c) == DirtyAll(g, recency, d, ops[..k])
      invariant c.writebacks == writebacks + WriteBacksAll(g, recency, d, ops[..k])
      invariant Outcome(g, view, recency, ops[..k], outs, hits)
      invariant c.stats == CacheStats.RecordAll(stats, Counted(ops[..k], hits, core), c.latency, c.penalty)
    {
      assert Admissible(g, c.next.Level?, DirtyAll(g, recency, d, ops[..k]), ops[k]);
      var out, hit := Perform(c, ops[k], core);
      RunSnoc(g, view, recency, d, ops[..k], ops[k]);
      OutcomeSnoc(g, view, recency, ops[..k], outs, hits, ops[k], out, hit);
      CountedSnoc(stats, ops[..k], hits, core, ops[k], hit, c.latency, c.penalty);
      outs, hits := outs + [out], hits + [hit];
      assert ops[..k + 1] == ops[..k] + [ops[k]];
    }
    assert ops[..|ops|] == ops;
  }

  /** Every operation of a run returned what the flat memory holds then, and hit exactly when LRU
      replacement says so. */
  ghost predicate Outcome(g: Geometry, m: seq<Word>, r: seq<seq<nat>>, ops: seq<Op>, outs: seq<Word>, hits: seq<bool>)
    requires g.Ok() && |r| == g.sets
  {
    && |outs| == |hits| == |ops|
    && forall k :: 0 <= k < |ops| ==>
         && Correct(ApplyAll(m, ops[..k]), ops[k], outs[k])
         && (Cached(ops[k]) ==> hits[k] == InRecency(g, RecentAll(g, r, ops[..k]), ops[k].addr))
  }

  lemma OutcomeSnoc(g: Geometry, m: seq<Word>, r: seq<seq<nat>>, ops: seq<Op>, outs: seq<Word>, hits: seq<bool>,
                    op: Op, out: Word, hit: bool)
    requires g.Ok() && |r| == g.sets && Outcome(g, m, r, ops, outs, hits)
    requires Correct(ApplyAll(m, ops), op, out)
    requires Cached(op) ==> hit == InRecency(g, RecentAll(g, r, ops), op.addr)
    ensures Outcome(g, m, r, ops + [op], outs + [out], hits + [hit])
  {
    hide Apply, ApplyAll, Recent, RecentAll, Correct, InRecency;
    var all := ops + [op];
    forall k | 0 <= k < |all|
      ensures Correct(ApplyAll(m, all[..k]), all[k], (outs + [out])[k])
      ensures Cached(all[k]) ==> (hits + [hit])[k] == InRecency(g, RecentAll(g, r, all[..k]), all[k].addr)
    {
      if k < |ops| {
        assert all[..k] == ops[..k];
        assert all[k] == ops[k];
      } else {
        assert all[..k] == ops;
      }
    }
  }

  lemma RunSnoc(g: Geometry, m: seq<Word>, r: seq<seq<nat>>, d: iset<nat>, ops: seq<Op>, op: Op)
    requires g.Ok() && |r| == g.sets
    ensures ApplyAll(m, ops + [op]) == Apply(ApplyAll(m, ops), op)
    ensures RecentAll(g, r, ops + [op]) == Recent(g, RecentAll(g, r, ops), op)
    ensures DirtyAll(g, r, d, ops + [op]) == DirtyAfter(g, RecentAll(g, r, ops), DirtyAll(g, r, d, ops), op)
    ensures WriteBacksAll(g, r, d, ops + [op]) ==
            WriteBacksAll(g, r, d, ops) + WriteBacks(g, RecentAll(g, r, ops), DirtyAll(g, r, d, ops), op)
  {
    assert (ops + [op])[..|ops|] == ops;
  }

  /** A run in two parts: the second goes on from the recency orders and the dirty blocks of the first. */
  lemma {:induction false} RunConcat(g: Geometry, r: seq<seq<nat>>, d: iset<nat>, a: seq<Op>, b: seq<Op>)
    requires g.Ok() && |r| == g.sets
    ensures RecentAll(g, r, a + b) == RecentAll(g, RecentAll(g, r, a), b)
    ensures DirtyAll(g, r, d, a + b) == DirtyAll(g, RecentAll(g, r, a), DirtyAll(g, r, d, a), b)
  {
    hide Recent, DirtyAfter;
    if b == [] {
      assert a + b == a;
    } else {
      RunConcat(g, r, d, a, b[..|b| - 1]);
      assert (a + b)[..|a + b| - 1] == a + b[..|b| - 1];
    }
  }

  /** The wiring of the simulator below the first-level cache: cache levels on the DDR memory. */
  method Wire(levels: seq<CacheConfig>, size: nat, numCores: nat) returns (m: Memory)
    requires forall i :: 0 <= i < |levels| ==> Accepted(levels[i])
    ensures m.Valid() && fresh(m.Repr()) && m.View() == Zeros(size / 4) && (m.Level? <==> levels != [])
  {
    hide Accepted, CalculateParameters, CleanAgrees, Overlay, IsDirty, RecencyOf, OrdersOk, SetsOk, Resident, WordsOf;
    var ddr := new DdrMemory(size);
    ZeroWords(ddr.bytes[..]);
    m := Ddr(ddr);
    assert m.View() == Zeros(size / 4);
    for i := 0 to |levels|
      invariant m.Valid() && fresh(m.Repr()) && m.View() == Zeros(size / 4) && (m.Level? <==> i > 0)
    {
      var cache := new Cache(levels[i], m, numCores);
      m := Level(cache);
    }
  }

  function Zeros(n: nat): seq<Word> { seq(n, _ => 0) }

  /** The refinement theorem: for any stack of accepted caches over zeroed DDR memory, every load and
      atomic of an admissible run returns what a flat memory would, an access hits exactly when LRU
      replacement says so, and the dirty blocks evicted are those that the run predicts. */
  method RunHierarchy(top: CacheConfig, levels: seq<CacheConfig>, size: nat, numCores: nat, core: nat, ops: seq<Op>)
    returns (outs: seq<Word>, hits: seq<bool>, stats: CacheStats.Stats, writebacks: nat)
    requires Accepted(top)
    requires forall i :: 0 <= i < |levels| ==> Accepted(levels[i])
    requires var g := CalculateParameters(top);
             AdmissibleRun(g, levels != [], NoRecency(g), iset{}, ops)
    ensures var g := CalculateParameters(top);
            && Outcome(g, Zeros(size / 4), NoRecency(g), ops, outs, hits)
            && writebacks == WriteBacksAll(g, NoRecency(g), iset{}, ops)
    ensures stats == CacheStats.RecordAll(CacheStats.Fresh(numCores), Counted(ops, hits, core),
                                          top.accessLatency, top.missPenalty)
    ensures stats.Conserved(top.accessLatency, top.missPenalty)
  {
    hide Accepted, CalculateParameters, AdmissibleRun, DirtyAll, WriteBacksAll, Outcome, CleanAgrees, Overlay,
         IsDirty, RecencyOf, OrdersOk, SetsOk, Memory.View, Memory.Depth;
    var below := Wire(levels, size, numCores);
    var c := new Cache(top, below, numCores);
    assert c.View == Zeros(size / 4);
    assert c.Recency() == NoRecency(c.g) && DirtyOf(c) == iset{};
    outs, hits := Replay(c, ops, core);
    stats, writebacks := c.stats, c.writebacks;
    CacheStats.TimingConservation(Counted(ops, hits, core), numCores, top.accessLatency, top.missPenalty);
  }

  lemma SameBlock(g: Geometry)
    requires g.Ok() && g.words == 16
    ensures g.Block(0x20800) == g.Block(0x20802)
  {
    TimesIsProduct(0x2080, 16);
    Decomposed(0x2080, 0, 16);
    Decomposed(0x2080, 2, 16);
  }

  lemma CleanUnchanged(g: Geometry, sets: seq<seq<Entry>>, below: seq<Word>, below': seq<Word>)
    requires SetsOk(g, sets) && OnlyDirtyChanged(g, sets, below, below') && forall b :: !IsDirty(g, sets, b)
    ensures below' == below
  {
  }

  lemma ExposedFirstWord(g: Geometry, memory: seq<Word>, below: seq<Word>, v: Word)
    requires g.Ok() && g.words == 16 && |memory| == |below| == 0x20C00
    ensures Put(Expose(g, memory, below, g.Block(0x20802)), 0x20802, v)[0x20800] == below[0x20800]
  {
    SameBlock(g);
  }

  /** A new cache over zeroed DDR memory. */
  method NewCache(config: CacheConfig, size: nat) returns (ddr: DdrMemory, c: Cache)
    requires Accepted(config)
    ensures fresh(ddr) && fresh(c) && fresh(c.Repr) && c.Valid()
    ensures c.next == Ddr(ddr) && c.g == CalculateParameters(config)
    ensures ddr.bytes.Length == size && c.next.View() == c.View == Zeros(size / 4)
    ensures forall b :: !IsDirty(c.g, c.sets, b) && !Resident(c.g, c.sets, b)
  {
    hide Accepted, CalculateParameters, CleanAgrees, Overlay, RecencyOf, OrdersOk, SetsOk, IsDirty, WordsOf, Resident;
    ddr := new DdrMemory(size);
    c := new Cache(config, Ddr(ddr), 1);
    ZeroWords(ddr.bytes[..]);
  }

  /** A new cache over zeroed DDR memory, through which 1 has been stored at one address. */
  method AfterStore(config: CacheConfig, size: nat, addr: nat) returns (ddr: DdrMemory, c: Cache)
    requires Accepted(config) && !Bypasses(addr)
    ensures fresh(ddr) && fresh(c) && fresh(c.Repr) && c.Valid()
    ensures c.next == Ddr(ddr) && c.g == CalculateParameters(config)
    ensures c.next.View() == Zeros(size / 4) && c.View == Put(Zeros(size / 4), addr / 4, 1)
    ensures c.Dirty(c.g.Block(addr / 4))
  {
    hide Accepted, CalculateParameters, CleanAgrees, Overlay, RecencyOf, OrdersOk, SetsOk, IsDirty, OnlyDirtyChanged,
         Touched, Dropped, WordsOf, Put, Resident;
    ddr, c := NewCache(config, size);
    ghost var sets, memory := c.sets, c.next.View();
    var hit := c.Write(addr, 1, 0);
    CleanUnchanged(c.g, sets, memory, c.next.View());
  }

  lemma ZeroWords(bytes: seq<Byte>)
    requires forall i :: 0 <= i < |bytes| ==> bytes[i] == 0
    ensures WordsOf(bytes) == Zeros(|bytes| / 4)
  {
    assert Join(0, 0, 0, 0) == 0;
  }

  /** In a run that is not admissible a store can be lost: an ordinary store to the start of a block is
      undone by a later store to a synchronisation variable of the same block. */
  method StoreLost(config: CacheConfig) returns (data: Word)
    requires Accepted(config) && config.blockSize == 64
    ensures data == 0
  {
    hide Accepted, CalculateParameters, CleanAgrees, Overlay, RecencyOf, OrdersOk, SetsOk, IsDirty, OnlyDirtyChanged,
         Touched, Dropped, Expose, Put, WordsOf, Resident;
    assert 0x82008 / 4 == 0x20802 && 0x82000 / 4 == 0x20800;
    var ddr, c := AfterStore(config, 0x83000, 0x82000);
    ExposedFirstWord(c.g, c.View, c.next.View(), 2);
    var hit := c.Write(0x82008, 2, 0);
    assert |c.View| == 0x20C00 && c.View[0x20800] == 0;
    data, hit := c.Read(0x82000, 0);
  }

  // ----- unaligned stores to the synchronisation variables -----

  lemma ShiftedBytes(bytes: seq<Byte>)
    requires |bytes| == 0x83000 && WordsOf(bytes) == Zeros(0x20C00)
    ensures WordsOf(StoreBytes(bytes, 0x8200A, 1))[0x20802] == 0x1_0000
  {
    assert Join(bytes[0x82008], bytes[0x82009], bytes[0x8200A], bytes[0x8200B]) == Zeros(0x20C00)[0x20802] == 0;
    LowHalfZero(bytes[0x82008], bytes[0x82009], bytes[0x8200A], bytes[0x8200B]);
  }

  lemma LowHalfZero(b0: Byte, b1: Byte, b2: Byte, b3: Byte)
    requires Join(b0, b1, b2, b3) == 0
    ensures Join(b0, b1, ByteOf(1, 0), ByteOf(1, 1)) == 0x1_0000
  {
  }

  /** A direct-mapped cache refills the line of an address after another block has taken its place: the
      allocation and the load of two misses. */
  method Refill(c: Cache, addr: nat, i: nat, k: nat) returns (data: Word)
    requires c.Below() && SetsOk(c.g, c.sets) && OrdersOk(c.g, c.orders) && c.g.ways == 1 && k == 0
    requires i == c.g.SetOf(c.g.Block(addr / 4)) && c.sets[i][k].valid && !c.sets[i][k].dirty
    requires addr / 4 < |c.next.View()|
    modifies c`sets, c`orders, c`writebacks, c.next.Repr()
    ensures data == old(c.next.View())[addr / 4]
  {
    hide Memory.Repr, Memory.View, Memory.Depth;
    var tag := c.g.TagOf(c.g.Block(addr / 4));
    var j := c.AllocateEntry(i, tag + 1);
    c.UpdateLru(i, j);
    j := c.AllocateEntry(i, tag);
    c.LoadBlock(addr, i, j);
    data := c.sets[i][j].data[c.g.Index(addr / 4)];
  }

  lemma CleanLine(g: Geometry, sets: seq<seq<Entry>>, k: nat, n: nat)
    requires SetsOk(g, sets) && k < g.ways && sets[g.SetOf(n)][k].Matches(g.TagOf(n)) && !IsDirty(g, sets, n)
    ensures !sets[g.SetOf(n)][k].dirty
  {
    BlockRebuilt(g, n);
    OwnBlock(g, sets, g.SetOf(n), k);
  }

  lemma NothingDirty(g: Geometry, sets: seq<seq<Entry>>, sets': seq<seq<Entry>>, k: int)
    requires SetsOk(g, sets) && SetsOk(g, sets')
    requires Evicts(g, sets, sets', iset{}, k) && forall b :: !IsDirty(g, sets, b)
    ensures forall b :: !IsDirty(g, sets', b)
  {
  }

  /** A cache over zeroed DDR memory that has looked up one address. */
  method AfterAccess(config: CacheConfig, size: nat, addr: nat)
    returns (ddr: DdrMemory, c: Cache, i: nat, k: nat)
    requires Accepted(config)
    ensures fresh(ddr) && fresh(c) && fresh(c.Repr) && c.Valid()
    ensures c.next == Ddr(ddr) && c.g == CalculateParameters(config)
    ensures ddr.bytes.Length == size && c.next.View() == Zeros(size / 4)
    ensures i == c.g.SetOf(c.g.Block(addr / 4)) && k < c.g.ways
    ensures c.sets[i][k].Matches(c.g.TagOf(c.g.Block(addr / 4))) && !c.sets[i][k].dirty
  {
    hide Accepted, CalculateParameters, CleanAgrees, Overlay, RecencyOf, IsDirty, OnlyDirtyChanged, Touched, Resident,
         Evicts, Zeros, Geometry.Block, Geometry.SetOf, Geometry.TagOf, OrdersOk, Memory.View, Memory.Depth;
    ddr, c := NewCache(config, size);
    ghost var sets, below, writebacks := c.sets, c.next.View(), c.writebacks;
    var hit;
    i, k, hit := c.Access(addr, 0);
    CleanUnchanged(c.g, sets, below, c.next.View());
    NothingDirty(c.g, sets, c.sets, c.writebacks - writebacks);
    CleanLine(c.g, c.sets, k, c.g.Block(addr / 4));
  }

  lemma StoredLine(sets: seq<seq<Entry>>, i: nat, k: nat, line: Entry, j: nat, v: Word)
    requires i < |sets| && k < |sets[i]| && j < |line.data| && sets[i][k] == Stored(line, j, v, line.dirty)
    ensures sets[i][k].valid == line.valid && sets[i][k].dirty == line.dirty && |sets[i][k].data| == |line.data|
    ensures sets[i][k].data[j] == v
  {
  }

  lemma OneWay(config: CacheConfig)
    requires Accepted(config)
    ensures CalculateParameters(config).ways == config.associativity
  {
  }

  /** Why the stores to the synchronisation variables must be aligned: a store to 0x8200A reaches the
      second cache as a request for the word 0x82008, and DDR memory as one for the bytes from 0x8200A on.
      The second cache shows what was stored until it evicts the line, and something else afterwards. */
  method UnalignedLost(config: CacheConfig) returns (shown: Word, left: Word)
    requires Accepted(config) && config.associativity == 1
    ensures shown == 1 && left == 0x1_0000
  {
    hide Accepted, CalculateParameters, CleanAgrees, Overlay, RecencyOf, IsDirty, StoresIn, WordsOf, StoreBytes, Put,
         Stored, Resident, OrdersOk, Geometry.Block, Geometry.SetOf, Geometry.TagOf, Geometry.Index;
    OneWay(config);
    assert 0x8200A / 4 == 0x82008 / 4 == 0x20802;
    var ddr, second, i, k := AfterAccess(config, 0x83000, 0x8200A);
    ShiftedBytes(ddr.bytes[..]);
    ghost var line := second.sets[i][k];
    second.StoreThrough(i, k, 0x8200A, 1);
    StoredLine(second.sets, i, k, line, second.g.Index(0x20802), 1);
    shown := second.sets[i][k].data[second.g.Index(0x20802)];
    left := Refill(second, 0x82008, i, k);
  }

  // ----- which addresses are written around the cache -----

  /** A cache without dirty lines shows what is below. */
  lemma CleanView(c: Cache)
    requires c.Valid() && forall b :: !IsDirty(c.g, c.sets, b)
    ensures c.View == c.next.View()
  {
  }

  lemma NothingExposed(g: Geometry, memory: seq<Word>, n: nat)
    requires g.Ok()
    ensures Expose(g, memory, memory, n) == memory
  {
  }

  method StoreAround(c: Cache, addr: nat, v: Word) returns (hit: bool)
    requires c.Valid() && c.next.Ddr? && Bypasses(addr) && addr % 4 == 0 && addr / 4 < |c.View|
    requires forall b :: !IsDirty(c.g, c.sets, b)
    modifies c.Repr
    ensures c.Valid() && c.View == c.next.View() == Put(old(c.View), addr / 4, v)
    ensures hit && !c.Holding(c.g.Block(addr / 4))
  {
    hide CleanAgrees, Overlay, RecencyOf, OrdersOk, IsDirty, Touched, Dropped, Expose, Resident, Evicts, Cleans, Put,
         Geometry.Block, Memory.Repr, Memory.View, Memory.Depth;
    ghost var sets := c.sets;
    CleanView(c);
    NothingExposed(c.g, c.View, c.g.Block(addr / 4));
    hit := c.Write(addr, v, 0);
    AllCleaned(c.g, sets, c.sets, c.g.Block(addr / 4));
    CleanView(c);
  }

  method StoreWithin(c: Cache, addr: nat, v: Word) returns (hit: bool)
    requires c.Valid() && c.next.Ddr? && !Bypasses(addr) && addr / 4 < |c.View|
    requires forall b :: !IsDirty(c.g, c.sets, b) && !Resident(c.g, c.sets, b)
    modifies c.Repr
    ensures c.Valid() && c.View == Put(old(c.View), addr / 4, v) && c.next.View() == old(c.next.View())
    ensures !hit && c.Holding(c.g.Block(addr / 4))
  {
    hide CleanAgrees, Overlay, RecencyOf, OrdersOk, IsDirty, Touched, Dropped, Expose, Resident, Evicts, Cleans, Put,
         OnlyDirtyChanged, Geometry.Block, Memory.Repr, Memory.View, Memory.Depth;
    ghost var sets, memory := c.sets, c.next.View();
    hit := c.Write(addr, v, 0);
    CleanUnchanged(c.g, sets, memory, c.next.View());
  }

  /** A new cache over zeroed DDR memory after a store: the memory below has the word, and the cache shows
      it and has no line of its own, for the synchronisation variables and the page table; for all other
      addresses the cache has it alone. */
  method AfterAnyStore(config: CacheConfig, size: nat, addr: nat, v: Word)
    returns (ddr: DdrMemory, c: Cache, hit: bool)
    requires Accepted(config)
    requires addr % 4 == 0 && addr + 4 <= size
    ensures fresh(ddr) && fresh(c) && fresh(c.Repr) && c.Valid() && c.next == Ddr(ddr)
    ensures |c.View| == size / 4 && c.View[addr / 4] == v
    ensures hit <==> 0x82008 <= addr <= 0x8201F || 0x20000 <= addr <= 0x20FFF
    ensures c.Holding(c.g.Block(addr / 4)) <==> !hit
    ensures c.next.View()[addr / 4] == if hit then v else 0
  {
    hide Accepted, CalculateParameters, CleanAgrees, Overlay, RecencyOf, OrdersOk, SetsOk, IsDirty, Resident,
         Geometry.Block, Memory.View, Memory.Depth;
    ddr, c := NewCache(config, size);
    if Bypasses(addr) {
      hit := StoreAround(c, addr, v);
    } else {
      hit := StoreWithin(c, addr, v);
    }
  }

  lemma AllCleaned(g: Geometry, sets: seq<seq<Entry>>, sets': seq<seq<Entry>>, n: nat)
    requires SetsOk(g, sets) && SetsOk(g, sets') && Cleans(g, sets, sets', n) && forall b :: !IsDirty(g, sets, b)
    ensures forall b :: !IsDirty(g, sets', b)
  {
  }

  lemma ZeroAt(n: nat, w: nat)
    requires w < n
    ensures |Zeros(n)| == n && Zeros(n)[w] == 0
  {
  }

  /** Whether the line of an address is in a cache, and what DDR memory below it holds. */
  method Observe(c: Cache, ddr: DdrMemory, addr: nat) returns (held: bool, below: Word)
    requires c.Valid() && c.next == Ddr(ddr) && addr % 4 == 0 && addr / 4 < |c.next.View()|
    modifies ddr
    ensures held == c.Holding(c.g.Block(addr / 4)) && below == old(c.next.View())[addr / 4]
  {
    hide CleanAgrees, Overlay, RecencyOf, OrdersOk, IsDirty, Resident, Geometry.Block, WordsOf;
    held := IsHeld(c, addr);
    AlignedRead(ddr.bytes[..], addr);
    below := ddr.ReadWord(addr);
  }

  /** The store seen from outside: whether it is booked as a hit, whether the line is in the cache, and
      what DDR memory holds. */
  method StoredWhere(config: CacheConfig, size: nat, addr: nat, v: Word) returns (hit: bool, held: bool, below: Word)
    requires Accepted(config) && addr % 4 == 0 && addr + 4 <= size
    ensures hit <==> 0x82008 <= addr <= 0x8201F || 0x20000 <= addr <= 0x20FFF
    ensures held <==> !(0x82008 <= addr <= 0x8201F || 0x20000 <= addr <= 0x20FFF)
    ensures below == if 0x82008 <= addr <= 0x8201F || 0x20000 <= addr <= 0x20FFF then v else 0
  {
    hide Accepted, CalculateParameters, CleanAgrees, Overlay, RecencyOf, OrdersOk, SetsOk, IsDirty, Resident, Zeros,
         Put,
         Geometry.Block, Memory.View, Memory.Depth;
    var ddr, c;
    ddr, c, hit := AfterAnyStore(config, size, addr, v);
    held, below := Observe(c, ddr, addr);
  }

  /** A swap after such a store returns what was stored, and after any other what was there before. */
  method SwappedAfterStore(config: CacheConfig, size: nat, addr: nat, v: Word, w: Word) returns (found: Word)
    requires Accepted(config) && addr % 4 == 0 && addr + 4 <= size
    ensures found == if 0x82008 <= addr <= 0x8201F || 0x20000 <= addr <= 0x20FFF then v else 0
  {
    hide Accepted, CleanAgrees, Overlay, IsDirty, Resident, Geometry.Block, WordsOf;
    var ddr, c, hit := AfterAnyStore(config, size, addr, v);
    found := c.Atomic(Swap, addr, w, 0);
  }

  method RequestWord(c: Cache, addr: nat, v: Word)
    requires c.Valid() && c.next.Ddr? && addr % 4 == 0 && addr / 4 < |c.View|
    requires forall b :: !IsDirty(c.g, c.sets, b)
    modifies c.Repr
    ensures c.Valid() && c.Holding(c.g.Block(addr / 4))
    ensures c.next.View() == if WriteThrough(addr) then Put(old(c.View), addr / 4, v) else old(c.next.View())
  {
    hide CleanAgrees, Overlay, RecencyOf, OrdersOk, IsDirty, Touched, Resident, Evicts, Put, OnlyDirtyChanged,
         Geometry.Block, Memory.Repr, Memory.View, Memory.Depth;
    ghost var sets, memory := c.sets, c.next.View();
    c.WriteWord(addr, v);
    if WriteThrough(addr) {
      NothingDirty(c.g, sets, c.sets, c.writebacks - old(c.writebacks));
      CleanView(c);
    } else {
      CleanUnchanged(c.g, sets, memory, c.next.View());
    }
  }

  /** A request for a single word from above: it leaves its line in the cache always, and is below at once
      for the synchronisation variables only. */
  method WordStoredWhere(config: CacheConfig, size: nat, addr: nat, v: Word) returns (held: bool, below: Word)
    requires Accepted(config) && addr % 4 == 0 && addr + 4 <= size
    ensures held && below == if 0x82008 <= addr <= 0x8201F then v else 0
  {
    hide Accepted, CalculateParameters, CleanAgrees, Overlay, RecencyOf, OrdersOk, SetsOk, IsDirty, Resident, Zeros,
         Put,
         Geometry.Block, Memory.View, Memory.Depth;
    var ddr, c := NewCache(config, size);
    PutThere(c.View, addr / 4, v);
    ZeroAt(size / 4, addr / 4);
    RequestWord(c, addr, v);
    held, below := Observe(c, ddr, addr);
  }

  // ----- flushing a range -----

  /** flush_range does what it is asked to if the range does not run past the last address or starts
      after the last block of the memory does: exactly the blocks that start in the range are below
      what the flat memory shows, and in the first case exactly they are clean. FlushedExactIff says that
      it does so in no other case. */
  method FlushAsked(c: Cache, start: nat, size: nat)
    requires c.Valid() && |c.View| <= 0x4000_0000 && start < 0x1_0000_0000 && size < 0x1_0000_0000
    requires start + size < 0x1_0000_0000 || c.View == [] || start > 4 * c.g.FirstWord(c.g.Block(|c.View| - 1))
    modifies c`sets, c.next.Repr()
    ensures c.Valid() && c.Recency() == old(c.Recency())
    ensures c.next.View() == Flushed(c.g, c.View, old(c.next.View()), start, start + size)
    ensures start + size < 0x1_0000_0000 ==>
              forall b :: c.Dirty(b) <==> old(c.Dirty(b)) && !StartsIn(c.g, b, start, start + size)
  {
    hide Flushed, StartsIn, Geometry.Block, Geometry.FirstWord, Overlay, CleanAgrees, IsDirty, RecencyOf, OrdersOk,
         Memory.Repr, Memory.View, Memory.Depth;
    FlushedExactIff(c.g, |c.View|, start, size);
    ghost var below := c.next.View();
    assert |below| == |c.View|;
    assert Flushed(c.g, c.View, below, start, RangeEnd(start, size)) ==
        Flushed(c.g, c.View, below, start, start + size);
    c.FlushRange(start, size);
  }

  /** A range that runs past the last address makes flush_range write nothing back at all. */
  method FlushWrapped(c: Cache, start: nat, size: nat)
    requires c.Valid() && start < 0x1_0000_0000 && size < 0x1_0000_0000 && start + size >= 0x1_0000_0000
    modifies c`sets, c.next.Repr()
    ensures c.Valid() && c.next.View() == old(c.next.View()) && forall b :: c.Dirty(b) <==> old(c.Dirty(b))
  {
    hide Overlay, CleanAgrees, IsDirty, RecencyOf, OrdersOk, Memory.Repr, Memory.View, Memory.Depth;
    assert RangeEnd(start, size) == start + size - 0x1_0000_0000;
    c.FlushRange(start, size);
  }

  /** So a dirty line of the range can be left behind: the store can be read through the cache, and not
      below. */
  method FlushMissed(config: CacheConfig) returns (data: Word, below: Word)
    requires Accepted(config)
    ensures data == 1 && below == 0
  {
    hide Accepted, CalculateParameters, CleanAgrees, Overlay, RecencyOf, OrdersOk, SetsOk, IsDirty, OnlyDirtyChanged,
         Touched, Dropped, WordsOf, Resident;
    var ddr, c := AfterStore(config, 0x2000, 0x1000);
    FlushWrapped(c, 0x1000, 0xFFFF_F000);
    AlignedRead(ddr.bytes[..], 0x1000);
    below := ddr.ReadWord(0x1000);
    data := ReadBack(c, 0x1000);
  }

  method ReadBack(c: Cache, addr: nat) returns (data: Word)
    requires c.Valid() && addr / 4 < |c.View|
    modifies c.Repr
    ensures data == old(c.View)[addr / 4]
  {
    var hit;
    data, hit := c.Read(addr, 0);
  }

  // ----- the page table stays clean -----

  /** With blocks of at most a page, the block of a page-table address lies in the page table. */
  lemma PageTableBlock(g: Geometry, q: nat, p: nat, a: nat)
    requires g.Ok() && Times(q, g.words) == 1024
    requires PageTable(p) && g.Block(a / 4) == g.Block(p / 4)
    ensures PageTable(a)
  {
    var n := g.Block(p / 4);
    BlockSpan(g, n, p / 4);
    BlockSpan(g, n, a / 4);
    TimesAssociates(32, q, g.words);
    TimesAssociates(33, q, g.words);
    TimesIsProduct(32, 1024);
    TimesIsProduct(33, 1024);
    if n < Times(32, q) {
      TimesMonotone(n, Times(32, q), g.words);
    } else if n > Times(32, q) {
      TimesMonotone(Times(32, q), n, g.words);
    }
    if n < Times(33, q) {
      TimesMonotone(n, Times(33, q), g.words);
    } else if n > Times(33, q) {
      TimesMonotone(Times(33, q), n, g.words);
    }
  }

  ghost predicate PageTableClean(c: Cache)
    requires c.Valid()
    reads c, c.Repr
  {
    forall p: nat :: PageTable(p) ==> !c.Dirty(c.g.Block(p / 4))
  }

  /** The block of a page-table address lies in the page table exactly if blocks are at most a page. */
  lemma PageBlocksIff(config: CacheConfig)
    requires Accepted(config)
    ensures var g := CalculateParameters(config);
            (forall p: nat, a: nat :: PageTable(p) && g.Block(a / 4) == g.Block(p / 4) ==> PageTable(a))
            <==> config.blockSize <= 4096
  {
    hide Accepted, CalculateParameters, Geometry.Block, Log2, Pow2;
    var g := CalculateParameters(config);
    if config.blockSize <= 4096 {
      var q := WordsOfPage(config);
      forall p: nat, a: nat | PageTable(p) && g.Block(a / 4) == g.Block(p / 4)
        ensures PageTable(a)
      {
        PageTableBlock(g, q, p, a);
      }
    } else {
      BeyondPage(config);
      assert PageTable(0x20000) && 0x20000 / 4 == 0x8000 && 0x21000 / 4 == 0x8400;
      assert !PageTable(0x21000);
    }
  }

  lemma WordsOfPage(config: CacheConfig) returns (q: nat)
    requires Accepted(config) && config.blockSize <= 4096
    ensures Times(q, CalculateParameters(config).words) == 1024
  {
    hide Log2, Pow2, Times;
    AcceptedSizes(config);
    var o := Log2(config.blockSize);
    Pow2Of12();
    if o > 12 {
      Pow2Monotone(13, o);
    }
    q := Pow2(12 - o);
    Pow2Sum(o, 12 - o);
    TimesDoubled(q, 2 * CalculateParameters(config).words);
    TimesDoubled(q, CalculateParameters(config).words);
  }

  lemma Pow2Of12()
    ensures Pow2(12) == 4096 && Pow2(13) == 8192 && Pow2(15) == 0x8000
  {
    assert Pow2(6) == 64;
  }

  /** A block larger than a page that starts the page table also goes on after it. */
  lemma BeyondPage(config: CacheConfig)
    requires Accepted(config) && config.blockSize > 4096
    ensures CalculateParameters(config).Block(0x8400) == CalculateParameters(config).Block(0x8000)
  {
    hide Log2, Pow2, Times, Quotient;
    AcceptedSizes(config);
    var words, o := CalculateParameters(config).words, Log2(config.blockSize);
    Pow2Of12();
    if o <= 12 {
      Pow2Monotone(o, 12);
    }
    PowerOfWords(o);
    if o - 2 <= 15 {
      var q := Pow2(15 - (o - 2));
      Pow2Sum(o - 2, 15 - (o - 2));
      Pow2Monotone(11, o - 2);
      PowerOfWords(13);
      Decomposed(q, 0, words);
      Decomposed(q, 0x400, words);
    } else {
      Pow2Monotone(16, o - 2);
      Pow2Of16();
      TimesIsProduct(0, words);
      SplitOff(0x8000, words, 0, 0x8000);
      SplitOff(0x8400, words, 0, 0x8400);
    }
  }

  lemma PowerOfWords(o: nat)
    requires o >= 2
    ensures Pow2(o) == 4 * Pow2(o - 2)
  {
  }

  lemma Pow2Of16()
    ensures Pow2(16) == 0x1_0000
  {
    assert Pow2(8) == 0x100;
  }

  /** Whatever a run loads and stores, it leaves no line of the page table dirty, if blocks are at most
      a page. */
  method PageTableStaysClean(c: Cache, config: CacheConfig, ops: seq<Op>, core: nat)
    requires c.Valid() && PageTableClean(c)
    requires Accepted(config) && c.g == CalculateParameters(config) && config.blockSize <= 4096
    requires forall k :: 0 <= k < |ops| ==>
               ops[k].Load? || (ops[k].Store? && (Bypasses(ops[k].addr) ==> Lands(c.next.Level?, ops[k].addr)))
    modifies c.Repr
    ensures c.Valid() && PageTableClean(c)
  {
    hide Accepted, CalculateParameters, Overlay, CleanAgrees, IsDirty, RecencyOf, OrdersOk, Resident,
         OnlyDirtyChanged, Touched, Dropped, Put, Expose, Geometry.Block, Memory.Repr, Memory.View, Memory.Depth;
    PageBlocksIff(config);
    for k := 0 to |ops|
      invariant c.Valid() && PageTableClean(c)
    {
      if ops[k].Load? {
        var data, hit := c.Read(ops[k].addr, core);
      } else {
        var hit := c.Write(ops[k].addr, ops[k].v, core);
      }
    }
  }

  /** With larger blocks it does not hold: a store to the page after the page table leaves the line of
      the page table's start dirty. */
  method PageTableDirtied(config: CacheConfig) returns (dirty: bool)
    requires Accepted(config) && config.blockSize > 4096
    ensures dirty
  {
    hide Accepted, CalculateParameters, Overlay, CleanAgrees, RecencyOf, OrdersOk, Resident, OnlyDirtyChanged,
         Touched, Dropped, Put, Expose, Geometry.Block, WordsOf;
    var ddr, c := AfterStore(config, 0x22000, 0x21000);
    BeyondPage(config);
    assert PageTable(0x20000) && 0x20000 / 4 == 0x8000 && 0x21000 / 4 == 0x8400;
    var i, tag, k := c.FindEntry(0x20000);
    dirty := k < c.g.ways && c.sets[i][k].dirty;
  }
}
