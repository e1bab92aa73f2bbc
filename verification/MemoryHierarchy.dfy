/** The memory hierarchy: byte-addressed DDR memory at the bottom and any number of write-back
  caches stacked on it, all serving the same word and block requests.

  Every level stands for a flat memory of words, its View. A request is specified by what it
  does to that view, so a cache may rely on whatever level lies below it. */
module MemoryHierarchy {
  import opened Arithmetic
  import opened Words
  import opened Lru
  import opened CacheModel
  import opened CacheAddress
  import CacheStats

  // ----- DDR memory -----

  /** The words of a byte memory; up to three bytes at the end belong to none. */
  function WordsOf(bytes: seq<Byte>): (r: seq<Word>)
    ensures |r| == |bytes| / 4
    ensures forall w :: 0 <= w < |r| ==>
              r[w] == Join(bytes[4 * w], bytes[4 * w + 1], bytes[4 * w + 2], bytes[4 * w + 3])
  {
    seq(|bytes| / 4, w requires 0 <= w < |bytes| / 4 =>
      Join(bytes[4 * w], bytes[4 * w + 1], bytes[4 * w + 2], bytes[4 * w + 3]))
  }

  lemma AlignedStore(bytes: seq<Byte>, addr: nat, v: Word)
    requires addr % 4 == 0
    ensures WordsOf(StoreBytes(bytes, addr, v)) == Put(WordsOf(bytes), addr / 4, v)
  {
    JoinOfBytes(v);
  }

  /** A store of bytes is the store of the word of its address exactly when it is aligned, or beyond
      the last word of the memory. */
  lemma AlignedStoreIff(size: nat, addr: nat)
    ensures (forall bytes, v {:trigger StoreBytes(bytes, addr, v)} :: |bytes| == size ==>
               WordsOf(StoreBytes(bytes, addr, v)) == Put(WordsOf(bytes), addr / 4, v))
            <==> addr % 4 == 0 || addr / 4 >= size / 4
  {
    if addr % 4 == 0 || addr / 4 >= size / 4 {
      forall bytes: seq<Byte>, v: Word | |bytes| == size
        ensures WordsOf(StoreBytes(bytes, addr, v)) == Put(WordsOf(bytes), addr / 4, v)
      {
        if addr % 4 == 0 {
          AlignedStore(bytes, addr, v);
        } else {
          assert StoreBytes(bytes, addr, v) == bytes;
        }
      }
    } else {
      var bytes: seq<Byte> := seq(size, _ => 0);
      var stored := StoreBytes(bytes, addr, 0xFFFF_FFFF);
      assert stored[4 * (addr / 4)] == 0;
      NotAllOnes(stored[4 * (addr / 4) + 1], stored[4 * (addr / 4) + 2], stored[4 * (addr / 4) + 3]);
      assert WordsOf(stored)[addr / 4] != 0xFFFF_FFFF;
    }
  }

  lemma NotAllOnes(b1: Byte, b2: Byte, b3: Byte)
    ensures Join(0, b1, b2, b3) != 0xFFFF_FFFF
  {
  }

  /** The bytes read for a word; beyond the memory, 0. */
  function ReadAt(bytes: seq<Byte>, a: nat): Word {
    if a + 4 <= |bytes| then LoadBytes(bytes, a) else 0
  }

  lemma AlignedRead(bytes: seq<Byte>, a: nat)
    requires a % 4 == 0
    ensures ReadAt(bytes, a) == if a / 4 < |WordsOf(bytes)| then WordsOf(bytes)[a / 4] else 0
  {
  }

  /** Storing consecutive words from any address on. */
  function StoreAll(bytes: seq<Byte>, addr: nat, data: seq<Word>): (r: seq<Byte>)
    ensures |r| == |bytes|
  {
    if data == [] then
      bytes
    else
      StoreBytes(StoreAll(bytes, addr, data[..|data| - 1]), addr + 4 * (|data| - 1), data[|data| - 1])
  }

  lemma {:induction false} AlignedStoreAll(bytes: seq<Byte>, addr: nat, data: seq<Word>)
    requires addr % 4 == 0
    ensures WordsOf(StoreAll(bytes, addr, data)) == PutBlock(WordsOf(bytes), addr / 4, data)
  {
    hide WordsOf, StoreBytes, Put;
    if data == [] {
    } else {
      var n := |data| - 1;
      AlignedStoreAll(bytes, addr, data[..n]);
      AlignedStore(StoreAll(bytes, addr, data[..n]), addr + 4 * n, data[n]);
      PutBlockSnoc(WordsOf(bytes), addr / 4, data, n);
      assert data[..n + 1] == data;
      assert (addr + 4 * n) / 4 == addr / 4 + n;
    }
  }

  class DdrMemory {
    const bytes: array<Byte>
    var readCount: nat
    var writeCount: nat

    constructor (size: nat)
      ensures fresh(bytes) && bytes.Length == size
      ensures forall i :: 0 <= i < size ==> bytes[i] == 0
    {
      bytes := new Byte[size](_ => 0);
      readCount, writeCount := 0, 0;
    }

    ghost function View(): seq<Word>
      reads bytes
    {
      WordsOf(bytes[..])
    }

    method ReadWord(addr: nat) returns (v: Word)
      modifies this
      ensures bytes[..] == old(bytes[..])
      ensures v == ReadAt(bytes[..], addr)
    {
      readCount := readCount + 1;
      if addr + 4 <= bytes.Length {
        v := Join(bytes[addr], bytes[addr + 1], bytes[addr + 2], bytes[addr + 3]);
      } else {
        v := 0;
      }
    }

    method WriteWord(addr: nat, v: Word)
      modifies this, bytes
      ensures bytes[..] == StoreBytes(old(bytes[..]), addr, v)
    {
      writeCount := writeCount + 1;
      StoreWord(addr, v);
    }

    method StoreWord(addr: nat, v: Word)
      modifies bytes
      ensures bytes[..] == StoreBytes(old(bytes[..]), addr, v)
    {
      if addr + 4 <= bytes.Length {
        bytes[addr] := ByteOf(v, 0);
        bytes[addr + 1] := ByteOf(v, 1);
        bytes[addr + 2] := ByteOf(v, 2);
        bytes[addr + 3] := ByteOf(v, 3);
      }
    }

    method ReadBlock(addr: nat, words: nat) returns (data: seq<Word>)
      modifies this
      ensures bytes[..] == old(bytes[..])
      ensures |data| == words
      ensures forall i :: 0 <= i < words ==> data[i] == ReadAt(bytes[..], addr + 4 * i)
    {
      readCount := readCount + words;
      data := [];
      for i := 0 to words
        invariant |data| == i
        invariant forall j :: 0 <= j < i ==> data[j] == ReadAt(bytes[..], addr + 4 * j)
      {
        var a := addr + 4 * i;
        if a + 4 <= bytes.Length {
          data := data + [Join(bytes[a], bytes[a + 1], bytes[a + 2], bytes[a + 3])];
        } else {
          data := data + [0];
        }
      }
    }

    method WriteBlock(addr: nat, data: seq<Word>)
      modifies this, bytes
      ensures bytes[..] == StoreAll(old(bytes[..]), addr, data)
    {
      hide StoreBytes;
      writeCount := writeCount + |data|;
      for i := 0 to |data|
        invariant bytes[..] == StoreAll(old(bytes[..]), addr, data[..i])
      {
        StoreWord(addr + 4 * i, data[i]);
        assert data[..i + 1][..i] == data[..i];
      }
      assert data[..|data|] == data;
    }
  }

  // ----- the memory interface -----

  /** What a cache may be stacked on. */
  datatype Memory = Ddr(ddr: DdrMemory) | Level(cache: Cache) {

    ghost function Depth(): nat {
      if Ddr? then 0 else cache.depth
    }

    ghost function Repr(): set<object> {
      if Ddr? then {ddr, ddr.bytes} else {cache} + cache.Repr
    }

    ghost predicate Valid()
      reads Repr()
      decreases Depth(), 1
    {
      Level? ==> cache.Valid()
    }

    ghost function View(): seq<Word>
      reads Repr()
    {
      if Ddr? then ddr.View() else cache.View
    }

    /** A request for an address is one for the word that the address lies in. DDR memory takes unaligned
        requests byte by byte, and so do the synchronisation variables through every level. */
    predicate Takes(addr: nat) { addr % 4 == 0 || (Level? && !WriteThrough(addr)) }

    method ReadWord(addr: nat) returns (v: Word)
      requires Valid()
      modifies Repr()
      ensures Valid() && View() == old(View())
      ensures (addr % 4 == 0 || Level?) && addr / 4 < |View()| ==> v == View()[addr / 4]
      ensures Ddr? ==> v == ReadAt(ddr.bytes[..], addr)
      decreases Depth(), 10
    {
      match this
      case Ddr(d) =>
        if addr % 4 == 0 {
          AlignedRead(d.bytes[..], addr);
        }
        v := d.ReadWord(addr);
      case Level(c) =>
        v := c.ReadWord(addr);
    }

    method WriteWord(addr: nat, v: Word)
      requires Valid() && (Level? && WriteThrough(addr) ==> addr % 4 == 0)
      modifies Repr()
      ensures Valid()
      ensures Takes(addr) ==> View() == Put(old(View()), addr / 4, v)
      ensures Ddr? ==> ddr.bytes[..] == StoreBytes(old(ddr.bytes[..]), addr, v)
      decreases Depth(), 10
    {
      match this
      case Ddr(d) =>
        if addr % 4 == 0 {
          AlignedStore(d.bytes[..], addr, v);
        }
        d.WriteWord(addr, v);
      case Level(c) =>
        c.WriteWord(addr, v);
    }

    method ReadBlock(addr: nat, words: nat) returns (data: seq<Word>)
      requires Valid()
      modifies Repr()
      ensures Valid() && View() == old(View())
      ensures |data| == words
      ensures addr % 4 == 0 || Level? ==>
                forall i :: 0 <= i < words && addr / 4 + i < |View()| ==> data[i] == View()[addr / 4 + i]
      ensures Ddr? ==> forall i :: 0 <= i < words ==> data[i] == ReadAt(ddr.bytes[..], addr + 4 * i)
      decreases Depth(), 10
    {
      match this
      case Ddr(d) =>
        data := d.ReadBlock(addr, words);
        if addr % 4 == 0 {
          forall i | 0 <= i < words && addr / 4 + i < |d.View()|
            ensures data[i] == d.View()[addr / 4 + i]
          {
            AlignedRead(d.bytes[..], addr + 4 * i);
            assert (addr + 4 * i) / 4 == addr / 4 + i;
          }
        }
      case Level(c) =>
        data := c.ReadBlock(addr, words);
    }

    method WriteBlock(addr: nat, data: seq<Word>)
      requires Valid() && (Level? ==> addr % 4 == 0 || ClearOfWindow(addr, |data|))
      modifies Repr()
      ensures Valid()
      ensures addr % 4 == 0 || Level? ==> View() == PutBlock(old(View()), addr / 4, data)
      ensures Ddr? ==> ddr.bytes[..] == StoreAll(old(ddr.bytes[..]), addr, data)
      decreases Depth(), 10
    {
      match this
      case Ddr(d) =>
        if addr % 4 == 0 {
          AlignedStoreAll(d.bytes[..], addr, data);
        }
        d.WriteBlock(addr, data);
      case Level(c) =>
        c.WriteBlock(addr, data);
    }
  }

  /** None of n consecutive requests from an address on is for a synchronisation variable. */
  predicate ClearOfWindow(addr: nat, n: nat) { n == 0 || addr + 4 * (n - 1) < 0x82008 || addr > 0x8201F }

  // ----- the cache -----

  ghost predicate OrdersOk(g: Geometry, orders: seq<seq<nat>>) {
    |orders| == g.sets && forall i :: 0 <= i < |orders| ==> Permutation(orders[i], g.ways)
  }

  /** For every set, the tags it holds, most recently used first. */
  ghost function RecencyOf(g: Geometry, sets: seq<seq<Entry>>, orders: seq<seq<nat>>): (r: seq<seq<nat>>)
    requires SetsOk(g, sets) && OrdersOk(g, orders)
    ensures |r| == g.sets
    ensures forall i :: 0 <= i < g.sets ==> r[i] == Stack(Slots(sets[i]), orders[i])
  {
    seq(g.sets, i requires 0 <= i < g.sets => Stack(Slots(sets[i]), orders[i]))
  }

  /** The recency orders after an access to a block, and after the block is dropped. */
  function Touched(g: Geometry, recency: seq<seq<nat>>, n: nat): seq<seq<nat>>
    requires g.Ok() && |recency| == g.sets
  {
    recency[g.SetOf(n) := Touch(recency[g.SetOf(n)], g.TagOf(n), g.ways)]
  }

  function Dropped(g: Geometry, recency: seq<seq<nat>>, n: nat): seq<seq<nat>>
    requires g.Ok() && |recency| == g.sets
  {
    recency[g.SetOf(n) := Without(recency[g.SetOf(n)], g.TagOf(n))]
  }

  datatype Amo = Add | Swap | Sub | And | Or | Xor {

    function Apply(memory: Word, value: Word): Word {
      match this
      case Add => memory + value
      case Swap => value
      case Sub => memory - value
      case And => memory & value
      case Or => memory | value
      case Xor => memory ^ value
    }
  }

  /** The synchronisation variables, which are always written through. */
  predicate WriteThrough(addr: nat) { 0x82008 <= addr <= 0x8201F }

  predicate PageTable(addr: nat) { 0x20000 <= addr < 0x21000 }

  predicate Bypasses(addr: nat) { WriteThrough(addr) || PageTable(addr) }

  /** The windows are made of whole words, and the page table is a page. */
  lemma WholeWords(addr: nat)
    ensures WriteThrough(addr) <==> 0x8_2008 / 4 <= addr / 4 < 0x8_2020 / 4
    ensures PageTable(addr) <==> addr / 4096 == 0x20
  {
  }

  /** The memory below has changed in dirty blocks only, by their being written back. */
  ghost predicate OnlyDirtyChanged(g: Geometry, sets: seq<seq<Entry>>, below: seq<Word>, below': seq<Word>)
    requires SetsOk(g, sets)
  {
    && |below| == |below'|
    && forall w :: 0 <= w < |below| && below'[w] != below[w] ==>
         IsDirty(g, sets, g.Block(w)) && below'[w] == Peek(g, sets, below, w)
  }

  lemma EvictionChanges(g: Geometry, sets: seq<seq<Entry>>, below: seq<Word>, i: nat, k: nat)
    requires SetsOk(g, sets) && i < g.used && k < g.ways
    ensures OnlyDirtyChanged(g, sets, below, AfterEviction(g, below, i, sets[i][k]))
  {
    if sets[i][k].valid {
      OwnBlock(g, sets, i, k);
      forall w | 0 <= w < |below|
        ensures g.Block(w) == g.BlockAt(i, sets[i][k].tag) || AfterEviction(g, below, i, sets[i][k])[w] == below[w]
        ensures g.Block(w) == g.BlockAt(i, sets[i][k].tag) && sets[i][k].dirty ==>
                  AfterEviction(g, below, i, sets[i][k])[w] == sets[i][k].data[g.Index(w)]
      {
        BlockSpan(g, g.BlockAt(i, sets[i][k].tag), w);
      }
    }
  }

  lemma BlockByWord(g: Geometry, n: nat, data: seq<Word>, view: seq<Word>)
    requires g.Ok() && |data| == g.words
    requires forall j :: 0 <= j < g.words && g.FirstWord(n) + j < |view| ==> data[j] == view[g.FirstWord(n) + j]
    ensures forall w :: 0 <= w < |view| && g.Block(w) == n ==> data[g.Index(w)] == view[w]
  {
    forall w | 0 <= w < |view| && g.Block(w) == n
      ensures data[g.Index(w)] == view[w]
    {
      BlockSpan(g, n, w);
    }
  }

  /** The way that matches the tag of a block in its set is the one the block is read from. */
  lemma LineFound(g: Geometry, sets: seq<seq<Entry>>, k: nat, n: nat)
    requires SetsOk(g, sets) && k < g.ways && sets[g.SetOf(n)][k].Matches(g.TagOf(n))
    ensures forall m, w :: 0 <= w < |m| && g.Block(w) == n ==>
              Peek(g, sets, m, w) == sets[g.SetOf(n)][k].data[g.Index(w)]
  {
    BlockRebuilt(g, n);
    OwnBlock(g, sets, g.SetOf(n), k);
  }

  lemma LineHeld(g: Geometry, sets: seq<seq<Entry>>, k: nat, n: nat)
    requires SetsOk(g, sets) && k < g.ways && sets[g.SetOf(n)][k].Matches(g.TagOf(n))
    ensures Resident(g, sets, n)
  {
  }

  /** Changing one set and its list changes the recency order of that set only. */
  lemma Retouched(g: Geometry, sets: seq<seq<Entry>>, orders: seq<seq<nat>>, sets': seq<seq<Entry>>, i: nat,
                  order: seq<nat>)
    requires SetsOk(g, sets) && SetsOk(g, sets') && OrdersOk(g, orders) && i < g.sets
    requires sets' == sets[i := sets'[i]] && Permutation(order, g.ways)
    ensures OrdersOk(g, orders[i := order])
    ensures RecencyOf(g, sets', orders[i := order]) == RecencyOf(g, sets, orders)[i := Stack(Slots(sets'[i]), order)]
  {
  }

  /** The recency order of a cache that holds nothing. */
  function NoRecency(g: Geometry): (r: seq<seq<nat>>)
    ensures |r| == g.sets
    ensures forall i :: 0 <= i < |r| ==> r[i] == []
  {
    seq(g.sets, _ => [])
  }

  class Cache {
    const g: Geometry
    const latency: nat
    const penalty: nat
    const next: Memory
    var sets: seq<seq<Entry>>
    var orders: seq<seq<nat>>
    var stats: CacheStats.Stats
    var writebacks: nat
    ghost var View: seq<Word>  // the flat memory this cache and what lies below stand for
    ghost const depth: nat
    ghost const Repr: set<object>

    /** The object stands apart from a valid level below. */
    ghost predicate Below()
      reads this, Repr
      decreases depth, 0
    {
      && this in Repr && next.Repr() <= Repr && this !in next.Repr()
      && next.Depth() < depth && next.Valid()
    }

    ghost predicate Coherent()
      reads this, next.Repr()
    {
      && SetsOk(g, sets)
      && CleanAgrees(g, sets, next.View())
      && View == Overlay(g, sets, next.View())
    }

    ghost predicate Valid()
      reads this, Repr
      decreases depth, 0
    {
      && this in Repr && next.Repr() <= Repr && this !in next.Repr()
      && next.Depth() < depth && next.Valid()
      && OrdersOk(g, orders) && Coherent()
      && stats.Conserved(latency, penalty)
    }

    ghost predicate Dirty(block: nat)
      requires SetsOk(g, sets)
      reads this
    {
      IsDirty(g, sets, block)
    }

    ghost predicate Holding(block: nat)
      requires SetsOk(g, sets)
      reads this
    {
      Resident(g, sets, block)
    }

    ghost function Recency(): seq<seq<nat>>
      requires SetsOk(g, sets) && OrdersOk(g, orders)
      reads this
    {
      RecencyOf(g, sets, orders)
    }

    constructor (config: CacheConfig, next: Memory, numCores: nat)
      requires Accepted(config) && next.Valid()
      ensures Valid() && fresh(Repr - next.Repr())
      ensures g == CalculateParameters(config) && this.next == next
      ensures latency == config.accessLatency && penalty == config.missPenalty
      ensures View == next.View()
      ensures forall b :: !IsDirty(g, sets, b) && !Resident(g, sets, b)
      ensures Recency() == NoRecency(g)
      ensures stats == CacheStats.Fresh(numCores) && writebacks == 0
    {
      var geometry := CalculateParameters(config);
      g := geometry;
      latency, penalty := config.accessLatency, config.missPenalty;
      this.next := next;
      sets := EmptySets(geometry);
      orders := InitialOrders(geometry);
      stats := CacheStats.Fresh(numCores);
      writebacks := 0;
      View := next.View();
      depth := next.Depth() + 1;
      Repr := {this} + next.Repr();
      new;
      hide Accepted, CalculateParameters, EmptySets, InitialOrders, CleanAgrees, Overlay, RecencyOf, IsDirty, Resident;
      EmptyCache(g, next.View());
    }

    /** find_entry: the set and tag of an address, and the way that holds its block, or the
        number of ways when none does. */
    method FindEntry(addr: nat) returns (i: nat, tag: nat, k: nat)
      requires SetsOk(g, sets)
      ensures i == g.SetOf(g.Block(addr / 4)) && tag == g.TagOf(g.Block(addr / 4))
      ensures k == Find(sets[i], tag)
    {
      i, tag := g.SetOf(g.Block(addr / 4)), g.TagOf(g.Block(addr / 4));
      k := 0;
      while k < g.ways
        invariant 0 <= k <= g.ways
        invariant forall j :: 0 <= j < k ==> !sets[i][j].Matches(tag)
      {
        if sets[i][k].valid && sets[i][k].tag == tag {
          return;
        }
        k := k + 1;
      }
    }

    method UpdateLru(i: nat, k: nat)
      requires i < |orders|
      modifies this`orders
      ensures orders == old(orders)[i := MoveToFront(old(orders)[i], k)]
    {
      orders := orders[i := Without(orders[i], k)];
      orders := orders[i := [k] + orders[i]];
    }

    method WriteBackBlock(i: nat, k: nat)
      requires Below() && SetsOk(g, sets) && i < g.used && k < g.ways
      modifies next.Repr()
      ensures Below()
      ensures next.View() == PutBlock(old(next.View()), g.FirstWord(g.BlockAt(i, sets[i][k].tag)), sets[i][k].data)
      decreases depth, 0
    {
      var blockAddr := 4 * g.FirstWord(g.BlockAt(i, sets[i][k].tag));
      assert blockAddr / 4 == g.FirstWord(g.BlockAt(i, sets[i][k].tag));
      next.WriteBlock(blockAddr, sets[i][k].data);
    }

    /** evict_lru_entry: frees the way at the back of a set's list, after writing it back if it
        is dirty. */
    method EvictLruEntry(i: nat)
      requires Below() && SetsOk(g, sets) && OrdersOk(g, orders) && i < g.used
      modifies this`sets, this`orders, this`writebacks, next.Repr()
      ensures Below()
      ensures var k := old(orders)[i][g.ways - 1];
              var e := old(sets)[i][k];
              && sets == Replace(old(sets), i, k, e.Invalidated())
              && writebacks == old(writebacks) + (if e.dirty then 1 else 0)
              && (e.dirty ==> next.View() == PutBlock(old(next.View()), g.FirstWord(g.BlockAt(i, e.tag)), e.data))
              && (!e.dirty ==> next.View() == old(next.View()))
      ensures orders == old(orders)[i := old(orders)[i][..g.ways - 1]]
      decreases depth, 1
    {
      hide PutBlock, Memory.Repr, Memory.View, Memory.Depth;
      var k := orders[i][|orders[i]| - 1];
      if sets[i][k].dirty {
        WriteBackBlock(i, k);
        writebacks := writebacks + 1;
      }
      sets := sets[i := sets[i][k := sets[i][k].Invalidated()]];
      orders := orders[i := orders[i][..|orders[i]| - 1]];
    }

    /** allocate_entry: gives the first invalid way of a set to a tag, evicting the least recently
        used line if there is none. */
    method AllocateEntry(i: nat, tag: nat) returns (k: nat)
      requires Below() && SetsOk(g, sets) && OrdersOk(g, orders) && i < g.used
      modifies this`sets, this`orders, this`writebacks, next.Repr()
      ensures Below()
      ensures k == Victim(Slots(old(sets)[i]), old(orders)[i])
      ensures sets == Replace(old(sets), i, k, Entry(tag, old(sets)[i][k].data, true, false))
      ensures next.View() == AfterEviction(g, old(next.View()), i, old(sets)[i][k])
      ensures writebacks == old(writebacks) + if old(sets)[i][k].valid && old(sets)[i][k].dirty then 1 else 0
      ensures |orders| == g.sets && orders == old(orders)[i := orders[i]]
      ensures MoveToFront(orders[i], k) == MoveToFront(old(orders)[i], k)
      decreases depth, 2
    {
      hide PutBlock, Memory.Repr, Memory.View, Memory.Depth;
      ghost var slots := Slots(sets[i]);
      k := 0;
      while k < g.ways
        invariant 0 <= k <= g.ways
        invariant forall j :: 0 <= j < k ==> sets[i][j].valid
      {
        if !sets[i][k].valid {
          sets := sets[i := sets[i][k := Entry(tag, sets[i][k].data, true, false)]];
          return;
        }
        k := k + 1;
      }
      ghost var victim := Victim(slots, orders[i]);
      BackToFront(orders[i]);
      EvictLruEntry(i);
      ReplaceTwice(old(sets), i, victim, old(sets)[i][victim].Invalidated(),
                   Entry(tag, old(sets)[i][victim].data, true, false));
      k := 0;
      while k < g.ways
        invariant 0 <= k <= victim
      {
        if !sets[i][k].valid {
          sets := sets[i := sets[i][k := Entry(tag, sets[i][k].data, true, false)]];
          return;
        }
        k := k + 1;
      }
      assert false;  // the evicted way is found
    }

    /** load_block: fills way k of set i with the block of an address. */
    method LoadBlock(addr: nat, i: nat, k: nat)
      requires Below() && g.Ok() && i < |sets| && k < |sets[i]|
      modifies this`sets, next.Repr()
      ensures Below() && next.View() == old(next.View())
      ensures i < |sets| && k < |sets[i]| && |sets[i][k].data| == g.words
      ensures sets == Replace(old(sets), i, k, old(sets)[i][k].(data := sets[i][k].data))
      ensures forall w :: 0 <= w < |next.View()| && g.Block(w) == g.Block(addr / 4) ==>
                sets[i][k].data[g.Index(w)] == next.View()[w]
      decreases depth, 2
    {
      hide Memory.Repr, Memory.View, Memory.Depth;
      var n := g.Block(addr / 4);
      var blockAddr := 4 * g.FirstWord(n);
      assert blockAddr / 4 == g.FirstWord(n);
      var data := next.ReadBlock(blockAddr, g.words);
      BlockByWord(g, n, data, next.View());
      sets := sets[i := sets[i][k := sets[i][k].(data := data)]];
    }

    /** A miss: allocate_entry, then load_block. */
    method FillLine(addr: nat, i: nat, tag: nat) returns (k: nat)
      requires Below() && Coherent() && OrdersOk(g, orders)
      requires i == g.SetOf(g.Block(addr / 4)) && tag == g.TagOf(g.Block(addr / 4))
      requires Find(sets[i], tag) == g.ways
      modifies this`sets, this`orders, this`writebacks, next.Repr()
      ensures Below() && Coherent()
      ensures k == Victim(Slots(old(sets)[i]), old(orders)[i])
      ensures k < g.ways && sets == old(sets)[i := sets[i]] && sets[i][k].Matches(tag)
      ensures Slots(sets[i]) == Slots(old(sets)[i])[k := Holds(tag)]
      ensures |orders| == g.sets && orders == old(orders)[i := orders[i]]
      ensures MoveToFront(orders[i], k) == MoveToFront(old(orders)[i], k)
      ensures Evicts(g, old(sets), sets, iset{}, writebacks - old(writebacks))
      ensures OnlyDirtyChanged(g, old(sets), old(next.View()), next.View())
      decreases depth, 3
    {
      hide Overlay, CleanAgrees, IsDirty, Evicts, OrdersOk, OnlyDirtyChanged, Memory.Repr, Memory.View, Memory.Depth;
      k := AllocateEntry(i, tag);
      ghost var stale := sets[i][k];
      LoadBlock(addr, i, k);
      ghost var data := sets[i][k].data;
      assert sets == Replace(old(sets), i, k, Entry(tag, data, true, false)) by {
        ReplaceTwice(old(sets), i, k, stale, Entry(tag, data, true, false));
      }
      BlockRebuilt(g, g.Block(addr / 4));
      Filling(g, old(sets), old(next.View()), i, k, tag, data);
      FillingEvicts(g, old(sets), i, k, tag, data);
      EvictionChanges(g, old(sets), old(next.View()), i, k);
    }

    /** The line of an address, filled first on a miss. Moving it to the front of its set's list
        is then an LRU touch of its tag. */
    method LineOf(addr: nat) returns (i: nat, k: nat, hit: bool)
      requires Below() && Coherent() && OrdersOk(g, orders)
      modifies this`sets, this`orders, this`writebacks, next.Repr()
      ensures Below() && Coherent()
      ensures i == g.SetOf(g.Block(addr / 4)) && k < g.ways && sets[i][k].Matches(g.TagOf(g.Block(addr / 4)))
      ensures hit == old(Holding(g.Block(addr / 4)))
      ensures sets == old(sets)[i := sets[i]] && |orders| == g.sets && orders == old(orders)[i := orders[i]]
      ensures Permutation(MoveToFront(orders[i], k), g.ways)
      ensures Stack(Slots(sets[i]), MoveToFront(orders[i], k))
              == Touch(Stack(Slots(old(sets)[i]), old(orders)[i]), g.TagOf(g.Block(addr / 4)), g.ways)
      ensures Evicts(g, old(sets), sets, iset{}, writebacks - old(writebacks))
      ensures OnlyDirtyChanged(g, old(sets), old(next.View()), next.View())
      decreases depth, 4
    {
      hide Evicts, Overlay, CleanAgrees, IsDirty, Memory.Repr, Memory.View, Memory.Depth;
      var tag;
      i, tag, k := FindEntry(addr);
      hit := k < g.ways;
      SlotsDistinct(g, sets[i]);
      if hit {
        NothingEvicted(g, sets);
        HitTouches(Slots(sets[i]), orders[i], k);
      } else {
        MissTouches(Slots(sets[i]), orders[i], tag);
        k := FillLine(addr, i, tag);
      }
      MoveToFrontKeepsPermutation(old(orders)[i], k, g.ways);
    }

    /** The part that read, write, read_word and write_word share: finds the line of an address,
        filling one on a miss, makes it the most recently used and books the access. */
    method Access(addr: nat, core: nat) returns (i: nat, k: nat, hit: bool)
      requires Valid()
      modifies Repr
      ensures Valid() && View == old(View)
      ensures i == g.SetOf(g.Block(addr / 4)) && k < g.ways && sets[i][k].Matches(g.TagOf(g.Block(addr / 4)))
      ensures hit == old(Holding(g.Block(addr / 4)))
      ensures stats == old(stats).Record(core, hit, latency, penalty)
      ensures Recency() == Touched(g, old(Recency()), g.Block(addr / 4))
      ensures Evicts(g, old(sets), sets, iset{}, writebacks - old(writebacks))
      ensures OnlyDirtyChanged(g, old(sets), old(next.View()), next.View())
      decreases depth, 5
    {
      hide Overlay, CleanAgrees, IsDirty, Evicts, RecencyOf, Resident, OnlyDirtyChanged, Memory.Repr, Memory.View,
           Memory.Depth;
      i, k, hit := LineOf(addr);
      CacheStats.RecordConserves(stats, core, hit, latency, penalty);
      stats := stats.Record(core, hit, latency, penalty);
      Retouched(g, old(sets), old(orders), sets, i, MoveToFront(orders[i], k));
      UpdateLru(i, k);
      assert orders == old(orders)[i := orders[i]];
    }

    // ----- loads and stores -----

    /** read: a load, through the cache. */
    method Read(addr: nat, core: nat) returns (data: Word, hit: bool)
      requires Valid()
      modifies Repr
      ensures Valid() && View == old(View)
      ensures addr / 4 < |View| ==> data == View[addr / 4]
      ensures hit == old(Holding(g.Block(addr / 4)))
      ensures stats == old(stats).Record(core, hit, latency, penalty)
      ensures Recency() == Touched(g, old(Recency()), g.Block(addr / 4))
      ensures Evicts(g, old(sets), sets, iset{}, writebacks - old(writebacks))
      ensures OnlyDirtyChanged(g, old(sets), old(next.View()), next.View())
      decreases depth, 6
    {
      var i, k;
      i, k, hit := Access(addr, core);
      data := sets[i][k].data[g.Index(addr / 4)];
      LineFound(g, sets, k, g.Block(addr / 4));
    }

    /** Stores a word into a resident line and marks the line dirty. */
    method StoreBack(i: nat, k: nat, addr: nat, v: Word)
      requires Valid() && i == g.SetOf(g.Block(addr / 4)) && k < g.ways
               && sets[i][k].Matches(g.TagOf(g.Block(addr / 4)))
      modifies this`sets, this`View
      ensures Valid() && View == Put(old(View), addr / 4, v)
      ensures Recency() == old(Recency())
      ensures StoresIn(g, old(sets), sets, g.Block(addr / 4), true)
    {
      hide StoresIn;
      StoringInPlace(g, sets, orders, next.View(), k, addr / 4, v, true, false);
      sets := sets[i := sets[i][k := Stored(sets[i][k], g.Index(addr / 4), v, true)]];
      View := Put(View, addr / 4, v);
    }

    /** Stores a word into a resident line and below; the line stays as dirty as it was. What lies below
        may also be DDR memory that takes an unaligned store byte by byte; then the line and what is below
        need no longer agree. */
    method StoreThrough(i: nat, k: nat, addr: nat, v: Word)
      requires Valid() && i == g.SetOf(g.Block(addr / 4)) && k < g.ways
               && sets[i][k].Matches(g.TagOf(g.Block(addr / 4)))
      requires next.Takes(addr) || next.Ddr?
      modifies this`sets, this`View, next.Repr()
      ensures Below() && SetsOk(g, sets)
      ensures sets == Replace(old(sets), i, k, Stored(old(sets)[i][k], g.Index(addr / 4), v, old(sets)[i][k].dirty))
      ensures next.Ddr? ==> next.ddr.bytes[..] == StoreBytes(old(next.ddr.bytes[..]), addr, v)
      ensures next.Takes(addr) ==>
                && Valid() && View == Put(old(View), addr / 4, v) && Recency() == old(Recency())
                && StoresIn(g, old(sets), sets, g.Block(addr / 4), false)
      decreases depth, 4
    {
      hide StoresIn, Overlay, CleanAgrees, IsDirty, RecencyOf, OrdersOk, Resident, Put, Memory.Repr, Memory.View,
           Memory.Depth;
      StoringInPlace(g, sets, orders, next.View(), k, addr / 4, v, sets[i][k].dirty, true);
      next.WriteWord(addr, v);
      sets := sets[i := sets[i][k := Stored(sets[i][k], g.Index(addr / 4), v, sets[i][k].dirty)]];
      View := Put(View, addr / 4, v);
    }

    /** write: a store. Ordinary addresses are written in the cache and reach the level below when
        the line is evicted or flushed. The synchronisation variables and the page table are
        written below directly, and their line is dropped without being written back. */
    method Write(addr: nat, v: Word, core: nat) returns (hit: bool)
      requires Valid() && (Bypasses(addr) ==> next.Takes(addr))
      modifies Repr
      ensures Valid()
      ensures !Bypasses(addr) ==> View == Put(old(View), addr / 4, v)
      ensures Bypasses(addr) ==>
                && View == Put(Expose(g, old(View), old(next.View()), g.Block(addr / 4)), addr / 4, v)
                && !Holding(g.Block(addr / 4))
      ensures hit == (Bypasses(addr) || old(Holding(g.Block(addr / 4))))
      ensures stats == old(stats).Record(core, hit, latency, penalty)
      ensures Recency() == if Bypasses(addr) then Dropped(g, old(Recency()), g.Block(addr / 4))
                           else Touched(g, old(Recency()), g.Block(addr / 4))
      ensures !Bypasses(addr) ==>
                && Evicts(g, old(sets), sets, iset{g.Block(addr / 4)}, writebacks - old(writebacks))
                && Holding(g.Block(addr / 4))
      ensures Bypasses(addr) ==> Cleans(g, old(sets), sets, g.Block(addr / 4)) && writebacks == old(writebacks)
      ensures !Bypasses(addr) ==> OnlyDirtyChanged(g, old(sets), old(next.View()), next.View())
      decreases depth, 7
    {
      hide Evicts, StoresIn, Cleans, Overlay, CleanAgrees, IsDirty, RecencyOf, OrdersOk, Resident, OnlyDirtyChanged,
           Touched, Dropped, Put, Expose, Memory.Repr, Memory.View, Memory.Depth;
      if Bypasses(addr) {
        StoreBypassing(addr, v);
        CacheStats.RecordConserves(stats, core, true, latency, penalty);
        stats := stats.Record(core, true, latency, penalty);
        hit := true;
      } else {
        var i, k;
        i, k, hit := Access(addr, core);
        ghost var accessed := sets;
        LineHeld(g, sets, k, g.Block(addr / 4));
        StoreBack(i, k, addr, v);
        EvictsAndStores(g, old(sets), accessed, sets, g.Block(addr / 4), true, writebacks - old(writebacks));
      }
    }

    /** Writes below, then overwrites and invalidates the line if it is resident. */
    method StoreBypassing(addr: nat, v: Word)
      requires Valid() && next.Takes(addr)
      modifies this`sets, this`View, next.Repr()
      ensures Valid()
      ensures View == Put(Expose(g, old(View), old(next.View()), g.Block(addr / 4)), addr / 4, v)
      ensures !Holding(g.Block(addr / 4))
      ensures Recency() == Dropped(g, old(Recency()), g.Block(addr / 4))
      ensures Cleans(g, old(sets), sets, g.Block(addr / 4))
      decreases depth, 4
    {
      hide Cleans, Overlay, CleanAgrees, IsDirty, RecencyOf, OrdersOk, Resident, Put, Memory.Repr, Memory.View,
           Memory.Depth;
      Bypassing(g, sets, orders, next.View(), addr / 4, v, Overwritten(g, sets, addr / 4, v));
      View := Put(Expose(g, View, next.View(), g.Block(addr / 4)), addr / 4, v);
      next.WriteWord(addr, v);
      OverwriteLine(addr, v);
    }

    /** Stores a word into the line of an address, if it is resident, and invalidates the line. */
    method OverwriteLine(addr: nat, v: Word)
      requires SetsOk(g, sets)
      modifies this`sets
      ensures sets == DropLine(g, old(sets), g.Block(addr / 4), Overwritten(g, old(sets), addr / 4, v))
    {
      var i, tag, k := FindEntry(addr);
      if k < g.ways {
        FindSame(sets[i], k, Stored(sets[i][k], g.Index(addr / 4), v, false), tag);
        sets := sets[i := sets[i][k := Stored(sets[i][k], g.Index(addr / 4), v, false)]];
        InvalidateLine(addr);
        ReplaceTwice(old(sets), i, k, Stored(old(sets)[i][k], g.Index(addr / 4), v, false),
                     Overwritten(g, old(sets), addr / 4, v));
      }
    }

    /** The loop of invalidate: marks the line of an address invalid. */
    method InvalidateLine(addr: nat)
      requires g.Ok() && |sets| == g.sets && |sets[g.SetOf(g.Block(addr / 4))]| == g.ways
      modifies this`sets
      ensures var i := g.SetOf(g.Block(addr / 4));
              var k := Find(old(sets)[i], g.TagOf(g.Block(addr / 4)));
              sets == if k < g.ways then Replace(old(sets), i, k, old(sets)[i][k].Invalidated()) else old(sets)
    {
      var i, tag := g.SetOf(g.Block(addr / 4)), g.TagOf(g.Block(addr / 4));
      var k := 0;
      while k < g.ways
        invariant 0 <= k <= g.ways && sets == old(sets)
        invariant forall j :: 0 <= j < k ==> !sets[i][j].Matches(tag)
      {
        if sets[i][k].valid && sets[i][k].tag == tag {
          sets := sets[i := sets[i][k := sets[i][k].Invalidated()]];
          return;
        }
        k := k + 1;
      }
    }

    method DropBlock(addr: nat)
      requires SetsOk(g, sets)
      modifies this`sets
      ensures sets == DropLine(g, old(sets), g.Block(addr / 4), Invalid(g, old(sets), g.Block(addr / 4)))
    {
      InvalidateLine(addr);
    }

    /** invalidate: drops the line of an address without writing it back. */
    method Invalidate(addr: nat)
      requires Valid()
      modifies this`sets, this`View
      ensures Valid()
      ensures View == Expose(g, old(View), next.View(), g.Block(addr / 4))
      ensures !Holding(g.Block(addr / 4))
      ensures Recency() == Dropped(g, old(Recency()), g.Block(addr / 4))
      ensures Cleans(g, old(sets), sets, g.Block(addr / 4))
    {
      hide Cleans, Overlay, CleanAgrees, IsDirty, RecencyOf, OrdersOk, Resident, Put, Memory.Repr, Memory.View,
           Memory.Depth;
      ghost var n := g.Block(addr / 4);
      DroppingBlock(g, sets, orders, next.View(), n, Invalid(g, sets, n));
      DropBlock(addr);
      View := Expose(g, View, next.View(), n);
    }

    // ----- atomic operations -----

    /** atomic_add, atomic_swap and the atomic_fetch_and operations: read and write below, then
        invalidate the line. */
    method Atomic(op: Amo, addr: nat, value: Word, core: nat) returns (result: Word)
      requires Valid() && next.Takes(addr)
      modifies Repr
      ensures Valid()
      ensures addr / 4 < |old(next.View())| ==> result == old(next.View())[addr / 4]
      ensures View == Put(Expose(g, old(View), old(next.View()), g.Block(addr / 4)), addr / 4, op.Apply(result, value))
      ensures !Holding(g.Block(addr / 4))
      ensures stats == old(stats).Record(core, false, latency, penalty)
      ensures Recency() == Dropped(g, old(Recency()), g.Block(addr / 4))
      ensures Cleans(g, old(sets), sets, g.Block(addr / 4)) && writebacks == old(writebacks)
      decreases depth, 6
    {
      hide Cleans, Overlay, CleanAgrees, IsDirty, RecencyOf, OrdersOk, Resident, Put, Memory.Repr, Memory.View,
           Memory.Depth;
      result := ReadBelow(addr);
      BookMiss(core);
      StoreInvalidating(addr, op.Apply(result, value));
    }

    /** atomic_compare_and_swap. */
    method CompareAndSwap(addr: nat, expected: Word, desired: Word, core: nat) returns (result: Word)
      requires Valid() && next.Takes(addr)
      modifies Repr
      ensures Valid()
      ensures addr / 4 < |old(next.View())| ==> result == old(next.View())[addr / 4]
      ensures var exposed := Expose(g, old(View), old(next.View()), g.Block(addr / 4));
              View == if result == expected then Put(exposed, addr / 4, desired) else exposed
      ensures !Holding(g.Block(addr / 4))
      ensures stats == old(stats).Record(core, false, latency, penalty)
      ensures Recency() == Dropped(g, old(Recency()), g.Block(addr / 4))
      ensures Cleans(g, old(sets), sets, g.Block(addr / 4)) && writebacks == old(writebacks)
      decreases depth, 6
    {
      hide Cleans, Overlay, CleanAgrees, IsDirty, RecencyOf, OrdersOk, Resident, Put, Memory.Repr, Memory.View,
           Memory.Depth;
      result := ReadBelow(addr);
      BookMiss(core);
      if result == expected {
        StoreInvalidating(addr, desired);
      } else {
        Invalidate(addr);
      }
    }

    method ReadBelow(addr: nat) returns (v: Word)
      requires Valid() && next.Takes(addr)
      modifies next.Repr()
      ensures Valid() && next.View() == old(next.View())
      ensures addr / 4 < |next.View()| ==> v == next.View()[addr / 4]
      decreases depth, 4
    {
      hide Overlay, CleanAgrees, OrdersOk, Memory.Repr, Memory.View, Memory.Depth;
      v := next.ReadWord(addr);
    }

    /** Writes below, then invalidates the line if it is resident. */
    method StoreInvalidating(addr: nat, v: Word)
      requires Valid() && next.Takes(addr)
      modifies this`sets, this`View, next.Repr()
      ensures Valid()
      ensures View == Put(Expose(g, old(View), old(next.View()), g.Block(addr / 4)), addr / 4, v)
      ensures !Holding(g.Block(addr / 4))
      ensures Recency() == Dropped(g, old(Recency()), g.Block(addr / 4))
      ensures Cleans(g, old(sets), sets, g.Block(addr / 4))
      decreases depth, 4
    {
      hide Cleans, Overlay, CleanAgrees, IsDirty, RecencyOf, OrdersOk, Resident, Put, Memory.Repr, Memory.View,
           Memory.Depth;
      Bypassing(g, sets, orders, next.View(), addr / 4, v, Invalid(g, sets, g.Block(addr / 4)));
      View := Put(Expose(g, View, next.View(), g.Block(addr / 4)), addr / 4, v);
      next.WriteWord(addr, v);
      DropBlock(addr);
    }

    method BookMiss(core: nat)
      requires stats.Conserved(latency, penalty)
      modifies this`stats
      ensures stats == old(stats).Record(core, false, latency, penalty) && stats.Conserved(latency, penalty)
    {
      CacheStats.RecordConserves(stats, core, false, latency, penalty);
      stats := stats.Record(core, false, latency, penalty);
    }

    // ----- flushing -----

    /** Writes a line back if it is dirty; afterwards its block is the same below as in the view. */
    method FlushLine(i: nat, k: nat)
      requires Valid() && i < g.used && k < g.ways && sets[i][k].valid
      modifies this`sets, next.Repr()
      ensures Valid() && Recency() == old(Recency())
      ensures next.View() == Expose(g, old(next.View()), View, g.BlockAt(i, old(sets)[i][k].tag))
      ensures sets == Replace(old(sets), i, k, old(sets)[i][k].Cleaned())
      ensures Cleans(g, old(sets), sets, g.BlockAt(i, old(sets)[i][k].tag))
      decreases depth, 4
    {
      hide Overlay, CleanAgrees, IsDirty, RecencyOf, OrdersOk, Resident, Put, Memory.Repr, Memory.View, Memory.Depth;
      FlushingLine(g, sets, orders, next.View(), i, k);
      if sets[i][k].dirty {
        WriteBackBlock(i, k);
        sets := sets[i := sets[i][k := sets[i][k].Cleaned()]];
      }
    }

    /** flush: writes back the line of an address. */
    method Flush(addr: nat)
      requires Valid()
      modifies this`sets, next.Repr()
      ensures Valid() && Recency() == old(Recency())
      ensures next.View() == Expose(g, old(next.View()), View, g.Block(addr / 4))
      ensures Cleans(g, old(sets), sets, g.Block(addr / 4))
      decreases depth, 5
    {
      hide OrdersOk, RecencyOf, Memory.Repr, Memory.View, Memory.Depth;
      var i, tag, k := FindEntry(addr);
      BlockRebuilt(g, g.Block(addr / 4));
      if k < g.ways {
        FlushLine(i, k);
      } else {
        ExposingView(g, sets, next.View(), g.Block(addr / 4));
      }
    }

    /** flush_range: writes back every line whose block starts in a range of addresses. The end of
        the range wraps around at 2^32. */
    method FlushRange(start: nat, size: nat)
      requires Valid()
      modifies this`sets, next.Repr()
      ensures Valid() && Recency() == old(Recency())
      ensures next.View() == Flushed(g, View, old(next.View()), start, RangeEnd(start, size))
      ensures forall b :: IsDirty(g, sets, b) <==>
                          IsDirty(g, old(sets), b) && !StartsIn(g, b, start, RangeEnd(start, size))
      decreases depth, 7
    {
      hide RecencyOf, OrdersOk, Memory.Repr, Memory.View, Memory.Depth;
      var end := RangeEnd(start, size);
      ghost var below := next.View();
      var i := 0;
      while i < g.sets
        invariant 0 <= i <= g.sets
        invariant Valid() && Recency() == old(Recency())
        invariant PartlyFlushed(g, below, next.View(), View, start, end)
        invariant forall j :: 0 <= j < i ==> Swept(g, sets[j], j, g.ways, start, end)
        invariant forall b :: IsDirty(g, sets, b) ==> IsDirty(g, old(sets), b)
        invariant forall b :: IsDirty(g, old(sets), b) && !StartsIn(g, b, start, end) ==> IsDirty(g, sets, b)
      {
        FlushSet(i, start, end);
        i := i + 1;
      }
      AllSwept(g, sets, next.View(), below, start, end);
    }

    /** The ways of one set. */
    method FlushSet(i: nat, start: nat, end: nat)
      requires Valid() && i < g.sets
      modifies this`sets, next.Repr()
      ensures Valid() && Recency() == old(Recency())
      ensures PartlyFlushed(g, old(next.View()), next.View(), View, start, end)
      ensures sets == old(sets)[i := sets[i]] && Swept(g, sets[i], i, g.ways, start, end)
      ensures forall b :: IsDirty(g, sets, b) ==> IsDirty(g, old(sets), b)
      ensures forall b :: IsDirty(g, old(sets), b) && !StartsIn(g, b, start, end) ==> IsDirty(g, sets, b)
      decreases depth, 6
    {
      hide RecencyOf, OrdersOk, Overlay, CleanAgrees, IsDirty, Memory.Repr, Memory.View, Memory.Depth;
      var k := 0;
      while k < g.ways
        invariant 0 <= k <= g.ways
        invariant Valid() && Recency() == old(Recency())
        invariant PartlyFlushed(g, old(next.View()), next.View(), View, start, end)
        invariant |sets| == g.sets && sets == old(sets)[i := sets[i]] && Swept(g, sets[i], i, k, start, end)
        invariant forall b :: IsDirty(g, sets, b) ==> IsDirty(g, old(sets), b)
        invariant forall b :: IsDirty(g, old(sets), b) && !StartsIn(g, b, start, end) ==> IsDirty(g, sets, b)
      {
        if sets[i][k].valid && StartsIn(g, g.BlockAt(i, sets[i][k].tag), start, end) {
          FlushLine(i, k);
        }
        k := k + 1;
      }
    }

    // ----- the memory interface, for the level above -----

    method ReadWord(addr: nat) returns (v: Word)
      requires Valid()
      modifies Repr
      ensures Valid() && View == old(View)
      ensures addr / 4 < |View| ==> v == View[addr / 4]
      ensures stats == old(stats).Record(0, old(Holding(g.Block(addr / 4))), latency, penalty)
      ensures Recency() == Touched(g, old(Recency()), g.Block(addr / 4))
      ensures Evicts(g, old(sets), sets, iset{}, writebacks - old(writebacks))
      decreases depth, 6
    {
      var i, k, hit := Access(addr, 0);
      v := sets[i][k].data[g.Index(addr / 4)];
      LineFound(g, sets, k, g.Block(addr / 4));
    }

    method WriteWord(addr: nat, v: Word)
      requires Valid() && (WriteThrough(addr) ==> addr % 4 == 0)
      modifies Repr
      ensures Valid() && View == Put(old(View), addr / 4, v)
      ensures stats == old(stats).Record(0, old(Holding(g.Block(addr / 4))), latency, penalty)
      ensures Recency() == Touched(g, old(Recency()), g.Block(addr / 4))
      ensures Evicts(g, old(sets), sets, if WriteThrough(addr) then iset{} else iset{g.Block(addr / 4)},
                     writebacks - old(writebacks))
      ensures Holding(g.Block(addr / 4))
      ensures !WriteThrough(addr) ==> OnlyDirtyChanged(g, old(sets), old(next.View()), next.View())
      decreases depth, 7
    {
      hide StoresIn, Overlay, CleanAgrees, IsDirty, RecencyOf, OrdersOk, Resident, Put, Evicts, OnlyDirtyChanged,
           Memory.Repr, Memory.View, Memory.Depth;
      var i, k, hit := Access(addr, 0);
      ghost var accessed := sets;
      LineHeld(g, sets, k, g.Block(addr / 4));
      if WriteThrough(addr) {
        StoreThrough(i, k, addr, v);
      } else {
        StoreBack(i, k, addr, v);
      }
      EvictsAndStores(g, old(sets), accessed, sets, g.Block(addr / 4), !WriteThrough(addr),
                      writebacks - old(writebacks));
    }

    method ReadBlock(addr: nat, words: nat) returns (data: seq<Word>)
      requires Valid()
      modifies Repr
      ensures Valid() && View == old(View)
      ensures |data| == words
      ensures forall i :: 0 <= i < words && addr / 4 + i < |View| ==> data[i] == View[addr / 4 + i]
      decreases depth, 8
    {
      hide Overlay, CleanAgrees, IsDirty, RecencyOf, OrdersOk, Resident, Touched, SetsOk, Memory.Repr, Memory.View,
           Memory.Depth;
      data := [];
      ghost var view := View;
      for i := 0 to words
        invariant Valid() && View == view && |data| == i
        invariant forall j :: 0 <= j < i && addr / 4 + j < |view| ==> data[j] == view[addr / 4 + j]
      {
        assert (addr + 4 * i) / 4 == addr / 4 + i;
        var v := ReadWord(addr + 4 * i);
        data := data + [v];
      }
    }

    method WriteBlock(addr: nat, data: seq<Word>)
      requires Valid() && (addr % 4 == 0 || ClearOfWindow(addr, |data|))
      modifies Repr
      ensures Valid() && View == PutBlock(old(View), addr / 4, data)
      decreases depth, 8
    {
      hide Overlay, CleanAgrees, IsDirty, RecencyOf, OrdersOk, Resident, Touched, SetsOk, Memory.Repr, Memory.View,
           Memory.Depth;
      for i := 0 to |data|
        invariant Valid() && View == PutBlock(old(View), addr / 4, data[..i])
      {
        assert (addr + 4 * i) / 4 == addr / 4 + i;
        WriteWord(addr + 4 * i, data[i]);
        PutBlockSnoc(old(View), addr / 4, data, i);
      }
      assert data[..|data|] == data;
    }
  }

  /** end_addr of flush_range, in 32-bit arithmetic. */
  function RangeEnd(start: nat, size: nat): nat { (start + size) % 0x1_0000_0000 }

  /** The block starts in the range. */
  predicate StartsIn(g: Geometry, n: nat, start: nat, end: nat) {
    Within(4 * g.FirstWord(n), start, end)
  }

  predicate Within(a: nat, start: nat, end: nat) { start <= a < end }

  /** The memory below with the blocks of a range replaced by those of the view. */
  ghost function Flushed(g: Geometry, view: seq<Word>, below: seq<Word>, start: nat, end: nat): (r: seq<Word>)
    requires g.Ok() && |view| == |below|
    ensures |r| == |below|
    ensures forall w :: 0 <= w < |r| ==> r[w] == if StartsIn(g, g.Block(w), start, end) then view[w] else below[w]
  {
    seq(|below|, w requires 0 <= w < |below| => if StartsIn(g, g.Block(w), start, end) then view[w] else below[w])
  }

  /** Block n starts n times the block size from address 0. */
  lemma StartsWhen(g: Geometry, n: nat, start: nat, end: nat)
    requires g.Ok()
    ensures StartsIn(g, n, start, end) <==> start <= 4 * (n * g.words) < end
  {
    TimesIsProduct(n, g.words);
  }

  /** The word at w is written when the first word of its block, a multiple of the block size, is in the range. */
  lemma FlushedWhen(g: Geometry, view: seq<Word>, below: seq<Word>, start: nat, end: nat, w: nat)
    requires g.Ok() && w < |view| == |below|
    ensures Flushed(g, view, below, start, end)[w] ==
            if start <= 4 * (w - w % g.words) < end then view[w] else below[w]
  {
    hide Times, Quotient, Remainder;
    QuotientIsDivision(w, g.words);
    Recomposed(w, g.words);
  }

  /** Only blocks of the range have changed below, and they have become what the view shows. */
  ghost predicate PartlyFlushed(g: Geometry, below: seq<Word>, below': seq<Word>, view: seq<Word>, start: nat,
                                end: nat) {
    && g.Ok() && |below| == |below'| == |view|
    && forall w :: 0 <= w < |below| && below'[w] != below[w] ==>
         StartsIn(g, g.Block(w), start, end) && below'[w] == view[w]
  }

  /** The first k ways of set i hold no dirty line of the range. */
  ghost predicate Swept(g: Geometry, s: seq<Entry>, i: nat, k: nat, start: nat, end: nat) {
    forall j :: 0 <= j < k && j < |s| && s[j].valid && StartsIn(g, g.BlockAt(i, s[j].tag), start, end) ==> !s[j].dirty
  }

  lemma AllSwept(g: Geometry, sets: seq<seq<Entry>>, below': seq<Word>, below: seq<Word>, start: nat, end: nat)
    requires SetsOk(g, sets) && CleanAgrees(g, sets, below')
    requires PartlyFlushed(g, below, below', Overlay(g, sets, below'), start, end)
    requires forall i :: 0 <= i < g.sets ==> Swept(g, sets[i], i, g.ways, start, end)
    ensures below' == Flushed(g, Overlay(g, sets, below'), below, start, end)
    ensures forall b :: IsDirty(g, sets, b) ==> !StartsIn(g, b, start, end)
  {
    forall b | IsDirty(g, sets, b)
      ensures !StartsIn(g, b, start, end)
    {
      BlockRebuilt(g, b);
      assert Swept(g, sets[g.SetOf(b)], g.SetOf(b), g.ways, start, end);
    }
  }

  /** The blocks of the 32-bit address space, when the block size divides it. */
  lemma BlocksOfSpace(g: Geometry, q: nat, n: nat)
    requires g.Ok() && q > 0 && Times(q, 4 * g.words) == 0x1_0000_0000
    ensures 4 * g.FirstWord(q - 1) == 0x1_0000_0000 - 4 * g.words
    ensures 4 * g.FirstWord(n) < 0x1_0000_0000 ==> 4 * g.FirstWord(n) <= 4 * g.FirstWord(q - 1)
  {
    TimesDoubled(q - 1, 2 * g.words);
    TimesDoubled(q - 1, g.words);
    TimesDoubled(q, 2 * g.words);
    TimesDoubled(q, g.words);
    if n > q - 1 {
      if n > q {
        TimesMonotone(q, n, g.words);
      }
    } else if n < q - 1 {
      TimesMonotone(n, q - 1, g.words);
    }
  }

  lemma BlockSizeDivides(c: CacheConfig) returns (q: nat)
    requires Accepted(c) && c.size < 0x1_0000_0000
    ensures q > 0 && Times(q, c.blockSize) == 0x1_0000_0000
  {
    hide Log2, Pow2, Times, CalculateParameters;
    BitCounts(c);
    AcceptedSizes(c);
    q := Pow2(32 - Log2(c.blockSize));
    Pow2Sum(Log2(c.blockSize), 32 - Log2(c.blockSize));
    Pow2Of32();
  }

  /** For every block of the address space the wrapped end of a range bounds it as the true end would,
      exactly when the range does not run past the last address or starts after the last block does. */
  lemma RangeExactIff(c: CacheConfig, start: nat, size: nat)
    requires Accepted(c) && c.size < 0x1_0000_0000 && start < 0x1_0000_0000 && size < 0x1_0000_0000
    ensures var g := CalculateParameters(c);
            (forall n: nat :: 4 * g.FirstWord(n) < 0x1_0000_0000 ==>
               (StartsIn(g, n, start, RangeEnd(start, size)) <==> StartsIn(g, n, start, start + size)))
            <==> start + size < 0x1_0000_0000 || start > 0x1_0000_0000 - c.blockSize
  {
    hide Accepted, CalculateParameters, Geometry.FirstWord, Times;
    var g := CalculateParameters(c);
    var q := BlockSizeDivides(c);
    if start + size >= 0x1_0000_0000 {
      assert RangeEnd(start, size) == start + size - 0x1_0000_0000;
      forall n: nat
        ensures 4 * g.FirstWord(n) < 0x1_0000_0000 ==> 4 * g.FirstWord(n) <= 0x1_0000_0000 - c.blockSize
      {
        BlocksOfSpace(g, q, n);
      }
      BlocksOfSpace(g, q, 0);
      assert start <= 0x1_0000_0000 - c.blockSize ==>
               StartsIn(g, q - 1, start, start + size) && !StartsIn(g, q - 1, start, RangeEnd(start, size));
    }
  }

  lemma FirstWordMonotone(g: Geometry, w: nat, u: nat)
    requires g.Ok() && w <= u
    ensures g.FirstWord(g.Block(w)) <= g.FirstWord(g.Block(u))
  {
    BlockSpan(g, g.Block(w), w);
    BlockSpan(g, g.Block(u), u);
    if g.Block(w) < g.Block(u) {
      TimesMonotone(g.Block(w), g.Block(u), g.words);
    } else if g.Block(u) < g.Block(w) {
      TimesMonotone(g.Block(u), g.Block(w), g.words);
    }
  }

  /** In a memory of a given number of words, flush_range writes back what it is asked to, whatever the
      memory and the caches hold, exactly when the range does not run past the last address or starts
      after the last block of the memory does. */
  lemma FlushedExactIff(g: Geometry, words: nat, start: nat, size: nat)
    requires g.Ok() && words <= 0x4000_0000 && start < 0x1_0000_0000 && size < 0x1_0000_0000
    ensures (forall view, below {:trigger Flushed(g, view, below, start, start + size)} ::
               |view| == |below| == words ==>
               Flushed(g, view, below, start, RangeEnd(start, size)) == Flushed(g, view, below, start, start + size))
            <==> start + size < 0x1_0000_0000 || words == 0 || start > 4 * g.FirstWord(g.Block(words - 1))
  {
    hide Geometry.FirstWord, Geometry.Block;
    if start + size < 0x1_0000_0000 {
    } else {
      assert RangeEnd(start, size) == start + size - 0x1_0000_0000;
      if words == 0 || start > 4 * g.FirstWord(g.Block(words - 1)) {
        forall view: seq<Word>, below: seq<Word> | |view| == |below| == words
          ensures Flushed(g, view, below, start, RangeEnd(start, size)) == Flushed(g, view, below, start, start + size)
        {
          NothingAfter(g, view, below, start, RangeEnd(start, size));
          NothingAfter(g, view, below, start, start + size);
        }
      } else {
        var view: seq<Word>, below: seq<Word> := seq(words, _ => 1), seq(words, _ => 0);
        BlockSpan(g, g.Block(words - 1), words - 1);
        assert |view| == |below| == words;
        assert Flushed(g, view, below, start, start + size)[words - 1] == 1;
        assert Flushed(g, view, below, start, RangeEnd(start, size))[words - 1] == 0;
        assert Flushed(g, view, below, start, RangeEnd(start, size)) != Flushed(g, view, below, start, start + size);
      }
    }
  }

  /** A range that starts after the last block of a memory does flushes nothing. */
  lemma NothingAfter(g: Geometry, view: seq<Word>, below: seq<Word>, start: nat, end: nat)
    requires g.Ok() && |view| == |below|
    requires below == [] || start > 4 * g.FirstWord(g.Block(|below| - 1))
    ensures Flushed(g, view, below, start, end) == below
  {
    hide Geometry.FirstWord, Geometry.Block;
    forall w | 0 <= w < |below|
      ensures !StartsIn(g, g.Block(w), start, end)
    {
      FirstWordMonotone(g, w, |below| - 1);
    }
  }

  /** Writing a line back if it is dirty makes its block the same below as in the overlay. */
  lemma FlushingLine(g: Geometry, sets: seq<seq<Entry>>, orders: seq<seq<nat>>, below: seq<Word>, i: nat, k: nat)
    requires SetsOk(g, sets) && CleanAgrees(g, sets, below) && OrdersOk(g, orders)
    requires i < g.used && k < g.ways && sets[i][k].valid
    ensures var e := sets[i][k];
            var n := g.BlockAt(i, e.tag);
            var sets' := Replace(sets, i, k, e.Cleaned());
            var below' := Expose(g, below, Overlay(g, sets, below), n);
            && SetsOk(g, sets') && CleanAgrees(g, sets', below') && Overlay(g, sets', below') == Overlay(g, sets, below)
            && below' == (if e.dirty then PutBlock(below, g.FirstWord(n), e.data) else below)
            && (!e.dirty ==> sets' == sets)
            && Cleans(g, sets, sets', n)
            && RecencyOf(g, sets', orders) == RecencyOf(g, sets, orders)
  {
    var e := sets[i][k];
    var n := g.BlockAt(i, e.tag);
    var sets' := Replace(sets, i, k, e.Cleaned());
    OwnBlock(g, sets, i, k);
    WritingBack(g, sets, below, i, k);
    Retouched(g, sets, orders, sets', i, orders[i]);
    assert orders == orders[i := orders[i]];
    if !e.dirty {
      assert sets[i][k := e.Cleaned()] == sets[i];
      ExposingView(g, sets, below, n);
    } else {
      forall w | 0 <= w < |below|
        ensures Expose(g, below, Overlay(g, sets, below), n)[w] == PutBlock(below, g.FirstWord(n), e.data)[w]
      {
        BlockSpan(g, n, w);
      }
    }
  }

  /** A block that is not dirty is already the same below. */
  lemma ExposingView(g: Geometry, sets: seq<seq<Entry>>, below: seq<Word>, n: nat)
    requires SetsOk(g, sets) && CleanAgrees(g, sets, below) && !IsDirty(g, sets, n)
    ensures Expose(g, below, Overlay(g, sets, below), n) == below
  {
  }

  /** What invalidating the line of a block leaves. */
  function Invalid(g: Geometry, sets: seq<seq<Entry>>, n: nat): (e: Entry)
    requires SetsOk(g, sets)
    ensures !e.valid && |e.data| == g.words
  {
    var s := sets[g.SetOf(n)];
    var k := Find(s, g.TagOf(n));
    if k < g.ways then s[k].Invalidated() else Entry(0, seq(g.words, _ => 0), false, false)
  }

  /** What overwriting a word of a resident line and invalidating it leaves. */
  function Overwritten(g: Geometry, sets: seq<seq<Entry>>, w: nat, v: Word): (e: Entry)
    requires SetsOk(g, sets)
    ensures !e.valid && |e.data| == g.words
  {
    var i := g.SetOf(g.Block(w));
    var k := Find(sets[i], g.TagOf(g.Block(w)));
    if k < g.ways then Stored(sets[i][k], g.Index(w), v, false).Invalidated()
    else Entry(0, seq(g.words, _ => 0), false, false)
  }

  /** The sets after the line of a block, if it is resident, has been replaced by e. */
  function DropLine(g: Geometry, sets: seq<seq<Entry>>, n: nat, e: Entry): seq<seq<Entry>>
    requires g.Ok() && |sets| == g.sets && |sets[g.SetOf(n)]| == g.ways
  {
    var i := g.SetOf(n);
    var k := Find(sets[i], g.TagOf(n));
    if k < g.ways then Replace(sets, i, k, e) else sets
  }

  /** Dropping the line of a block, whether or not it is resident. */
  lemma DroppingBlock(g: Geometry, sets: seq<seq<Entry>>, orders: seq<seq<nat>>, below: seq<Word>, n: nat, e: Entry)
    requires SetsOk(g, sets) && CleanAgrees(g, sets, below) && OrdersOk(g, orders)
    requires !e.valid && |e.data| == g.words
    ensures var sets' := DropLine(g, sets, n, e);
            && SetsOk(g, sets') && CleanAgrees(g, sets', below)
            && Overlay(g, sets', below) == Expose(g, Overlay(g, sets, below), below, n)
            && !Resident(g, sets', n)
            && Cleans(g, sets, sets', n)
            && RecencyOf(g, sets', orders) == Dropped(g, RecencyOf(g, sets, orders), n)
  {
    var i, tag := g.SetOf(n), g.TagOf(n);
    var k := Find(sets[i], tag);
    var stack := Stack(Slots(sets[i]), orders[i]);
    SlotsDistinct(g, sets[i]);
    BlockRebuilt(g, n);
    if k < g.ways {
      Dropping(g, sets, below, i, k, e);
      EmptyingRemoves(Slots(sets[i]), orders[i], k);
      Retouched(g, sets, orders, Replace(sets, i, k, e), i, orders[i]);
      assert orders == orders[i := orders[i]];
    } else {
      ExposingAbsent(g, sets, below, n);
      StackMember(Slots(sets[i]), orders[i], tag);
      WithoutAbsent(stack, tag);
    }
  }

  /** Storing below a block whose line is dropped. */
  lemma Bypassing(g: Geometry, sets: seq<seq<Entry>>, orders: seq<seq<nat>>, below: seq<Word>, w: nat, v: Word,
                  e: Entry)
    requires SetsOk(g, sets) && CleanAgrees(g, sets, below) && OrdersOk(g, orders)
    requires !e.valid && |e.data| == g.words
    ensures var n := g.Block(w);
            var sets' := DropLine(g, sets, n, e);
            && SetsOk(g, sets') && CleanAgrees(g, sets', Put(below, w, v))
            && Overlay(g, sets', Put(below, w, v)) == Put(Expose(g, Overlay(g, sets, below), below, n), w, v)
            && !Resident(g, sets', n)
            && Cleans(g, sets, sets', n)
            && RecencyOf(g, sets', orders) == Dropped(g, RecencyOf(g, sets, orders), n)
  {
    DroppingBlock(g, sets, orders, below, g.Block(w), e);
    StoringBelow(g, DropLine(g, sets, g.Block(w), e), below, w, v);
  }

  /** Storing, for the line a block is filed under. */
  lemma StoringInPlace(g: Geometry, sets: seq<seq<Entry>>, orders: seq<seq<nat>>, below: seq<Word>, k: nat,
                       w: nat, v: Word, dirty: bool, through: bool)
    requires SetsOk(g, sets) && CleanAgrees(g, sets, below) && OrdersOk(g, orders)
    requires k < g.ways && sets[g.SetOf(g.Block(w))][k].Matches(g.TagOf(g.Block(w)))
    requires if through then dirty == sets[g.SetOf(g.Block(w))][k].dirty else dirty
    ensures var i := g.SetOf(g.Block(w));
            var sets' := Replace(sets, i, k, Stored(sets[i][k], g.Index(w), v, dirty));
            var below' := if through then Put(below, w, v) else below;
            && SetsOk(g, sets') && CleanAgrees(g, sets', below')
            && Overlay(g, sets', below') == Put(Overlay(g, sets, below), w, v)
            && StoresIn(g, sets, sets', g.Block(w), !through)
            && RecencyOf(g, sets', orders) == RecencyOf(g, sets, orders)
  {
    var i := g.SetOf(g.Block(w));
    var sets' := Replace(sets, i, k, Stored(sets[i][k], g.Index(w), v, dirty));
    BlockRebuilt(g, g.Block(w));
    OwnBlock(g, sets, i, k);
    Storing(g, sets, below, i, k, w, v, dirty, through);
    Retouched(g, sets, orders, sets', i, orders[i]);
    assert orders == orders[i := orders[i]];
  }

  function InitialOrders(g: Geometry): (r: seq<seq<nat>>)
    ensures OrdersOk(g, r)
  {
    seq(g.sets, _ => Counting(g.ways))
  }

  function EmptySets(g: Geometry): seq<seq<Entry>> {
    seq(g.sets, _ => seq(g.ways, _ => Entry(0, seq(g.words, _ => 0), false, false)))
  }

  lemma EmptyCache(g: Geometry, below: seq<Word>)
    requires g.Ok()
    ensures var sets, orders := EmptySets(g), InitialOrders(g);
            && SetsOk(g, sets) && CleanAgrees(g, sets, below) && Overlay(g, sets, below) == below
            && (forall b :: !IsDirty(g, sets, b) && !Resident(g, sets, b))
            && RecencyOf(g, sets, orders) == NoRecency(g)
  {
    var sets, orders := EmptySets(g), InitialOrders(g);
    forall i | 0 <= i < g.sets
      ensures Stack(Slots(sets[i]), orders[i]) == []
    {
      StackOfNothing(Slots(sets[i]), orders[i]);
    }
  }
}
