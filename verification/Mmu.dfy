/** Address translation: a page-table walk, and the TLB that speeds it up.

  Addresses are natural numbers below 2^32, page-table words are 32-bit words. The words of the
  page table are a fixed function of their address. */
module Mmu {
  import opened Arithmetic
  import opened Bits
  import opened WordArithmetic
  import opened Words
  import opened Lru

  const ADDRESS_SPACE := 0x1_0000_0000

  /** The memory interface the walk reads through, if one has been set. */
  datatype Memory = Disconnected | Connected(read: nat -> Word)

  datatype Pte = Pte(present: bool, readable: bool, writable: bool, executable: bool, user: bool,
                     accessed: bool, dirty: bool, frame: nat)

  const ABSENT := Pte(false, false, false, false, false, false, false, 0)

  datatype TlbEntry = TlbEntry(valid: bool, page: nat, frame: nat, writable: bool, user: bool)

  datatype Outcome = Physical(address: nat) | Fault(kind: FaultKind)

  datatype FaultKind = InstructionPageFault | LoadPageFault | StorePageFault

  datatype Request = Request(vaddr: nat, write: bool, instruction: bool)

  function Wrap(a: nat): nat { a % ADDRESS_SPACE }

  // ----- the walk -----

  function Parse(v: Word): Pte {
    Pte(v & 0x01 != 0, v & 0x02 != 0, v & 0x04 != 0, v & 0x08 != 0, v & 0x10 != 0, v & 0x40 != 0, v & 0x80 != 0,
        Frame(v))
  }

  function Frame(v: Word): nat { ((v >> 10) & 0x3F_FFFF) as nat }

  predicate IsLeaf(v: Word) { v & 0x01 != 0 && v & 0x0E != 0 }

  /** The entry that maps a virtual page. For the first 4 MB, a leaf in the root table maps the page
      directly. */
  function Walk(memory: Memory, base: nat, page: nat): Pte {
    if memory.Disconnected? then
      ABSENT
    else
      var read, vpn1, vpn0 := memory.read, page / 1024 % 1024, page % 1024;
      var direct := read(Wrap(base + vpn0 * 4));
      if vpn1 == 0 && IsLeaf(direct) then
        Parse(direct)
      else
        var pte1 := read(Wrap(base + vpn1 * 4));
        if pte1 & 0x01 == 0 then ABSENT else Parse(read(Wrap(Wrap(Frame(pte1) * 4096) + vpn0 * 4)))
  }

  /** A page-table word for a frame, with the given flag bits. */
  function Encode(frame: Word, flags: Word): Word { (frame << 10) | (flags & 0x3FF) }

  lemma FrameBits(frame: Word, flags: Word)
    requires frame <= 0x3F_FFFF
    ensures (Encode(frame, flags) >> 10) & 0x3F_FFFF == frame
  {
  }

  lemma FlagBits(frame: Word, flags: Word, mask: Word)
    requires mask <= 0xFF
    ensures Encode(frame, flags) & mask == flags & mask
  {
  }

  /** A frame and its flags can be read back from their page-table word. */
  lemma EntryRoundTrip(frame: Word, flags: Word)
    requires frame <= 0x3F_FFFF
    ensures Parse(Encode(frame, flags)) == Parse(flags).(frame := frame as nat)
    ensures IsLeaf(Encode(frame, flags)) == IsLeaf(flags)
  {
    hide Encode;
    FrameBits(frame, flags);
    FlagBits(frame, flags, 0x01);
    FlagBits(frame, flags, 0x02);
    FlagBits(frame, flags, 0x04);
    FlagBits(frame, flags, 0x08);
    FlagBits(frame, flags, 0x0E);
    FlagBits(frame, flags, 0x10);
    FlagBits(frame, flags, 0x40);
    FlagBits(frame, flags, 0x80);
  }

  /** Two-level mapping: when the root table points page's slot to a table, and that table maps the page
      to a frame, an access translates to the frame. In the first 4 MB this takes that the root table
      does not itself hold a leaf for the page. */
  lemma MappedPage(memory: Memory, base: nat, table: Word, frame: Word, flags: Word, r: Request)
    requires memory.Connected? && base != 0 && table <= 0x3F_FFFF && frame <= 0x3F_FFFF
    requires flags & 0x01 != 0 && (r.write ==> flags & 0x04 != 0)
    requires var vpn1, vpn0 := r.vaddr / 4096 / 1024 % 1024, r.vaddr / 4096 % 1024;
             && memory.read(Wrap(base + vpn1 * 4)) == Encode(table, 0x01)
             && memory.read(Wrap(Wrap(table as nat * 4096) + vpn0 * 4)) == Encode(frame, flags)
             && (vpn1 == 0 ==> !IsLeaf(memory.read(Wrap(base + vpn0 * 4))))
    ensures Translate(memory, base, 4096, r) == Physical(PhysicalAddress(frame as nat, r.vaddr % 4096, 4096))
  {
    hide Encode, IsLeaf, PhysicalAddress;
    EntryRoundTrip(table, 0x01);
    EntryRoundTrip(frame, flags);
    FlagBits(table, 0x01, 0x01);
  }

  function PhysicalAddress(frame: nat, offset: nat, pageSize: nat): nat { Wrap(Wrap(frame * pageSize) + offset) }

  /** Translation without a TLB. */
  function Translate(memory: Memory, base: nat, pageSize: nat, r: Request): Outcome
    requires pageSize > 0
  {
    if base == 0 then Physical(r.vaddr) else Walked(Walk(memory, base, r.vaddr / 4096), pageSize, r)
  }

  function Walked(pte: Pte, pageSize: nat, r: Request): Outcome
    requires pageSize > 0
  {
    if !pte.present then
      Fault(if r.instruction then InstructionPageFault else if r.write then StorePageFault else LoadPageFault)
    else if r.write && !pte.writable then
      Fault(StorePageFault)
    else
      Physical(PhysicalAddress(pte.frame, r.vaddr % pageSize, pageSize))
  }

  /** What a TLB entry answers. */
  function Cached(e: TlbEntry, pageSize: nat, r: Request): Outcome
    requires pageSize > 0
  {
    if r.write && !e.writable then
      Fault(if r.instruction then InstructionPageFault else StorePageFault)
    else
      Physical(PhysicalAddress(e.frame, r.vaddr % pageSize, pageSize))
  }

  /** The entry says what the walk would. */
  predicate Mirrors(e: TlbEntry, pte: Pte) { pte.present && e.frame == pte.frame && e.writable == pte.writable }

  /** An entry that mirrors the walk answers like the walk, except for one kind of request. */
  lemma CachedIff(e: TlbEntry, pte: Pte, pageSize: nat, r: Request)
    requires pageSize > 0 && Mirrors(e, pte)
    ensures Cached(e, pageSize, r) == Walked(pte, pageSize, r) <==> !(r.write && r.instruction && !pte.writable)
  {
  }

  /** An entry that mirrors one table entry answers like the walk to another. */
  predicate Agrees(pte: Pte, pte': Pte, pageSize: nat, r: Request) {
    if r.write && !pte.writable then
      !pte'.present || (!pte'.writable && !r.instruction)
    else
      pte'.present && (r.write ==> pte'.writable) && Wrap(pte.frame * pageSize) == Wrap(pte'.frame * pageSize)
  }

  lemma SameOffset(x: nat, y: nat, offset: nat)
    requires x < ADDRESS_SPACE && y < ADDRESS_SPACE
    ensures Wrap(x + offset) == Wrap(y + offset) <==> x == y
  {
  }

  lemma SameAddress(frame: nat, frame': nat, offset: nat, pageSize: nat)
    ensures PhysicalAddress(frame, offset, pageSize) == PhysicalAddress(frame', offset, pageSize)
            <==> Wrap(frame * pageSize) == Wrap(frame' * pageSize)
  {
    var x, y := frame * pageSize, frame' * pageSize;
    SameOffset(Wrap(x), Wrap(y), offset);
  }

  lemma CachedAgreesIff(e: TlbEntry, pte: Pte, pte': Pte, pageSize: nat, r: Request)
    requires pageSize > 0 && Mirrors(e, pte)
    ensures Cached(e, pageSize, r) == Walked(pte', pageSize, r) <==> Agrees(pte, pte', pageSize, r)
  {
    hide PhysicalAddress;
    SameAddress(pte.frame, pte'.frame, r.vaddr % pageSize, pageSize);
  }

  /** With the standard page size, translation keeps the offset in the page and moves whole pages. */
  lemma PagesMove(memory: Memory, base: nat, r: Request, r': Request)
    requires base != 0 && r.vaddr / 4096 == r'.vaddr / 4096 && r.write == r'.write && r.instruction == r'.instruction
    ensures var o, o' := Translate(memory, base, 4096, r), Translate(memory, base, 4096, r');
            match o
            case Fault(_) => o' == o
            case Physical(a) => o'.Physical? && a % 4096 == r.vaddr % 4096 && a / 4096 == o'.address / 4096
  {
    hide Walk;
    var pte := Walk(memory, base, r.vaddr / 4096);
    PageAndOffset(pte.frame, r.vaddr % 4096);
    PageAndOffset(pte.frame, r'.vaddr % 4096);
  }

  lemma PageAndOffset(frame: nat, offset: nat)
    requires offset < 4096
    ensures var a := PhysicalAddress(frame, offset, 4096);
            a % 4096 == offset && a / 4096 == frame % 0x10_0000
  {
    var f := frame % 0x10_0000;
    assert frame * 4096 == (frame / 0x10_0000) * ADDRESS_SPACE + f * 4096;
    assert Wrap(frame * 4096) == f * 4096;
  }

  // ----- the TLB -----

  function SlotsOf(tlb: seq<TlbEntry>): (r: seq<Slot>)
    ensures |r| == |tlb|
    ensures forall i :: 0 <= i < |r| ==> r[i] == if tlb[i].valid then Holds(tlb[i].page) else Empty
  {
    seq(|tlb|, i requires 0 <= i < |tlb| => if tlb[i].valid then Holds(tlb[i].page) else Empty)
  }

  /** The first entry for a page, or the length when there is none. */
  function Lookup(tlb: seq<TlbEntry>, page: nat, from: nat): (k: nat)
    requires from <= |tlb|
    ensures from <= k <= |tlb|
    ensures k < |tlb| ==> tlb[k].valid && tlb[k].page == page
    ensures forall i :: from <= i < k ==> !(tlb[i].valid && tlb[i].page == page)
    decreases |tlb| - from
  {
    if from == |tlb| || (tlb[from].valid && tlb[from].page == page) then from else Lookup(tlb, page, from + 1)
  }

  ghost predicate Sound(tlb: seq<TlbEntry>, memory: Memory, base: nat) {
    forall i :: 0 <= i < |tlb| && tlb[i].valid ==> Mirrors(tlb[i], Walk(memory, base, tlb[i].page))
  }

  /** What the MMU answers from the state of its TLB. */
  function Answer(tlb: seq<TlbEntry>, enabled: bool, memory: Memory, base: nat, pageSize: nat, r: Request): Outcome
    requires pageSize > 0
  {
    var k := Lookup(tlb, r.vaddr / 4096, 0);
    if base != 0 && enabled && k < |tlb| then Cached(tlb[k], pageSize, r) else Translate(memory, base, pageSize, r)
  }

  predicate Resident(tlb: seq<TlbEntry>, page: nat) { Lookup(tlb, page, 0) < |tlb| }

  /** The request is a write by an instruction fetch that hits a read-only page. */
  predicate Misreported(tlb: seq<TlbEntry>, enabled: bool, memory: Memory, base: nat, r: Request) {
    && base != 0 && enabled && Resident(tlb, r.vaddr / 4096)
    && r.write && r.instruction && !Walk(memory, base, r.vaddr / 4096).writable
  }

  /** A sound TLB cannot be seen in the answers, except for one kind of request. */
  lemma AnswerIff(tlb: seq<TlbEntry>, enabled: bool, memory: Memory, base: nat, pageSize: nat, r: Request)
    requires pageSize > 0 && Sound(tlb, memory, base)
    ensures Answer(tlb, enabled, memory, base, pageSize, r) == Translate(memory, base, pageSize, r)
            <==> !Misreported(tlb, enabled, memory, base, r)
  {
    hide Walk, Walked, Cached;
    var page := r.vaddr / 4096;
    var k := Lookup(tlb, page, 0);
    if base != 0 && enabled && k < |tlb| {
      CachedIff(tlb[k], Walk(memory, base, page), pageSize, r);
    }
  }

  // ----- what a translation is, from the words of the table -----

  /** With paging off, addresses stay as they are, whatever the TLB holds. */
  lemma PagingOff(tlb: seq<TlbEntry>, enabled: bool, memory: Memory, pageSize: nat, r: Request)
    requires pageSize > 0
    ensures Answer(tlb, enabled, memory, 0, pageSize, r) == Physical(r.vaddr)
  {
  }

  lemma FirstBits()
    ensures Bit(0) == 0x01 && Bit(1) == 0x02 && Bit(2) == 0x04 && Bit(3) == 0x08 && Bit(4) == 0x10
    ensures Bit(5) == 0x20 && Bit(6) == 0x40 && Bit(7) == 0x80
  {
    assert Bit(0) == 0x01 && Bit(1) == 0x02 && Bit(2) == 0x04 && Bit(3) == 0x08 && Bit(4) == 0x10;
  }

  lemma ShiftedByTen(v: Word)
    ensures ShiftRight(v, 10) == v >> 10
  {
    assert ShiftRight(v, 1) == Halved(v) && ShiftRight(v, 2) == Halved(ShiftRight(v, 1));
    assert ShiftRight(v, 3) == Halved(ShiftRight(v, 2)) && ShiftRight(v, 4) == Halved(ShiftRight(v, 3));
    assert ShiftRight(v, 5) == Halved(ShiftRight(v, 4)) && ShiftRight(v, 6) == Halved(ShiftRight(v, 5));
    assert ShiftRight(v, 7) == Halved(ShiftRight(v, 6)) && ShiftRight(v, 8) == Halved(ShiftRight(v, 7));
    assert ShiftRight(v, 9) == Halved(ShiftRight(v, 8)) && ShiftRight(v, 10) == Halved(ShiftRight(v, 9));
  }

  lemma FrameMask(v: Word)
    ensures (v >> 10) & 0x3F_FFFF == v >> 10
  {
  }

  lemma Pow2Of10()
    ensures Pow2(10) == 1024
  {
    assert Pow2(5) == 32;
  }

  /** The frame is the number of a page-table word without its lowest ten bits. */
  lemma FrameValue(v: Word)
    ensures Frame(v) == ValueOf(v) / 1024
  {
    FrameMask(v);
    ShiftedByTen(v);
    hide ShiftRight, Pow2;
    ShiftRightValue(v, 10);
    Pow2Of10();
    QuotientIsDivision(ValueOf(v), 1024);
  }

  /** Where the flags of a page-table word are. */
  lemma ParsedBits(v: Word)
    ensures var p := Parse(v);
            && (p.present <==> Test(v, 0)) && (p.readable <==> Test(v, 1)) && (p.writable <==> Test(v, 2))
            && (p.executable <==> Test(v, 3)) && (p.user <==> Test(v, 4)) && (p.accessed <==> Test(v, 6))
            && (p.dirty <==> Test(v, 7)) && p.frame == ValueOf(v) / 1024
    ensures IsLeaf(v) <==> Test(v, 0) && (Test(v, 1) || Test(v, 2) || Test(v, 3))
  {
    FrameValue(v);
    FlagMasks(v);
    LeafMask(v);
    hide Test, Bit, Frame, ValueOf;
    FirstBits();
    TestIsMask(v, 0);
    TestIsMask(v, 1);
    TestIsMask(v, 2);
    TestIsMask(v, 3);
    TestIsMask(v, 4);
    TestIsMask(v, 6);
    TestIsMask(v, 7);
  }

  lemma FlagMasks(v: Word)
    ensures Parse(v).present == Meets(v, 0x01) && Parse(v).readable == Meets(v, 0x02)
    ensures Parse(v).writable == Meets(v, 0x04) && Parse(v).executable == Meets(v, 0x08)
    ensures Parse(v).user == Meets(v, 0x10) && Parse(v).accessed == Meets(v, 0x40) && Parse(v).dirty == Meets(v, 0x80)
  {
  }

  lemma LeafMask(v: Word)
    ensures IsLeaf(v) <==> Meets(v, 0x01) && (Meets(v, 0x02) || Meets(v, 0x04) || Meets(v, 0x08))
  {
  }

  /** How a request that finds no page is refused. */
  lemma RefusedAbsent(memory: Memory, base: nat, pageSize: nat, r: Request)
    requires pageSize > 0 && base != 0 && !Walk(memory, base, r.vaddr / 4096).present
    ensures Translate(memory, base, pageSize, r).Fault?
    ensures r.instruction ==> Translate(memory, base, pageSize, r).kind == InstructionPageFault
    ensures !r.instruction && r.write ==> Translate(memory, base, pageSize, r).kind == StorePageFault
    ensures !r.instruction && !r.write ==> Translate(memory, base, pageSize, r).kind == LoadPageFault
  {
  }

  /** What a request is answered that finds a page-table word with the lowest bit set: a write is refused
      without the third, and any other goes to the frame. */
  lemma AnsweredPresent(memory: Memory, base: nat, pageSize: nat, r: Request, w: Word)
    requires pageSize > 0 && base != 0 && Test(w, 0) && Walk(memory, base, r.vaddr / 4096) == Parse(w)
    ensures Translate(memory, base, pageSize, r) ==
            if r.write && !Test(w, 2) then Fault(StorePageFault)
            else Physical((ValueOf(w) / 1024 * pageSize % 0x1_0000_0000 + r.vaddr % pageSize) % 0x1_0000_0000)
  {
    ParsedBits(w);
    hide Walk, Parse, Test, ValueOf;
  }

  /** The words that a walk reads: for the first 4 MB that of the page in the root table, and otherwise, or
      if that is no leaf, those of the two levels. */
  lemma WalkedWords(memory: Memory, base: nat, vaddr: nat)
    requires memory.Connected?
    ensures var direct := memory.read((base + vaddr / 4096 % 1024 * 4) % 0x1_0000_0000);
            var root := memory.read((base + vaddr / 0x40_0000 % 1024 * 4) % 0x1_0000_0000);
            var leaf := memory.read((ValueOf(root) / 1024 * 4096 % 0x1_0000_0000
                                     + vaddr / 4096 % 1024 * 4) % 0x1_0000_0000);
            var pte := Walk(memory, base, vaddr / 4096);
            if vaddr / 0x40_0000 % 1024 == 0 && Test(direct, 0)
                && (Test(direct, 1) || Test(direct, 2) || Test(direct, 3))
            then pte == Parse(direct)
            else if Test(root, 0) then pte == Parse(leaf) && (pte.present <==> Test(leaf, 0))
            else !pte.present
  {
    hide Parse, Test, ValueOf, IsLeaf, Frame;
    assert vaddr / 4096 / 1024 == vaddr / 0x40_0000;
    var direct := memory.read(Wrap(base + vaddr / 4096 % 1024 * 4));
    var root := memory.read(Wrap(base + vaddr / 0x40_0000 % 1024 * 4));
    ParsedBits(direct);
    ParsedBits(root);
    FrameValue(root);
    PresentMask(root);
    ParsedBits(memory.read(Wrap(Wrap(Frame(root) * 4096) + vaddr / 4096 % 1024 * 4)));
  }

  lemma PresentMask(v: Word)
    ensures Parse(v).present <==> v & 0x01 != 0
  {
  }

  class Mmu {
    const pageSize: nat
    const entries: nat
    const enabled: bool
    var memory: Memory
    var base: nat
    var tlb: seq<TlbEntry>
    var lru: seq<nat>
    var hits: nat
    var misses: nat
    var faults: nat

    ghost predicate Valid()
      reads this
    {
      && pageSize > 0 && (enabled ==> entries > 0)
      && |tlb| == entries && Permutation(lru, entries) && DistinctKeys(SlotsOf(tlb))
    }

    /** The pages in the TLB, most recently used first. */
    ghost function Pages(): seq<nat>
      requires Valid()
      reads this
    {
      Stack(SlotsOf(tlb), lru)
    }

    constructor (pageSize: nat, entries: nat, enabled: bool)
      requires pageSize > 0 && (enabled ==> entries > 0)
      ensures Valid() && Sound(tlb, memory, base) && Pages() == []
      ensures this.pageSize == pageSize && this.entries == entries && this.enabled == enabled
      ensures memory == Disconnected && base == 0 && hits == misses == faults == 0
    {
      this.pageSize, this.entries, this.enabled := pageSize, entries, enabled;
      memory, base := Disconnected, 0;
      hits, misses, faults := 0, 0, 0;
      tlb := seq(entries, _ => TlbEntry(false, 0, 0, false, false));
      lru := Counting(entries);
      new;
      StackOfNothing(SlotsOf(tlb), lru);
    }

    method SetMemoryInterface(memory: Memory)
      modifies `memory
      ensures this.memory == memory
    {
      this.memory := memory;
    }

    /** Does not flush the TLB. */
    method SetPageTableBase(base: nat)
      modifies `base
      ensures this.base == base
    {
      this.base := base;
    }

    method FindTlbEntry(page: nat) returns (k: nat)
      requires Valid()
      modifies `lru, `hits, `misses
      ensures k == if enabled then Lookup(tlb, page, 0) else entries
      ensures lru == if k < entries then MoveToFront(old(lru), k) else old(lru)
      ensures hits == old(hits) + (if enabled && k < entries then 1 else 0)
      ensures misses == old(misses) + (if enabled && k == entries then 1 else 0)
    {
      if !enabled {
        return entries;
      }
      k := 0;
      while k < entries
        invariant k <= entries && Lookup(tlb, page, 0) == Lookup(tlb, page, k)
      {
        if tlb[k].valid && tlb[k].page == page {
          hits := hits + 1;
          UpdateTlbLru(k);
          return;
        }
        k := k + 1;
      }
      misses := misses + 1;
    }

    method UpdateTlbLru(k: nat)
      modifies `lru
      ensures lru == if enabled then MoveToFront(old(lru), k) else old(lru)
    {
      if !enabled {
        return;
      }
      lru := Without(lru, k);
      lru := [k] + lru;
    }

    /** The first invalid entry, else the least recently used one; none if the TLB is disabled. */
    method AllocateTlbEntry(page: nat) returns (k: nat)
      requires Valid()
      modifies `tlb, `lru
      ensures enabled ==>
                && k == Victim(SlotsOf(old(tlb)), old(lru))
                && tlb == old(tlb)[k := old(tlb)[k].(page := page, valid := true)]
                && lru == MoveToFront(old(lru), k)
      ensures !enabled ==> k == entries && tlb == old(tlb) && lru == old(lru)
    {
      if !enabled {
        return entries;
      }
      ghost var slots := SlotsOf(tlb);
      k := 0;
      while k < entries
        invariant k <= entries && FirstEmpty(slots, 0) == FirstEmpty(slots, k)
      {
        if !tlb[k].valid {
          tlb := tlb[k := tlb[k].(page := page, valid := true)];
          UpdateTlbLru(k);
          return;
        }
        k := k + 1;
      }
      k := lru[entries - 1];
      BackToFront(lru);
      lru := lru[..entries - 1];
      tlb := tlb[k := tlb[k].(page := page, valid := true)];
      lru := [k] + lru;
      BackAbsent(old(lru));
    }

    /** The victim holds the page, and is the most recently used entry. A TLB that did not have the page
        stays valid, and one that was sound stays sound if the entry is the walk's. */
    method LoadTlbEntry(page: nat, pte: Pte)
      requires Valid()
      modifies `tlb, `lru
      ensures if enabled && pte.present then
                var k := Victim(SlotsOf(old(tlb)), old(lru));
                tlb == old(tlb)[k := TlbEntry(true, page, pte.frame, pte.writable, pte.user)]
                && lru == MoveToFront(old(lru), k)
              else
                tlb == old(tlb) && lru == old(lru)
      ensures pte == Walk(memory, base, page) && old(Sound(tlb, memory, base)) ==> Sound(tlb, memory, base)
      ensures !(enabled && pte.present && old(Resident(tlb, page))) ==>
                && Valid()
                && Pages() == if enabled && pte.present then Touch(old(Pages()), page, entries) else old(Pages())
    {
      hide Walk;
      if !enabled || !pte.present {
        return;
      }
      ghost var slots := SlotsOf(tlb);
      var k := AllocateTlbEntry(page);
      tlb := tlb[k := tlb[k].(page := page, frame := pte.frame, writable := pte.writable, user := pte.user,
                              valid := true)];
      MoveToFrontKeepsPermutation(old(lru), k, entries);
      if !old(Resident(tlb, page)) {
        assert SlotsOf(tlb) == slots[k := Holds(page)];
        MissTouches(slots, old(lru), page);
      }
    }

    method ReadPageTableEntry(page: nat) returns (pte: Pte)
      ensures pte == Walk(memory, base, page)
    {
      hide Parse, IsLeaf, Frame, Wrap;
      pte := ABSENT;
      if memory.Disconnected? {
        return;
      }
      var vpn1, vpn0 := page / 1024 % 1024, page % 1024;
      if vpn1 == 0 {
        var direct := memory.read(Wrap(base + vpn0 * 4));
        if IsLeaf(direct) {
          return Parse(direct);
        }
      }
      var pte1 := memory.read(Wrap(base + vpn1 * 4));
      if pte1 & 0x01 == 0 {
        return;
      }
      var pte0 := memory.read(Wrap(Wrap(Frame(pte1) * 4096) + vpn0 * 4));
      pte := Parse(pte0);
    }

    /** Translates like its TLB and, where that has no entry, like the walk; every request that
        passes is remembered as the most recently used page. */
    method TranslateAddress(r: Request) returns (o: Outcome)
      requires Valid()
      modifies `tlb, `lru, `hits, `misses, `faults
      ensures Valid() && (old(Sound(tlb, memory, base)) ==> Sound(tlb, memory, base))
      ensures o == old(Answer(tlb, enabled, memory, base, pageSize, r)) && (base == 0 ==> o == Physical(r.vaddr))
      ensures Pages() == if base != 0 && enabled && (old(Resident(tlb, r.vaddr / 4096)) || o.Physical?)
                         then Touch(old(Pages()), r.vaddr / 4096, entries) else old(Pages())
      ensures hits == old(hits) + (if base != 0 && enabled && old(Resident(tlb, r.vaddr / 4096)) then 1 else 0)
      ensures hits + misses == old(hits + misses) + (if base != 0 && enabled then 1 else 0)
      ensures faults == old(faults) + (if o.Fault? then 1 else 0)
    {
      hide Walk, IsLeaf, Parse, PhysicalAddress, Stack, Touch, Without, SlotsOf, Permutation, DistinctKeys;
      if base == 0 {
        return Physical(r.vaddr);
      }
      var page, offset := r.vaddr / 4096, r.vaddr % pageSize;
      var k := FindTlbEntry(page);
      if k < entries {
        HitTouches(SlotsOf(tlb), old(lru), k);
        MoveToFrontKeepsPermutation(old(lru), k, entries);
        if r.write && !tlb[k].writable {
          faults := faults + 1;
          return Fault(if r.instruction then InstructionPageFault else StorePageFault);
        }
        return Physical(PhysicalAddress(tlb[k].frame, offset, pageSize));
      }
      var pte := ReadPageTableEntry(page);
      if !pte.present {
        faults := faults + 1;
        return Fault(if r.instruction then InstructionPageFault else if r.write then StorePageFault else LoadPageFault);
      }
      if r.write && !pte.writable {
        faults := faults + 1;
        return Fault(if r.write then StorePageFault else LoadPageFault);
      }
      LoadTlbEntry(page, pte);
      o := Physical(PhysicalAddress(pte.frame, offset, pageSize));
    }

    method FlushTlb()
      requires Valid()
      modifies `tlb, `lru, `hits, `misses, `faults
      ensures Valid() && Sound(tlb, memory, base) && Pages() == []
      ensures hits == misses == faults == 0
    {
      var i := 0;
      while i < entries
        invariant i <= entries && |tlb| == entries
        invariant forall j :: 0 <= j < i ==> !tlb[j].valid
      {
        tlb := tlb[i := tlb[i].(valid := false)];
        i := i + 1;
      }
      lru := Counting(entries);
      hits, misses, faults := 0, 0, 0;
      assert Sound(tlb, memory, base);
      assert Valid();
      StackOfNothing(SlotsOf(tlb), lru);
    }
  }

  lemma BackAbsent(order: seq<nat>)
    requires NoDuplicates(order) && order != []
    ensures Without(order[..|order| - 1], order[|order| - 1]) == order[..|order| - 1]
  {
    WithoutAbsent(order[..|order| - 1], order[|order| - 1]);
  }

  // ----- whole runs -----

  /** The pages a run enters or refreshes in a TLB with n entries, oldest first: those of requests
      that translate, and of refused writes to pages that are resident. */
  function Accesses(memory: Memory, base: nat, pageSize: nat, rs: seq<Request>, n: nat): seq<nat>
    requires pageSize > 0
  {
    if rs == [] then
      []
    else
      var r, before := rs[|rs| - 1], Accesses(memory, base, pageSize, rs[..|rs| - 1], n);
      if r.vaddr / 4096 in AfterHistory(before, n) || Translate(memory, base, pageSize, r).Physical? then
        before + [r.vaddr / 4096]
      else
        before
  }

  /** The request finds its page in the TLB, by the LRU hit rule. */
  ghost predicate Hits(memory: Memory, base: nat, pageSize: nat, rs: seq<Request>, n: nat, r: Request)
    requires pageSize > 0
  {
    var h := Accesses(memory, base, pageSize, rs, n);
    r.vaddr / 4096 in h && |Since(h, r.vaddr / 4096)| < n
  }

  /** The answer to a request after a run: that of the walk, except that an instruction write that
      hits a read-only page is reported as an instruction fault. */
  ghost function Expected(memory: Memory, base: nat, pageSize: nat, enabled: bool, n: nat, rs: seq<Request>,
                          r: Request): Outcome
    requires pageSize > 0
  {
    if && base != 0 && enabled && r.write && r.instruction
       && Hits(memory, base, pageSize, rs, n, r) && !Walk(memory, base, r.vaddr / 4096).writable then
      Fault(InstructionPageFault)
    else
      Translate(memory, base, pageSize, r)
  }

  ghost predicate Transparent(memory: Memory, base: nat, pageSize: nat, enabled: bool, n: nat, rs: seq<Request>,
                              os: seq<Outcome>)
    requires pageSize > 0
  {
    && |os| == |rs|
    && forall k :: 0 <= k < |rs| ==> os[k] == Expected(memory, base, pageSize, enabled, n, rs[..k], rs[k])
  }

  /** How many requests of a run hit. */
  ghost function HitCount(memory: Memory, base: nat, pageSize: nat, rs: seq<Request>, n: nat): nat
    requires pageSize > 0
  {
    if rs == [] then
      0
    else
      var before := rs[..|rs| - 1];
      HitCount(memory, base, pageSize, before, n)
      + (if Hits(memory, base, pageSize, before, n, rs[|rs| - 1]) then 1 else 0)
  }

  function FaultCount(os: seq<Outcome>): nat {
    if os == [] then 0 else FaultCount(os[..|os| - 1]) + (if os[|os| - 1].Fault? then 1 else 0)
  }

  lemma ResidentInPages(m: Mmu, page: nat)
    requires m.Valid()
    ensures Resident(m.tlb, page) <==> page in m.Pages()
  {
    StackMember(SlotsOf(m.tlb), m.lru, page);
    var k := Lookup(m.tlb, page, 0);
    if k < |m.tlb| {
      assert k in m.lru;
    }
  }

  /** The answer of a sound TLB, from the history of accesses it has seen. */
  lemma AnswerFromHistory(m: Mmu, rs: seq<Request>, r: Request)
    requires m.Valid() && Sound(m.tlb, m.memory, m.base)
    requires m.Pages() == AfterHistory(Accesses(m.memory, m.base, m.pageSize, rs, m.entries), m.entries)
    ensures Answer(m.tlb, m.enabled, m.memory, m.base, m.pageSize, r) ==
            Expected(m.memory, m.base, m.pageSize, m.enabled, m.entries, rs, r)
    ensures Resident(m.tlb, r.vaddr / 4096) <==> Hits(m.memory, m.base, m.pageSize, rs, m.entries, r)
  {
    hide Walk, PhysicalAddress, Accesses, AfterHistory, Stack;
    var page := r.vaddr / 4096;
    ResidentInPages(m, page);
    ResidentIff(Accesses(m.memory, m.base, m.pageSize, rs, m.entries), page, m.entries);
  }

  lemma RunSnoc(memory: Memory, base: nat, pageSize: nat, enabled: bool, n: nat, rs: seq<Request>, os: seq<Outcome>,
                r: Request, o: Outcome)
    requires pageSize > 0 && Transparent(memory, base, pageSize, enabled, n, rs, os)
    requires o == Expected(memory, base, pageSize, enabled, n, rs, r)
    ensures Transparent(memory, base, pageSize, enabled, n, rs + [r], os + [o])
    ensures FaultCount(os + [o]) == FaultCount(os) + (if o.Fault? then 1 else 0)
    ensures HitCount(memory, base, pageSize, rs + [r], n) ==
            HitCount(memory, base, pageSize, rs, n) + (if Hits(memory, base, pageSize, rs, n, r) then 1 else 0)
    ensures var h, page := Accesses(memory, base, pageSize, rs, n), r.vaddr / 4096;
            AfterHistory(Accesses(memory, base, pageSize, rs + [r], n), n) ==
            if page in AfterHistory(h, n) || Translate(memory, base, pageSize, r).Physical?
            then Touch(AfterHistory(h, n), page, n) else AfterHistory(h, n)
  {
    hide Walk, Expected, Hits, Translate, Touch;
    var all, h := rs + [r], Accesses(memory, base, pageSize, rs, n);
    assert all[..|rs|] == rs && (os + [o])[..|os|] == os;
    assert (h + [r.vaddr / 4096])[..|h|] == h;
    forall k | 0 <= k < |all|
      ensures (os + [o])[k] == Expected(memory, base, pageSize, enabled, n, all[..k], all[k])
    {
      assert k < |rs| ==> all[..k] == rs[..k];
    }
  }

  /** A run from a flushed TLB, with the base and the words of the page table left alone. */
  method Replay(m: Mmu, rs: seq<Request>) returns (os: seq<Outcome>)
    requires m.Valid() && Sound(m.tlb, m.memory, m.base) && m.Pages() == []
    modifies m`tlb, m`lru, m`hits, m`misses, m`faults
    ensures m.Valid() && Transparent(m.memory, m.base, m.pageSize, m.enabled, m.entries, rs, os)
    ensures m.faults == old(m.faults) + FaultCount(os)
    ensures var active := m.base != 0 && m.enabled;
            && m.hits == old(m.hits) + (if active then HitCount(m.memory, m.base, m.pageSize, rs, m.entries) else 0)
            && m.hits + m.misses == old(m.hits + m.misses) + (if active then |rs| else 0)
  {
    hide Walk, Answer, Expected, Hits, Translate, AfterHistory, Accesses, Touch, Stack, Permutation, Transparent,
         HitCount, FaultCount;
    os := [];
    ghost var hits, misses, faults := m.hits, m.misses, m.faults;
    ghost var active := m.base != 0 && m.enabled;
    EmptyRun(m.memory, m.base, m.pageSize, m.enabled, m.entries);
    assert rs[..0] == [];
    for k := 0 to |rs|
      invariant m.Valid() && Sound(m.tlb, m.memory, m.base)
      invariant Transparent(m.memory, m.base, m.pageSize, m.enabled, m.entries, rs[..k], os)
      invariant active ==>
                  m.Pages() == AfterHistory(Accesses(m.memory, m.base, m.pageSize, rs[..k], m.entries), m.entries)
      invariant m.hits == hits + if active then HitCount(m.memory, m.base, m.pageSize, rs[..k], m.entries) else 0
      invariant m.hits + m.misses == hits + misses + if active then k else 0
      invariant m.faults == faults + FaultCount(os)
    {
      if active {
        AnswerFromHistory(m, rs[..k], rs[k]);
        ResidentInPages(m, rs[k].vaddr / 4096);
        ExpectedFaults(m.memory, m.base, m.pageSize, m.entries, rs[..k], rs[k]);
      } else {
        Inactive(m.tlb, m.enabled, m.memory, m.base, m.pageSize, m.entries, rs[..k], rs[k]);
      }
      var o := m.TranslateAddress(rs[k]);
      RunSnoc(m.memory, m.base, m.pageSize, m.enabled, m.entries, rs[..k], os, rs[k], o);
      os := os + [o];
      assert rs[..k + 1] == rs[..k] + [rs[k]];
    }
    assert rs[..|rs|] == rs;
  }

  lemma EmptyRun(memory: Memory, base: nat, pageSize: nat, enabled: bool, n: nat)
    requires pageSize > 0
    ensures Transparent(memory, base, pageSize, enabled, n, [], [])
    ensures AfterHistory(Accesses(memory, base, pageSize, [], n), n) == []
    ensures HitCount(memory, base, pageSize, [], n) == FaultCount([]) == 0
  {
  }

  /** The TLB never turns a fault into a translation, nor a translation into a fault. */
  lemma ExpectedFaults(memory: Memory, base: nat, pageSize: nat, n: nat, rs: seq<Request>, r: Request)
    requires pageSize > 0
    ensures Expected(memory, base, pageSize, true, n, rs, r).Fault? <==> Translate(memory, base, pageSize, r).Fault?
  {
    hide Walk, Hits, PhysicalAddress;
  }

  lemma Inactive(tlb: seq<TlbEntry>, enabled: bool, memory: Memory, base: nat, pageSize: nat, n: nat, rs: seq<Request>,
                 r: Request)
    requires pageSize > 0 && !(base != 0 && enabled)
    ensures Answer(tlb, enabled, memory, base, pageSize, r) == Expected(memory, base, pageSize, enabled, n, rs, r)
  {
  }

  /** TLB transparency: over every run of a new MMU, for any page size and any number of entries. */
  method RunRequests(pageSize: nat, entries: nat, enabled: bool, memory: Memory, base: nat, rs: seq<Request>)
    returns (os: seq<Outcome>, hits: nat, misses: nat, faults: nat)
    requires pageSize > 0 && (enabled ==> entries > 0)
    ensures Transparent(memory, base, pageSize, enabled, entries, rs, os)
    ensures faults == FaultCount(os)
    ensures hits == if base != 0 && enabled then HitCount(memory, base, pageSize, rs, entries) else 0
    ensures hits + misses == if base != 0 && enabled then |rs| else 0
  {
    hide Transparent, HitCount, FaultCount, Walk, Permutation;
    var m := new Mmu(pageSize, entries, enabled);
    m.SetMemoryInterface(memory);
    m.SetPageTableBase(base);
    m.FlushTlb();
    os := Replay(m, rs);
    hits, misses, faults := m.hits, m.misses, m.faults;
  }

  // ----- a new page table without a flush -----

  /** After the base alone has been changed, a request is answered by the new table exactly when paging is
      off, or the TLB does not answer it, or the two tables agree on it. */
  lemma NewBaseIff(tlb: seq<TlbEntry>, enabled: bool, memory: Memory, base: nat, base': nat, pageSize: nat, r: Request)
    requires pageSize > 0 && Sound(tlb, memory, base)
    ensures var page := r.vaddr / 4096;
            Answer(tlb, enabled, memory, base', pageSize, r) == Translate(memory, base', pageSize, r)
            <==> || base' == 0 || !enabled || !Resident(tlb, page)
                 || Agrees(Walk(memory, base, page), Walk(memory, base', page), pageSize, r)
  {
    hide Walk, Cached, Walked, Agrees;
    var page := r.vaddr / 4096;
    var k := Lookup(tlb, page, 0);
    if base' != 0 && enabled && k < |tlb| {
      CachedAgreesIff(tlb[k], Walk(memory, base, page), Walk(memory, base', page), pageSize, r);
    }
  }

  /** Two tables that map page 0: the one at 0x1000 to frame 1, the one at 0x2000 to frame 2. */
  function TwoTables(a: nat): Word { if a == 0x1000 then 0x0403 else 0x0803 }

  lemma TwoFrames()
    ensures Frame(0x0403) == 1 && Frame(0x0803) == 2
  {
    assert ((0x0403 as bv32) >> 10) & 0x3F_FFFF == 1;
    assert ((0x0803 as bv32) >> 10) & 0x3F_FFFF == 2;
  }

  lemma TwoWalks()
    ensures var pte, pte' := Walk(Connected(TwoTables), 0x1000, 0), Walk(Connected(TwoTables), 0x2000, 0);
            pte.present && !pte.writable && pte.frame == 1 && pte'.present && pte'.frame == 2
  {
    hide Frame;
    TwoFrames();
  }

  /** An MMU that has translated a read of address 0 under the first table. */
  method AfterRead() returns (m: Mmu)
    ensures fresh(m) && m.Valid() && m.enabled && m.pageSize == 4096 && m.memory == Connected(TwoTables)
    ensures m.base == 0x1000 && Sound(m.tlb, m.memory, 0x1000) && Resident(m.tlb, 0)
  {
    hide Walk, TwoTables, Sound, Resident, Permutation, PhysicalAddress;
    m := new Mmu(4096, 1, true);
    m.SetMemoryInterface(Connected(TwoTables));
    m.SetPageTableBase(0x1000);
    m.FlushTlb();
    TwoWalks();
    var r := Request(0, false, false);
    AnswerIff(m.tlb, true, m.memory, m.base, 4096, r);
    var o := m.TranslateAddress(r);
    ResidentInPages(m, 0);
  }

  /** The translation of an address under the first table is still given under the second. */
  method StaleTranslation() returns (stale: Outcome)
    ensures stale != Translate(Connected(TwoTables), 0x2000, 4096, Request(0, false, false))
  {
    hide Walk, TwoTables, Sound, Answer, Translate, Permutation;
    var m := AfterRead();
    TwoWalks();
    NewBaseIff(m.tlb, true, m.memory, 0x1000, 0x2000, 4096, Request(0, false, false));
    m.SetPageTableBase(0x2000);
    stale := m.TranslateAddress(Request(0, false, false));
  }

  lemma ReportedAs(tlb: seq<TlbEntry>, memory: Memory, base: nat, pageSize: nat, r: Request)
    requires pageSize > 0 && Sound(tlb, memory, base) && Misreported(tlb, true, memory, base, r)
    ensures Answer(tlb, true, memory, base, pageSize, r) == Fault(InstructionPageFault)
    ensures Translate(memory, base, pageSize, r) == Fault(StorePageFault)
  {
    hide Walk, PhysicalAddress;
  }

  /** A write by an instruction fetch to a read-only page: the same request is refused as an instruction
      fault because the page is resident, and as a store fault by the walk. */
  method MisreportedFault() returns (o: Outcome)
    ensures o == Fault(InstructionPageFault)
    ensures Translate(Connected(TwoTables), 0x1000, 4096, Request(0, true, true)) == Fault(StorePageFault)
  {
    hide Walk, TwoTables, Sound, Answer, Translate, Permutation;
    var m := AfterRead();
    TwoWalks();
    ReportedAs(m.tlb, m.memory, 0x1000, 4096, Request(0, true, true));
    o := m.TranslateAddress(Request(0, true, true));
  }
}
