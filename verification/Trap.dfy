/** Traps of a core: entry into an exception handler, the return from it, and the control and
  status registers they go through. */
module Trap {
  import opened Arithmetic
  import opened Bits
  import opened WordArithmetic
  import opened Words

  const PRV_U: Word := 0
  const PRV_S: Word := 1
  const PRV_M: Word := 3

  const CSR_COUNT := 4096
  const SSTATUS := 0x100
  const STVEC := 0x105
  const SEPC := 0x141
  const SCAUSE := 0x142
  const STVAL := 0x143
  const MSTATUS := 0x300
  const MEDELEG := 0x302
  const MTVEC := 0x305
  const MEPC := 0x341
  const MCAUSE := 0x342
  const MTVAL := 0x343
  const MIP := 0x344
  const PMC := 0xB00
  const PMCTRL := 0xB01
  const PMES := 0xB02
  const GLOBAL_COUNTERS := 0xB10
  const GLOBAL_CONTROL := 0xB14
  const TIME := 0xC01
  const MHARTID := 0xF14

  /** The part of a core that its control and status registers show. The four global counters are
      shared by all cores. */
  datatype Hart = Hart(id: Word, pc: Word, privilege: Word, csrs: seq<Word>,
                       counter: Word, control: Word, event: Word, globals: seq<Word>)
  {
    predicate Ok() {
      && |csrs| == CSR_COUNT && |globals| == 4
      && (privilege == PRV_U || privilege == PRV_S || privilege == PRV_M)
    }
  }

  // ----- registers -----

  /** The supervisor's view of the machine status. */
  function Sstatus(m: Word): Word {
    (m & 0x1) | (m & 0x2) | ((m & 0x4) << 3) | (m & 0x8) | ((m & 0x10) << 1) | ((m & 0x20) << 1) | ((m & 0x40) << 1)
    | (m & 0x80) | ((m & 0x100) << 4) | ((m & 0x200) << 8) | ((m & 0x400) << 4) | (m & 0x8_0000) | (m & 0x10_0000)
  }

  /** What a write leaves in a register of which only the bits of a mask can be written. */
  function Merged(w: Word, v: Word, mask: Word): Word { (w & !mask) | (v & mask) }

  /** The time register after a read, which moves it on. */
  function Later(time: Word, id: Word): Word { time + (50 + id * 5) }

  predicate IsCounter(a: nat) { PMC <= a <= PMES || GLOBAL_COUNTERS <= a <= GLOBAL_CONTROL }

  function ReadCounter(h: Hart, a: nat): Word
    requires h.Ok() && IsCounter(a)
  {
    if a == PMC then h.counter
    else if a == PMCTRL then h.control
    else if a == PMES then h.event
    else if a < GLOBAL_CONTROL then h.globals[a - GLOBAL_COUNTERS]
    else h.csrs[a]
  }

  /** What reading a register returns. */
  function ReadCsr(h: Hart, a: nat): Word
    requires h.Ok()
  {
    if a >= CSR_COUNT then 0
    else if IsCounter(a) then ReadCounter(h, a)
    else if a == SSTATUS then Sstatus(h.csrs[MSTATUS])
    else if a == MHARTID then h.id
    else if a == TIME then Later(h.csrs[TIME], h.id)
    else h.csrs[a]
  }

  /** Reading the time moves it on; reading any other register changes nothing. */
  function AfterRead(h: Hart, a: nat): (r: Hart)
    requires h.Ok()
    ensures r.Ok()
  {
    if a == TIME then h.(csrs := h.csrs[TIME := Later(h.csrs[TIME], h.id)]) else h
  }

  /** The counters themselves are read-only; their control registers can reset them. */
  function WriteCounter(h: Hart, a: nat, v: Word): (r: Hart)
    requires h.Ok() && IsCounter(a)
    ensures r.Ok() && r == h.(counter := r.counter, control := r.control, event := r.event, globals := r.globals)
  {
    h.(counter := if a == PMCTRL && Reset(v) then 0 else h.counter,
       control := if a == PMCTRL then v else h.control,
       event := if a == PMES then v else h.event,
       globals := if a == GLOBAL_CONTROL && Reset(v) then ZeroCounters() else h.globals)
  }

  function ZeroCounters(): (r: seq<Word>)
    ensures |r| == 4 && forall i :: 0 <= i < 4 ==> r[i] == 0
  {
    [0, 0, 0, 0]
  }

  function WriteCsr(h: Hart, a: nat, v: Word): (r: Hart)
    requires h.Ok()
    ensures r.Ok() && r.id == h.id && r.pc == h.pc && r.privilege == h.privilege
  {
    if a >= CSR_COUNT || a == MHARTID then h
    else if IsCounter(a) then WriteCounter(h, a, v)
    else if a == SSTATUS then h.(csrs := h.csrs[MSTATUS := Merged(h.csrs[MSTATUS], v, 0x622)])
    else if a == MIP then h.(csrs := h.csrs[MIP := Merged(h.csrs[MIP], v, 0x222)])
    else h.(csrs := h.csrs[a := v])
  }

  /** The register keeps what is written to it, or a part of it. */
  predicate Writable(a: nat) {
    a < CSR_COUNT && a != MHARTID && a != PMC && !(GLOBAL_COUNTERS <= a <= GLOBAL_CONTROL)
  }

  /** The bit of a control register that resets its counters. */
  predicate Reset(v: Word) { v & 0x2 != 0 }

  /** What is read from a writable register after a write. */
  function Kept(h: Hart, a: nat, v: Word): Word
    requires h.Ok()
  {
    if a == SSTATUS then Sstatus(Merged(h.csrs[MSTATUS], v, 0x622))
    else if a == MIP then Merged(h.csrs[MIP], v, 0x222)
    else if a == TIME then Later(v, h.id)
    else v
  }

  /** Writing a control register resets a counter. */
  predicate Resets(a: nat, v: Word, b: nat) {
    Reset(v) && ((a == PMCTRL && b == PMC) || (a == GLOBAL_CONTROL && GLOBAL_COUNTERS <= b < GLOBAL_CONTROL))
  }

  lemma OwnWrite(h: Hart, a: nat, v: Word)
    requires h.Ok() && !IsCounter(a)
    ensures ReadCsr(WriteCsr(h, a, v), a) == if Writable(a) then Kept(h, a, v) else ReadCsr(h, a)
  {
    hide Merged, Sstatus, Later, Reset, ReadCounter, WriteCounter;
    if a < CSR_COUNT && a != MHARTID && a != SSTATUS && a != MIP {
      assert WriteCsr(h, a, v) == h.(csrs := h.csrs[a := v]);
    }
  }

  /** A register file with another word in one place reads differently there only. */
  lemma OtherPlace(h: Hart, r: Hart, x: nat, b: nat)
    requires h.Ok() && r.Ok() && x < CSR_COUNT && r == h.(csrs := h.csrs[x := r.csrs[x]])
    requires b != x && !(x == MSTATUS && b == SSTATUS)
    ensures ReadCsr(r, b) == ReadCsr(h, b)
  {
    hide Sstatus, Later;
  }

  lemma PlainWrite(h: Hart, a: nat, v: Word, b: nat)
    requires h.Ok() && a != b && !IsCounter(a) && a != SSTATUS && a != MSTATUS
    ensures ReadCsr(WriteCsr(h, a, v), b) == ReadCsr(h, b)
  {
    hide ReadCsr, Merged, WriteCounter;
    if a < CSR_COUNT && a != MHARTID {
      OtherPlace(h, WriteCsr(h, a, v), a, b);
    }
  }

  lemma StatusWrite(h: Hart, v: Word, b: nat)
    requires h.Ok()
    ensures b != SSTATUS ==> ReadCsr(WriteCsr(h, SSTATUS, v), b) ==
                             if b == MSTATUS then Merged(h.csrs[MSTATUS], v, 0x622) else ReadCsr(h, b)
    ensures b != MSTATUS ==> ReadCsr(WriteCsr(h, MSTATUS, v), b) == if b == SSTATUS then Sstatus(v) else ReadCsr(h, b)
  {
    hide Merged, Sstatus, Later, WriteCounter;
  }

  lemma CounterWrite(h: Hart, a: nat, v: Word, b: nat)
    requires h.Ok() && IsCounter(a) && IsCounter(b)
    ensures ReadCounter(WriteCounter(h, a, v), b) ==
            if a == b && Writable(a) then v else if Resets(a, v, b) then 0 else ReadCounter(h, b)
  {
    hide Reset, ZeroCounters;
  }

  lemma CounterElsewhere(h: Hart, a: nat, v: Word, b: nat)
    requires h.Ok() && IsCounter(a) && !IsCounter(b)
    ensures ReadCsr(WriteCounter(h, a, v), b) == ReadCsr(h, b)
  {
    hide WriteCounter, Sstatus, Later;
  }

  /** For all registers: a write is read back from a writable register, resets the counters it controls,
      carries over between the two views of the status, and is seen nowhere else. */
  lemma ReadWrite(h: Hart, a: nat, v: Word, b: nat)
    requires h.Ok()
    ensures ReadCsr(WriteCsr(h, a, v), b) ==
            if a == b && Writable(a) then Kept(h, a, v)
            else if Resets(a, v, b) then 0
            else if a == SSTATUS && b == MSTATUS then Merged(h.csrs[MSTATUS], v, 0x622)
            else if a == MSTATUS && b == SSTATUS then Sstatus(v)
            else ReadCsr(h, b)
  {
    hide Merged, Sstatus, Reset, Later, ReadCounter, WriteCounter;
    if IsCounter(a) {
      if IsCounter(b) {
        CounterWrite(h, a, v, b);
      } else {
        CounterElsewhere(h, a, v, b);
      }
    } else {
      hide ReadCsr, WriteCsr, Kept;
      if a == b {
        OwnWrite(h, a, v);
      } else if a == SSTATUS || a == MSTATUS {
        StatusWrite(h, v, b);
      } else {
        PlainWrite(h, a, v, b);
      }
    }
  }

  lemma PlainRead(h: Hart)
    requires h.Ok()
    ensures ReadCsr(h, MSTATUS) == h.csrs[MSTATUS] && ReadCsr(h, MEDELEG) == h.csrs[MEDELEG]
  {
  }

  /** A read is seen by later reads of the time only. */
  lemma ReadAgain(h: Hart, a: nat, b: nat)
    requires h.Ok()
    ensures ReadCsr(AfterRead(h, a), b) == if a == b == TIME then Later(ReadCsr(h, TIME), h.id) else ReadCsr(h, b)
  {
    hide Sstatus, Later;
  }

  // ----- entry and return -----

  /** The handler's address: a table entry in vectored mode, otherwise the base. */
  function Target(tvec: Word, cause: Word): Word {
    if Mode(tvec) == 1 then Base(tvec) + Offset(cause) else Base(tvec)
  }

  function Mode(tvec: Word): Word { tvec & 0x3 }

  function Base(tvec: Word): Word { tvec & !0x3 }

  function Offset(cause: Word): Word { (cause & 0xFFF) * 4 }

  /** The machine status on entry: interrupts off, and what they and the privilege were noted. */
  function Entered(m: Word, privilege: Word): Word {
    (m & !0x1800 & !0x8) | (((m >> 3) & 0x1) << 7) | (privilege << 11)
  }

  /** The machine status on return: interrupts as noted, and the notes reset. */
  function Returned(m: Word): Word {
    var restored := (m & !0x8) | (((m >> 7) & 0x1) << 3);
    var noted := (restored & !0x80) | 0x80;
    (noted & !0x1800) | 0x1800
  }

  function SavedPrivilege(m: Word): Word { (m >> 11) & 0x3 }

  /** The supervisor status on entry to a supervisor handler. */
  function EnteredS(s: Word, privilege: Word): Word {
    (s & !0x100 & !0x2) | (((s >> 1) & 0x1) << 5) | (privilege << 8)
  }

  predicate Delegated(h: Hart, cause: Word)
    requires h.Ok() && cause & 0xFFF < 32
  {
    Test(h.csrs[MEDELEG], (cause & 0xFFF) as nat) && h.privilege <= PRV_S
  }

  function AfterException(h: Hart, cause: Word): (r: Hart)
    requires h.Ok() && cause & 0xFFF < 32
    ensures r.Ok()
  {
    if Delegated(h, cause) then
      var h1 := WriteCsr(h, SSTATUS, EnteredS(ReadCsr(h, SSTATUS), h.privilege));
      var h2 := WriteCsr(WriteCsr(WriteCsr(h1, SEPC, h.pc), SCAUSE, cause), STVAL, 0);
      h2.(pc := Target(ReadCsr(h2, STVEC), cause), privilege := PRV_S)
    else
      var h1 := WriteCsr(h, MSTATUS, Entered(ReadCsr(h, MSTATUS), h.privilege));
      var h2 := WriteCsr(WriteCsr(WriteCsr(h1, MEPC, h.pc), MCAUSE, cause), MTVAL, 0);
      h2.(pc := Target(ReadCsr(h2, MTVEC), cause), privilege := PRV_M)
  }

  function AfterMret(h: Hart): Hart
    requires h.Ok()
  {
    var m := ReadCsr(h, MSTATUS);
    WriteCsr(h, MSTATUS, Returned(m)).(privilege := SavedPrivilege(m), pc := ReadCsr(h, MEPC))
  }

  predicate Mie(m: Word) { m & 0x8 != 0 }

  predicate Mpie(m: Word) { m & 0x80 != 0 }

  lemma PrivilegeSaved(m: Word, p: Word)
    requires p < 4
    ensures SavedPrivilege(Entered(m, p)) == p
  {
  }

  lemma OtherBitsKept(m: Word, p: Word)
    requires p < 4
    ensures Returned(Entered(m, p)) & !0x1888 == m & !0x1888
  {
  }

  lemma InterruptBits(m: Word, p: Word)
    requires p < 4
    ensures !Mie(Entered(m, p))
    ensures Mie(Returned(Entered(m, p))) <==> Mie(m) || Mpie(m)
    ensures Mpie(Returned(Entered(m, p))) && SavedPrivilege(Returned(Entered(m, p))) == PRV_M
  {
  }

  /** The round trip: from every state, a trap that is not delegated, followed by a return from any state
      in which the handler left mepc and mstatus as they were, restores the program counter and the
      privilege, and changes no status bit but MIE, MPIE and MPP; MIE is restored exactly if it was
      set or MPIE was clear. */
  lemma TrapRoundTrip(h: Hart, cause: Word, handled: Hart)
    requires h.Ok() && cause & 0xFFF < 32 && !Delegated(h, cause) && handled.Ok()
    requires var t := AfterException(h, cause);
             handled.csrs[MEPC] == t.csrs[MEPC] && handled.csrs[MSTATUS] == t.csrs[MSTATUS]
    ensures var r, m := AfterMret(handled), h.csrs[MSTATUS];
            && r.pc == h.pc && r.privilege == h.privilege
            && r.csrs[MSTATUS] & !0x1888 == m & !0x1888
            && (Mie(r.csrs[MSTATUS]) == Mie(m) <==> Mie(m) || !Mpie(m))
  {
    hide Entered, Returned, SavedPrivilege, Mie, Mpie, Target, Delegated;
    var m := h.csrs[MSTATUS];
    PrivilegeSaved(m, h.privilege);
    OtherBitsKept(m, h.privilege);
    InterruptBits(m, h.privilege);
    assert handled.csrs[MSTATUS] == Entered(m, h.privilege);
  }

  /** Interrupts that were off come back on if MPIE was set when the trap was taken. */
  lemma InterruptsTurnedOn()
    ensures !Mie(0x80) && Mie(Returned(Entered(0x80, PRV_M)))
  {
  }

  /** A trap that is not delegated: where it was taken and why is noted, interrupts are off, and
      no other register reads differently. */
  lemma TrapEntry(h: Hart, cause: Word)
    requires h.Ok() && cause & 0xFFF < 32 && !Delegated(h, cause)
    ensures var t := AfterException(h, cause);
            && t.privilege == PRV_M && t.pc == Target(ReadCsr(h, MTVEC), cause) && !Mie(ReadCsr(t, MSTATUS))
            && ReadCsr(t, MEPC) == h.pc && ReadCsr(t, MCAUSE) == cause && ReadCsr(t, MTVAL) == 0
            && forall b :: b != MSTATUS && b != SSTATUS && b != MEPC && b != MCAUSE && b != MTVAL ==>
                 ReadCsr(t, b) == ReadCsr(h, b)
  {
    hide Entered, Mie, Delegated, Target, Sstatus, Merged, Later, Reset, ReadCsr, WriteCsr;
    var m := Entered(ReadCsr(h, MSTATUS), h.privilege);
    InterruptBits(ReadCsr(h, MSTATUS), h.privilege);
    forall b: nat
      ensures ReadCsr(AfterException(h, cause), b) ==
              if b == MSTATUS then m else if b == SSTATUS then Sstatus(m) else if b == MEPC then h.pc
              else if b == MCAUSE then cause else if b == MTVAL then 0 else ReadCsr(h, b)
    {
      var h1 := WriteCsr(h, MSTATUS, m);
      var h2 := WriteCsr(h1, MEPC, h.pc);
      var h3 := WriteCsr(h2, MCAUSE, cause);
      ReadWrite(h, MSTATUS, m, b);
      ReadWrite(h1, MEPC, h.pc, b);
      ReadWrite(h2, MCAUSE, cause, b);
      ReadWrite(h3, MTVAL, 0, b);
      ReadElsewhere(WriteCsr(h3, MTVAL, 0), AfterException(h, cause), b);
    }
    assert ReadCsr(AfterException(h, cause), MTVEC) == ReadCsr(h, MTVEC);
    TargetRead(h, cause);
  }

  /** The vector is read after the other registers have been written, and is as it was. */
  lemma TargetRead(h: Hart, cause: Word)
    requires h.Ok() && cause & 0xFFF < 32 && !Delegated(h, cause)
    requires ReadCsr(AfterException(h, cause), MTVEC) == ReadCsr(h, MTVEC)
    ensures AfterException(h, cause).pc == Target(ReadCsr(h, MTVEC), cause)
  {
    hide Entered, Target, Delegated, ReadCsr, WriteCsr;
    var h4 := WriteCsr(WriteCsr(WriteCsr(WriteCsr(h, MSTATUS, Entered(ReadCsr(h, MSTATUS), h.privilege)), MEPC, h.pc),
                                MCAUSE, cause), MTVAL, 0);
    ReadElsewhere(h4, AfterException(h, cause), MTVEC);
  }

  /** The program counter and the privilege are not seen in any register. */
  lemma ReadElsewhere(h: Hart, r: Hart, b: nat)
    requires h.Ok() && r.Ok() && r == h.(pc := r.pc, privilege := r.privilege)
    ensures ReadCsr(r, b) == ReadCsr(h, b)
  {
    hide Sstatus, Later;
  }

  lemma StatusMasked(m: Word, v: Word)
    ensures Merged(m, v, 0x622) & !0x622 == m & !0x622
  {
  }

  /** A delegated trap: the same in the supervisor's registers, and of the machine status only the bits
      that a write of the supervisor status reaches have changed. */
  lemma DelegatedEntry(h: Hart, cause: Word)
    requires h.Ok() && cause & 0xFFF < 32 && Delegated(h, cause)
    ensures var t := AfterException(h, cause);
            && t.privilege == PRV_S && t.pc == Target(ReadCsr(h, STVEC), cause)
            && ReadCsr(t, SEPC) == h.pc && ReadCsr(t, SCAUSE) == cause && ReadCsr(t, STVAL) == 0
            && ReadCsr(t, MSTATUS) & !0x622 == ReadCsr(h, MSTATUS) & !0x622
            && ReadCsr(t, MSTATUS) == Merged(ReadCsr(h, MSTATUS), EnteredS(ReadCsr(h, SSTATUS), h.privilege), 0x622)
            && forall b :: b != MSTATUS && b != SSTATUS && b != SEPC && b != SCAUSE && b != STVAL ==>
                 ReadCsr(t, b) == ReadCsr(h, b)
  {
    hide EnteredS, Delegated, Target, Sstatus, Merged, Later, Reset, ReadCsr, WriteCsr;
    var v := EnteredS(ReadCsr(h, SSTATUS), h.privilege);
    var h1 := WriteCsr(h, SSTATUS, v);
    var h2 := WriteCsr(h1, SEPC, h.pc);
    var h3 := WriteCsr(h2, SCAUSE, cause);
    var h4 := WriteCsr(h3, STVAL, 0);
    forall b: nat
      ensures ReadCsr(h4, b) ==
              if b == MSTATUS then Merged(h.csrs[MSTATUS], v, 0x622)
              else if b == SSTATUS then Sstatus(Merged(h.csrs[MSTATUS], v, 0x622))
              else if b == SEPC then h.pc else if b == SCAUSE then cause else if b == STVAL then 0 else ReadCsr(h, b)
      ensures ReadCsr(AfterException(h, cause), b) == ReadCsr(h4, b)
    {
      ReadWrite(h, SSTATUS, v, b);
      ReadWrite(h1, SEPC, h.pc, b);
      ReadWrite(h2, SCAUSE, cause, b);
      ReadWrite(h3, STVAL, 0, b);
      ReadElsewhere(h4, AfterException(h, cause), b);
    }
    assert ReadCsr(h4, STVEC) == ReadCsr(h, STVEC);
    StatusMasked(h.csrs[MSTATUS], v);
    PlainRead(h);
  }

  lemma PrivilegeLost(s: Word, m: Word)
    ensures Merged(m, EnteredS(s, PRV_U), 0x622) == Merged(m, EnteredS(s, PRV_S), 0x622)
  {
  }

  /** A delegated trap does not note the privilege it was taken from: the bit it writes it to is not
      one that a write of the supervisor status changes. */
  lemma DelegatedForgetsPrivilege(h: Hart, h': Hart, cause: Word)
    requires h.Ok() && cause & 0xFFF < 32 && h.privilege == PRV_U && h' == h.(privilege := PRV_S) && Delegated(h, cause)
    ensures AfterException(h, cause) == AfterException(h', cause)
  {
    hide EnteredS, Merged, Sstatus, Target, Test;
    PrivilegeLost(Sstatus(h.csrs[MSTATUS]), h.csrs[MSTATUS]);
  }

  lemma PrivilegeNotShown(m: Word)
    ensures Sstatus(m) & 0x100 == 0
  {
  }

  lemma PrivilegeBit(privilege: Word)
    requires privilege == PRV_U || privilege == PRV_S
    ensures privilege << 8 == 0 <==> privilege == PRV_U
  {
  }

  /** What the supervisor status says of the privilege that a delegated trap was taken from is right
      exactly for traps from user mode. */
  lemma NotedPrivilegeIff(h: Hart, cause: Word)
    requires h.Ok() && cause & 0xFFF < 32 && Delegated(h, cause)
    ensures ReadCsr(AfterException(h, cause), SSTATUS) & 0x100 == h.privilege << 8 <==> h.privilege == PRV_U
  {
    hide AfterException, Sstatus, Test;
    PrivilegeNotShown(AfterException(h, cause).csrs[MSTATUS]);
    PrivilegeBit(h.privilege);
  }

  // ----- in plain numbers and bits -----

  /** Every bit of the supervisor's view of the machine status. */
  lemma SstatusBits(m: Word)
    ensures var s := Sstatus(m);
            && (Meets(s, 0x1) <==> Meets(m, 0x1)) && (Meets(s, 0x2) <==> Meets(m, 0x2))
            && (Meets(s, 0x8) <==> Meets(m, 0x8)) && (Meets(s, 0x20) <==> Meets(m, 0x4) || Meets(m, 0x10))
            && (Meets(s, 0x40) <==> Meets(m, 0x20)) && (Meets(s, 0x80) <==> Meets(m, 0x40) || Meets(m, 0x80))
            && (Meets(s, 0x1000) <==> Meets(m, 0x100)) && (Meets(s, 0x4000) <==> Meets(m, 0x400))
            && (Meets(s, 0x2_0000) <==> Meets(m, 0x200)) && (Meets(s, 0x8_0000) <==> Meets(m, 0x8_0000))
            && (Meets(s, 0x10_0000) <==> Meets(m, 0x10_0000)) && !Meets(s, !0x1A_50EB)
  {
  }

  lemma EnteredEnable(m: Word, p: Word)
    requires p == 0 || p == 1 || p == 3
    ensures !Meets(Entered(m, p), 0x8) && (Meets(Entered(m, p), 0x80) <==> Meets(m, 0x8) || Meets(m, 0x80))
  {
  }

  lemma EnteredPrivilege(m: Word)
    ensures !Meets(Entered(m, 0), 0x800) && !Meets(Entered(m, 0), 0x1000)
    ensures Meets(Entered(m, 1), 0x800) && !Meets(Entered(m, 1), 0x1000)
    ensures Meets(Entered(m, 3), 0x800) && Meets(Entered(m, 3), 0x1000)
  {
  }

  lemma EnteredOthers(m: Word, p: Word)
    requires p == 0 || p == 1 || p == 3
    ensures Entered(m, p) & !0x1888 == m & !0x1888
  {
  }

  /** Every bit of the machine status on entry to a machine handler: MIE is off, MPIE is on if either was,
      MPP is the privilege. */
  lemma EnteredBits(m: Word, p: Word)
    requires p == 0 || p == 1 || p == 3
    ensures var s := Entered(m, p);
            && !Meets(s, 0x8) && (Meets(s, 0x80) <==> Meets(m, 0x8) || Meets(m, 0x80))
            && (Meets(s, 0x800) <==> p != 0) && (Meets(s, 0x1000) <==> p == 3)
            && s & !0x1888 == m & !0x1888
  {
    hide Entered, Meets;
    EnteredEnable(m, p);
    EnteredPrivilege(m);
    EnteredOthers(m, p);
  }

  lemma EnteredSBits(s: Word, p: Word)
    requires p == 0 || p == 1
    ensures var v := EnteredS(s, p);
            && !Meets(v, 0x2) && (Meets(v, 0x20) <==> Meets(s, 0x2) || Meets(s, 0x20))
            && Meets(v, 0x200) == Meets(s, 0x200) && Meets(v, 0x400) == Meets(s, 0x400)
  {
  }

  lemma MergedBits(m: Word, v: Word)
    ensures var r := Merged(m, v, 0x622);
            && Meets(r, 0x2) == Meets(v, 0x2) && Meets(r, 0x20) == Meets(v, 0x20)
            && Meets(r, 0x200) == Meets(v, 0x200) && Meets(r, 0x400) == Meets(v, 0x400)
  {
  }

  lemma SstatusGaps(m: Word)
    ensures !Meets(Sstatus(m), 0x200) && !Meets(Sstatus(m), 0x400)
  {
  }

  /** Every bit of the machine status on entry to a supervisor handler, of which a write of the supervisor
      status reaches four: SIE is off, SPIE is on if SIE or one of the bits shown in its place was. */
  lemma DelegatedBits(m: Word, p: Word)
    requires p == 0 || p == 1
    ensures var s := Merged(m, EnteredS(Sstatus(m), p), 0x622);
            && !Meets(s, 0x2) && !Meets(s, 0x200) && !Meets(s, 0x400)
            && (Meets(s, 0x20) <==> Meets(m, 0x2) || Meets(m, 0x4) || Meets(m, 0x10))
            && s & !0x622 == m & !0x622
  {
    hide Sstatus, EnteredS, Merged, Meets;
    SstatusBits(m);
    SstatusGaps(m);
    EnteredSBits(Sstatus(m), p);
    MergedBits(m, EnteredS(Sstatus(m), p));
    StatusMasked(m, EnteredS(Sstatus(m), p));
  }

  lemma ReturnedEnable(m: Word)
    ensures (Meets(Returned(m), 0x8) <==> Meets(m, 0x80)) && Meets(Returned(m), 0x80)
    ensures Meets(Returned(m), 0x800) && Meets(Returned(m), 0x1000)
  {
  }

  lemma ReturnedOthers(m: Word)
    ensures Returned(m) & !0x1888 == m & !0x1888
  {
  }

  /** Every bit of the machine status on return: MIE is MPIE, MPIE is on, MPP is the machine mode. */
  lemma ReturnedBits(m: Word)
    ensures var s := Returned(m);
            && (Meets(s, 0x8) <==> Meets(m, 0x80)) && Meets(s, 0x80) && Meets(s, 0x800) && Meets(s, 0x1000)
            && s & !0x1888 == m & !0x1888
  {
    hide Returned, Meets;
    ReturnedEnable(m);
    ReturnedOthers(m);
  }

  lemma LowMasks()
    ensures Low(2) == 0x3 && Low(12) == 0xFFF
  {
    assert Low(1) == 1 && Low(2) == 3 && Low(3) == 7 && Low(4) == 0xF && Low(5) == 0x1F && Low(6) == 0x3F;
    assert Low(7) == 0x7F && Low(8) == 0xFF && Low(9) == 0x1FF && Low(10) == 0x3FF && Low(11) == 0x7FF;
  }

  lemma TwoDoublings(c: Word)
    ensures ShiftLeft(c, 2) == c << 2
  {
    assert ShiftLeft(c, 1) == Doubled(c) && ShiftLeft(c, 2) == Doubled(ShiftLeft(c, 1));
  }

  lemma OffsetParts(cause: Word)
    ensures Offset(cause) == And(cause, 0xFFF) << 2
  {
  }

  lemma BaseParts(tvec: Word)
    ensures Base(tvec) == Cleared(tvec, 0x3) && Mode(tvec) == And(tvec, 0x3)
  {
  }

  lemma OffsetValue(cause: Word)
    ensures ValueOf(Offset(cause)) == 4 * (ValueOf(cause) % 4096)
  {
    hide ValueOf, Offset, And, Low, Pow2, Times, Quotient, Remainder, ShiftLeft;
    LowMasks();
    PowersOfTwo();
    OffsetParts(cause);
    MaskValue(cause, 12);
    QuotientIsDivision(ValueOf(cause), 4096);
    TimesIsProduct(ValueOf(And(cause, 0xFFF)), 4);
    ShiftLeftValue(And(cause, 0xFFF), 2);
    TwoDoublings(And(cause, 0xFFF));
  }

  lemma BaseValue(tvec: Word)
    ensures ValueOf(Base(tvec)) == ValueOf(tvec) / 4 * 4 && ValueOf(Mode(tvec)) == ValueOf(tvec) % 4
    ensures Mode(tvec) == 1 <==> ValueOf(tvec) % 4 == 1
  {
    hide ValueOf, Base, Mode, Cleared, And, Low, Pow2, Quotient, Remainder;
    LowMasks();
    PowersOfTwo();
    BaseParts(tvec);
    MaskValue(tvec, 2);
    ClearedValue(tvec, 2);
    QuotientIsDivision(ValueOf(tvec), 4);
    OneValue();
    if ValueOf(Mode(tvec)) == 1 {
      SameValue(Mode(tvec), 1);
    }
  }

  /** The handler's address in numbers: the base, a multiple of 4, in direct mode, and four bytes further
      for each cause in vectored mode, which is mode 1. */
  lemma TargetValue(tvec: Word, cause: Word)
    ensures var base, mode := ValueOf(tvec) / 4 * 4, ValueOf(tvec) % 4;
            ValueOf(Target(tvec, cause)) ==
            if mode == 1 then (base + 4 * (ValueOf(cause) % 4096)) % 0x1_0000_0000 else base
  {
    hide ValueOf, Target, Base, Mode, Offset, Plus;
    TargetSum(tvec, cause);
    BaseValue(tvec);
    OffsetValue(cause);
    PlusValue(Base(tvec), Offset(cause));
  }

  lemma TargetSum(tvec: Word, cause: Word)
    ensures Target(tvec, cause) == if Mode(tvec) == 1 then Plus(Base(tvec), Offset(cause)) else Base(tvec)
  {
    hide Base, Mode, Offset;
  }

  lemma PowersOfTwo()
    ensures Pow2(2) == 4 && Pow2(12) == 4096
  {
    assert Pow2(6) == 64;
  }

  lemma SumValue(x: Word, y: Word)
    ensures ValueOf(x + y) == (ValueOf(x) + ValueOf(y)) % 0x1_0000_0000
  {
    hide ValueOf;
    PlusValue(x, y);
  }

  lemma LaterForNext(time: Word, id: Word)
    ensures Later(time, id) == Later(time, id - 1) + 5
  {
  }

  lemma LaterForFirst(time: Word)
    ensures Later(time, 0) == time + 50
  {
  }

  /** The time register moves on by 50, and by 5 more for each core before. */
  lemma {:induction false} LaterValue(time: Word, id: Word)
    ensures ValueOf(Later(time, id)) == (ValueOf(time) + 50 + 5 * ValueOf(id)) % 0x1_0000_0000
    decreases ValueOf(id)
  {
    hide ValueOf, Later;
    FewValues();
    if id == 0 {
      LaterForFirst(time);
      SumValue(time, 50);
    } else {
      Before(id);
      LaterValue(time, id - 1);
      LaterForNext(time, id);
      SumValue(Later(time, id - 1), 5);
    }
  }

  lemma FewValues()
    ensures ValueOf(50) == 50 && ValueOf(5) == 5 && ValueOf(0) == 0
  {
  }

  /** What the registers read by their numbers after a trap that is not delegated. */
  lemma TrapByNumber(h: Hart, cause: Word)
    requires h.Ok() && cause & 0xFFF < 32 && !(Test(ReadCsr(h, 0x302), (cause & 0xFFF) as nat) && h.privilege <= 1)
    ensures var t := AfterException(h, cause);
            && ReadCsr(t, 0x341) == h.pc && ReadCsr(t, 0x342) == cause && ReadCsr(t, 0x343) == 0
            && ReadCsr(t, 0x300) == Entered(ReadCsr(h, 0x300), h.privilege)
            && t.pc == Target(ReadCsr(h, 0x305), cause) && t.privilege == 3
  {
    hide Entered, Mie, Target, Test, Sstatus, Merged, Later, Reset;
    PlainRead(h);
    TrapEntry(h, cause);
  }

  /** And after one that is. */
  lemma DelegatedByNumber(h: Hart, cause: Word)
    requires h.Ok() && cause & 0xFFF < 32 && Test(ReadCsr(h, 0x302), (cause & 0xFFF) as nat) && h.privilege <= 1
    ensures var t := AfterException(h, cause);
            && ReadCsr(t, 0x141) == h.pc && ReadCsr(t, 0x142) == cause && ReadCsr(t, 0x143) == 0
            && ReadCsr(t, 0x300) == Merged(ReadCsr(h, 0x300), EnteredS(ReadCsr(h, 0x100), h.privilege), 0x622)
            && ReadCsr(h, 0x100) == Sstatus(ReadCsr(h, 0x300))
            && t.pc == Target(ReadCsr(h, 0x105), cause) && t.privilege == 1
  {
    hide EnteredS, Target, Test, Sstatus, Merged, Later, Reset, AfterException;
    PlainRead(h);
    DelegatedEntry(h, cause);
  }

  lemma MergedParts(w: Word, v: Word, mask: Word)
    ensures Merged(w, v, mask) & mask == v & mask && Merged(w, v, mask) & !mask == w & !mask
  {
  }

  lemma ResetBit(v: Word)
    ensures Reset(v) <==> Meets(v, 0x2)
  {
  }

  /** What the registers read by their numbers after a write of any of them. */
  lemma WriteByNumber(h: Hart, a: nat, v: Word, b: nat)
    requires h.Ok()
    ensures ReadCsr(WriteCsr(h, a, v), b) ==
            if a == 0x100 && b == 0x100 then Sstatus(Merged(ReadCsr(h, 0x300), v, 0x622))
            else if a == 0x100 && b == 0x300 then Merged(ReadCsr(h, 0x300), v, 0x622)
            else if a == 0x300 && b == 0x100 then Sstatus(v)
            else if a == 0x344 && b == 0x344 then Merged(ReadCsr(h, 0x344), v, 0x222)
            else if a == 0xC01 && b == 0xC01 then Later(v, h.id)
            else if a == 0xB01 && b == 0xB00 && Meets(v, 0x2) then 0
            else if a == 0xB14 && 0xB10 <= b <= 0xB13 && Meets(v, 0x2) then 0
            else if a == b < 0x1000 && a != 0xF14 && a != 0xB00 && !(0xB10 <= a <= 0xB14) then v
            else ReadCsr(h, b)
    ensures ReadCsr(h, 0xF14) == h.id && (b >= 0x1000 ==> ReadCsr(h, b) == 0)
    ensures ReadCsr(AfterRead(h, 0xC01), 0xC01) == Later(ReadCsr(h, 0xC01), h.id)
  {
    hide Sstatus, Merged, Later, Reset, Meets, ReadCounter, WriteCsr, AfterRead;
    ResetBit(v);
    ReadWrite(h, a, v, b);
    ReadAgain(h, 0xC01, 0xC01);
  }

  // ----- the core -----

  class Core {
    const coreId: Word
    var pc: Word
    var privilege: Word
    var csrs: seq<Word>
    var counter: Word
    var control: Word
    var event: Word
    var globals: seq<Word>

    ghost predicate Valid()
      reads this
    {
      State().Ok()
    }

    function State(): Hart
      reads this
    {
      Hart(coreId, pc, privilege, csrs, counter, control, event, globals)
    }

    constructor (coreId: Word, globals: seq<Word>)
      requires |globals| == 4
      ensures Valid()
      ensures State() == Hart(coreId, 0, PRV_M, seq(CSR_COUNT, _ => 0)[MSTATUS := 0x1800][0x304 := 0x888],
                              0, 0, 0, globals)
    {
      this.coreId, pc, privilege := coreId, 0, PRV_M;
      csrs := seq(CSR_COUNT, _ => 0)[MSTATUS := 0x1800][0x304 := 0x888];
      counter, control, event := 0, 0, 0;
      this.globals := globals;
    }

    method Read(a: nat) returns (v: Word)
      requires Valid()
      modifies `csrs
      ensures Valid() && v == ReadCsr(old(State()), a) && State() == AfterRead(old(State()), a)
    {
      hide Sstatus, Later;
      if a >= CSR_COUNT {
        return 0;
      }
      match a
      case 0x100 => v := Sstatus(csrs[MSTATUS]);
      case 0xF14 => v := coreId;
      case 0xC01 =>
        csrs := csrs[TIME := Later(csrs[TIME], coreId)];
        v := csrs[TIME];
      case 0xB00 => v := counter;
      case 0xB01 => v := control;
      case 0xB02 => v := event;
      case 0xB10 => v := globals[0];
      case 0xB11 => v := globals[1];
      case 0xB12 => v := globals[2];
      case 0xB13 => v := globals[3];
      case _ => v := csrs[a];
    }

    method Write(a: nat, v: Word)
      requires Valid()
      modifies `csrs, `counter, `control, `event, `globals
      ensures Valid() && State() == WriteCsr(old(State()), a, v)
    {
      hide Sstatus, Merged, Later, Reset;
      if a >= CSR_COUNT {
        return;
      }
      match a
      case 0x100 =>
        var mstatus := csrs[MSTATUS];
        mstatus := Merged(mstatus, v, 0x622);
        csrs := csrs[MSTATUS := mstatus];
      case 0x344 =>
        csrs := csrs[MIP := Merged(csrs[MIP], v, 0x222)];
      case 0xF14 =>
      case 0xB01 =>
        control := v;
        if Reset(v) {
          counter := 0;
        }
      case 0xB02 =>
        event := v;
      case 0xB00 =>
      case 0xB10 =>
      case 0xB11 =>
      case 0xB12 =>
      case 0xB13 =>
      case 0xB14 =>
        if Reset(v) {
          globals := ZeroCounters();
        }
      case _ =>
        csrs := csrs[a := v];
    }

    /** Each register is read when the trap needs it, and written when it has been computed. */
    method TakeException(cause: Word)
      requires Valid() && cause & 0xFFF < 32
      modifies this
      ensures Valid() && State() == AfterException(old(State()), cause)
    {
      hide ReadCsr, Test, AfterException;
      PlainRead(State());
      var medeleg := ReadCsr(State(), MEDELEG);
      if Test(medeleg, (cause & 0xFFF) as nat) && privilege <= PRV_S {
        EnterSupervisor(cause);
      } else {
        EnterMachine(cause);
      }
    }

    method EnterSupervisor(cause: Word)
      requires Valid() && cause & 0xFFF < 32 && Delegated(State(), cause)
      modifies this
      ensures Valid() && State() == AfterException(old(State()), cause)
    {
      hide ReadCsr, WriteCsr, Target, Delegated, EnteredS;
      var sstatus := ReadCsr(State(), SSTATUS);
      Write(SSTATUS, EnteredS(sstatus, privilege));
      Write(SEPC, pc);
      Write(SCAUSE, cause);
      Write(STVAL, 0);
      var stvec := ReadCsr(State(), STVEC);
      pc := Target(stvec, cause);
      privilege := PRV_S;
    }

    method EnterMachine(cause: Word)
      requires Valid() && cause & 0xFFF < 32 && !Delegated(State(), cause)
      modifies this
      ensures Valid() && State() == AfterException(old(State()), cause)
    {
      hide ReadCsr, WriteCsr, Target, Delegated, Entered;
      var mstatus := ReadCsr(State(), MSTATUS);
      Write(MSTATUS, Entered(mstatus, privilege));
      Write(MEPC, pc);
      Write(MCAUSE, cause);
      Write(MTVAL, 0);
      var mtvec := ReadCsr(State(), MTVEC);
      pc := Target(mtvec, cause);
      privilege := PRV_M;
    }

    method Mret()
      requires Valid()
      modifies this
      ensures State() == AfterMret(old(State()))
    {
      hide ReadCsr, WriteCsr, Returned, SavedPrivilege;
      var mstatus, mepc := ReadCsr(State(), MSTATUS), ReadCsr(State(), MEPC);
      var left, mpp := Return(mstatus);
      Write(MSTATUS, left);
      privilege := mpp;
      pc := mepc;
    }

    /** The fields of the status one by one. */
    static method Return(mstatus: Word) returns (left: Word, mpp: Word)
      ensures left == Returned(mstatus) && mpp == SavedPrivilege(mstatus)
    {
      var mpie := (mstatus >> 7) & 0x1;
      mpp := (mstatus >> 11) & 0x3;
      left := (mstatus & !0x8) | (mpie << 3);
      left := (left & !0x80) | 0x80;
      left := (left & !0x1800) | 0x1800;
    }
  }
}
