/** The MSI directory: which cores hold a copy of which line, in which state.

  A line that the directory has never seen behaves like one of which every copy is invalid. */
module Coherence {

  datatype State = Invalid | Shared | Modified

  datatype Event =
    | Read(core: nat, addr: nat)
    | Write(core: nat, addr: nat)
    | Invalidate(core: nat, addr: nat)
    | Broadcast(core: nat, addr: nat)

  datatype Stats = Stats(readHits: nat, readMisses: nat, writeHits: nat, writeMisses: nat,
                         invalidations: nat, broadcasts: nat)

  type Directory = map<nat, seq<State>>

  /** Reads and writes come from cores that exist; an invalidation may name any core to be spared. */
  predicate Legal(n: nat, e: Event) { e.Read? || e.Write? ==> e.core < n }

  ghost predicate Ok(n: nat, d: Directory) {
    forall a :: a in d ==> |d[a]| == n
  }

  // ----- one line -----

  function NoCopies(n: nat): (r: seq<State>)
    ensures |r| == n && forall c :: 0 <= c < n ==> r[c] == Invalid
  {
    seq(n, _ => Invalid)
  }

  function LineOf(n: nat, d: Directory, a: nat): (r: seq<State>)
    requires Ok(n, d)
    ensures |r| == n
  {
    if a in d then d[a] else NoCopies(n)
  }

  /** A copy fetched by core c; an owner is downgraded. */
  function Fetch(line: seq<State>, c: nat): (r: seq<State>)
    ensures |r| == |line|
    ensures forall i :: 0 <= i < |r| ==> r[i] == if i == c || line[i] == Modified then Shared else line[i]
  {
    seq(|line|, i requires 0 <= i < |line| => if i == c || line[i] == Modified then Shared else line[i])
  }

  function KeepOnly(line: seq<State>, c: nat): (r: seq<State>)
    ensures |r| == |line|
    ensures forall i :: 0 <= i < |r| ==> r[i] == if i == c then line[i] else Invalid
  {
    seq(|line|, i requires 0 <= i < |line| => if i == c then line[i] else Invalid)
  }

  /** What an event does to its line. */
  function StepLine(line: seq<State>, e: Event): (r: seq<State>)
    requires Legal(|line|, e)
    ensures |r| == |line|
  {
    match e
    case Read(c, _) => if line[c] == Invalid then Fetch(line, c) else line
    case Write(c, _) => if line[c] == Modified then line else KeepOnly(line, c)[c := Modified]
    case Invalidate(c, _) => KeepOnly(line, c)
    case Broadcast(c, _) => KeepOnly(line, c)
  }

  /** The cores other than c that hold a copy. */
  function Others(line: seq<State>, c: nat): set<nat> {
    set i | 0 <= i < |line| && i != c && line[i] != Invalid
  }

  function Count(line: seq<State>, s: Stats, e: Event): Stats
    requires Legal(|line|, e)
  {
    var dropped := |Others(line, e.core)|;
    match e
    case Read(c, _) => if line[c] == Invalid then s.(readMisses := s.readMisses + 1) else s.(readHits := s.readHits + 1)
    case Write(c, _) =>
      if line[c] == Modified then s.(writeHits := s.writeHits + 1)
      else if line[c] == Shared then s.(writeHits := s.writeHits + 1, invalidations := s.invalidations + dropped)
      else s.(writeMisses := s.writeMisses + 1, invalidations := s.invalidations + dropped)
    case Invalidate(_, _) => s.(invalidations := s.invalidations + dropped)
    case Broadcast(_, _) => s.(invalidations := s.invalidations + dropped, broadcasts := s.broadcasts + 1)
  }

  // ----- the directory -----

  /** What an event makes of the directory and its counters. */
  ghost predicate Steps(n: nat, d: Directory, s: Stats, e: Event, d': Directory, s': Stats)
    requires Ok(n, d) && Legal(n, e)
  {
    var line := LineOf(n, d, e.addr);
    && Ok(n, d')
    && (forall a :: LineOf(n, d', a) == if a == e.addr then StepLine(line, e) else LineOf(n, d, a))
    && s' == Count(line, s, e)
    && Copies(d') == Copies(d[e.addr := StepLine(line, e)])
  }

  class CacheCoherence {
    const numCores: nat
    var directory: Directory
    var stats: Stats

    ghost predicate Valid()
      reads this
    {
      Ok(numCores, directory)
    }

    ghost function Line(a: nat): seq<State>
      requires Valid()
      reads this
    {
      LineOf(numCores, directory, a)
    }

    constructor (numCores: nat)
      ensures Valid() && this.numCores == numCores && directory == map[] && stats == Stats(0, 0, 0, 0, 0, 0)
    {
      this.numCores, directory, stats := numCores, map[], Stats(0, 0, 0, 0, 0, 0);
    }

    method HandleRead(core: nat, address: nat) returns (state: State)
      requires Valid() && core < numCores
      modifies this
      ensures Steps(numCores, old(directory), old(stats), Read(core, address), directory, stats)
      ensures state == Line(address)[core]
    {
      if address !in directory {
        directory := directory[address := NoCopies(numCores)[core := Shared]];
        stats := stats.(readMisses := stats.readMisses + 1);
        return Shared;
      }
      var states := directory[address];
      if states[core] == Invalid {
        stats := stats.(readMisses := stats.readMisses + 1);
        var found := false;
        for i := 0 to numCores
          invariant found <==> exists j :: 0 <= j < i && j != core && states[j] == Modified
        {
          if i != core && states[i] == Modified {
            found := true;
          }
        }
        states := states[core := Shared];
        if found {
          ghost var line := states;
          for i := 0 to numCores
            invariant |states| == numCores
            invariant forall j :: 0 <= j < numCores ==>
                        states[j] == if j < i && j != core && line[j] == Modified then Shared else line[j]
          {
            if i != core && states[i] == Modified {
              states := states[i := Shared];
            }
          }
        }
        assert states == Fetch(old(directory[address]), core);
        directory := directory[address := states];
        state := Shared;
      } else {
        stats := stats.(readHits := stats.readHits + 1);
        SameLine(directory, address);
        state := states[core];
      }
    }

    method HandleWrite(core: nat, address: nat) returns (state: State)
      requires Valid() && core < numCores
      modifies this
      ensures Steps(numCores, old(directory), old(stats), Write(core, address), directory, stats)
      ensures state == Line(address)[core] == Modified
    {
      if address !in directory {
        directory := directory[address := NoCopies(numCores)[core := Modified]];
        stats := stats.(writeMisses := stats.writeMisses + 1);
        assert Others(NoCopies(numCores), core) == {};
        return Modified;
      }
      var states := directory[address];
      if states[core] == Invalid {
        stats := stats.(writeMisses := stats.writeMisses + 1);
        DropOthers(core, address);
        directory := directory[address := directory[address][core := Modified]];
      } else if states[core] == Shared {
        stats := stats.(writeHits := stats.writeHits + 1);
        DropOthers(core, address);
        directory := directory[address := directory[address][core := Modified]];
      } else {
        stats := stats.(writeHits := stats.writeHits + 1);
        SameLine(directory, address);
      }
      state := Modified;
    }

    method DropOthers(core: nat, address: nat)
      requires Valid() && address in directory
      modifies this
      ensures directory == old(directory)[address := KeepOnly(old(directory)[address], core)]
      ensures stats == old(stats).(invalidations := old(stats).invalidations + |Others(old(directory)[address], core)|)
    {
      var states := directory[address];
      ghost var line := states;
      for i := 0 to numCores
        invariant directory == old(directory) && |states| == numCores
        invariant forall j :: 0 <= j < numCores ==> states[j] == if j < i && j != core then Invalid else line[j]
        invariant stats == old(stats).(invalidations := old(stats).invalidations + |Others(line[..i], core)|)
      {
        if i != core && states[i] != Invalid {
          states := states[i := Invalid];
          stats := stats.(invalidations := stats.invalidations + 1);
        }
        OthersSnoc(line, i, core);
      }
      assert states == KeepOnly(line, core);
      assert line[..numCores] == line;
      directory := directory[address := states];
    }

    method InvalidateOtherCores(core: nat, address: nat)
      requires Valid()
      modifies this
      ensures Steps(numCores, old(directory), old(stats), Invalidate(core, address), directory, stats)
    {
      if address in directory {
        DropOthers(core, address);
      } else {
        assert Others(NoCopies(numCores), core) == {};
        AbsentLine(directory, address, numCores);
      }
    }

    method BroadcastUpdate(core: nat, address: nat)
      requires Valid()
      modifies this
      ensures Steps(numCores, old(directory), old(stats), Broadcast(core, address), directory, stats)
    {
      stats := stats.(broadcasts := stats.broadcasts + 1);
      InvalidateOtherCores(core, address);
    }
  }

  lemma OthersSnoc(line: seq<State>, i: nat, c: nat)
    requires i < |line|
    ensures |Others(line[..i + 1], c)| == |Others(line[..i], c)| + (if i != c && line[i] != Invalid then 1 else 0)
  {
    if i != c && line[i] != Invalid {
      assert Others(line[..i + 1], c) == Others(line[..i], c) + {i};
    } else {
      assert Others(line[..i + 1], c) == Others(line[..i], c);
    }
  }

  // ----- copies -----

  /** The pairs of a line and a core that holds it. */
  function Copies(d: Directory): set<(nat, nat)> {
    set a, c | a in d && 0 <= c < |d[a]| && d[a][c] != Invalid :: (a, c)
  }

  function Holders(line: seq<State>): set<nat> {
    set c | 0 <= c < |line| && line[c] != Invalid
  }

  lemma SameLine(d: Directory, a: nat)
    requires a in d
    ensures d[a := d[a]] == d
  {
  }

  lemma AbsentLine(d: Directory, a: nat, n: nat)
    requires a !in d
    ensures Copies(d[a := NoCopies(n)]) == Copies(d)
  {
  }

  function Tag(a: nat, cs: set<nat>): set<(nat, nat)> {
    set c | c in cs :: (a, c)
  }

  lemma {:induction false} TagSize(a: nat, cs: set<nat>)
    ensures |Tag(a, cs)| == |cs|
  {
    if cs == {} {
    } else {
      var x :| x in cs;
      TagSize(a, cs - {x});
      assert Tag(a, cs) == Tag(a, cs - {x}) + {(a, x)};
    }
  }

  function CopiesElsewhere(d: Directory, a: nat): set<(nat, nat)> {
    set p | p in Copies(d) && p.0 != a
  }

  lemma SplitCopies(d: Directory, a: nat, n: nat)
    requires Ok(n, d)
    ensures |Copies(d)| == |CopiesElsewhere(d, a)| + |Holders(LineOf(n, d, a))|
  {
    var here, elsewhere := Tag(a, Holders(LineOf(n, d, a))), CopiesElsewhere(d, a);
    forall p | p in Copies(d)
      ensures p in here + elsewhere
    {
      assert p.0 == a ==> p == (a, p.1) && p.1 in Holders(LineOf(n, d, a));
    }
    assert here !! elsewhere;
    assert Copies(d) == here + elsewhere;
    TagSize(a, Holders(LineOf(n, d, a)));
  }

  lemma Replaced(d: Directory, a: nat, n: nat, line: seq<State>)
    requires Ok(n, d) && |line| == n
    ensures |Copies(d[a := line])| + |Holders(LineOf(n, d, a))| == |Copies(d)| + |Holders(line)|
  {
    SplitCopies(d, a, n);
    SplitCopies(d[a := line], a, n);
    assert CopiesElsewhere(d[a := line], a) == CopiesElsewhere(d, a);
  }

  /** One event: every miss makes a copy, every invalidation removes one. */
  lemma StepConserves(line: seq<State>, s: Stats, e: Event)
    requires Legal(|line|, e)
    ensures var s' := Count(line, s, e);
            |Holders(StepLine(line, e))| + s'.invalidations + s.readMisses + s.writeMisses ==
            |Holders(line)| + s.invalidations + s'.readMisses + s'.writeMisses
  {
    var c, h := e.core, Holders(line);
    assert Others(line, c) == h - {c};
    assert Holders(KeepOnly(line, c)) == h * {c};
    match e
    case Read(_, _) =>
      assert line[c] == Invalid ==> Holders(Fetch(line, c)) == h + {c};
    case Write(_, _) =>
      assert Holders(KeepOnly(line, c)[c := Modified]) == {c};
    case _ =>
  }

  // ----- the state of a line as a function of its history -----

  /** Some write of core c is followed only by its own events on the line. */
  ghost predicate Owns(h: seq<Event>, a: nat, c: nat) {
    exists k :: 0 <= k < |h| && h[k] == Write(c, a) && UntouchedSince(h, a, c, k)
  }

  ghost predicate UntouchedSince(h: seq<Event>, a: nat, c: nat, k: nat) {
    forall j :: k < j < |h| && h[j].addr == a ==> h[j].core == c
  }

  /** Some access of core c is followed, on the line, only by its own events and by reads. */
  ghost predicate Keeps(h: seq<Event>, a: nat, c: nat) {
    exists k :: 0 <= k < |h| && Accesses(h[k], a, c) && OnlyReadSince(h, a, c, k)
  }

  predicate Accesses(e: Event, a: nat, c: nat) { e == Read(c, a) || e == Write(c, a) }

  ghost predicate OnlyReadSince(h: seq<Event>, a: nat, c: nat, k: nat) {
    forall j :: k < j < |h| && h[j].addr == a && h[j].core != c ==> h[j].Read?
  }

  ghost function FromHistory(h: seq<Event>, a: nat, c: nat): State {
    if Owns(h, a, c) then Modified else if Keeps(h, a, c) then Shared else Invalid
  }

  function LineAfter(n: nat, h: seq<Event>, a: nat): (r: seq<State>)
    requires forall k :: 0 <= k < |h| ==> Legal(n, h[k])
    ensures |r| == n
  {
    if h == [] then
      NoCopies(n)
    else
      var before, e := LineAfter(n, h[..|h| - 1], a), h[|h| - 1];
      if e.addr == a then StepLine(before, e) else before
  }

  lemma OwnsSnoc(h: seq<Event>, e: Event, a: nat, c: nat)
    ensures Owns(h + [e], a, c) <==> e == Write(c, a) || (Owns(h, a, c) && (e.addr == a ==> e.core == c))
  {
    var h' := h + [e];
    assert h'[|h|] == e;
    if e == Write(c, a) {
      assert UntouchedSince(h', a, c, |h|);
    }
    if Owns(h, a, c) && (e.addr == a ==> e.core == c) {
      var k :| 0 <= k < |h| && h[k] == Write(c, a) && UntouchedSince(h, a, c, k);
      assert h'[k] == Write(c, a) && UntouchedSince(h', a, c, k);
    }
    if Owns(h', a, c) {
      var k :| 0 <= k < |h'| && h'[k] == Write(c, a) && UntouchedSince(h', a, c, k);
      if k < |h| {
        assert forall j :: k < j < |h| ==> h[j] == h'[j];
        assert h[k] == Write(c, a) && UntouchedSince(h, a, c, k);
      }
    }
  }

  lemma KeepsSnoc(h: seq<Event>, e: Event, a: nat, c: nat)
    ensures Keeps(h + [e], a, c) <==>
            Accesses(e, a, c) || (Keeps(h, a, c) && (e.addr == a && e.core != c ==> e.Read?))
  {
    var h' := h + [e];
    assert h'[|h|] == e;
    if Accesses(e, a, c) {
      assert OnlyReadSince(h', a, c, |h|);
    }
    if Keeps(h, a, c) && (e.addr == a && e.core != c ==> e.Read?) {
      var k :| 0 <= k < |h| && Accesses(h[k], a, c) && OnlyReadSince(h, a, c, k);
      assert Accesses(h'[k], a, c) && OnlyReadSince(h', a, c, k);
    }
    if Keeps(h', a, c) {
      var k :| 0 <= k < |h'| && Accesses(h'[k], a, c) && OnlyReadSince(h', a, c, k);
      if k < |h| {
        assert forall j :: k < j < |h| ==> h[j] == h'[j];
        assert Accesses(h[k], a, c) && OnlyReadSince(h, a, c, k);
      }
    }
  }

  /** No two cores can both have a claim on a line that one of them owns. */
  lemma OwnerIsAlone(h: seq<Event>, a: nat, c: nat, d: nat)
    requires Owns(h, a, c) && c != d
    ensures !Keeps(h, a, d)
  {
    var k :| 0 <= k < |h| && h[k] == Write(c, a) && UntouchedSince(h, a, c, k);
    forall m | 0 <= m < |h| && Accesses(h[m], a, d)
      ensures !OnlyReadSince(h, a, d, m)
    {
      assert m < k;
    }
  }

  lemma OwnerKeeps(h: seq<Event>, a: nat, c: nat)
    requires Owns(h, a, c)
    ensures Keeps(h, a, c)
  {
    var k :| 0 <= k < |h| && h[k] == Write(c, a) && UntouchedSince(h, a, c, k);
    assert Accesses(h[k], a, c) && OnlyReadSince(h, a, c, k);
  }

  /** Over every history, the state of every copy. */
  lemma {:induction false} StateFromHistory(n: nat, h: seq<Event>, a: nat, c: nat)
    requires (forall k :: 0 <= k < |h| ==> Legal(n, h[k])) && c < n
    ensures LineAfter(n, h, a)[c] == FromHistory(h, a, c)
  {
    if h == [] {
    } else {
      var before, e := h[..|h| - 1], h[|h| - 1];
      assert h == before + [e];
      OwnsSnoc(before, e, a, c);
      KeepsSnoc(before, e, a, c);
      StateFromHistory(n, before, a, c);
      if e.addr == a && e.core < n {
        StateFromHistory(n, before, a, e.core);
      }
      StepFromHistory(LineAfter(n, before, a), before, e, a, c);
    }
  }

  lemma StepFromHistory(line: seq<State>, h: seq<Event>, e: Event, a: nat, c: nat)
    requires Legal(|line|, e) && c < |line| && line[c] == FromHistory(h, a, c)
    requires e.addr == a && e.core < |line| ==> line[e.core] == FromHistory(h, a, e.core)
    ensures (if e.addr == a then StepLine(line, e) else line)[c] == FromHistory(h + [e], a, c)
  {
    hide Owns, Keeps, UntouchedSince, OnlyReadSince;
    OwnsSnoc(h, e, a, c);
    KeepsSnoc(h, e, a, c);
    if Owns(h, a, c) {
      OwnerKeeps(h, a, c);
      if e.core != c {
        OwnerIsAlone(h, a, c, e.core);
      }
    }
    if Owns(h, a, e.core) {
      OwnerKeeps(h, a, e.core);
      if e.core != c {
        OwnerIsAlone(h, a, e.core, c);
      }
    }
  }

  lemma HeldIff(h: seq<Event>, a: nat, c: nat)
    ensures FromHistory(h, a, c) != Invalid <==> Keeps(h, a, c)
  {
    if Owns(h, a, c) {
      OwnerKeeps(h, a, c);
    }
  }

  /** A modified copy is the only copy. */
  lemma SingleWriter(n: nat, h: seq<Event>, a: nat, c: nat, d: nat)
    requires (forall k :: 0 <= k < |h| ==> Legal(n, h[k])) && c < n && d < n && c != d
    requires LineAfter(n, h, a)[c] == Modified
    ensures LineAfter(n, h, a)[d] == Invalid
  {
    StateFromHistory(n, h, a, c);
    StateFromHistory(n, h, a, d);
    OwnerIsAlone(h, a, c, d);
    if Owns(h, a, d) {
      OwnerKeeps(h, a, d);
    }
  }

  /** In a history of reads and writes whose last write to the line is the event at w (or that has
      no write to it, w == -1): the writer owns the line until another core reads it, and the cores
      with a copy are the writer and those that have read the line since. */
  lemma ReadWriteHistory(h: seq<Event>, a: nat, w: int, c: nat)
    requires -1 <= w < |h|
    requires forall j :: 0 <= j < |h| && h[j].addr == a ==> h[j].Read? || h[j].Write?
    requires w >= 0 ==> h[w].Write? && h[w].addr == a
    requires forall j :: w < j < |h| && h[j].addr == a ==> !h[j].Write?
    ensures Owns(h, a, c) <==> w >= 0 && h[w].core == c && UntouchedSince(h, a, c, w)
    ensures Keeps(h, a, c) <==> (w >= 0 && h[w].core == c) || exists j :: w < j < |h| && h[j] == Read(c, a)
  {
    if w >= 0 && h[w].core == c {
      assert h[w] == Write(c, a) && Accesses(h[w], a, c) && OnlyReadSince(h, a, c, w);
    }
    if j :| w < j < |h| && h[j] == Read(c, a) {
      assert Accesses(h[j], a, c) && OnlyReadSince(h, a, c, j);
    }
    forall k | 0 <= k < |h| && Accesses(h[k], a, c) && OnlyReadSince(h, a, c, k)
      ensures (w >= 0 && h[w].core == c) || (w < k && h[k] == Read(c, a))
    {
      assert w < k ==> h[k] == Read(c, a);
    }
    forall k | 0 <= k < |h| && h[k] == Write(c, a) && UntouchedSince(h, a, c, k)
      ensures w >= 0 && h[w].core == c && UntouchedSince(h, a, c, w)
    {
      assert k <= w;
    }
  }

  // ----- whole runs -----

  function ReadCount(h: seq<Event>): nat {
    if h == [] then 0 else ReadCount(h[..|h| - 1]) + (if h[|h| - 1].Read? then 1 else 0)
  }

  function WriteCount(h: seq<Event>): nat {
    if h == [] then 0 else WriteCount(h[..|h| - 1]) + (if h[|h| - 1].Write? then 1 else 0)
  }

  /** The accesses of a history, reads or writes, that found a copy of their own. */
  ghost function HitCount(h: seq<Event>, reading: bool): nat {
    if h == [] then 0 else
      var before, e := h[..|h| - 1], h[|h| - 1];
      HitCount(before, reading) +
      if (if reading then e.Read? else e.Write?) && Keeps(before, e.addr, e.core) then 1 else 0
  }

  function BroadcastCount(h: seq<Event>): nat {
    if h == [] then 0 else BroadcastCount(h[..|h| - 1]) + (if h[|h| - 1].Broadcast? then 1 else 0)
  }

  /** The books of a run: every copy was made by a miss and removed by an invalidation, and
      the hits are the accesses of cores that held a copy. */
  ghost predicate Balanced(d: Directory, s: Stats, h: seq<Event>) {
    && |Copies(d)| + s.invalidations == s.readMisses + s.writeMisses
    && s.readHits + s.readMisses == ReadCount(h)
    && s.writeHits + s.writeMisses == WriteCount(h)
    && s.readHits == HitCount(h, true) && s.writeHits == HitCount(h, false)
    && s.broadcasts == BroadcastCount(h)
  }

  ghost predicate AllLegal(n: nat, h: seq<Event>) {
    forall k :: 0 <= k < |h| ==> Legal(n, h[k])
  }

  /** The directory after a history. */
  ghost predicate Follows(n: nat, d: Directory, h: seq<Event>)
    requires Ok(n, d) && AllLegal(n, h)
  {
    forall a :: LineOf(n, d, a) == LineAfter(n, h, a)
  }

  lemma StepsFollow(n: nat, d: Directory, s: Stats, h: seq<Event>, e: Event, d': Directory, s': Stats)
    requires Ok(n, d) && AllLegal(n, h) && Legal(n, e) && Follows(n, d, h) && Balanced(d, s, h)
    requires Steps(n, d, s, e, d', s')
    ensures Ok(n, d') && AllLegal(n, h + [e]) && Follows(n, d', h + [e]) && Balanced(d', s', h + [e])
  {
    hide StepLine, Count, Copies, FromHistory, Keeps;
    var line := LineOf(n, d, e.addr);
    StepConserves(line, s, e);
    HitsCounted(line, s, e);
    if e.Read? || e.Write? {
      StateFromHistory(n, h, e.addr, e.core);
      HeldIff(h, e.addr, e.core);
    }
    Replaced(d, e.addr, n, StepLine(line, e));
    assert (h + [e])[..|h|] == h;
  }

  lemma HitsCounted(line: seq<State>, s: Stats, e: Event)
    requires Legal(|line|, e)
    ensures var s' := Count(line, s, e);
            && s'.readHits + s'.readMisses == s.readHits + s.readMisses + (if e.Read? then 1 else 0)
            && s'.writeHits + s'.writeMisses == s.writeHits + s.writeMisses + (if e.Write? then 1 else 0)
            && s'.readHits == s.readHits + (if e.Read? && line[e.core] != Invalid then 1 else 0)
            && s'.writeHits == s.writeHits + (if e.Write? && line[e.core] != Invalid then 1 else 0)
            && s'.broadcasts == s.broadcasts + (if e.Broadcast? then 1 else 0)
  {
  }

  method Handle(c: CacheCoherence, e: Event) returns (state: State)
    requires c.Valid() && Legal(c.numCores, e)
    modifies c
    ensures Steps(c.numCores, old(c.directory), old(c.stats), e, c.directory, c.stats)
    ensures e.Read? || e.Write? ==> state == c.Line(e.addr)[e.core]
  {
    state := Invalid;
    match e
    case Read(core, a) => state := c.HandleRead(core, a);
    case Write(core, a) => state := c.HandleWrite(core, a);
    case Invalidate(core, a) => c.InvalidateOtherCores(core, a);
    case Broadcast(core, a) => c.BroadcastUpdate(core, a);
  }

  /** Every run of any number of cores: what each access is told, where every line ends up and what
      the counters say, all from the history alone. */
  method RunEvents(numCores: nat, events: seq<Event>) returns (directory: Directory, stats: Stats, states: seq<State>)
    requires AllLegal(numCores, events)
    ensures Ok(numCores, directory) && |states| == |events|
    ensures forall a, c :: 0 <= c < numCores ==> LineOf(numCores, directory, a)[c] == FromHistory(events, a, c)
    ensures forall k :: 0 <= k < |events| && (events[k].Read? || events[k].Write?) ==>
              states[k] == FromHistory(events[..k + 1], events[k].addr, events[k].core)
    ensures Balanced(directory, stats, events)
  {
    hide FromHistory, Owns, Keeps, StepLine, Count, LineAfter, Balanced, Copies;
    var c := new CacheCoherence(numCores);
    states := [];
    StartsBalanced(numCores, c.directory, c.stats, events[..0]);
    assert events[..0] == [];
    for k := 0 to |events|
      invariant c.Valid() && |states| == k && Follows(numCores, c.directory, events[..k])
      invariant Balanced(c.directory, c.stats, events[..k])
      invariant forall j :: 0 <= j < k && (events[j].Read? || events[j].Write?) ==>
                  states[j] == FromHistory(events[..j + 1], events[j].addr, events[j].core)
    {
      ghost var before, counted := c.directory, c.stats;
      var e := events[k];
      var state := Handle(c, e);
      assert events[..k + 1] == events[..k] + [e];
      StepsFollow(numCores, before, counted, events[..k], e, c.directory, c.stats);
      if e.Read? || e.Write? {
        StateFromHistory(numCores, events[..k + 1], e.addr, e.core);
      }
      states := states + [state];
    }
    assert events[..|events|] == events;
    directory, stats := c.directory, c.stats;
    forall a: nat, core: nat | core < numCores
      ensures LineOf(numCores, directory, a)[core] == FromHistory(events, a, core)
    {
      StateFromHistory(numCores, events, a, core);
    }
  }

  lemma StartsBalanced(n: nat, d: Directory, s: Stats, h: seq<Event>)
    requires d == map[] && s == Stats(0, 0, 0, 0, 0, 0) && h == []
    ensures Balanced(d, s, h) && Follows(n, d, h)
  {
    assert Copies(d) == {};
  }
}
