/** Booting many cores: core 0 runs alone until it leaves a magic word in memory, upon which the
  simulator and its core-state monitor release all others.

  What an instruction does is left open: in every cycle each core that executes may write any
  bytes of memory and may reach its final loop. */
module Boot {
  import opened Words

  datatype CoreState = HALT | RUNNING | IDLE | ERROR

  const CORE_STATES_ADDR := 0x90000
  const RELEASE_SIGNAL_ADDR := 0x98000
  const INIT_PHASE_ADDR := 0x98004
  const RELEASE_SIGNAL_MAGIC: Word := 0xDEADBEEF
  const MAX_CORES := 8192

  // ----- states as words -----

  function CoreStateToValue(s: CoreState): Word {
    match s
    case HALT => 0x01
    case RUNNING => 0x02
    case IDLE => 0x03
    case ERROR => 0xFF
  }

  function ValueToCoreState(v: Word): CoreState {
    if v == 0x01 then HALT else if v == 0x02 then RUNNING else if v == 0x03 then IDLE else ERROR
  }

  /** Decoding inverts encoding; encoding inverts decoding on the four codes only. */
  lemma CodesRoundTrip(s: CoreState, v: Word)
    ensures ValueToCoreState(CoreStateToValue(s)) == s
    ensures CoreStateToValue(ValueToCoreState(v)) == v <==> v == 0x01 || v == 0x02 || v == 0x03 || v == 0xFF
  {
  }

  // ----- the mirror of the states in memory -----

  function MirrorAddress(core: nat): nat { CORE_STATES_ADDR + 4 * core }

  predicate MirrorFits(memory: seq<Byte>, n: nat) { |memory| >= MirrorAddress(n) }

  /** The first n states written to their words. */
  function Mirrored(memory: seq<Byte>, states: seq<CoreState>, n: nat): (r: seq<Byte>)
    requires n <= |states|
    ensures |r| == |memory|
  {
    if n == 0 then memory
    else StoreBytes(Mirrored(memory, states, n - 1), MirrorAddress(n - 1), CoreStateToValue(states[n - 1]))
  }

  lemma {:induction false} MirrorWord(memory: seq<Byte>, states: seq<CoreState>, n: nat, core: nat)
    requires core < n <= |states| && MirrorFits(memory, n)
    ensures LoadBytes(Mirrored(memory, states, n), MirrorAddress(core)) == CoreStateToValue(states[core])
  {
    hide LoadBytes, StoreBytes;
    LoadStored(Mirrored(memory, states, n - 1), MirrorAddress(n - 1), CoreStateToValue(states[n - 1]),
               MirrorAddress(core));
    if core == n - 1 {
    } else {
      MirrorWord(memory, states, n - 1, core);
    }
  }

  /** Every state can be read back from its word. */
  lemma MirrorReads(memory: seq<Byte>, states: seq<CoreState>, core: nat)
    requires core < |states| && MirrorFits(memory, |states|)
    ensures ValueToCoreState(LoadBytes(Mirrored(memory, states, |states|), MirrorAddress(core))) == states[core]
  {
    hide LoadBytes, Mirrored;
    MirrorWord(memory, states, |states|, core);
  }

  lemma {:induction false} MirrorElsewhere(memory: seq<Byte>, states: seq<CoreState>, n: nat, a: nat)
    requires n <= |states| && a + 4 <= |memory| && MirrorFits(memory, n)
    requires a + 4 <= CORE_STATES_ADDR || MirrorAddress(n) <= a
    ensures LoadBytes(Mirrored(memory, states, n), a) == LoadBytes(memory, a)
  {
    hide LoadBytes, StoreBytes;
    if n == 0 {
    } else {
      MirrorElsewhere(memory, states, n - 1, a);
      LoadStored(Mirrored(memory, states, n - 1), MirrorAddress(n - 1), CoreStateToValue(states[n - 1]), a);
    }
  }

  predicate SignalSet(memory: seq<Byte>) {
    |memory| >= RELEASE_SIGNAL_ADDR + 4 && LoadBytes(memory, RELEASE_SIGNAL_ADDR) == RELEASE_SIGNAL_MAGIC
  }

  /** Mirroring the states leaves the release signal for the released cores to see, unless there are
      more cores than the array has room for. */
  lemma SignalKeptIff(memory: seq<Byte>, states: seq<CoreState>)
    requires SignalSet(memory) && MirrorFits(memory, |states|)
    ensures SignalSet(Mirrored(memory, states, |states|)) <==> |states| <= MAX_CORES
  {
    hide LoadBytes, Mirrored;
    if |states| <= MAX_CORES {
      MirrorElsewhere(memory, states, |states|, RELEASE_SIGNAL_ADDR);
    } else {
      SignalIsNoCode(states[MAX_CORES]);
      MirrorWord(memory, states, |states|, MAX_CORES);
    }
  }

  lemma SignalIsNoCode(s: CoreState)
    ensures CoreStateToValue(s) != RELEASE_SIGNAL_MAGIC
  {
  }

  // ----- the whole machine -----

  /** What one instruction of a core may do to the machine: any bytes it writes, and whether the core
      has reached a jump to itself. */
  datatype Effect = Effect(writes: map<nat, Byte>, loops: bool)

  function Written(memory: seq<Byte>, writes: map<nat, Byte>): (r: seq<Byte>)
    ensures |r| == |memory|
  {
    seq(|memory|, a requires 0 <= a < |memory| => if a in writes then writes[a] else memory[a])
  }

  /** The state of the simulator that booting is about: finished and booted are fields of the cores,
      flags are the simulator's booted flags, states to stamp belong to the monitor, and released
      says that the simulator has called its release. */
  datatype Machine = Machine(memory: seq<Byte>, finished: seq<bool>, booted: seq<bool>, flags: seq<bool>,
                             states: seq<CoreState>, detected: bool, processed: bool, stamp: nat, released: bool)
  {
    ghost predicate Sized(n: nat) { |finished| == |booted| == |flags| == |states| == n }
  }

  function Initial(n: nat, size: nat): (m: Machine)
    ensures m.Sized(n) && |m.memory| == size
  {
    var states := seq(n, i => if i == 0 then RUNNING else HALT);
    Machine(Announced(seq(size, _ => 0), states, true), seq(n, _ => false), seq(n, _ => false), seq(n, _ => false),
            states, false, false, 0, false)
  }

  /** The bytes that loading a program puts into memory. */
  type Image = map<nat, Byte>

  function Loaded(m: Machine, image: Image): (r: Machine)
    ensures (forall n :: m.Sized(n) ==> r.Sized(n)) && |r.memory| == |m.memory|
  {
    m.(memory := Written(m.memory, image))
  }

  /** The states and the phase flag written to memory, if the array fits. */
  function Announced(memory: seq<Byte>, states: seq<CoreState>, initPhase: bool): (r: seq<Byte>)
    ensures |r| == |memory|
  {
    if MirrorFits(memory, |states|) then
      StoreBytes(Mirrored(memory, states, |states|), INIT_PHASE_ADDR, if initPhase then 1 else 0)
    else
      memory
  }

  predicate ShouldExecute(s: CoreState, core: nat) { s == RUNNING || (s == ERROR && core == 0) }

  /** The core gets as far as its instruction step. */
  predicate Steps(m: Machine, i: nat)
    requires i < |m.finished| && i < |m.booted| && i < |m.flags|
  {
    !m.finished[i] && (m.booted[i] || i == 0 || m.flags[i])
  }

  /** The core executes an instruction. */
  predicate Executes(m: Machine, i: nat)
    requires i < |m.finished| && i < |m.booted| && i < |m.flags| && i < |m.states|
  {
    Steps(m, i) && ShouldExecute(m.states[i], i)
  }

  function CoreStep(m: Machine, i: nat, e: Effect): (r: Machine)
    requires i < |m.finished| && i < |m.booted| && i < |m.flags| && i < |m.states|
    ensures (forall n :: m.Sized(n) ==> r.Sized(n)) && |r.memory| == |m.memory|
  {
    if Steps(m, i) then
      m.(booted := m.booted[i := true],
         memory := if ShouldExecute(m.states[i], i) then Written(m.memory, e.writes) else m.memory,
         finished := if e.loops then m.finished[i := true] else m.finished)
    else
      m
  }

  /** The first k cores have stepped. */
  function Sweep(m: Machine, k: nat, effects: nat -> Effect): (r: Machine)
    requires m.Sized(|m.states|) && k <= |m.states|
    ensures r.Sized(|m.states|) && |r.memory| == |m.memory|
  {
    if k == 0 then m else CoreStep(Sweep(m, k - 1, effects), k - 1, effects(k - 1))
  }

  function Freed(flags: seq<bool>): (r: seq<bool>)
    ensures |r| == |flags|
    ensures forall i :: 0 <= i < |r| ==> r[i] == if i == 0 then flags[i] else true
  {
    seq(|flags|, i requires 0 <= i < |flags| => if i == 0 then flags[i] else true)
  }

  function Released(states: seq<CoreState>): (r: seq<CoreState>)
    ensures |r| == |states|
    ensures forall i :: 0 <= i < |r| ==> r[i] == if i > 0 && states[i] == HALT then RUNNING else states[i]
  {
    seq(|states|, i requires 0 <= i < |states| => if i > 0 && states[i] == HALT then RUNNING else states[i])
  }

  /** The end of a cycle: a release signal in memory is noted, and acted upon if it is the first. */
  function CheckRelease(m: Machine, cycle: nat): (r: Machine)
    ensures (forall n :: m.Sized(n) ==> r.Sized(n)) && |r.memory| == |m.memory|
  {
    if !SignalSet(m.memory) then
      m
    else if m.released then
      m.(detected := true)
    else
      var r := m.(detected := true, flags := Freed(m.flags), booted := Freed(m.booted), released := true);
      if m.processed then
        r
      else
        var states := Released(m.states);
        r.(stamp := cycle, states := states, processed := true,
           memory := if MirrorFits(m.memory, |states|) then Mirrored(m.memory, states, |states|) else m.memory)
  }

  /** One cycle: every core steps, then the release signal is looked for. */
  function Cycle(m: Machine, cycle: nat, effects: nat -> Effect): (r: Machine)
    requires m.Sized(|m.states|)
    ensures r.Sized(|m.states|) && |r.memory| == |m.memory|
  {
    CheckRelease(Sweep(m, |m.states|, effects), cycle)
  }

  /** What the cores do in every cycle. */
  type Program = (nat, nat) -> Effect

  function InCycle(program: Program, cycle: nat): nat -> Effect { (i: nat) => program(cycle, i) }

  /** The machine at the start of a cycle, whatever its cores do. */
  function At(n: nat, size: nat, image: Image, program: Program, cycle: nat): (m: Machine)
    ensures m.Sized(n) && |m.memory| == size
  {
    if cycle == 0 then Loaded(Initial(n, size), image)
    else Cycle(At(n, size, image, program, cycle - 1), cycle - 1, InCycle(program, cycle - 1))
  }

  /** The machine in a cycle when the first k cores have stepped. */
  function During(n: nat, size: nat, image: Image, program: Program, cycle: nat, k: nat): (m: Machine)
    requires k <= n
    ensures m.Sized(n) && |m.memory| == size
  {
    Sweep(At(n, size, image, program, cycle), k, InCycle(program, cycle))
  }

  /** The release signal is in memory when the cores have stepped. */
  predicate Seen(n: nat, size: nat, image: Image, program: Program, cycle: nat) {
    SignalSet(During(n, size, image, program, cycle, n).memory)
  }

  // ----- safety -----

  /** Booted flags, core flags and monitor states agree on whether the release has happened. */
  ghost predicate Consistent(m: Machine) {
    && m.Sized(|m.states|)
    && m.processed == m.released && (m.released ==> m.detected)
    && (forall i :: 0 < i < |m.states| ==>
          && m.flags[i] == m.released && m.booted[i] == m.released
          && m.states[i] == (if m.released then RUNNING else HALT)
          && (m.finished[i] ==> m.released))
    && (|m.states| > 0 ==> m.states[0] == RUNNING && !m.flags[0])
  }

  lemma StepConsistent(m: Machine, i: nat, e: Effect)
    requires Consistent(m) && i < |m.states|
    ensures var r := CoreStep(m, i, e);
            Consistent(r) && r.released == m.released && r.stamp == m.stamp
    ensures Steps(m, i) <==> !m.finished[i] && (i == 0 || m.released)
    ensures Steps(m, i) ==> Executes(m, i)
  {
  }

  lemma {:induction false} SweepConsistent(m: Machine, k: nat, effects: nat -> Effect)
    requires Consistent(m) && k <= |m.states|
    ensures var r := Sweep(m, k, effects);
            Consistent(r) && r.released == m.released && r.stamp == m.stamp
  {
    if k == 0 {
    } else {
      SweepConsistent(m, k - 1, effects);
      StepConsistent(Sweep(m, k - 1, effects), k - 1, effects(k - 1));
    }
  }

  lemma CheckConsistent(m: Machine, cycle: nat)
    requires Consistent(m)
    ensures var r := CheckRelease(m, cycle);
            && Consistent(r) && (r.released <==> m.released || SignalSet(m.memory))
            && r.stamp == if m.released || !SignalSet(m.memory) then m.stamp else cycle
  {
  }

  lemma {:induction false} AlwaysConsistent(n: nat, size: nat, image: Image, program: Program, cycle: nat)
    ensures Consistent(At(n, size, image, program, cycle))
  {
    if cycle == 0 {
    } else {
      var m, effects := At(n, size, image, program, cycle - 1), InCycle(program, cycle - 1);
      AlwaysConsistent(n, size, image, program, cycle - 1);
      SweepConsistent(m, n, effects);
      CheckConsistent(Sweep(m, n, effects), cycle - 1);
    }
  }

  lemma NextCycle(n: nat, size: nat, image: Image, program: Program, cycle: nat)
    ensures var m, r := At(n, size, image, program, cycle), At(n, size, image, program, cycle + 1);
            && (r.released <==> m.released || Seen(n, size, image, program, cycle))
            && r.stamp == if m.released || !Seen(n, size, image, program, cycle) then m.stamp else cycle
  {
    var m, effects := At(n, size, image, program, cycle), InCycle(program, cycle);
    AlwaysConsistent(n, size, image, program, cycle);
    SweepConsistent(m, n, effects);
    CheckConsistent(Sweep(m, n, effects), cycle);
  }

  /** The release happens once, in the first cycle at whose end the signal is seen. */
  lemma {:induction false} ReleasedIff(n: nat, size: nat, image: Image, program: Program, cycle: nat)
    ensures var m := At(n, size, image, program, cycle);
            && (m.released <==> exists k: nat :: k < cycle && Seen(n, size, image, program, k))
            && (!m.released ==> m.stamp == 0)
            && (m.released ==> m.stamp < cycle && Seen(n, size, image, program, m.stamp)
                               && forall k: nat :: k < m.stamp ==> !Seen(n, size, image, program, k))
  {
    hide Seen, Cycle;
    if cycle == 0 {
    } else {
      ReleasedIff(n, size, image, program, cycle - 1);
      NextCycle(n, size, image, program, cycle - 1);
      var m, r := At(n, size, image, program, cycle - 1), At(n, size, image, program, cycle);
      assert Seen(n, size, image, program, cycle - 1) ==> r.released;
    }
  }

  /** In an earlier cycle the core was free to step, and its instruction was a jump to itself. */
  ghost predicate Looped(n: nat, size: nat, image: Image, program: Program, cycle: nat, i: nat) {
    exists k: nat :: k < cycle && program(k, i).loops && Free(n, size, image, program, k, i)
  }

  /** Core 0 is always free to step, any other once the signal has been seen in an earlier cycle. */
  ghost predicate Free(n: nat, size: nat, image: Image, program: Program, cycle: nat, i: nat) {
    i == 0 || exists k: nat :: k < cycle && Seen(n, size, image, program, k)
  }

  lemma StepFinishes(m: Machine, k: nat, e: Effect, i: nat)
    requires Consistent(m) && k < |m.states| && i < |m.states|
    ensures CoreStep(m, k, e).finished[i] <==> m.finished[i] || (i == k && (i == 0 || m.released) && e.loops)
  {
    StepConsistent(m, k, e);
  }

  /** Of the first k cores, exactly those that are free to step and loop finish in a cycle. */
  lemma {:induction false} SweepFinishes(m: Machine, k: nat, effects: nat -> Effect, i: nat)
    requires Consistent(m) && k <= |m.states| && i < |m.states|
    ensures Sweep(m, k, effects).finished[i] <==>
            m.finished[i] || (i < k && (i == 0 || m.released) && effects(i).loops)
  {
    hide CoreStep, Consistent;
    assert m.Sized(|m.states|) by {
      ConsistentSized(m);
    }
    if k == 0 {
    } else {
      SweepFinishes(m, k - 1, effects, i);
      SweepConsistent(m, k - 1, effects);
      StepFinishes(Sweep(m, k - 1, effects), k - 1, effects(k - 1), i);
    }
  }

  lemma ConsistentSized(m: Machine)
    requires Consistent(m)
    ensures m.Sized(|m.states|)
  {
  }

  lemma OneMoreLoop(n: nat, size: nat, image: Image, program: Program, cycle: nat, i: nat)
    ensures Looped(n, size, image, program, cycle + 1, i) <==>
            || Looped(n, size, image, program, cycle, i)
            || (program(cycle, i).loops && Free(n, size, image, program, cycle, i))
  {
    hide Free;
  }

  lemma OneMoreFinish(n: nat, size: nat, image: Image, program: Program, cycle: nat, i: nat)
    requires i < n
    ensures At(n, size, image, program, cycle + 1).finished[i] <==>
            || At(n, size, image, program, cycle).finished[i]
            || (program(cycle, i).loops && Free(n, size, image, program, cycle, i))
  {
    hide Seen, Sweep;
    AlwaysConsistent(n, size, image, program, cycle);
    ReleasedIff(n, size, image, program, cycle);
    SweepFinishes(At(n, size, image, program, cycle), n, InCycle(program, cycle), i);
  }

  lemma NothingLooped(n: nat, size: nat, image: Image, program: Program, i: nat)
    requires i < n
    ensures !At(n, size, image, program, 0).finished[i] && !Looped(n, size, image, program, 0, i)
  {
    hide Free;
  }

  /** A core has finished exactly if it has stepped on a jump to itself. */
  lemma {:induction false} FinishedIff(n: nat, size: nat, image: Image, program: Program, cycle: nat, i: nat)
    requires i < n
    ensures At(n, size, image, program, cycle).finished[i] <==> Looped(n, size, image, program, cycle, i)
  {
    hide At, Looped, Free;
    if cycle == 0 {
      NothingLooped(n, size, image, program, i);
    } else {
      FinishedIff(n, size, image, program, cycle - 1, i);
      OneMoreFinish(n, size, image, program, cycle - 1, i);
      OneMoreLoop(n, size, image, program, cycle - 1, i);
    }
  }

  /** Boot safety: over every run, core 0 executes in every cycle, and any other core exactly in those
      that follow a cycle in which the signal was seen, until they have stepped on a jump to themselves. */
  lemma ExecutesIff(n: nat, size: nat, image: Image, program: Program, cycle: nat, i: nat)
    requires i < n
    ensures Executes(During(n, size, image, program, cycle, i), i) <==>
            Free(n, size, image, program, cycle, i) && !Looped(n, size, image, program, cycle, i)
  {
    hide Seen, Looped;
    var m, effects := At(n, size, image, program, cycle), InCycle(program, cycle);
    AlwaysConsistent(n, size, image, program, cycle);
    ReleasedIff(n, size, image, program, cycle);
    SweepConsistent(m, i, effects);
    StepConsistent(Sweep(m, i, effects), i, effects(i));
    SweepFinishes(m, i, effects, i);
    FinishedIff(n, size, image, program, cycle, i);
  }

  /** Every core has stepped on a jump to itself. */
  ghost predicate AllLooped(n: nat, size: nat, image: Image, program: Program, cycle: nat) {
    forall i :: 0 <= i < n ==> Looped(n, size, image, program, cycle, i)
  }

  /** At the end of the cycle of the release, the words of all cores in memory read as running. */
  lemma MirrorAfterRelease(n: nat, size: nat, image: Image, program: Program, cycle: nat, core: nat)
    requires core < n && MirrorAddress(n) <= size
    requires Seen(n, size, image, program, cycle) && forall k: nat :: k < cycle ==> !Seen(n, size, image, program, k)
    ensures ValueToCoreState(LoadBytes(At(n, size, image, program, cycle + 1).memory, MirrorAddress(core))) == RUNNING
  {
    hide LoadBytes, Mirrored, StoreBytes;
    var m, effects := At(n, size, image, program, cycle), InCycle(program, cycle);
    var swept := Sweep(m, n, effects);
    AlwaysConsistent(n, size, image, program, cycle);
    ReleasedIff(n, size, image, program, cycle);
    SweepConsistent(m, n, effects);
    CheckConsistent(swept, cycle);
    MirrorReads(swept.memory, Released(swept.states), core);
  }

  // ----- running and debugging -----

  predicate AllFinished(m: Machine) { forall i :: 0 <= i < |m.finished| ==> m.finished[i] }

  /** Runs until the cycles are used up or, looked at after each cycle, all cores have finished. */
  function RunFrom(m: Machine, cycle: nat, cycles: nat, program: Program): (r: (Machine, nat))
    requires m.Sized(|m.states|)
    ensures r.0.Sized(|m.states|)
    decreases cycles - cycle
  {
    if cycle >= cycles then (m, cycle)
    else
      var r := Cycle(m, cycle, InCycle(program, cycle));
      if AllFinished(r) then (r, cycle + 1) else RunFrom(r, cycle + 1, cycles, program)
  }

  lemma AllFinishedIff(n: nat, size: nat, image: Image, program: Program, cycle: nat)
    ensures AllFinished(At(n, size, image, program, cycle)) <==> AllLooped(n, size, image, program, cycle)
  {
    hide Looped;
    forall i: nat | i < n
      ensures At(n, size, image, program, cycle).finished[i] <==> Looped(n, size, image, program, cycle, i)
    {
      FinishedIff(n, size, image, program, cycle, i);
    }
  }

  lemma OneCycle(n: nat, size: nat, image: Image, program: Program, cycle: nat)
    ensures At(n, size, image, program, cycle + 1) ==
            Cycle(At(n, size, image, program, cycle), cycle, InCycle(program, cycle))
  {
  }

  /** A run of a new machine ends in one of the machines that the safety theorems speak of: after the given
      number of cycles, or after the first cycle at whose end all cores have looped. */
  lemma {:induction false} RunReaches(n: nat, size: nat, image: Image, cycle: nat, cycles: nat, program: Program)
    ensures var (m, c) := RunFrom(At(n, size, image, program, cycle), cycle, cycles, program);
            && m == At(n, size, image, program, c) && cycle <= c && (c <= cycles || c == cycle)
            && (forall k :: cycle < k < c ==> !AllLooped(n, size, image, program, k))
            && (c < cycles ==> c > cycle && AllLooped(n, size, image, program, c))
    decreases cycles - cycle
  {
    hide AllLooped, AllFinished, Cycle, At, InCycle;
    if cycle >= cycles {
    } else {
      var r := Cycle(At(n, size, image, program, cycle), cycle, InCycle(program, cycle));
      OneCycle(n, size, image, program, cycle);
      AllFinishedIff(n, size, image, program, cycle + 1);
      if !AllFinished(r) {
        RunReaches(n, size, image, cycle + 1, cycles, program);
      }
    }
  }

  /** A cycle of debugging: the release signal is not looked for after a release, and the cycle noted
      for the release is always 0. */
  function DebugCycle(m: Machine, effects: nat -> Effect): (r: Machine)
    requires m.Sized(|m.states|)
    ensures r.Sized(|m.states|)
  {
    var swept := Sweep(m, |m.states|, effects);
    if swept.released then swept else CheckRelease(swept, 0)
  }

  /** The same, but looking before each cycle. */
  function DebugFrom(m: Machine, step: nat, steps: nat, program: Program): (r: (Machine, nat))
    requires m.Sized(|m.states|)
    ensures r.0.Sized(|m.states|)
    decreases steps - step
  {
    if step >= steps || AllFinished(m) then (m, step)
    else DebugFrom(DebugCycle(m, InCycle(program, step)), step + 1, steps, program)
  }

  function Unstamped(m: Machine): Machine { m.(stamp := 0) }

  ghost predicate Alike(m: Machine, d: Machine) {
    m.Sized(|m.states|) && Unstamped(m) == Unstamped(d) && (m.released ==> m.detected)
  }

  lemma {:induction false} SweepAlike(m: Machine, d: Machine, k: nat, effects: nat -> Effect)
    requires Alike(m, d) && k <= |m.states|
    ensures Alike(Sweep(m, k, effects), Sweep(d, k, effects))
  {
    if k == 0 {
    } else {
      SweepAlike(m, d, k - 1, effects);
    }
  }

  lemma CycleAlike(m: Machine, d: Machine, cycle: nat, effects: nat -> Effect)
    requires Alike(m, d)
    ensures Alike(Cycle(m, cycle, effects), DebugCycle(d, effects))
  {
    hide SignalSet, Mirrored;
    SweepAlike(m, d, |m.states|, effects);
  }

  /** Unless all cores have already finished, debugging goes through the same cycles as running. */
  lemma {:induction false} DebugAlike(m: Machine, d: Machine, cycle: nat, cycles: nat, program: Program)
    requires Alike(m, d) && !AllFinished(m)
    ensures var (r, c), (e, s) := RunFrom(m, cycle, cycles, program), DebugFrom(d, cycle, cycles, program);
            Alike(r, e) && c == s
    decreases cycles - cycle
  {
    if cycle >= cycles {
    } else {
      var effects := InCycle(program, cycle);
      CycleAlike(m, d, cycle, effects);
      var r := Cycle(m, cycle, effects);
      if !AllFinished(r) {
        DebugAlike(r, DebugCycle(d, effects), cycle + 1, cycles, program);
      }
    }
  }

  lemma {:induction false} FinishedStay(m: Machine, k: nat, effects: nat -> Effect)
    requires m.Sized(|m.states|) && AllFinished(m) && k <= |m.states|
    ensures Sweep(m, k, effects) == m
  {
    if k == 0 {
    } else {
      FinishedStay(m, k - 1, effects);
    }
  }

  /** When all cores have already finished, running still looks for the release signal once, and
      debugging does not: they agree exactly when there is nothing left to do for it. */
  lemma FinishedAtEntryIff(m: Machine, cycles: nat, program: Program)
    requires m.Sized(|m.states|) && AllFinished(m) && cycles > 0
    ensures Unstamped(RunFrom(m, 0, cycles, program).0) == Unstamped(DebugFrom(m, 0, cycles, program).0)
            <==> !SignalSet(m.memory) || (m.released && m.detected)
    ensures RunFrom(m, 0, cycles, program).1 == 1 && DebugFrom(m, 0, cycles, program).1 == 0
  {
    hide SignalSet, Mirrored;
    FinishedStay(m, |m.states|, InCycle(program, 0));
  }

  // ----- machines that runs and debugging sessions reach -----

  datatype Session = Running(cycles: nat, program: Program) | Debugging(cycles: nat, program: Program)

  function Resumed(m: Machine, sessions: seq<Session>): (r: Machine)
    requires m.Sized(|m.states|)
    ensures r.Sized(|m.states|)
  {
    if sessions == [] then
      m
    else
      match sessions[|sessions| - 1]
      case Running(cycles, program) => RunFrom(Resumed(m, sessions[..|sessions| - 1]), 0, cycles, program).0
      case Debugging(cycles, program) => DebugFrom(Resumed(m, sessions[..|sessions| - 1]), 0, cycles, program).0
  }

  /** A new machine with a program loaded, after any number of runs and debugging sessions. */
  function Reached(n: nat, size: nat, image: Image, sessions: seq<Session>): (m: Machine)
    ensures m.Sized(n)
  {
    Resumed(Loaded(Initial(n, size), image), sessions)
  }

  /** A release signal in memory has been acted upon. */
  predicate Handled(m: Machine) { SignalSet(m.memory) ==> m.released }

  lemma CycleHandles(m: Machine, cycle: nat, effects: nat -> Effect)
    requires Consistent(m)
    ensures Consistent(Cycle(m, cycle, effects)) && Handled(Cycle(m, cycle, effects))
    ensures Consistent(DebugCycle(m, effects)) && Handled(DebugCycle(m, effects))
  {
    hide SignalSet, Mirrored;
    SweepConsistent(m, |m.states|, effects);
    CheckConsistent(Sweep(m, |m.states|, effects), cycle);
    CheckConsistent(Sweep(m, |m.states|, effects), 0);
  }

  lemma {:induction false} RunHandles(m: Machine, cycle: nat, cycles: nat, program: Program)
    requires Consistent(m)
    ensures var r := RunFrom(m, cycle, cycles, program).0;
            Consistent(r) && (r == m || Handled(r))
    decreases cycles - cycle
  {
    hide Handled, Cycle;
    if cycle >= cycles {
    } else {
      var r := Cycle(m, cycle, InCycle(program, cycle));
      CycleHandles(m, cycle, InCycle(program, cycle));
      if !AllFinished(r) {
        RunHandles(r, cycle + 1, cycles, program);
      }
    }
  }

  lemma {:induction false} DebugHandles(m: Machine, step: nat, steps: nat, program: Program)
    requires Consistent(m)
    ensures var r := DebugFrom(m, step, steps, program).0;
            Consistent(r) && (r == m || Handled(r))
    decreases steps - step
  {
    hide Handled, DebugCycle;
    if step >= steps || AllFinished(m) {
    } else {
      CycleHandles(m, 0, InCycle(program, step));
      DebugHandles(DebugCycle(m, InCycle(program, step)), step + 1, steps, program);
    }
  }

  /** In every machine with a core that runs and debugging sessions reach, some core has not finished or
      the release signal has been acted upon. */
  lemma {:induction false} ReachedHandled(n: nat, size: nat, image: Image, sessions: seq<Session>)
    ensures var m := Reached(n, size, image, sessions);
            Consistent(m) && (n > 0 && AllFinished(m) ==> Handled(m))
  {
    hide Handled, RunFrom, DebugFrom;
    if sessions == [] {
      if n > 0 {
        assert !Initial(n, size).finished[0];
      }
    } else {
      var m := Reached(n, size, image, sessions[..|sessions| - 1]);
      ReachedHandled(n, size, image, sessions[..|sessions| - 1]);
      match sessions[|sessions| - 1] {
        case Running(cycles, program) => RunHandles(m, 0, cycles, program);
        case Debugging(cycles, program) => DebugHandles(m, 0, cycles, program);
      }
    }
  }

  /** From every machine that runs and debugging sessions reach, debugging ends like running, but for the
      noted cycle of the release; without any core, exactly when no signal is left to be acted upon.
      They take equally many cycles unless all cores have already finished. */
  lemma DebugIsRun(n: nat, size: nat, image: Image, sessions: seq<Session>, cycles: nat, program: Program)
    ensures var m := Reached(n, size, image, sessions);
            var (r, c), (d, s) := RunFrom(m, 0, cycles, program), DebugFrom(m, 0, cycles, program);
            && (Unstamped(r) == Unstamped(d) <==> n > 0 || cycles == 0 || !SignalSet(m.memory) || m.released)
            && (c == s <==> !AllFinished(m) || cycles == 0)
  {
    hide Reached, SignalSet, Cycle, DebugCycle;
    var m := Reached(n, size, image, sessions);
    ReachedHandled(n, size, image, sessions);
    if !AllFinished(m) {
      assert n > 0;
      DebugAlike(m, m, 0, cycles, program);
    } else if cycles > 0 {
      FinishedAtEntryIff(m, cycles, program);
    }
  }

  /** The memory of a new machine does not hold the signal. */
  lemma NoSignalAtFirst(n: nat, size: nat)
    ensures !SignalSet(Initial(n, size).memory)
  {
    hide LoadBytes, Mirrored, ByteOf;
    var zeros: seq<Byte>, states := seq(size, _ => 0), Initial(n, size).states;
    if size >= RELEASE_SIGNAL_ADDR + 4 {
      SignalIsNotZero(zeros);
      if MirrorFits(zeros, n) {
        if size >= INIT_PHASE_ADDR + 4 {
          LoadStored(Mirrored(zeros, states, n), INIT_PHASE_ADDR, 1, RELEASE_SIGNAL_ADDR);
        }
        if n <= MAX_CORES {
          MirrorElsewhere(zeros, states, n, RELEASE_SIGNAL_ADDR);
        } else {
          SignalIsNoCode(states[MAX_CORES]);
          MirrorWord(zeros, states, n, MAX_CORES);
        }
      }
    }
  }

  lemma SignalIsNotZero(memory: seq<Byte>)
    requires |memory| >= RELEASE_SIGNAL_ADDR + 4 && forall a :: 0 <= a < |memory| ==> memory[a] == 0
    ensures LoadBytes(memory, RELEASE_SIGNAL_ADDR) != RELEASE_SIGNAL_MAGIC
  {
  }

  /** From the first cycle on, and from the start if no program has been loaded, a signal in memory has
      been seen and acted upon. */
  lemma SignalHandled(n: nat, size: nat, image: Image, program: Program, cycle: nat)
    requires cycle > 0 || image == map[]
    ensures var m := At(n, size, image, program, cycle);
            SignalSet(m.memory) ==> m.released && m.detected
  {
    hide SignalSet, Cycle;
    AlwaysConsistent(n, size, image, program, cycle);
    if cycle == 0 {
      NoSignalAtFirst(n, size);
      assert Written(Initial(n, size).memory, map[]) == Initial(n, size).memory;
    } else {
      AlwaysConsistent(n, size, image, program, cycle - 1);
      CycleHandles(At(n, size, image, program, cycle - 1), cycle - 1, InCycle(program, cycle - 1));
    }
  }

  // ----- memory, byte by byte -----

  /** The release signal as it lies in memory. */
  lemma SignalBytes(memory: seq<Byte>)
    ensures SignalSet(memory) <==> |memory| >= 0x9_8004 && memory[0x9_8000..0x9_8004] == [0xEF, 0xBE, 0xAD, 0xDE]
  {
    if |memory| >= 0x9_8004 {
      var b := memory[0x9_8000..0x9_8004];
      BytesOfJoin(b[0], b[1], b[2], b[3]);
      BytesOfJoin(0xEF, 0xBE, 0xAD, 0xDE);
      MagicJoin();
    }
  }

  lemma MagicJoin()
    ensures Join(0xEF, 0xBE, 0xAD, 0xDE) == 0xDEAD_BEEF
  {
  }

  /** The byte that stands for a state; the three after it are 0. */
  function Code(s: CoreState): Byte {
    match s
    case HALT => 1
    case RUNNING => 2
    case IDLE => 3
    case ERROR => 255
  }

  lemma CodeBytes(s: CoreState)
    ensures var v := CoreStateToValue(s);
            ByteOf(v, 0) == Code(s) && ByteOf(v, 1) == ByteOf(v, 2) == ByteOf(v, 3) == 0
  {
  }

  lemma StoredCode(memory: seq<Byte>, a: nat, s: CoreState, x: nat)
    requires a + 4 <= |memory| && x < |memory|
    ensures StoreBytes(memory, a, CoreStateToValue(s))[x] ==
            if x == a then Code(s) else if a < x < a + 4 then 0 else memory[x]
  {
    hide CoreStateToValue, ByteOf, Code;
    CodeBytes(s);
  }

  /** The mirror holds four bytes for each core from 0x90000 on, and leaves the rest of memory alone. */
  lemma {:induction false} MirrorBytes(memory: seq<Byte>, states: seq<CoreState>, n: nat, x: nat)
    requires n <= |states| && |memory| >= 0x9_0000 + 4 * n && x < |memory|
    ensures Mirrored(memory, states, n)[x] ==
            if 0x9_0000 <= x < 0x9_0000 + 4 * n
            then (if x % 4 == 0 then Code(states[(x - 0x9_0000) / 4]) else 0) else memory[x]
  {
    hide StoreBytes, CoreStateToValue, Code;
    if n == 0 {
    } else {
      MirrorBytes(memory, states, n - 1, x);
      StoredCode(Mirrored(memory, states, n - 1), MirrorAddress(n - 1), states[n - 1], x);
    }
  }

  /** The memory of a new machine: the states of the cores, and the phase word after the release signal. */
  lemma InitialBytes(n: nat, size: nat, x: nat)
    requires n <= 8192 && x < size
    ensures Initial(n, size).memory[x] ==
            if size >= 0x9_0000 + 4 * n && 0x9_0000 <= x < 0x9_0000 + 4 * n && x % 4 == 0
            then (if x == 0x9_0000 then 2 else 1)
            else if size >= 0x9_8008 && x == 0x9_8004 then 1 else 0
  {
    hide Mirrored, CoreStateToValue;
    var zeros: seq<Byte>, states := seq(size, _ => 0), Initial(n, size).states;
    if size >= 0x9_0000 + 4 * n {
      MirrorBytes(zeros, states, n, x);
      PhaseBytes(Mirrored(zeros, states, n), x);
    }
  }

  lemma PhaseBytes(memory: seq<Byte>, x: nat)
    requires x < |memory|
    ensures StoreBytes(memory, INIT_PHASE_ADDR, 1)[x] ==
            if |memory| >= 0x9_8008 && 0x9_8004 <= x < 0x9_8008 then (if x == 0x9_8004 then 1 else 0) else memory[x]
  {
    OneBytes();
    hide ByteOf;
  }

  lemma OneBytes()
    ensures ByteOf(1, 0) == 1 && ByteOf(1, 1) == ByteOf(1, 2) == ByteOf(1, 3) == 0
  {
  }

  /** In the codes of the states: a core executes if its code is 2, and core 0 also with 255. */
  lemma ExecutingCodes(s: CoreState, core: nat)
    ensures ShouldExecute(s, core) <==>
            CoreStateToValue(s) == 2 || (CoreStateToValue(s) == 255 && core == 0)
  {
  }

  lemma {:induction false} SweepBoots(m: Machine, k: nat, effects: nat -> Effect)
    requires m.Sized(|m.states|) && 0 < |m.states| && k <= |m.states|
    ensures Sweep(m, k, effects).booted[0] <==> m.booted[0] || (k > 0 && !m.finished[0])
  {
    if k == 0 {
    } else {
      SweepBoots(m, k - 1, effects);
    }
  }

  /** Core 0 counts as booted from the first cycle on. */
  lemma {:induction false} FirstBooted(n: nat, size: nat, image: Image, program: Program, cycle: nat)
    requires n > 0
    ensures At(n, size, image, program, cycle).booted[0] <==> cycle > 0
  {
    hide SignalSet, Sweep, Mirrored;
    if cycle == 0 {
    } else {
      var m := At(n, size, image, program, cycle - 1);
      FirstBooted(n, size, image, program, cycle - 1);
      SweepBoots(m, n, InCycle(program, cycle - 1));
      if cycle == 1 {
        assert !Initial(n, size).finished[0];
      }
    }
  }

  /** A core that executes in a cycle writes what its program says; no other core writes anything. */
  lemma StepBytes(n: nat, size: nat, image: Image, program: Program, cycle: nat, i: nat, x: nat)
    requires i < n && x < size
    ensures During(n, size, image, program, cycle, i + 1).memory[x] ==
            if && Free(n, size, image, program, cycle, i) && !Looped(n, size, image, program, cycle, i)
               && x in program(cycle, i).writes
            then program(cycle, i).writes[x] else During(n, size, image, program, cycle, i).memory[x]
  {
    hide Free, Looped;
    ExecutesIff(n, size, image, program, cycle, i);
    AlwaysConsistent(n, size, image, program, cycle);
    SweepConsistent(At(n, size, image, program, cycle), i, InCycle(program, cycle));
    StepConsistent(During(n, size, image, program, cycle, i), i, program(cycle, i));
  }

  /** The end of a cycle changes memory only if the signal is seen for the first time: then the mirror, if
      it fits, says that all cores are running. */
  lemma CycleBytes(n: nat, size: nat, image: Image, program: Program, cycle: nat, x: nat)
    requires x < size
    ensures var first := Seen(n, size, image, program, cycle) &&
                         forall k: nat :: k < cycle ==> !Seen(n, size, image, program, k);
            At(n, size, image, program, cycle + 1).memory[x] ==
            if first && size >= 0x9_0000 + 4 * n && 0x9_0000 <= x < 0x9_0000 + 4 * n
            then (if x % 4 == 0 then 2 else 0) else During(n, size, image, program, cycle, n).memory[x]
  {
    hide Mirrored, SignalSet, Sweep;
    AlwaysConsistent(n, size, image, program, cycle);
    ReleasedIff(n, size, image, program, cycle);
    var m := During(n, size, image, program, cycle, n);
    SweepConsistent(At(n, size, image, program, cycle), n, InCycle(program, cycle));
    if !m.released && SignalSet(m.memory) && size >= 0x9_0000 + 4 * n {
      AllRunning(m);
      MirrorBytes(m.memory, Released(m.states), n, x);
    }
  }

  lemma AllRunning(m: Machine)
    requires Consistent(m)
    ensures forall i :: 0 <= i < |m.states| ==> Released(m.states)[i] == RUNNING
  {
  }

  /** Loading a program puts its bytes into memory, and a new run starts from there. */
  lemma LoadedBytes(n: nat, size: nat, image: Image, program: Program, x: nat)
    requires x < size
    ensures At(n, size, image, program, 0).memory[x] == if x in image then image[x] else Initial(n, size).memory[x]
  {
  }

  // ----- the monitor and the simulator -----

  class MultiCoreMonitor {
    const numCores: nat
    var coreStates: seq<CoreState>
    var releaseDetected: bool
    var releaseCycle: nat
    var releaseProcessed: bool
    var initializationPhase: bool

    constructor (numCores: nat)
      ensures this.numCores == numCores
      ensures coreStates == seq(numCores, i => if i == 0 then RUNNING else HALT)
      ensures !releaseDetected && releaseCycle == 0 && !releaseProcessed && initializationPhase
    {
      this.numCores := numCores;
      coreStates := seq(numCores, _ => HALT);
      releaseDetected, releaseCycle, releaseProcessed, initializationPhase := false, 0, false, true;
      new;
      if numCores > 0 {
        coreStates := coreStates[0 := RUNNING];
      }
    }

    predicate ShouldCoreExecute(core: nat)
      requires core < |coreStates|
      reads this
    {
      match coreStates[core]
      case RUNNING => true
      case HALT => false
      case IDLE => false
      case ERROR => core == 0
    }

    method CheckReleaseSignal(memory: array<Byte>) returns (seen: bool)
      modifies `releaseDetected
      ensures seen == SignalSet(memory[..]) && releaseDetected == (old(releaseDetected) || seen)
    {
      if memory.Length < RELEASE_SIGNAL_ADDR + 4 {
        return false;
      }
      var a := RELEASE_SIGNAL_ADDR;
      var signal := Join(memory[a], memory[a + 1], memory[a + 2], memory[a + 3]);
      if signal == RELEASE_SIGNAL_MAGIC {
        releaseDetected := true;
        return true;
      }
      seen := false;
    }

    method HandleReleaseSignal(memory: array<Byte>, cycle: nat)
      requires |coreStates| == numCores
      modifies this, memory
      ensures releaseDetected == old(releaseDetected) && initializationPhase == old(initializationPhase)
      ensures var acts := old(releaseDetected && !releaseProcessed);
              && releaseProcessed == (old(releaseProcessed) || acts)
              && releaseCycle == (if acts then cycle else old(releaseCycle))
              && coreStates == (if acts then Released(old(coreStates)) else old(coreStates))
              && memory[..] == if acts && MirrorFits(old(memory[..]), numCores)
                               then Mirrored(old(memory[..]), coreStates, numCores) else old(memory[..])
    {
      if !releaseDetected || releaseProcessed {
        return;
      }
      releaseCycle := cycle;
      ghost var before := coreStates;
      var core := 1;
      while core < numCores
        invariant 1 <= core && |coreStates| == numCores
        invariant memory[..] == old(memory[..]) && releaseDetected && !releaseProcessed && releaseCycle == cycle
        invariant initializationPhase == old(initializationPhase)
        invariant forall i :: 0 <= i < numCores ==>
                    coreStates[i] == if 0 < i < core && before[i] == HALT then RUNNING else before[i]
      {
        if coreStates[core] == HALT {
          coreStates := coreStates[core := RUNNING];
        }
        core := core + 1;
      }
      assert coreStates == Released(before);
      releaseProcessed := true;
      if memory.Length >= MirrorAddress(numCores) {
        WriteCoreStates(memory);
      }
    }

    /** The loop over all cores that writes their states to memory. */
    method WriteCoreStates(memory: array<Byte>)
      requires |coreStates| == numCores
      modifies memory
      ensures memory[..] == Mirrored(old(memory[..]), coreStates, numCores)
    {
      for core := 0 to numCores
        invariant memory[..] == Mirrored(old(memory[..]), coreStates, core)
      {
        WriteWord(memory, MirrorAddress(core), CoreStateToValue(coreStates[core]));
      }
    }

    method WriteStateToMemory(memory: array<Byte>)
      requires |coreStates| == numCores
      modifies memory
      ensures memory[..] == Announced(old(memory[..]), coreStates, initializationPhase)
    {
      if memory.Length < MirrorAddress(numCores) {
        return;
      }
      WriteCoreStates(memory);
      WriteWord(memory, INIT_PHASE_ADDR, if initializationPhase then 1 else 0);
    }
  }

  /** Copies a word to memory, if it fits. */
  method WriteWord(memory: array<Byte>, a: nat, v: Word)
    modifies memory
    ensures memory[..] == StoreBytes(old(memory[..]), a, v)
  {
    if a + 4 <= memory.Length {
      memory[a] := ByteOf(v, 0);
      memory[a + 1] := ByteOf(v, 1);
      memory[a + 2] := ByteOf(v, 2);
      memory[a + 3] := ByteOf(v, 3);
    }
  }

  class Simulator {
    const numCores: nat
    const memory: array<Byte>
    const monitor: MultiCoreMonitor
    var finished: seq<bool>
    var booted: seq<bool>
    var coreBootedFlags: seq<bool>
    var releaseAllCoresCalled: bool

    ghost predicate Valid()
      reads this, monitor
    {
      |finished| == |booted| == |coreBootedFlags| == |monitor.coreStates| == monitor.numCores == numCores
    }

    ghost function State(): (m: Machine)
      reads this, monitor, memory
      ensures Valid() ==> m.Sized(numCores) && |m.memory| == memory.Length
    {
      Machine(memory[..], finished, booted, coreBootedFlags, monitor.coreStates, monitor.releaseDetected,
              monitor.releaseProcessed, monitor.releaseCycle, releaseAllCoresCalled)
    }

    constructor (numCores: nat, size: nat)
      ensures Valid() && fresh(monitor) && fresh(memory) && this.numCores == numCores
      ensures State() == Initial(numCores, size)
    {
      this.numCores := numCores;
      memory := new Byte[size](_ => 0);
      monitor := new MultiCoreMonitor(numCores);
      finished, booted := seq(numCores, _ => false), seq(numCores, _ => false);
      coreBootedFlags := seq(numCores, _ => false);
      releaseAllCoresCalled := false;
      new;
      assert memory[..] == seq(size, _ => 0);
      monitor.WriteStateToMemory(memory);
    }

    /** Loading a program, as far as it puts bytes into memory. */
    method LoadProgram(image: Image)
      requires Valid()
      modifies memory
      ensures Valid() && State() == Loaded(old(State()), image)
    {
      forall a | 0 <= a < memory.Length {
        memory[a] := if a in image then image[a] else memory[a];
      }
      assert memory[..] == Written(old(memory[..]), image);
    }

    /** The instruction itself: it changes memory only if the monitor lets the core execute. */
    method Step(core: nat, e: Effect)
      requires Valid() && core < numCores
      modifies memory
      ensures memory[..] == if ShouldExecute(monitor.coreStates[core], core) then Written(old(memory[..]), e.writes)
                            else old(memory[..])
    {
      if !monitor.ShouldCoreExecute(core) {
        return;
      }
      forall a | 0 <= a < memory.Length {
        memory[a] := if a in e.writes then e.writes[a] else memory[a];
      }
    }

    method ExecuteCoreStep(core: nat, e: Effect)
      requires Valid() && core < numCores
      modifies `finished, `booted, memory
      ensures Valid() && State() == CoreStep(old(State()), core, e)
    {
      if finished[core] {
        return;
      }
      if !booted[core] {
        if core == 0 {
          booted := booted[core := true];
        } else if !coreBootedFlags[core] {
          return;
        } else {
          booted := booted[core := true];
        }
      }
      assert booted == old(booted)[core := true];
      Step(core, e);
      if e.loops {
        finished := finished[core := true];
      }
    }

    method ReleaseAllCores()
      requires Valid()
      modifies `booted, `coreBootedFlags
      ensures Valid() && coreBootedFlags == Freed(old(coreBootedFlags)) && booted == Freed(old(booted))
    {
      var i := 1;
      while i < |coreBootedFlags|
        invariant 1 <= i && Valid()
        invariant forall j :: 0 <= j < numCores ==>
                    coreBootedFlags[j] == if 0 < j < i then true else old(coreBootedFlags)[j]
        invariant forall j :: 0 <= j < numCores ==> booted[j] == if 0 < j < i then true else old(booted)[j]
      {
        coreBootedFlags := coreBootedFlags[i := true];
        if i < |booted| {
          booted := booted[i := true];
        }
        i := i + 1;
      }
    }

    method ExecuteAll(effects: nat -> Effect)
      requires Valid()
      modifies `finished, `booted, memory
      ensures Valid() && State() == Sweep(old(State()), numCores, effects)
    {
      hide CoreStep;
      for i := 0 to numCores
        invariant Valid() && State() == Sweep(old(State()), i, effects)
      {
        ExecuteCoreStep(i, effects(i));
      }
    }

    method Finished() returns (all: bool)
      requires Valid()
      ensures all == AllFinished(State())
    {
      for i := 0 to numCores
        invariant forall j :: 0 <= j < i ==> finished[j]
      {
        if !finished[i] {
          return false;
        }
      }
      all := true;
    }

    method Run(cycles: nat, program: Program)
      requires Valid()
      modifies this, monitor, memory
      ensures Valid() && State() == RunFrom(old(State()), 0, cycles, program).0
    {
      hide Sweep, CheckRelease, AllFinished, SignalSet;
      var cycle, done := 0, false;
      while cycle < cycles && !done
        invariant Valid() && cycle <= cycles
        invariant RunFrom(old(State()), 0, cycles, program) ==
                  if done then (State(), cycle) else RunFrom(State(), cycle, cycles, program)
      {
        ghost var before := State();
        ExecuteAll(InCycle(program, cycle));
        Check(cycle);
        done := Finished();
        cycle := cycle + 1;
      }
    }

    method Check(cycle: nat)
      requires Valid()
      modifies this, monitor, memory
      ensures Valid() && State() == CheckRelease(old(State()), cycle)
    {
      var seen := monitor.CheckReleaseSignal(memory);
      if seen && !releaseAllCoresCalled {
        ReleaseAllCores();
        releaseAllCoresCalled := true;
        monitor.HandleReleaseSignal(memory, cycle);
      }
    }

    method DebugRun(steps: nat, program: Program)
      requires Valid()
      modifies this, monitor, memory
      ensures Valid() && State() == DebugFrom(old(State()), 0, steps, program).0
    {
      hide Sweep, CheckRelease, AllFinished, SignalSet;
      for step := 0 to steps
        invariant Valid() && DebugFrom(old(State()), 0, steps, program) == DebugFrom(State(), step, steps, program)
      {
        var done := Finished();
        if done {
          return;
        }
        ExecuteAll(InCycle(program, step));
        if !releaseAllCoresCalled {
          Check(0);
        }
      }
    }
  }

  /** Boots and runs a new simulator with any program: whatever its cores do, it ends consistent, with all
      cores released exactly if the signal was seen in a cycle of the run, and then in the first such. */
  method BootAndRun(numCores: nat, size: nat, image: Image, cycles: nat, program: Program)
    returns (states: seq<CoreState>, booted: seq<bool>, releaseCycle: nat, ghost ran: nat)
    ensures ran <= cycles && |states| == |booted| == numCores
    ensures var released := exists k: nat :: k < ran && Seen(numCores, size, image, program, k);
            && (forall i :: 0 < i < numCores ==>
                  states[i] == (if released then RUNNING else HALT) && booted[i] == released)
            && (released ==> releaseCycle < ran && Seen(numCores, size, image, program, releaseCycle)
                             && forall k: nat :: k < releaseCycle ==> !Seen(numCores, size, image, program, k))
    ensures numCores > 0 ==> states[0] == RUNNING
    ensures forall k :: 0 < k < ran ==> !AllLooped(numCores, size, image, program, k)
    ensures ran < cycles ==> ran > 0 && AllLooped(numCores, size, image, program, ran)
  {
    hide Seen, Cycle, RunFrom, AllLooped;
    var sim := new Simulator(numCores, size);
    sim.LoadProgram(image);
    RunReaches(numCores, size, image, 0, cycles, program);
    ran := RunFrom(sim.State(), 0, cycles, program).1;
    ReleasedIff(numCores, size, image, program, ran);
    AlwaysConsistent(numCores, size, image, program, ran);
    sim.Run(cycles, program);
    states, booted, releaseCycle := sim.monitor.coreStates, sim.booted, sim.monitor.releaseCycle;
  }

  lemma {:induction false} NoStamp(m: Machine, step: nat, steps: nat, program: Program)
    requires m.Sized(|m.states|) && m.stamp == 0
    ensures DebugFrom(m, step, steps, program).0.stamp == 0
    decreases steps - step
  {
    hide SignalSet, Mirrored;
    if step >= steps || AllFinished(m) {
    } else {
      SweepStamp(m, |m.states|, InCycle(program, step));
      NoStamp(DebugCycle(m, InCycle(program, step)), step + 1, steps, program);
    }
  }

  lemma {:induction false} SweepStamp(m: Machine, k: nat, effects: nat -> Effect)
    requires m.Sized(|m.states|) && k <= |m.states|
    ensures Sweep(m, k, effects).stamp == m.stamp
  {
    if k == 0 {
    } else {
      SweepStamp(m, k - 1, effects);
    }
  }

  /** The same for debugging, with the cycles that a run would have gone through; the cycle of the
      release is not noted. */
  method BootAndDebug(numCores: nat, size: nat, image: Image, steps: nat, program: Program)
    returns (states: seq<CoreState>, booted: seq<bool>, releaseCycle: nat, ghost ran: nat)
    ensures ran <= steps && releaseCycle == 0 && |states| == |booted| == numCores
    ensures ran == RunFrom(Loaded(Initial(numCores, size), image), 0, steps, program).1
    ensures var released := exists k: nat :: k < ran && Seen(numCores, size, image, program, k);
            forall i :: 0 < i < numCores ==>
              states[i] == (if released then RUNNING else HALT) && booted[i] == released
    ensures numCores > 0 ==> states[0] == RUNNING
    ensures forall k :: 0 < k < ran ==> !AllLooped(numCores, size, image, program, k)
    ensures ran < steps ==> ran > 0 && AllLooped(numCores, size, image, program, ran)
  {
    hide Seen, Cycle, RunFrom, DebugFrom, SignalSet, AllLooped, Sweep;
    var sim := new Simulator(numCores, size);
    sim.LoadProgram(image);
    RunReaches(numCores, size, image, 0, steps, program);
    ran := RunFrom(sim.State(), 0, steps, program).1;
    ReleasedIff(numCores, size, image, program, ran);
    AlwaysConsistent(numCores, size, image, program, ran);
    DebugIsRun(numCores, size, image, [], steps, program);
    NoStamp(sim.State(), 0, steps, program);
    sim.DebugRun(steps, program);
    states, booted, releaseCycle := sim.monitor.coreStates, sim.booted, sim.monitor.releaseCycle;
  }

  /** A program whose bytes are the release signal. */
  function SignalImage(): Image {
    map[RELEASE_SIGNAL_ADDR := 0xEF, RELEASE_SIGNAL_ADDR + 1 := 0xBE, RELEASE_SIGNAL_ADDR + 2 := 0xAD,
        RELEASE_SIGNAL_ADDR + 3 := 0xDE]
  }

  lemma SignalLoaded(n: nat, size: nat)
    requires size >= RELEASE_SIGNAL_ADDR + 4
    ensures SignalSet(Loaded(Initial(n, size), SignalImage()).memory)
  {
    hide Mirrored, StoreBytes;
  }

  /** Without any core, running sees a signal that was loaded with the program, and debugging does not. */
  method NoCores(program: Program) returns (ran: bool, debugged: bool)
    ensures ran && !debugged
  {
    hide SignalSet, SignalImage, Mirrored;
    SignalLoaded(0, 0x98004);
    var sim := new Simulator(0, 0x98004);
    sim.LoadProgram(SignalImage());
    sim.Run(1, program);
    ran := sim.monitor.releaseDetected;
    sim := new Simulator(0, 0x98004);
    sim.LoadProgram(SignalImage());
    sim.DebugRun(1, program);
    debugged := sim.monitor.releaseDetected;
  }
}
