/** The platform-level interrupt controller.

  Pending and enable bits are kept in bitmaps of 32-bit words; seen from outside, the controller
  keeps a set of pending sources, a set of enabled sources for each target, and the source that
  each target has claimed, if any (0 stands for none). */
module Plic {
  import opened Bits
  import opened Words

  const MAX_SOURCES := 1024
  const MAX_TARGETS := 15872

  // ----- bitmaps -----

  function GetBit(bits: seq<Word>, id: nat): bool {
    id / 32 < |bits| && Test(bits[id / 32], id % 32)
  }

  function UpdateBit(bits: seq<Word>, id: nat, on: bool): (r: seq<Word>)
    ensures |r| == |bits|
  {
    if id / 32 < |bits| then bits[id / 32 := Assign(bits[id / 32], id % 32, on)] else bits
  }

  lemma UpdatedBit(bits: seq<Word>, id: nat, on: bool, j: nat)
    requires id / 32 < |bits|
    ensures GetBit(UpdateBit(bits, id, on), j) == if j == id then on else GetBit(bits, j)
  {
    hide Test, Assign;
    if j / 32 == id / 32 {
      AssignedBit(bits[id / 32], id % 32, on, j % 32);
      assert j == 32 * (j / 32) + j % 32 && id == 32 * (id / 32) + id % 32;
    }
  }

  /** The sources below n whose bits are set. */
  ghost function Members(bits: seq<Word>, n: nat): set<nat> {
    set s | 0 < s < n && GetBit(bits, s)
  }

  /** The bitmap refines a set. */
  lemma UpdatedMembers(bits: seq<Word>, n: nat, id: nat, on: bool)
    requires 0 < id < n && (n + 31) / 32 == |bits|
    ensures Members(UpdateBit(bits, id, on), n) == if on then Members(bits, n) + {id} else Members(bits, n) - {id}
  {
    hide GetBit, UpdateBit;
    forall j: nat
      ensures GetBit(UpdateBit(bits, id, on), j) == if j == id then on else GetBit(bits, j)
    {
      UpdatedBit(bits, id, on, j);
    }
  }

  lemma NoMembers(bits: seq<Word>, n: nat)
    requires forall i :: 0 <= i < |bits| ==> bits[i] == 0
    ensures Members(bits, n) == {}
  {
    forall j: nat
      ensures !GetBit(bits, j)
    {
      ZeroWord(j % 32);
    }
  }

  // ----- the controller seen from outside -----

  datatype View = View(sources: nat, targets: nat, pending: set<nat>, enabled: seq<set<nat>>, priority: seq<nat>,
                       threshold: seq<nat>, claimed: seq<nat>)
  {
    ghost predicate Ok() {
      && |priority| == sources && |enabled| == |threshold| == |claimed| == targets
      && (forall s :: s in pending ==> Source(s))
      && (forall t :: 0 <= t < targets ==> claimed[t] == 0 || Source(claimed[t]))
    }

    predicate Source(s: nat) { 0 < s < sources }

    predicate Target(t: nat) { t < targets }

    /** The source is pending and enabled for the target, above its threshold. */
    predicate Candidate(t: nat, s: nat)
      requires t < |enabled| && t < |threshold|
    {
      Source(s) && s < |priority| && s in pending && s in enabled[t] && priority[s] > threshold[t]
    }

    /** The target has claimed source s and not completed it. */
    predicate Holds(t: nat, s: nat) { t < |claimed| && s != 0 && claimed[t] == s }

    ghost predicate Held(s: nat) { exists t :: 0 <= t < |claimed| && Holds(t, s) }
  }

  /** The candidate of highest priority among the sources below n, the lowest of those. */
  function Best(v: View, t: nat, n: nat): (r: nat)
    requires v.Ok() && t < v.targets && n <= v.sources
    ensures r == 0 || (r < n && v.Candidate(t, r))
  {
    if n == 0 then
      0
    else
      var r, s := Best(v, t, n - 1), n - 1;
      if v.Candidate(t, s) && (r == 0 || v.priority[s] > v.priority[r]) then s else r
  }

  /** Claim optimality: no candidate is missed, none has a higher priority, none of the same priority
      a lower number. */
  lemma {:induction false} BestIsOptimal(v: View, t: nat, n: nat, s: nat)
    requires v.Ok() && t < v.targets && n <= v.sources && s < n && v.Candidate(t, s)
    ensures var r := Best(v, t, n);
            r != 0 && v.priority[s] <= v.priority[r] && (v.priority[s] == v.priority[r] ==> r <= s)
  {
    if s == n - 1 {
    } else {
      BestIsOptimal(v, t, n - 1, s);
    }
  }

  function Winner(v: View, t: nat): (r: nat)
    requires v.Ok() && t < v.targets
    ensures r == 0 || (r < v.sources && v.Candidate(t, r))
  {
    Best(v, t, v.sources)
  }

  /** The winner is 0 exactly when there is no candidate. */
  lemma NoWinnerIff(v: View, t: nat)
    requires v.Ok() && t < v.targets
    ensures Winner(v, t) == 0 <==> forall s :: 0 <= s < v.sources ==> !v.Candidate(t, s)
  {
    forall s: nat | s < v.sources && v.Candidate(t, s)
      ensures Winner(v, t) != 0
    {
      BestIsOptimal(v, t, v.sources, s);
    }
  }

  datatype Event =
    | SetPending(source: nat, on: bool)
    | SetPriority(source: nat, value: nat)
    | SetEnable(target: nat, source: nat, on: bool)
    | SetThreshold(target: nat, value: nat)
    | Claim(target: nat)
    | Complete(target: nat, source: nat)
    | Reset

  /** What each call does; calls with an invalid source or target do nothing. */
  function Step(v: View, e: Event): (r: View)
    requires v.Ok()
    ensures r.Ok() && r.sources == v.sources && r.targets == v.targets
  {
    match e
    case SetPending(s, on) =>
      if v.Source(s) then v.(pending := if on then v.pending + {s} else v.pending - {s}) else v
    case SetPriority(s, p) => if v.Source(s) then v.(priority := v.priority[s := p % 8]) else v
    case SetEnable(t, s, on) =>
      if v.Target(t) && v.Source(s) then
        v.(enabled := v.enabled[t := if on then v.enabled[t] + {s} else v.enabled[t] - {s}])
      else
        v
    case SetThreshold(t, p) => if v.Target(t) then v.(threshold := v.threshold[t := p % 8]) else v
    case Claim(t) =>
      if v.Target(t) && v.claimed[t] == 0 && Winner(v, t) != 0 then
        v.(claimed := v.claimed[t := Winner(v, t)], pending := v.pending - {Winner(v, t)})
      else
        v
    case Complete(t, s) =>
      if v.Target(t) && v.Source(s) && v.claimed[t] == s then v.(claimed := v.claimed[t := 0]) else v
    case Reset => Initial(v.sources, v.targets)
  }

  function Initial(sources: nat, targets: nat): (r: View)
    ensures r.Ok()
  {
    View(sources, targets, {}, seq(targets, _ => {}), seq(sources, _ => 0), seq(targets, _ => 0), seq(targets, _ => 0))
  }

  /** What a claim returns. */
  function Claimed(v: View, t: nat): nat
    requires v.Ok()
  {
    if !v.Target(t) then 0 else if v.claimed[t] != 0 then v.claimed[t] else Winner(v, t)
  }

  /** Until it is completed, a claim can be repeated: it returns the same source and changes nothing. */
  lemma ClaimAgain(v: View, t: nat)
    requires v.Ok()
    ensures var v' := Step(v, Claim(t));
            Claimed(v', t) == Claimed(v, t) || Claimed(v, t) == 0
    ensures var v' := Step(v, Claim(t));
            Claimed(v, t) != 0 ==> Step(v', Claim(t)) == v' && v'.Holds(t, Claimed(v, t))
  {
  }

  /** The sizes a controller is built with; those out of range are replaced by defaults. */
  function SourceCount(n: nat): nat { if 0 < n <= MAX_SOURCES then n else 32 }

  function TargetCount(n: nat): nat { if 0 < n <= MAX_TARGETS then n else 4 }

  class Plic {
    const numSources: nat
    const numTargets: nat
    var priorities: seq<nat>
    var pending: seq<Word>
    var enable: seq<seq<Word>>
    var thresholds: seq<nat>
    var claimed: seq<nat>

    ghost predicate Valid()
      reads this
    {
      && |priorities| == numSources && |pending| == (numSources + 31) / 32
      && |enable| == |thresholds| == |claimed| == numTargets
      && (forall t :: 0 <= t < numTargets ==> |enable[t]| == (numSources + 31) / 32)
      && (forall t :: 0 <= t < numTargets ==> claimed[t] < numSources || claimed[t] == 0)
    }

    ghost function Abstract(): (v: View)
      requires Valid()
      reads this
      ensures v.Ok()
    {
      View(numSources, numTargets, Members(pending, numSources),
           seq(numTargets, t requires 0 <= t < numTargets reads this requires Valid() =>
                             Members(enable[t], numSources)),
           priorities, thresholds, claimed)
    }

    constructor (numSources: nat, numTargets: nat)
      ensures Valid() && Abstract() == Initial(this.numSources, this.numTargets)
      ensures this.numSources == SourceCount(numSources) && this.numTargets == TargetCount(numTargets)
      ensures this.numSources == if 1 <= numSources <= 1024 then numSources else 32
      ensures this.numTargets == if 1 <= numTargets <= 15872 then numTargets else 4
    {
      var n := if numSources == 0 || numSources > MAX_SOURCES then 32 else numSources;
      var m := if numTargets == 0 || numTargets > MAX_TARGETS then 4 else numTargets;
      this.numSources, this.numTargets := n, m;
      priorities := seq(n, _ => 0);
      pending := seq((n + 31) / 32, _ => 0);
      enable := seq(m, _ => seq((n + 31) / 32, _ => 0));
      thresholds := seq(m, _ => 0);
      claimed := seq(m, _ => 0);
      new;
      NothingSet();
    }

    lemma NothingSet()
      requires Valid()
      requires forall i :: 0 <= i < |pending| ==> pending[i] == 0
      requires forall t, i :: 0 <= t < numTargets && 0 <= i < |enable[t]| ==> enable[t][i] == 0
      ensures Abstract().pending == {}
      ensures Abstract().enabled == seq(numTargets, _ => {})
    {
      NoMembers(pending, numSources);
      forall t | 0 <= t < numTargets
        ensures Members(enable[t], numSources) == {}
      {
        NoMembers(enable[t], numSources);
      }
    }

    method SetPending(source: nat, on: bool)
      requires Valid()
      modifies `pending
      ensures Valid() && Abstract() == Step(old(Abstract()), Event.SetPending(source, on))
    {
      if !(0 < source < numSources) {
        return;
      }
      UpdatedMembers(pending, numSources, source, on);
      pending := UpdateBit(pending, source, on);
    }

    method IsPending(source: nat) returns (b: bool)
      requires Valid()
      ensures b <==> source in Abstract().pending
    {
      b := 0 < source < numSources && GetBit(pending, source);
    }

    method SetPriority(source: nat, priority: nat)
      requires Valid()
      modifies `priorities
      ensures Valid() && Abstract() == Step(old(Abstract()), Event.SetPriority(source, priority))
    {
      if 0 < source < numSources {
        priorities := priorities[source := priority % 8];
      }
    }

    method SetEnable(target: nat, source: nat, on: bool)
      requires Valid()
      modifies `enable
      ensures Valid() && Abstract() == Step(old(Abstract()), Event.SetEnable(target, source, on))
    {
      if target < numTargets && 0 < source < numSources {
        UpdatedMembers(enable[target], numSources, source, on);
        enable := enable[target := UpdateBit(enable[target], source, on)];
      }
    }

    method SetThreshold(target: nat, threshold: nat)
      requires Valid()
      modifies `thresholds
      ensures Valid() && Abstract() == Step(old(Abstract()), Event.SetThreshold(target, threshold))
    {
      if target < numTargets {
        thresholds := thresholds[target := threshold % 8];
      }
    }

    method FindHighestPriorityPending(target: nat) returns (best: nat)
      requires Valid() && target < numTargets
      ensures best == Winner(Abstract(), target)
    {
      hide GetBit;
      ghost var v := Abstract();
      var threshold, bestPriority := thresholds[target], 0;
      best := 0;
      if numSources == 0 {
        return;
      }
      for source := 1 to numSources
        invariant best == Best(v, target, source)
        invariant bestPriority == if best == 0 then 0 else priorities[best]
      {
        if GetBit(pending, source) && GetBit(enable[target], source) {
          var priority := priorities[source];
          if priority > threshold && priority > bestPriority {
            best, bestPriority := source, priority;
          }
        }
      }
    }

    /** Agrees with what a claim would find, whether or not a claim is outstanding. */
    method HasPendingInterrupts(target: nat) returns (b: bool)
      requires Valid()
      ensures b <==> target < numTargets && exists s :: 0 <= s < numSources && Abstract().Candidate(target, s)
    {
      if target >= numTargets {
        return false;
      }
      NoWinnerIff(Abstract(), target);
      var best := FindHighestPriorityPending(target);
      b := best != 0;
    }

    method Claim(target: nat) returns (source: nat)
      requires Valid()
      modifies `claimed, `pending
      ensures Valid() && Abstract() == Step(old(Abstract()), Event.Claim(target))
      ensures source == Claimed(old(Abstract()), target)
    {
      if target >= numTargets {
        return 0;
      }
      if claimed[target] != 0 {
        return claimed[target];
      }
      source := FindHighestPriorityPending(target);
      if source != 0 {
        UpdatedMembers(pending, numSources, source, false);
        claimed := claimed[target := source];
        pending := UpdateBit(pending, source, false);
      }
    }

    method Complete(target: nat, source: nat)
      requires Valid()
      modifies `claimed
      ensures Valid() && Abstract() == Step(old(Abstract()), Event.Complete(target, source))
    {
      if target < numTargets && 0 < source < numSources {
        if claimed[target] == source {
          claimed := claimed[target := 0];
        }
      }
    }

    method Reset()
      requires Valid()
      modifies this
      ensures Valid() && Abstract() == Step(old(Abstract()), Event.Reset)
    {
      hide Members, Best;
      priorities := seq(|priorities|, _ => 0);
      pending := seq(|pending|, _ => 0);
      enable := seq(numTargets, _ => seq((numSources + 31) / 32, _ => 0));
      thresholds := seq(|thresholds|, _ => 0);
      claimed := seq(|claimed|, _ => 0);
      NothingSet();
    }
  }

  // ----- conservation over whole runs -----

  function StateAfter(v: View, h: seq<Event>): (r: View)
    requires v.Ok()
    ensures r.Ok() && r.sources == v.sources && r.targets == v.targets
  {
    if h == [] then v else Step(StateAfter(v, h[..|h| - 1]), h[|h| - 1])
  }

  // ----- what the settings are after a run, and what a claim makes of them -----

  /** A priority is the lowest three bits of what was last set, until a reset. */
  lemma {:induction false} LastPriority(v: View, h: seq<Event>, k: nat, s: nat, p: nat)
    requires v.Ok() && 0 < s < v.sources && k < |h| && h[k] == SetPriority(s, p)
    requires forall j :: k < j < |h| ==> !(h[j].SetPriority? && h[j].source == s) && h[j] != Reset
    ensures StateAfter(v, h).priority[s] == p % 8
  {
    hide Winner;
    var before := h[..|h| - 1];
    if k == |h| - 1 {
    } else {
      LastPriority(v, before, k, s, p);
    }
  }

  /** The same for a threshold. */
  lemma {:induction false} LastThreshold(v: View, h: seq<Event>, k: nat, t: nat, p: nat)
    requires v.Ok() && t < v.targets && k < |h| && h[k] == SetThreshold(t, p)
    requires forall j :: k < j < |h| ==> !(h[j].SetThreshold? && h[j].target == t) && h[j] != Reset
    ensures StateAfter(v, h).threshold[t] == p % 8
  {
    hide Winner;
    var before := h[..|h| - 1];
    if k == |h| - 1 {
    } else {
      LastThreshold(v, before, k, t, p);
    }
  }

  /** A source is enabled for a target if that was set last. */
  lemma {:induction false} LastEnable(v: View, h: seq<Event>, k: nat, t: nat, s: nat, on: bool)
    requires v.Ok() && t < v.targets && 0 < s < v.sources && k < |h| && h[k] == SetEnable(t, s, on)
    requires forall j :: k < j < |h| ==> !(h[j].SetEnable? && h[j].target == t && h[j].source == s) && h[j] != Reset
    ensures s in StateAfter(v, h).enabled[t] <==> on
  {
    hide Winner;
    var before := h[..|h| - 1];
    if k == |h| - 1 {
    } else {
      LastEnable(v, before, k, t, s, on);
    }
  }

  /** A source is pending if that was set last, and it has not been claimed since. */
  lemma {:induction false} LastPending(v: View, h: seq<Event>, k: nat, s: nat, on: bool)
    requires v.Ok() && 0 < s < v.sources && k < |h| && h[k] == SetPending(s, on)
    requires forall j :: k < j < |h| ==> !(h[j].SetPending? && h[j].source == s) && h[j] != Reset
    requires forall j :: k < j < |h| && h[j].Claim? ==> Claimed(StateAfter(v, h[..j]), h[j].target) != s
    ensures s in StateAfter(v, h).pending <==> on
  {
    hide Best;
    var before, last := h[..|h| - 1], h[|h| - 1];
    if k == |h| - 1 {
    } else {
      assert forall j :: 0 <= j < |before| ==> before[..j] == h[..j];
      assert before[k] == h[k];
      LastPending(v, before, k, s, on);
      assert last.Claim? ==> Claimed(StateAfter(v, before), last.target) != s;
    }
  }

  /** A claim of a free target takes a source that is pending, enabled and above the threshold, of the
      highest priority of all those and the lowest number of these; it takes none if there is none. What
      it takes is held and no longer pending, and nothing else changes. */
  lemma ClaimMeans(v: View, t: nat)
    requires v.Ok() && t < v.targets && v.claimed[t] == 0
    ensures var s, r := Claimed(v, t), Step(v, Claim(t));
            && (s == 0 ==> r == v && forall j :: 0 < j < v.sources && j in v.pending && j in v.enabled[t] ==>
                                       v.priority[j] <= v.threshold[t])
            && (s != 0 ==>
                  && 0 < s < v.sources && s in v.pending && s in v.enabled[t] && v.priority[s] > v.threshold[t]
                  && (forall j :: 0 < j < v.sources && j in v.pending && j in v.enabled[t]
                                  && v.priority[j] > v.threshold[t] ==>
                        v.priority[j] < v.priority[s] || (v.priority[j] == v.priority[s] && s <= j))
                  && r == v.(claimed := v.claimed[t := s], pending := v.pending - {s}))
  {
    forall j | 0 < j < v.sources && v.Candidate(t, j)
      ensures var s := Winner(v, t);
              s != 0 && (v.priority[j] < v.priority[s] || (v.priority[j] == v.priority[s] && s <= j))
    {
      BestIsOptimal(v, t, v.sources, j);
    }
  }

  /** A completion gives up the claim exactly if it names the claimed source. */
  lemma CompleteMeans(v: View, t: nat, s: nat)
    requires v.Ok() && t < v.targets && 0 < s < v.sources
    ensures Step(v, Complete(t, s)) == if v.claimed[t] == s then v.(claimed := v.claimed[t := 0]) else v
  {
  }

  // ----- counting -----

  /** What has happened to a source: calls that set its pending bit, claims that cleared it, other
      calls that cleared it, and claims that were given up. */
  datatype Counts = Counts(raises: nat, claims: nat, clears: nat, releases: nat)

  function CountStep(v: View, e: Event, s: nat, c: Counts): Counts
    requires v.Ok()
  {
    match e
    case SetPending(i, on) =>
      if i != s || !v.Source(s) then c
      else if on && s !in v.pending then c.(raises := c.raises + 1)
      else if !on && s in v.pending then c.(clears := c.clears + 1)
      else c
    case Claim(t) =>
      if v.Target(t) && v.claimed[t] == 0 && Winner(v, t) == s then c.(claims := c.claims + 1) else c
    case Complete(t, i) =>
      if i == s && v.Target(t) && v.Holds(t, s) then c.(releases := c.releases + 1) else c
    case Reset => c.(clears := c.clears + (if s in v.pending then 1 else 0), releases := c.releases + |Holders(v, s)|)
    case _ => c
  }

  function CountsAfter(v: View, h: seq<Event>, s: nat): Counts
    requires v.Ok()
  {
    if h == [] then
      Counts(0, 0, 0, 0)
    else
      CountStep(StateAfter(v, h[..|h| - 1]), h[|h| - 1], s, CountsAfter(v, h[..|h| - 1], s))
  }

  /** The targets that hold a source. */
  function Holders(v: View, s: nat): set<nat>
  {
    set t | 0 <= t < |v.claimed| && v.Holds(t, s)
  }

  /** Every raise of a source ends in a claim or a clear, or is still pending, and every claim in a
      release, or is still held. */
  ghost predicate Conserved(v: View, s: nat, c: Counts) {
    && c.raises == c.claims + c.clears + (if s in v.pending then 1 else 0)
    && c.claims == c.releases + |Holders(v, s)|
  }

  lemma ClaimConserves(v: View, t: nat, s: nat, c: Counts)
    requires v.Ok() && v.Source(s) && Conserved(v, s, c)
    ensures Conserved(Step(v, Claim(t)), s, CountStep(v, Claim(t), s, c))
  {
    hide Best, Winner;
    var before, after := Holders(v, s), Holders(Step(v, Claim(t)), s);
    if v.Target(t) && v.claimed[t] == 0 && Winner(v, t) == s {
      assert after == before + {t};
    } else {
      assert after == before;
    }
  }

  lemma CompleteConserves(v: View, t: nat, i: nat, s: nat, c: Counts)
    requires v.Ok() && v.Source(s) && Conserved(v, s, c)
    ensures Conserved(Step(v, Complete(t, i)), s, CountStep(v, Complete(t, i), s, c))
  {
    var before, after := Holders(v, s), Holders(Step(v, Complete(t, i)), s);
    if i == s && v.Target(t) && v.Holds(t, s) {
      assert after == before - {t};
    } else {
      assert after == before;
    }
  }

  lemma ResetConserves(v: View, s: nat, c: Counts)
    requires v.Ok() && v.Source(s) && Conserved(v, s, c)
    ensures Conserved(Step(v, Reset), s, CountStep(v, Reset, s, c))
  {
    assert Holders(Step(v, Reset), s) == {};
  }

  lemma StepConserves(v: View, e: Event, s: nat, c: Counts)
    requires v.Ok() && v.Source(s) && Conserved(v, s, c)
    ensures Conserved(Step(v, e), s, CountStep(v, e, s, c))
  {
    match e {
      case Claim(t) => ClaimConserves(v, t, s, c);
      case Complete(t, i) => CompleteConserves(v, t, i, s, c);
      case Reset => ResetConserves(v, s, c);
      case _ => assert Holders(Step(v, e), s) == Holders(v, s);
    }
  }

  lemma {:induction false} Conservation(sources: nat, targets: nat, h: seq<Event>, s: nat)
    requires 0 < s < sources
    ensures Conserved(StateAfter(Initial(sources, targets), h), s, CountsAfter(Initial(sources, targets), h, s))
  {
    var v := Initial(sources, targets);
    if h == [] {
      assert Holders(v, s) == {};
    } else {
      Conservation(sources, targets, h[..|h| - 1], s);
      StepConserves(StateAfter(v, h[..|h| - 1]), h[|h| - 1], s, CountsAfter(v, h[..|h| - 1], s));
    }
  }

  // ----- exclusion -----

  ghost predicate Exclusive(v: View) {
    forall t, u :: 0 <= t < u < |v.claimed| && v.claimed[t] != 0 ==> v.claimed[t] != v.claimed[u]
  }

  ghost predicate HeldNotPending(v: View) {
    forall t :: 0 <= t < |v.claimed| ==> v.claimed[t] !in v.pending
  }

  /** The event raises a source that some target holds. */
  ghost predicate RaisesHeld(v: View, e: Event) { e.SetPending? && e.on && v.Held(e.source) }

  lemma StepKeepsExclusion(v: View, e: Event)
    requires v.Ok() && Exclusive(v) && HeldNotPending(v) && !RaisesHeld(v, e)
    ensures Exclusive(Step(v, e)) && HeldNotPending(Step(v, e))
  {
    hide Best;
    var r := Step(v, e);
    match e
    case SetPending(s, on) =>
      forall t | 0 <= t < |v.claimed|
        ensures v.claimed[t] !in r.pending
      {
        assert v.claimed[t] == s && s != 0 ==> v.Holds(t, s);
      }
    case _ =>
  }

  /** Exclusion: if no source is raised while it is held, no two targets ever hold the same source. */
  lemma {:induction false} Exclusion(sources: nat, targets: nat, h: seq<Event>)
    requires forall k :: 0 <= k < |h| ==> !RaisesHeld(StateAfter(Initial(sources, targets), h[..k]), h[k])
    ensures var v := StateAfter(Initial(sources, targets), h);
            Exclusive(v) && HeldNotPending(v)
  {
    if h == [] {
    } else {
      var before := h[..|h| - 1];
      forall k | 0 <= k < |before|
        ensures !RaisesHeld(StateAfter(Initial(sources, targets), before[..k]), before[k])
      {
        assert h[..k] == before[..k];
      }
      Exclusion(sources, targets, before);
      StepKeepsExclusion(StateAfter(Initial(sources, targets), before), h[|h| - 1]);
    }
  }

  lemma RaiseBreaks(v: View, e: Event)
    requires v.Ok() && RaisesHeld(v, e)
    ensures !HeldNotPending(Step(v, e))
  {
    var t :| 0 <= t < |v.claimed| && v.Holds(t, e.source);
    assert v.claimed[t] in Step(v, e).pending;
  }

  lemma NextState(v: View, h: seq<Event>, k: nat)
    requires v.Ok() && k < |h|
    ensures StateAfter(v, h[..k + 1]) == Step(StateAfter(v, h[..k]), h[k])
  {
    assert h[..k + 1][..k] == h[..k];
  }

  lemma OneMore(v: View, h: seq<Event>, e: Event)
    requires v.Ok()
    ensures StateAfter(v, h + [e]) == Step(StateAfter(v, h), e)
  {
    assert (h + [e])[..|h|] == h;
  }

  lemma ExclusionUpTo(sources: nat, targets: nat, h: seq<Event>, k: nat)
    requires k <= |h|
    requires forall j :: 0 <= j < |h| ==> !RaisesHeld(StateAfter(Initial(sources, targets), h[..j]), h[j])
    ensures HeldNotPending(StateAfter(Initial(sources, targets), h[..k]))
  {
    hide StateAfter, HeldNotPending, RaisesHeld, Initial;
    forall j | 0 <= j < k
      ensures !RaisesHeld(StateAfter(Initial(sources, targets), h[..k][..j]), h[..k][j])
    {
      assert h[..k][..j] == h[..j];
    }
    Exclusion(sources, targets, h[..k]);
  }

  /** Over every run: held sources are never pending exactly when none is raised while it is held. */
  lemma ExclusionIff(sources: nat, targets: nat, h: seq<Event>)
    ensures (forall k :: 0 <= k <= |h| ==> HeldNotPending(StateAfter(Initial(sources, targets), h[..k]))) <==>
            (forall k :: 0 <= k < |h| ==> !RaisesHeld(StateAfter(Initial(sources, targets), h[..k]), h[k]))
  {
    hide Step, StateAfter, HeldNotPending, RaisesHeld, Initial;
    var v := Initial(sources, targets);
    if k :| 0 <= k < |h| && RaisesHeld(StateAfter(v, h[..k]), h[k]) {
      RaiseBreaks(StateAfter(v, h[..k]), h[k]);
      NextState(v, h, k);
      assert !HeldNotPending(StateAfter(v, h[..k + 1]));
    } else {
      forall k | 0 <= k <= |h|
        ensures HeldNotPending(StateAfter(v, h[..k]))
      {
        ExclusionUpTo(sources, targets, h, k);
      }
    }
  }

  /** A claim breaks exclusion exactly when the source it wins is already held. */
  lemma ClaimKeepsExclusionIff(v: View, t: nat)
    requires v.Ok() && Exclusive(v)
    ensures Exclusive(Step(v, Claim(t))) <==>
            !(v.Target(t) && v.claimed[t] == 0 && Winner(v, t) != 0 && v.Held(Winner(v, t)))
  {
    hide Best, Winner;
    var r := Step(v, Claim(t));
    if v.Target(t) && v.claimed[t] == 0 && Winner(v, t) != 0 {
      var s := Winner(v, t);
      if v.Held(s) {
        var u :| 0 <= u < |v.claimed| && v.Holds(u, s);
        var first, second := if u < t then u else t, if u < t then t else u;
        assert r.claimed[first] == r.claimed[second] == s && first < second;
        assert !Exclusive(r);
      } else {
        forall u | 0 <= u < |v.claimed|
          ensures v.claimed[u] != s
        {
          assert !v.Holds(u, s);
        }
      }
    }
  }

  /** The events set enables, priorities and thresholds only. */
  predicate Configures(h: seq<Event>) {
    forall k :: 0 <= k < |h| ==> h[k].SetEnable? || h[k].SetPriority? || h[k].SetThreshold?
  }

  lemma {:induction false} ConfiguringKeeps(v: View, h: seq<Event>)
    requires v.Ok() && Configures(h)
    ensures StateAfter(v, h).claimed == v.claimed && StateAfter(v, h).pending == v.pending
  {
    if h == [] {
    } else {
      ConfiguringKeeps(v, h[..|h| - 1]);
    }
  }

  /** The calls that enable one source below n for a target and disable the others. */
  function EnableOnly(t: nat, s: nat, n: nat): (r: seq<Event>)
    ensures Configures(r)
  {
    if n == 0 then [] else EnableOnly(t, s, n - 1) + [SetEnable(t, n - 1, n - 1 == s)]
  }

  lemma {:induction false} EnabledOnly(v: View, t: nat, s: nat, n: nat)
    requires v.Ok() && v.Target(t) && n <= v.sources
    ensures forall j :: 0 < j < n ==> (j in StateAfter(v, EnableOnly(t, s, n)).enabled[t] <==> j == s)
  {
    if n == 0 {
    } else {
      EnabledOnly(v, t, s, n - 1);
      var h := EnableOnly(t, s, n);
      assert h[..|h| - 1] == EnableOnly(t, s, n - 1);
    }
  }

  /** The calls after which a target can only win one source. */
  function Favouring(v: View, t: nat, s: nat): (r: seq<Event>)
    ensures Configures(r)
  {
    EnableOnly(t, s, v.sources) + [SetThreshold(t, 0)] + [SetPriority(s, 7)]
  }

  lemma Favoured(v: View, t: nat, s: nat)
    requires v.Ok() && v.Target(t) && v.Source(s)
    ensures var r := StateAfter(v, Favouring(v, t, s));
            r.threshold[t] == 0 && r.priority[s] == 7 && forall j :: v.Source(j) ==> (j in r.enabled[t] <==> j == s)
  {
    hide EnableOnly, StateAfter;
    var h := EnableOnly(t, s, v.sources);
    EnabledOnly(v, t, s, v.sources);
    OneMore(v, h, SetThreshold(t, 0));
    OneMore(v, h + [SetThreshold(t, 0)], SetPriority(s, 7));
  }

  lemma FavouredWins(v: View, t: nat, s: nat)
    requires v.Ok() && v.Target(t) && v.Source(s) && s in v.pending
    ensures Winner(StateAfter(v, Favouring(v, t, s)), t) == s
  {
    hide StateAfter, Favouring, Best;
    var r := StateAfter(v, Favouring(v, t, s));
    Favoured(v, t, s);
    ConfiguringKeeps(v, Favouring(v, t, s));
    assert r.Candidate(t, s);
    BestIsOptimal(r, t, r.sources, s);
  }

  /** Where some target is free, no held source is pending exactly when exclusion survives every setting
      of enables, priorities and thresholds followed by a claim. */
  lemma NextClaimExclusiveIff(v: View, t: nat)
    requires v.Ok() && Exclusive(v) && v.Target(t) && v.claimed[t] == 0
    ensures HeldNotPending(v) <==>
            forall h, u: nat :: Configures(h) ==> Exclusive(Step(StateAfter(v, h), Claim(u)))
  {
    hide Winner, Step, Favouring;
    if HeldNotPending(v) {
      forall h, u: nat | Configures(h)
        ensures Exclusive(Step(StateAfter(v, h), Claim(u)))
      {
        ConfiguringKeeps(v, h);
        StepKeepsExclusion(StateAfter(v, h), Claim(u));
      }
    } else {
      var u :| 0 <= u < |v.claimed| && v.claimed[u] in v.pending;
      var s, h := v.claimed[u], Favouring(v, t, v.claimed[u]);
      FavouredWins(v, t, s);
      ConfiguringKeeps(v, h);
      assert StateAfter(v, h).Holds(u, s);
      ClaimKeepsExclusionIff(StateAfter(v, h), t);
      assert !Exclusive(Step(StateAfter(v, h), Claim(t)));
    }
  }

  // ----- running the controller -----

  method Handle(p: Plic, e: Event) returns (out: nat)
    requires p.Valid()
    modifies p
    ensures p.Valid() && p.Abstract() == Step(old(p.Abstract()), e)
    ensures e.Claim? ==> out == Claimed(old(p.Abstract()), e.target)
  {
    out := 0;
    match e
    case SetPending(s, on) => p.SetPending(s, on);
    case SetPriority(s, v) => p.SetPriority(s, v);
    case SetEnable(t, s, on) => p.SetEnable(t, s, on);
    case SetThreshold(t, v) => p.SetThreshold(t, v);
    case Claim(t) => out := p.Claim(t);
    case Complete(t, s) => p.Complete(t, s);
    case Reset => p.Reset();
  }

  /** Every run of a new controller: what the claims return, and the state it ends in. */
  method RunEvents(numSources: nat, numTargets: nat, h: seq<Event>) returns (outs: seq<nat>, ghost final: View)
    ensures final == StateAfter(Initial(SourceCount(numSources), TargetCount(numTargets)), h) && |outs| == |h|
    ensures forall k :: 0 <= k < |h| && h[k].Claim? ==>
              outs[k] == Claimed(StateAfter(Initial(SourceCount(numSources), TargetCount(numTargets)), h[..k]),
                                 h[k].target)
  {
    hide Step, Claimed, Initial;
    var p := new Plic(numSources, numTargets);
    ghost var start := Initial(SourceCount(numSources), TargetCount(numTargets));
    outs := [];
    assert h[..0] == [];
    for k := 0 to |h|
      invariant p.Valid() && p.Abstract() == StateAfter(start, h[..k]) && |outs| == k
      invariant forall j :: 0 <= j < k && h[j].Claim? ==> outs[j] == Claimed(StateAfter(start, h[..j]), h[j].target)
    {
      var out := Handle(p, h[k]);
      outs := outs + [out];
      assert h[..k + 1][..k] == h[..k];
    }
    assert h[..|h|] == h;
    final := p.Abstract();
  }

  lemma OnlyCandidate(v: View, t: nat)
    requires v.Ok() && t < v.targets && v.sources == 2 && v.Candidate(t, 1)
    ensures Winner(v, t) == 1
  {
    BestIsOptimal(v, t, 2, 1);
  }

  lemma TwoOfEach()
    ensures Initial(2, 2) == View(2, 2, {}, [{}, {}], [0, 0], [0, 0], [0, 0])
  {
    var v := Initial(2, 2);
    assert v.enabled == [{}, {}];
    assert v.priority == [0, 0];
    assert v.threshold == v.claimed == [0, 0];
  }

  lemma Configured()
    ensures var v := Step(Step(Step(Initial(2, 2), SetPriority(1, 1)), SetEnable(0, 1, true)), SetEnable(1, 1, true));
            v == View(2, 2, {}, [{1}, {1}], [0, 1], [0, 0], [0, 0])
  {
    TwoOfEach();
    var v := Initial(2, 2);
    var v1 := Step(v, SetPriority(1, 1));
    assert v1.priority == [0, 1];
    assert v.enabled[0] + {1} == v.enabled[1] + {1} == {1};
    var v2 := Step(v1, SetEnable(0, 1, true));
    assert v2.enabled == [{1}, {}];
    var v3 := Step(v2, SetEnable(1, 1, true));
    assert v3.enabled == [{1}, {1}];
  }

  lemma ClaimedOnce(v: View, v': View)
    requires v == View(2, 2, {}, [{1}, {1}], [0, 1], [0, 0], [0, 0])
    requires v' == Step(v, SetPending(1, true))
    ensures Claimed(v', 0) == 1
    ensures Step(Step(v', Claim(0)), SetPending(1, true)) == View(2, 2, {1}, [{1}, {1}], [0, 1], [0, 0], [1, 0])
  {
    hide Best, Winner;
    OnlyCandidate(v', 0);
  }

  /** A source raised again while it is held can be claimed by a second target. */
  method ClaimedTwice() returns (first: nat, second: nat)
    ensures first == second == 1
  {
    hide Best, Winner, Step, Initial, Members, Claimed;
    var p := new Plic(2, 2);
    p.SetPriority(1, 1);
    p.SetEnable(0, 1, true);
    p.SetEnable(1, 1, true);
    Configured();
    ghost var v := p.Abstract();
    p.SetPending(1, true);
    ClaimedOnce(v, p.Abstract());
    first := p.Claim(0);
    p.SetPending(1, true);
    v := p.Abstract();
    second := ClaimSecond(p);
  }

  method ClaimSecond(p: Plic) returns (source: nat)
    requires p.Valid() && p.Abstract() == View(2, 2, {1}, [{1}, {1}], [0, 1], [0, 0], [1, 0])
    modifies p
    ensures source == 1
  {
    hide Best, Winner, Step;
    OnlyCandidate(p.Abstract(), 1);
    source := p.Claim(1);
  }
}
