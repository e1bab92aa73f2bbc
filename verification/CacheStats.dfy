/** The access counters of a cache and the laws that tie them together. */
module CacheStats {

  datatype CoreCounters = CoreCounters(hits: nat, misses: nat, accesses: nat, accessTime: nat,
                                       missPenalty: nat, hitTime: nat, missTime: nat)

  datatype Stats = Stats(hits: nat, misses: nat, accesses: nat, accessTime: nat,
                         missPenalty: nat, hitTime: nat, missTime: nat, cores: seq<CoreCounters>)
  {
    /** Books an access to a core; a core id outside the table is ignored. */
    function UpdateCore(core: nat, hit: bool, time: nat, penalty: nat): Stats {
      if core >= |cores| then
        this
      else
        var c := cores[core];
        if hit then
          this.(cores := cores[core := c.(accesses := c.accesses + 1, accessTime := c.accessTime + time,
                                          hits := c.hits + 1, hitTime := c.hitTime + time)],
                hitTime := hitTime + time)
        else
          this.(cores := cores[core := c.(accesses := c.accesses + 1, accessTime := c.accessTime + time,
                                          misses := c.misses + 1, missPenalty := c.missPenalty + penalty,
                                          missTime := c.missTime + time)],
                missTime := missTime + time)
    }

    /** Everything one access adds to the counters. */
    function Record(core: nat, hit: bool, latency: nat, penalty: nat): Stats {
      if hit then
        this.(accesses := accesses + 1, hits := hits + 1, accessTime := accessTime + latency)
            .UpdateCore(core, true, latency, 0)
      else
        this.(accesses := accesses + 1, misses := misses + 1, missPenalty := missPenalty + penalty,
              accessTime := accessTime + latency + penalty)
            .UpdateCore(core, false, latency + penalty, penalty)
    }

    ghost predicate Conserved(latency: nat, penalty: nat) {
      && hits + misses == accesses
      && missPenalty == misses * penalty
      && accessTime == hits * latency + misses * (latency + penalty)
    }
  }

  function Fresh(numCores: nat): Stats {
    Stats(0, 0, 0, 0, 0, 0, 0, seq(numCores, _ => CoreCounters(0, 0, 0, 0, 0, 0, 0)))
  }

  datatype Access = Access(core: nat, hit: bool)

  function RecordAll(s: Stats, run: seq<Access>, latency: nat, penalty: nat): Stats {
    if run == [] then s
    else
      var last := run[|run| - 1];
      RecordAll(s, run[..|run| - 1], latency, penalty).Record(last.core, last.hit, latency, penalty)
  }

  lemma RecordConserves(s: Stats, core: nat, hit: bool, latency: nat, penalty: nat)
    requires s.Conserved(latency, penalty)
    ensures s.Record(core, hit, latency, penalty).Conserved(latency, penalty)
  {
    assert (s.misses + 1) * penalty == s.misses * penalty + penalty;
    assert (s.hits + 1) * latency == s.hits * latency + latency;
    assert (s.misses + 1) * (latency + penalty) == s.misses * (latency + penalty) + latency + penalty;
  }

  // ----- per-core counters -----

  datatype Field = Hits | Misses | Accesses | AccessTime | MissPenalty | HitTime | MissTime

  function Get(c: CoreCounters, f: Field): nat {
    match f
    case Hits => c.hits
    case Misses => c.misses
    case Accesses => c.accesses
    case AccessTime => c.accessTime
    case MissPenalty => c.missPenalty
    case HitTime => c.hitTime
    case MissTime => c.missTime
  }

  /** A counter summed over the cores. */
  function Total(cores: seq<CoreCounters>, f: Field): nat {
    if cores == [] then 0 else Get(cores[0], f) + Total(cores[1..], f)
  }

  lemma {:induction false} TotalUpdate(cores: seq<CoreCounters>, i: nat, c: CoreCounters, f: Field)
    requires i < |cores|
    ensures Total(cores[i := c], f) == Total(cores, f) - Get(cores[i], f) + Get(c, f)
  {
    if i > 0 {
      TotalUpdate(cores[1..], i - 1, c, f);
      assert cores[i := c][1..] == cores[1..][i - 1 := c];
    } else {
      assert cores[i := c][1..] == cores[1..];
    }
  }

  lemma {:induction false} TotalFresh(cores: seq<CoreCounters>, f: Field)
    requires forall i :: 0 <= i < |cores| ==> cores[i] == CoreCounters(0, 0, 0, 0, 0, 0, 0)
    ensures Total(cores, f) == 0
  {
    if cores == [] {
    } else {
      TotalFresh(cores[1..], f);
    }
  }

  /** What one access adds to a counter of its core. */
  function Share(hit: bool, latency: nat, penalty: nat, f: Field): nat {
    match f
    case Hits => if hit then 1 else 0
    case Misses => if hit then 0 else 1
    case Accesses => 1
    case AccessTime => if hit then latency else latency + penalty
    case MissPenalty => if hit then 0 else penalty
    case HitTime => if hit then latency else 0
    case MissTime => if hit then 0 else latency + penalty
  }

  lemma RecordShares(s: Stats, core: nat, hit: bool, latency: nat, penalty: nat, f: Field)
    ensures var cores' := s.Record(core, hit, latency, penalty).cores;
            && |cores'| == |s.cores|
            && Total(cores', f) == Total(s.cores, f) + if core < |s.cores| then Share(hit, latency, penalty, f) else 0
  {
    if core < |s.cores| {
      TotalUpdate(s.cores, core, s.Record(core, hit, latency, penalty).cores[core], f);
    }
  }

  /** The number of accesses of a run whose core id the table has. */
  function Attributed(run: seq<Access>, numCores: nat): (n: nat)
    ensures n <= |run|
    ensures n == |run| <==> forall i :: 0 <= i < |run| ==> run[i].core < numCores
  {
    if run == [] then 0
    else Attributed(run[..|run| - 1], numCores) + if run[|run| - 1].core < numCores then 1 else 0
  }

  lemma {:induction false} TotalAccesses(run: seq<Access>, numCores: nat, latency: nat, penalty: nat)
    ensures var s := RecordAll(Fresh(numCores), run, latency, penalty);
            && s.accesses == |run|
            && |s.cores| == numCores
            && Total(s.cores, Accesses) == Attributed(run, numCores)
            && Total(s.cores, HitTime) == s.hitTime && Total(s.cores, MissTime) == s.missTime
            && Total(s.cores, AccessTime) == s.hitTime + s.missTime
  {
    if run == [] {
      forall f: Field ensures Total(Fresh(numCores).cores, f) == 0 {
        TotalFresh(Fresh(numCores).cores, f);
      }
    } else {
      var last := run[|run| - 1];
      TotalAccesses(run[..|run| - 1], numCores, latency, penalty);
      var s := RecordAll(Fresh(numCores), run[..|run| - 1], latency, penalty);
      RecordShares(s, last.core, last.hit, latency, penalty, Accesses);
      RecordShares(s, last.core, last.hit, latency, penalty, HitTime);
      RecordShares(s, last.core, last.hit, latency, penalty, MissTime);
      RecordShares(s, last.core, last.hit, latency, penalty, AccessTime);
    }
  }

  /** After any run the totals obey the timing laws; the cores account for all accesses
      exactly when every core id of the run was valid. */
  lemma {:induction false} TimingConservation(run: seq<Access>, numCores: nat, latency: nat, penalty: nat)
    ensures var s := RecordAll(Fresh(numCores), run, latency, penalty);
            && s.Conserved(latency, penalty)
            && (Total(s.cores, Accesses) == s.accesses <==> forall i :: 0 <= i < |run| ==> run[i].core < numCores)
  {
    TotalAccesses(run, numCores, latency, penalty);
    if run == [] {
    } else {
      var last := run[|run| - 1];
      TimingConservation(run[..|run| - 1], numCores, latency, penalty);
      RecordConserves(RecordAll(Fresh(numCores), run[..|run| - 1], latency, penalty), last.core, last.hit, latency,
                      penalty);
    }
  }

  /** With valid core ids throughout, every per-core counter sums to its total, and the time
      spent on hits and on misses is all the access time. */
  lemma {:induction false} CoresAccountForAll(run: seq<Access>, numCores: nat, latency: nat, penalty: nat)
    requires forall i :: 0 <= i < |run| ==> run[i].core < numCores
    ensures var s := RecordAll(Fresh(numCores), run, latency, penalty);
            && Total(s.cores, Hits) == s.hits && Total(s.cores, Misses) == s.misses
            && Total(s.cores, MissPenalty) == s.missPenalty
            && Total(s.cores, AccessTime) == s.accessTime
            && s.hitTime + s.missTime == s.accessTime
  {
    TotalAccesses(run, numCores, latency, penalty);
    if run == [] {
      forall f: Field ensures Total(Fresh(numCores).cores, f) == 0 {
        TotalFresh(Fresh(numCores).cores, f);
      }
    } else {
      var last := run[|run| - 1];
      CoresAccountForAll(run[..|run| - 1], numCores, latency, penalty);
      TotalAccesses(run[..|run| - 1], numCores, latency, penalty);
      var s := RecordAll(Fresh(numCores), run[..|run| - 1], latency, penalty);
      RecordShares(s, last.core, last.hit, latency, penalty, Hits);
      RecordShares(s, last.core, last.hit, latency, penalty, Misses);
      RecordShares(s, last.core, last.hit, latency, penalty, MissPenalty);
      RecordShares(s, last.core, last.hit, latency, penalty, AccessTime);
    }
  }

  // ----- counters and the accesses they stand for -----

  /** The hits, or the misses, of one core in a run. */
  function CountOf(run: seq<Access>, core: nat, hit: bool): nat {
    if run == [] then 0
    else CountOf(run[..|run| - 1], core, hit) + if run[|run| - 1] == Access(core, hit) then 1 else 0
  }

  /** The hits, or the misses, of a run. */
  function CountAll(run: seq<Access>, hit: bool): nat {
    if run == [] then 0
    else CountAll(run[..|run| - 1], hit) + if run[|run| - 1].hit == hit then 1 else 0
  }

  /** The counters stand for h hits and m misses of the given costs. */
  ghost predicate Shows(c: CoreCounters, h: nat, m: nat, latency: nat, penalty: nat) {
    && c.hits == h && c.misses == m && c.accesses == h + m
    && c.hitTime == h * latency
    && c.missTime == m * (latency + penalty)
    && c.accessTime == c.hitTime + c.missTime
    && c.missPenalty == m * penalty
  }

  lemma OneMore(h: nat, m: nat, latency: nat, penalty: nat)
    ensures (h + 1) * latency == h * latency + latency
    ensures (m + 1) * (latency + penalty) == m * (latency + penalty) + latency + penalty
    ensures (m + 1) * penalty == m * penalty + penalty
  {
  }

  /** The totals stand for h hits and m misses. */
  ghost predicate Totals(s: Stats, h: nat, m: nat, latency: nat, penalty: nat) {
    && s.hits == h && s.misses == m && s.accesses == h + m
    && s.accessTime == h * latency + m * (latency + penalty)
    && s.missPenalty == m * penalty
  }

  lemma RecordShows(s: Stats, core: nat, hit: bool, latency: nat, penalty: nat, i: nat, h: nat, m: nat)
    requires i < |s.cores| && Shows(s.cores[i], h, m, latency, penalty)
    ensures |s.Record(core, hit, latency, penalty).cores| == |s.cores|
    ensures Shows(s.Record(core, hit, latency, penalty).cores[i], h + (if i == core && hit then 1 else 0),
                  m + (if i == core && !hit then 1 else 0), latency, penalty)
  {
    OneMore(h, m, latency, penalty);
  }

  lemma RecordTotals(s: Stats, core: nat, hit: bool, latency: nat, penalty: nat, h: nat, m: nat)
    requires Totals(s, h, m, latency, penalty)
    ensures Totals(s.Record(core, hit, latency, penalty), h + (if hit then 1 else 0), m + (if hit then 0 else 1),
                   latency, penalty)
  {
    OneMore(h, m, latency, penalty);
  }

  /** After any run each core's counters show its own hits and misses, and the totals
      those of all accesses. */
  lemma {:induction false} CountersShowRun(run: seq<Access>, numCores: nat, latency: nat, penalty: nat)
    ensures var s := RecordAll(Fresh(numCores), run, latency, penalty);
            && |s.cores| == numCores
            && (forall i :: 0 <= i < numCores ==>
                  Shows(s.cores[i], CountOf(run, i, true), CountOf(run, i, false), latency, penalty))
            && Totals(s, CountAll(run, true), CountAll(run, false), latency, penalty)
  {
    if run == [] {
    } else {
      hide Shows, Totals, Stats.Record;
      var before, last := run[..|run| - 1], run[|run| - 1];
      CountersShowRun(before, numCores, latency, penalty);
      var s := RecordAll(Fresh(numCores), before, latency, penalty);
      RecordTotals(s, last.core, last.hit, latency, penalty, CountAll(before, true), CountAll(before, false));
      forall i | 0 <= i < numCores
        ensures Shows(s.Record(last.core, last.hit, latency, penalty).cores[i], CountOf(run, i, true),
                      CountOf(run, i, false), latency, penalty)
      {
        RecordShows(s, last.core, last.hit, latency, penalty, i, CountOf(before, i, true), CountOf(before, i, false));
      }
      RecordLength(s, last.core, last.hit, latency, penalty);
    }
  }

  lemma RecordLength(s: Stats, core: nat, hit: bool, latency: nat, penalty: nat)
    ensures |s.Record(core, hit, latency, penalty).cores| == |s.cores|
  {
  }
}
