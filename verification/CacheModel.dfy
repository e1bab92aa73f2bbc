/** The contents of a set-associative write-back cache as values, and what they mean.

  A cache over a lower memory stands for one flat memory, its overlay: a word is read from
  the valid line that holds its block, or from below when there is none. The lemmas say what
  each elementary change of a cache does to the overlay and to the set of dirty blocks. */
module CacheModel {
  import opened Arithmetic
  import opened Words
  import opened Lru

  /** words: words per block; used: sets an address can select; sets: sets allocated. */
  datatype Geometry = Geometry(words: nat, used: nat, ways: nat, sets: nat) {
    predicate Ok() {
      words > 0 && used > 0 && ways > 0 && used <= sets
    }

    /** The block holding word w, and where in the block the word is. */
    function Block(w: nat): nat
      requires Ok()
    {
      Quotient(w, words)
    }

    function Index(w: nat): (i: nat)
      requires Ok()
      ensures i < words
    {
      Remainder(w, words)
    }

    function SetOf(block: nat): (i: nat)
      requires Ok()
      ensures i < used <= sets
    {
      Remainder(block, used)
    }

    function TagOf(block: nat): nat
      requires Ok()
    {
      Quotient(block, used)
    }

    function BlockAt(set_: nat, tag: nat): nat {
      Times(tag, used) + set_
    }

    function FirstWord(block: nat): nat {
      Times(block, words)
    }
  }

  /** A block is recovered from the set and tag it is filed under, and conversely. */
  lemma BlockRebuilt(g: Geometry, n: nat)
    requires g.Ok()
    ensures g.BlockAt(g.SetOf(n), g.TagOf(n)) == n
  {
    Recomposed(n, g.used);
  }

  lemma FiledUnder(g: Geometry, i: nat, tag: nat)
    requires g.Ok() && i < g.used
    ensures g.SetOf(g.BlockAt(i, tag)) == i && g.TagOf(g.BlockAt(i, tag)) == tag
  {
    Decomposed(tag, i, g.used);
  }

  /** The words of block n are those from its first word on. */
  lemma BlockSpan(g: Geometry, n: nat, w: nat)
    requires g.Ok()
    ensures g.Block(w) == n <==> g.FirstWord(n) <= w < g.FirstWord(n) + g.words
    ensures g.Block(w) == n ==> g.Index(w) == w - g.FirstWord(n)
  {
    Recomposed(w, g.words);
    if g.FirstWord(n) <= w < g.FirstWord(n) + g.words {
      Decomposed(n, w - g.FirstWord(n), g.words);
    }
  }

  // ----- cache sets -----

  datatype Entry = Entry(tag: nat, data: seq<Word>, valid: bool, dirty: bool) {
    predicate Matches(t: nat) {
      valid && tag == t
    }

    function Cleaned(): Entry { this.(dirty := false) }

    function Invalidated(): Entry { this.(valid := false, dirty := false) }
  }

  /** The first way of a set whose valid line has the tag, or the number of ways. */
  function Find(s: seq<Entry>, tag: nat): (k: nat)
    ensures k <= |s|
    ensures k < |s| ==> s[k].Matches(tag)
    ensures forall j :: 0 <= j < k ==> !s[j].Matches(tag)
  {
    FindFrom(s, tag, 0)
  }

  function FindFrom(s: seq<Entry>, tag: nat, from: nat): (k: nat)
    requires from <= |s|
    ensures from <= k <= |s|
    ensures k < |s| ==> s[k].Matches(tag)
    ensures forall j :: from <= j < k ==> !s[j].Matches(tag)
    decreases |s| - from
  {
    if from == |s| || s[from].Matches(tag) then from else FindFrom(s, tag, from + 1)
  }

  ghost predicate SetOk(g: Geometry, s: seq<Entry>) {
    && |s| == g.ways
    && (forall k :: 0 <= k < |s| ==> |s[k].data| == g.words)
    && (forall j, k :: 0 <= j < k < |s| && s[j].valid && s[k].valid ==> s[j].tag != s[k].tag)
  }

  ghost predicate SetsOk(g: Geometry, sets: seq<seq<Entry>>) {
    && g.Ok()
    && |sets| == g.sets
    && (forall i :: 0 <= i < |sets| ==> SetOk(g, sets[i]))
    && (forall i, k :: g.used <= i < |sets| && 0 <= k < |sets[i]| ==> !sets[i][k].valid)
  }

  lemma FoundAt(g: Geometry, s: seq<Entry>, k: nat)
    requires SetOk(g, s) && k < |s| && s[k].valid
    ensures Find(s, s[k].tag) == k
  {
  }

  lemma FindElsewhere(s: seq<Entry>, k: nat, e: Entry, tag: nat)
    requires k < |s| && !s[k].Matches(tag) && !e.Matches(tag)
    ensures Find(s[k := e], tag) == Find(s, tag) != k
  {
    var s' := s[k := e];
    var i, j := Find(s, tag), Find(s', tag);
    assert i < |s| ==> s'[i].Matches(tag);
    assert j < |s| ==> s[j].Matches(tag);
  }

  lemma FindSame(s: seq<Entry>, k: nat, e: Entry, tag: nat)
    requires Find(s, tag) == k < |s| && e.Matches(tag)
    ensures Find(s[k := e], tag) == k
  {
    var s' := s[k := e];
    assert forall j :: 0 <= j < k ==> !s'[j].Matches(tag);
    assert s'[k].Matches(tag);
  }

  function Slots(s: seq<Entry>): (r: seq<Slot>)
    ensures |r| == |s|
    ensures forall k :: 0 <= k < |s| ==> r[k] == if s[k].valid then Holds(s[k].tag) else Slot.Empty
  {
    seq(|s|, k requires 0 <= k < |s| => if s[k].valid then Holds(s[k].tag) else Slot.Empty)
  }

  // ----- the memory a cache stands for -----

  ghost predicate Resident(g: Geometry, sets: seq<seq<Entry>>, n: nat)
    requires SetsOk(g, sets)
  {
    Find(sets[g.SetOf(n)], g.TagOf(n)) < g.ways
  }

  ghost predicate IsDirty(g: Geometry, sets: seq<seq<Entry>>, n: nat)
    requires SetsOk(g, sets)
  {
    var s := sets[g.SetOf(n)];
    var k := Find(s, g.TagOf(n));
    k < g.ways && s[k].dirty
  }

  function Peek(g: Geometry, sets: seq<seq<Entry>>, below: seq<Word>, w: nat): Word
    requires SetsOk(g, sets) && w < |below|
  {
    var n := g.Block(w);
    var s := sets[g.SetOf(n)];
    var k := Find(s, g.TagOf(n));
    if k < g.ways then s[k].data[g.Index(w)] else below[w]
  }

  function Overlay(g: Geometry, sets: seq<seq<Entry>>, below: seq<Word>): (r: seq<Word>)
    requires SetsOk(g, sets)
    ensures |r| == |below|
    ensures forall w :: 0 <= w < |r| ==> r[w] == Peek(g, sets, below, w)
  {
    seq(|below|, w requires 0 <= w < |below| => Peek(g, sets, below, w))
  }

  /** The overlay differs from the memory below only in dirty blocks. */
  ghost predicate CleanAgrees(g: Geometry, sets: seq<seq<Entry>>, below: seq<Word>)
    requires SetsOk(g, sets)
  {
    forall w :: 0 <= w < |below| && !IsDirty(g, sets, g.Block(w)) ==> Peek(g, sets, below, w) == below[w]
  }

  function Replace(sets: seq<seq<Entry>>, i: nat, k: nat, e: Entry): seq<seq<Entry>>
    requires i < |sets| && k < |sets[i]|
  {
    sets[i := sets[i][k := e]]
  }

  lemma ReplaceTwice(sets: seq<seq<Entry>>, i: nat, k: nat, e: Entry, f: Entry)
    requires i < |sets| && k < |sets[i]|
    ensures Replace(Replace(sets, i, k, e), i, k, f) == Replace(sets, i, k, f)
  {
    assert sets[i][k := e][k := f] == sets[i][k := f];
  }

  lemma ReplaceOk(g: Geometry, sets: seq<seq<Entry>>, i: nat, k: nat, e: Entry)
    requires SetsOk(g, sets) && i < g.used && k < g.ways && |e.data| == g.words
    requires e.valid ==> forall j :: 0 <= j < g.ways && j != k ==> !sets[i][j].Matches(e.tag)
    ensures SetsOk(g, Replace(sets, i, k, e))
  {
    var s := sets[i][k := e];
    assert SetOk(g, sets[i]);
    assert forall j :: 0 <= j < g.ways && j != k ==> s[j] == sets[i][j];
    assert SetOk(g, s);
  }

  /** Replacing one line leaves the blocks of neither line as they were. */
  lemma OtherBlock(g: Geometry, sets: seq<seq<Entry>>, i: nat, k: nat, e: Entry, b: nat)
    requires SetsOk(g, sets) && i < g.used && k < g.ways && SetsOk(g, Replace(sets, i, k, e))
    requires sets[i][k].valid ==> b != g.BlockAt(i, sets[i][k].tag)
    requires e.valid ==> b != g.BlockAt(i, e.tag)
    ensures IsDirty(g, Replace(sets, i, k, e), b) == IsDirty(g, sets, b)
    ensures Resident(g, Replace(sets, i, k, e), b) == Resident(g, sets, b)
    ensures forall m, w :: 0 <= w < |m| && g.Block(w) == b ==>
              Peek(g, Replace(sets, i, k, e), m, w) == Peek(g, sets, m, w)
  {
    BlockRebuilt(g, b);
    if g.SetOf(b) == i {
      FindElsewhere(sets[i], k, e, g.TagOf(b));
    }
  }

  /** A valid line is what its block is read from. */
  lemma OwnBlock(g: Geometry, sets: seq<seq<Entry>>, i: nat, k: nat)
    requires SetsOk(g, sets) && i < g.used && k < g.ways && sets[i][k].valid
    ensures var b := g.BlockAt(i, sets[i][k].tag);
            && Resident(g, sets, b)
            && IsDirty(g, sets, b) == sets[i][k].dirty
            && forall m, w :: 0 <= w < |m| && g.Block(w) == b ==>
                 Peek(g, sets, m, w) == sets[i][k].data[g.Index(w)]
  {
    FiledUnder(g, i, sets[i][k].tag);
    FoundAt(g, sets[i], k);
  }

  /** A block whose tag no valid line of its set has is read from below. */
  lemma AbsentBlock(g: Geometry, sets: seq<seq<Entry>>, i: nat, tag: nat)
    requires SetsOk(g, sets) && i < g.used
    requires forall k :: 0 <= k < g.ways ==> !sets[i][k].Matches(tag)
    ensures var b := g.BlockAt(i, tag);
            && !Resident(g, sets, b) && !IsDirty(g, sets, b)
            && forall m, w :: 0 <= w < |m| && g.Block(w) == b ==> Peek(g, sets, m, w) == m[w]
  {
    FiledUnder(g, i, tag);
  }

  // ----- elementary changes -----

  /** Rewriting a valid line under the same tag. */
  lemma Rewriting(g: Geometry, sets: seq<seq<Entry>>, i: nat, k: nat, e: Entry)
    requires SetsOk(g, sets) && i < g.used && k < g.ways && sets[i][k].valid
    requires e.Matches(sets[i][k].tag) && |e.data| == g.words
    ensures var n := g.BlockAt(i, e.tag);
            var sets' := Replace(sets, i, k, e);
            && SetsOk(g, sets')
            && (forall b :: IsDirty(g, sets', b) <==> if b == n then e.dirty else IsDirty(g, sets, b))
            && (forall b :: Resident(g, sets', b) == Resident(g, sets, b))
            && Slots(sets'[i]) == Slots(sets[i])
  {
    var n := g.BlockAt(i, e.tag);
    var sets' := Replace(sets, i, k, e);
    ReplaceOk(g, sets, i, k, e);
    OwnBlock(g, sets, i, k);
    OwnBlock(g, sets', i, k);
    forall b | b != n
      ensures IsDirty(g, sets', b) == IsDirty(g, sets, b) && Resident(g, sets', b) == Resident(g, sets, b)
    {
      OtherBlock(g, sets, i, k, e, b);
    }
  }

  /** Writing a line back and marking it clean keeps the overlay. */
  lemma WritingBack(g: Geometry, sets: seq<seq<Entry>>, below: seq<Word>, i: nat, k: nat)
    requires SetsOk(g, sets) && CleanAgrees(g, sets, below)
    requires i < g.used && k < g.ways && sets[i][k].valid
    ensures var n := g.BlockAt(i, sets[i][k].tag);
            var sets' := Replace(sets, i, k, sets[i][k].Cleaned());
            var below' := PutBlock(below, g.FirstWord(n), sets[i][k].data);
            && SetsOk(g, sets') && CleanAgrees(g, sets', below')
            && Overlay(g, sets', below') == Overlay(g, sets, below)
            && (forall b :: IsDirty(g, sets', b) <==> IsDirty(g, sets, b) && b != n)
            && (forall b :: Resident(g, sets', b) == Resident(g, sets, b))
            && Slots(sets'[i]) == Slots(sets[i])
  {
    var e := sets[i][k].Cleaned();
    var n := g.BlockAt(i, e.tag);
    var sets' := Replace(sets, i, k, e);
    Rewriting(g, sets, i, k, e);
    OwnBlock(g, sets, i, k);
    OwnBlock(g, sets', i, k);
    var below' := PutBlock(below, g.FirstWord(n), e.data);
    forall w | 0 <= w < |below|
      ensures Peek(g, sets', below', w) == Peek(g, sets, below, w)
      ensures !IsDirty(g, sets', g.Block(w)) ==> Peek(g, sets', below', w) == below'[w]
    {
      BlockSpan(g, n, w);
      if g.Block(w) != n {
        OtherBlock(g, sets, i, k, e, g.Block(w));
        assert Peek(g, sets', below', w) == Peek(g, sets, below', w);
      }
    }
  }

  /** Making a line invalid turns its block into what is below; nothing else changes. */
  lemma Dropping(g: Geometry, sets: seq<seq<Entry>>, below: seq<Word>, i: nat, k: nat, e: Entry)
    requires SetsOk(g, sets) && CleanAgrees(g, sets, below)
    requires i < g.used && k < g.ways && sets[i][k].valid
    requires !e.valid && |e.data| == g.words
    ensures var n := g.BlockAt(i, sets[i][k].tag);
            var sets' := Replace(sets, i, k, e);
            && SetsOk(g, sets') && CleanAgrees(g, sets', below)
            && Overlay(g, sets', below) == Expose(g, Overlay(g, sets, below), below, n)
            && (!sets[i][k].dirty ==> Overlay(g, sets', below) == Overlay(g, sets, below))
            && (forall b :: IsDirty(g, sets', b) <==> IsDirty(g, sets, b) && b != n)
            && (forall b :: Resident(g, sets', b) <==> Resident(g, sets, b) && b != n)
            && Slots(sets'[i]) == Slots(sets[i])[k := Slot.Empty]
  {
    hide IsDirty, Resident, Peek, Geometry.BlockAt, Geometry.Block;
    var n := g.BlockAt(i, sets[i][k].tag);
    var sets' := Replace(sets, i, k, e);
    ReplaceOk(g, sets, i, k, e);
    OwnBlock(g, sets, i, k);
    AbsentBlock(g, sets', i, sets[i][k].tag);
    forall b | b != n
      ensures IsDirty(g, sets', b) == IsDirty(g, sets, b) && Resident(g, sets', b) == Resident(g, sets, b)
    {
      OtherBlock(g, sets, i, k, e, b);
    }
    forall w | 0 <= w < |below|
      ensures Peek(g, sets', below, w) == if g.Block(w) == n then below[w] else Peek(g, sets, below, w)
    {
      if g.Block(w) != n {
        OtherBlock(g, sets, i, k, e, g.Block(w));
      }
    }
  }

  /** Evicting a line, writing it back first if it is dirty, keeps the overlay. */
  lemma Evicting(g: Geometry, sets: seq<seq<Entry>>, below: seq<Word>, i: nat, k: nat)
    requires SetsOk(g, sets) && CleanAgrees(g, sets, below)
    requires i < g.used && k < g.ways && sets[i][k].valid
    ensures var e := sets[i][k];
            var n := g.BlockAt(i, e.tag);
            var sets' := Replace(sets, i, k, e.Invalidated());
            var below' := if e.dirty then PutBlock(below, g.FirstWord(n), e.data) else below;
            && SetsOk(g, sets') && CleanAgrees(g, sets', below')
            && Overlay(g, sets', below') == Overlay(g, sets, below)
            && (forall b :: IsDirty(g, sets', b) <==> IsDirty(g, sets, b) && b != n)
            && (forall b :: Resident(g, sets', b) <==> Resident(g, sets, b) && b != n)
            && Slots(sets'[i]) == Slots(sets[i])[k := Slot.Empty]
  {
    hide IsDirty, Resident, Peek, Overlay, CleanAgrees, PutBlock, Geometry.BlockAt, Geometry.Block;
    var e := sets[i][k];
    if e.dirty {
      WritingBack(g, sets, below, i, k);
      var cleaned := Replace(sets, i, k, e.Cleaned());
      var below' := PutBlock(below, g.FirstWord(g.BlockAt(i, e.tag)), e.data);
      Dropping(g, cleaned, below', i, k, e.Invalidated());
      ReplaceTwice(sets, i, k, e.Cleaned(), e.Invalidated());
    } else {
      Dropping(g, sets, below, i, k, e.Invalidated());
    }
  }

  /** A flat memory with one block replaced by what is below. */
  function Expose(g: Geometry, memory: seq<Word>, below: seq<Word>, n: nat): (r: seq<Word>)
    requires g.Ok() && |memory| == |below|
    ensures |r| == |memory|
    ensures forall w :: 0 <= w < |r| ==> r[w] == if g.Block(w) == n then below[w] else memory[w]
  {
    seq(|memory|, w requires 0 <= w < |memory| => if g.Block(w) == n then below[w] else memory[w])
  }

  /** A block that is not resident reads as what is below. */
  lemma ExposingAbsent(g: Geometry, sets: seq<seq<Entry>>, below: seq<Word>, n: nat)
    requires SetsOk(g, sets) && !Resident(g, sets, n)
    ensures Expose(g, Overlay(g, sets, below), below, n) == Overlay(g, sets, below)
  {
  }

  /** A block that is not dirty reads as what is below. */
  lemma ExposingClean(g: Geometry, sets: seq<seq<Entry>>, below: seq<Word>, n: nat)
    requires SetsOk(g, sets) && CleanAgrees(g, sets, below) && !IsDirty(g, sets, n)
    ensures Expose(g, Overlay(g, sets, below), below, n) == Overlay(g, sets, below)
  {
  }

  /** Storing below a block that is not resident is a store to the overlay. */
  lemma StoringBelow(g: Geometry, sets: seq<seq<Entry>>, below: seq<Word>, w: nat, v: Word)
    requires SetsOk(g, sets) && CleanAgrees(g, sets, below) && !Resident(g, sets, g.Block(w))
    ensures CleanAgrees(g, sets, Put(below, w, v))
    ensures Overlay(g, sets, Put(below, w, v)) == Put(Overlay(g, sets, below), w, v)
  {
    var below' := Put(below, w, v);
    forall u | 0 <= u < |below|
      ensures Peek(g, sets, below', u) == if u == w then v else Peek(g, sets, below, u)
      ensures !IsDirty(g, sets, g.Block(u)) ==> Peek(g, sets, below', u) == below'[u]
    {
      assert u != w ==> below'[u] == below[u];
    }
  }

  /** The same cache with other contents in the line of a block, if the block is resident. */
  function Refilled(g: Geometry, sets: seq<seq<Entry>>, n: nat, data: seq<Word>): seq<seq<Entry>>
    requires SetsOk(g, sets)
  {
    var i := g.SetOf(n);
    var k := Find(sets[i], g.TagOf(n));
    if k < g.ways then Replace(sets, i, k, sets[i][k].(data := data)) else sets
  }

  lemma Refilling(g: Geometry, sets: seq<seq<Entry>>, n: nat, data: seq<Word>)
    requires SetsOk(g, sets) && |data| == g.words
    ensures var sets' := Refilled(g, sets, n, data);
            && SetsOk(g, sets')
            && (forall b :: IsDirty(g, sets', b) == IsDirty(g, sets, b))
            && (forall m, w :: 0 <= w < |m| ==>
                  Peek(g, sets', m, w) ==
                  if g.Block(w) == n && Resident(g, sets, n) then data[g.Index(w)] else Peek(g, sets, m, w))
  {
    var i := g.SetOf(n);
    var k := Find(sets[i], g.TagOf(n));
    if k < g.ways {
      hide Peek, IsDirty, Geometry.BlockAt, Geometry.Block;
      var e := sets[i][k].(data := data);
      BlockRebuilt(g, n);
      Rewriting(g, sets, i, k, e);
      OwnBlock(g, sets, i, k);
      OwnBlock(g, Refilled(g, sets, n, data), i, k);
      forall m: seq<Word>, w | 0 <= w < |m| && g.Block(w) != n
        ensures Peek(g, Refilled(g, sets, n, data), m, w) == Peek(g, sets, m, w)
      {
        OtherBlock(g, sets, i, k, e, g.Block(w));
      }
    }
  }

  /** A store to word w that bypasses the cache and drops its line does what a store to the flat memory
      would. */
  predicate StoreExact(g: Geometry, memory: seq<Word>, below: seq<Word>, w: nat, v: Word)
    requires g.Ok() && |memory| == |below|
  {
    Put(Expose(g, memory, below, g.Block(w)), w, v) == Put(memory, w, v)
  }

  /** Whatever the line of word w may hold, the store is exact. Only contents that a cache can have are
      considered: those of a clean line are the same below. */
  ghost predicate AlwaysExact(g: Geometry, sets: seq<seq<Entry>>, below: seq<Word>, w: nat, v: Word)
    requires SetsOk(g, sets)
  {
    forall data {:trigger Refilled(g, sets, g.Block(w), data)} :: |data| == g.words ==>
      var sets' := Refilled(g, sets, g.Block(w), data);
      SetsOk(g, sets') && CleanAgrees(g, sets', below) ==> StoreExact(g, Overlay(g, sets', below), below, w, v)
  }

  /** A store that bypasses the cache is exact for every contents of its line if and only if its block
      is absent or clean, or holds no other word of the memory. */
  lemma BypassExactIff(g: Geometry, sets: seq<seq<Entry>>, below: seq<Word>, w: nat, v: Word)
    requires SetsOk(g, sets) && CleanAgrees(g, sets, below)
    ensures AlwaysExact(g, sets, below, w, v)
            <==> !IsDirty(g, sets, g.Block(w)) || forall u :: 0 <= u < |below| && g.Block(u) == g.Block(w) ==> u == w
  {
    hide Geometry.Block, Peek, IsDirty, Refilled, Overlay, CleanAgrees, Put;
    var n := g.Block(w);
    if !IsDirty(g, sets, n) {
      forall data: seq<Word> | |data| == g.words
        ensures SetsOk(g, Refilled(g, sets, n, data)) && CleanAgrees(g, Refilled(g, sets, n, data), below) ==>
                  StoreExact(g, Overlay(g, Refilled(g, sets, n, data), below), below, w, v)
      {
        Refilling(g, sets, n, data);
        if CleanAgrees(g, Refilled(g, sets, n, data), below) {
          ExposingClean(g, Refilled(g, sets, n, data), below, n);
        }
      }
    } else if u :| 0 <= u < |below| && g.Block(u) == n && u != w {
      var data := DirtyContents(g, sets, below, n, u);
      OtherWordLost(g, Overlay(g, Refilled(g, sets, n, data), below), below, w, v, u);
    } else {
      forall data: seq<Word> | |data| == g.words && SetsOk(g, Refilled(g, sets, n, data))
        ensures StoreExact(g, Overlay(g, Refilled(g, sets, n, data), below), below, w, v)
      {
        OnlyWord(g, Overlay(g, Refilled(g, sets, n, data), below), below, w, v);
      }
    }
  }

  /** A dirty line may hold anything, so also something else than what is below. */
  lemma DirtyContents(g: Geometry, sets: seq<seq<Entry>>, below: seq<Word>, n: nat, u: nat) returns (data: seq<Word>)
    requires SetsOk(g, sets) && CleanAgrees(g, sets, below) && IsDirty(g, sets, n) && u < |below| && g.Block(u) == n
    ensures |data| == g.words && SetsOk(g, Refilled(g, sets, n, data))
            && CleanAgrees(g, Refilled(g, sets, n, data), below)
    ensures Overlay(g, Refilled(g, sets, n, data), below)[u] != below[u]
  {
    hide Geometry.Block, Peek, Refilled;
    var other: Word := if below[u] == 0 then 1 else 0;
    data := seq(g.words, _ => other);
    Refilling(g, sets, n, data);
  }

  lemma OtherWordLost(g: Geometry, memory: seq<Word>, below: seq<Word>, w: nat, v: Word, u: nat)
    requires g.Ok() && |memory| == |below| && u < |below| && u != w && g.Block(u) == g.Block(w) && memory[u] != below[u]
    ensures !StoreExact(g, memory, below, w, v)
  {
    assert Put(Expose(g, memory, below, g.Block(w)), w, v)[u] == below[u] && Put(memory, w, v)[u] == memory[u];
  }

  lemma OnlyWord(g: Geometry, memory: seq<Word>, below: seq<Word>, w: nat, v: Word)
    requires g.Ok() && |memory| == |below| && forall u :: 0 <= u < |below| && g.Block(u) == g.Block(w) ==> u == w
    ensures StoreExact(g, memory, below, w, v)
  {
  }

  /** The word that an atomic operation reads below is that of the flat memory, whatever the line may hold. */
  ghost predicate AlwaysCurrent(g: Geometry, sets: seq<seq<Entry>>, below: seq<Word>, w: nat)
    requires SetsOk(g, sets) && w < |below|
  {
    forall data {:trigger Refilled(g, sets, g.Block(w), data)} :: |data| == g.words ==>
      var sets' := Refilled(g, sets, g.Block(w), data);
      SetsOk(g, sets') && CleanAgrees(g, sets', below) ==> Overlay(g, sets', below)[w] == below[w]
  }

  /** An atomic operation returns the current word for every contents of its line if and only if its
      block is absent or clean. */
  lemma AtomicExactIff(g: Geometry, sets: seq<seq<Entry>>, below: seq<Word>, w: nat)
    requires SetsOk(g, sets) && CleanAgrees(g, sets, below) && w < |below|
    ensures AlwaysCurrent(g, sets, below, w) <==> !IsDirty(g, sets, g.Block(w))
  {
    hide Geometry.Block, Peek, IsDirty, Refilled;
    var n := g.Block(w);
    if IsDirty(g, sets, n) {
      var data := DirtyContents(g, sets, below, n, w);
    } else {
      forall data: seq<Word> | |data| == g.words
        ensures SetsOk(g, Refilled(g, sets, n, data)) && CleanAgrees(g, Refilled(g, sets, n, data), below) ==>
                  Overlay(g, Refilled(g, sets, n, data), below)[w] == below[w]
      {
        Refilling(g, sets, n, data);
      }
    }
  }

  /** Filling an invalid way with a clean copy of an absent block keeps the overlay. */
  lemma Installing(g: Geometry, sets: seq<seq<Entry>>, below: seq<Word>, i: nat, k: nat, tag: nat, data: seq<Word>)
    requires SetsOk(g, sets) && CleanAgrees(g, sets, below)
    requires i < g.used && k < g.ways && !sets[i][k].valid && |data| == g.words
    requires forall j :: 0 <= j < g.ways ==> !sets[i][j].Matches(tag)
    requires forall w :: 0 <= w < |below| && g.Block(w) == g.BlockAt(i, tag) ==> data[g.Index(w)] == below[w]
    ensures var n := g.BlockAt(i, tag);
            var sets' := Replace(sets, i, k, Entry(tag, data, true, false));
            && SetsOk(g, sets') && CleanAgrees(g, sets', below)
            && Overlay(g, sets', below) == Overlay(g, sets, below)
            && (forall b :: IsDirty(g, sets', b) == IsDirty(g, sets, b))
            && (forall b :: Resident(g, sets', b) <==> Resident(g, sets, b) || b == n)
            && Slots(sets'[i]) == Slots(sets[i])[k := Holds(tag)]
  {
    hide IsDirty, Resident, Peek, Geometry.BlockAt, Geometry.Block, Geometry.FirstWord;
    var e := Entry(tag, data, true, false);
    var n := g.BlockAt(i, tag);
    var sets' := Replace(sets, i, k, e);
    ReplaceOk(g, sets, i, k, e);
    AbsentBlock(g, sets, i, tag);
    OwnBlock(g, sets', i, k);
    forall b | b != n
      ensures IsDirty(g, sets', b) == IsDirty(g, sets, b) && Resident(g, sets', b) == Resident(g, sets, b)
    {
      OtherBlock(g, sets, i, k, e, b);
    }
    forall w | 0 <= w < |below|
      ensures Peek(g, sets', below, w) == Peek(g, sets, below, w)
    {
      BlockSpan(g, n, w);
      if g.Block(w) != n {
        OtherBlock(g, sets, i, k, e, g.Block(w));
      }
    }
  }

  /** What lies below after line e of set i has been evicted. */
  function AfterEviction(g: Geometry, below: seq<Word>, i: nat, e: Entry): seq<Word> {
    if e.valid && e.dirty then PutBlock(below, g.FirstWord(g.BlockAt(i, e.tag)), e.data) else below
  }

  lemma SlotsDistinct(g: Geometry, s: seq<Entry>)
    requires SetOk(g, s)
    ensures DistinctKeys(Slots(s))
  {
  }

  /** A miss: the victim is evicted and its way filled with the missing block, as it is below.
      The overlay is unchanged and nothing becomes dirty. */
  lemma Filling(g: Geometry, sets: seq<seq<Entry>>, below: seq<Word>, i: nat, k: nat, tag: nat, data: seq<Word>)
    requires SetsOk(g, sets) && CleanAgrees(g, sets, below)
    requires i < g.used && k < g.ways && |data| == g.words
    requires forall j :: 0 <= j < g.ways ==> !sets[i][j].Matches(tag)
    requires var below' := AfterEviction(g, below, i, sets[i][k]);
             forall w :: 0 <= w < |below'| && g.Block(w) == g.BlockAt(i, tag) ==> data[g.Index(w)] == below'[w]
    ensures var n := g.BlockAt(i, tag);
            var sets' := Replace(sets, i, k, Entry(tag, data, true, false));
            var below' := AfterEviction(g, below, i, sets[i][k]);
            && SetsOk(g, sets') && CleanAgrees(g, sets', below')
            && Overlay(g, sets', below') == Overlay(g, sets, below)
            && (forall b :: IsDirty(g, sets', b) ==> IsDirty(g, sets, b)) && !IsDirty(g, sets', n)
            && Resident(g, sets', n)
            && Slots(sets'[i]) == Slots(sets[i])[k := Holds(tag)]
  {
    hide IsDirty, Resident, Peek, Overlay, CleanAgrees, PutBlock, Geometry.BlockAt, Geometry.Block;
    var e := Entry(tag, data, true, false);
    AbsentBlock(g, sets, i, tag);
    if sets[i][k].valid {
      Evicting(g, sets, below, i, k);
      var cleared := Replace(sets, i, k, sets[i][k].Invalidated());
      Installing(g, cleared, AfterEviction(g, below, i, sets[i][k]), i, k, tag, data);
      ReplaceTwice(sets, i, k, sets[i][k].Invalidated(), e);
    } else {
      Installing(g, sets, below, i, k, tag, data);
    }
  }

  /** From one state of the lines to another, of the blocks that were dirty or are stored to exactly those
      that are still resident are dirty, and k counts the dirty block that is not, if there is one. */
  ghost predicate Evicts(g: Geometry, sets: seq<seq<Entry>>, sets': seq<seq<Entry>>, stored: iset<nat>, k: int)
    requires SetsOk(g, sets) && SetsOk(g, sets')
  {
    && (forall b :: IsDirty(g, sets', b) <==> Resident(g, sets', b) && (IsDirty(g, sets, b) || b in stored))
    && k == if exists b :: IsDirty(g, sets, b) && !Resident(g, sets', b) then 1 else 0
  }

  /** A store into the line of a block, which may make it dirty. */
  ghost predicate StoresIn(g: Geometry, sets: seq<seq<Entry>>, sets': seq<seq<Entry>>, n: nat, dirty: bool)
    requires SetsOk(g, sets) && SetsOk(g, sets')
  {
    && (forall b :: IsDirty(g, sets', b) <==> IsDirty(g, sets, b) || (dirty && b == n))
    && (forall b :: Resident(g, sets', b) == Resident(g, sets, b))
  }

  /** A block is no longer dirty, and all others are as they were. */
  ghost predicate Cleans(g: Geometry, sets: seq<seq<Entry>>, sets': seq<seq<Entry>>, n: nat)
    requires SetsOk(g, sets) && SetsOk(g, sets')
  {
    forall b :: IsDirty(g, sets', b) <==> IsDirty(g, sets, b) && b != n
  }

  lemma NothingEvicted(g: Geometry, sets: seq<seq<Entry>>)
    requires SetsOk(g, sets)
    ensures Evicts(g, sets, sets, iset{}, 0)
  {
  }

  /** A miss evicts the block of the victim, if that is valid. */
  lemma FillingEvicts(g: Geometry, sets: seq<seq<Entry>>, i: nat, k: nat, tag: nat, data: seq<Word>)
    requires SetsOk(g, sets) && i < g.used && k < g.ways && |data| == g.words
    requires forall j :: 0 <= j < g.ways ==> !sets[i][j].Matches(tag)
    ensures var sets' := Replace(sets, i, k, Entry(tag, data, true, false));
            SetsOk(g, sets') && Evicts(g, sets, sets', iset{}, if sets[i][k].valid && sets[i][k].dirty then 1 else 0)
  {
    var e, victim := Entry(tag, data, true, false), sets[i][k];
    var n, v, sets' := g.BlockAt(i, tag), g.BlockAt(i, victim.tag), Replace(sets, i, k, e);
    ReplaceOk(g, sets, i, k, e);
    AbsentBlock(g, sets, i, tag);
    OwnBlock(g, sets', i, k);
    NothingEvicted(g, sets);
    if victim.valid {
      OwnBlock(g, sets, i, k);
      AbsentBlock(g, sets', i, victim.tag);
    }
    hide IsDirty, Resident, Geometry.BlockAt;
    forall b | b != n && (victim.valid ==> b != v)
      ensures IsDirty(g, sets', b) == IsDirty(g, sets, b) && Resident(g, sets', b) == Resident(g, sets, b)
    {
      OtherBlock(g, sets, i, k, e, b);
    }
  }

  /** An access followed by a store into the line that it found. */
  lemma EvictsAndStores(g: Geometry, sets: seq<seq<Entry>>, sets1: seq<seq<Entry>>, sets2: seq<seq<Entry>>, n: nat,
                        dirty: bool, k: int)
    requires SetsOk(g, sets) && SetsOk(g, sets1) && SetsOk(g, sets2)
    requires Evicts(g, sets, sets1, iset{}, k) && Resident(g, sets1, n)
    requires StoresIn(g, sets1, sets2, n, dirty)
    ensures Evicts(g, sets, sets2, if dirty then iset{n} else iset{}, k) && Resident(g, sets2, n)
  {
    hide IsDirty, Resident;
  }

  function Stored(e: Entry, j: nat, v: Word, dirty: bool): Entry
    requires j < |e.data|
  {
    e.(data := e.data[j := v], dirty := dirty)
  }

  lemma StoredWord(g: Geometry, sets: seq<seq<Entry>>, i: nat, k: nat, w: nat, v: Word, dirty: bool,
                   below: seq<Word>, below': seq<Word>, u: nat)
    requires SetsOk(g, sets) && u < |below| == |below'|
    requires i < g.used && k < g.ways && sets[i][k].valid && g.Block(w) == g.BlockAt(i, sets[i][k].tag)
    requires below'[u] == below[u] || (u == w && below'[u] == v)
    requires !IsDirty(g, sets, g.Block(u)) ==> Peek(g, sets, below, u) == below[u]
    requires dirty || (!sets[i][k].dirty && (u == w ==> below'[u] == v))
    ensures var sets' := Replace(sets, i, k, Stored(sets[i][k], g.Index(w), v, dirty));
            && SetsOk(g, sets')
            && Peek(g, sets', below', u) == (if u == w then v else Peek(g, sets, below, u))
            && (!IsDirty(g, sets', g.Block(u)) ==> Peek(g, sets', below', u) == below'[u])
  {
    var e := Stored(sets[i][k], g.Index(w), v, dirty);
    var n := g.BlockAt(i, e.tag);
    Rewriting(g, sets, i, k, e);
    OwnBlock(g, sets, i, k);
    if g.Block(u) == n {
      OwnBlock(g, Replace(sets, i, k, e), i, k);
      BlockSpan(g, n, u);
      BlockSpan(g, n, w);
    } else {
      OtherBlock(g, sets, i, k, e, g.Block(u));
    }
  }

  /** Storing into a valid line changes the overlay at that word only, whether or not the same
      word is also stored below. A clean line may stay clean only if it is. */
  lemma Storing(g: Geometry, sets: seq<seq<Entry>>, below: seq<Word>, i: nat, k: nat, w: nat, v: Word,
                dirty: bool, through: bool)
    requires SetsOk(g, sets) && CleanAgrees(g, sets, below)
    requires i < g.used && k < g.ways && sets[i][k].valid && g.Block(w) == g.BlockAt(i, sets[i][k].tag)
    requires dirty || (through && !sets[i][k].dirty)
    ensures var sets' := Replace(sets, i, k, Stored(sets[i][k], g.Index(w), v, dirty));
            var below' := if through then Put(below, w, v) else below;
            && SetsOk(g, sets') && CleanAgrees(g, sets', below')
            && Overlay(g, sets', below') == Put(Overlay(g, sets, below), w, v)
            && (forall b :: IsDirty(g, sets', b) <==> if b == g.Block(w) then dirty else IsDirty(g, sets, b))
            && (forall b :: Resident(g, sets', b) == Resident(g, sets, b))
            && Slots(sets'[i]) == Slots(sets[i])
  {
    var e := Stored(sets[i][k], g.Index(w), v, dirty);
    var sets' := Replace(sets, i, k, e);
    var below' := if through then Put(below, w, v) else below;
    Rewriting(g, sets, i, k, e);
    forall u | 0 <= u < |below|
      ensures Peek(g, sets', below', u) == if u == w then v else Peek(g, sets, below, u)
      ensures !IsDirty(g, sets', g.Block(u)) ==> Peek(g, sets', below', u) == below'[u]
    {
      StoredWord(g, sets, i, k, w, v, dirty, below, below', u);
    }
  }
}
