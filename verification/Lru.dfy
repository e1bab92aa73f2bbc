/** Least-recently-used replacement, shared by the set-associative caches and the TLB.

  Both structures keep an array of slots, each empty or holding a key, beside a list of
  slot indices, most recently used first. An access to a key that is present moves its
  slot to the front; an access to a key that is absent takes the first empty slot, or the
  slot at the back of the list when none is empty, and moves that to the front. */
module Lru {

  datatype Slot = Empty | Holds(key: nat)

  // ----- the list of slot indices -----

  ghost predicate Permutation(order: seq<nat>, n: nat) {
    && |order| == n
    && NoDuplicates(order)
    && InRange(order, n)
    && (forall w :: 0 <= w < n ==> w in order)
  }

  ghost predicate InRange(order: seq<nat>, n: nat) {
    forall i :: 0 <= i < |order| ==> order[i] < n
  }

  /** The initial list: slot 0 at the front, the last slot at the back. */
  function Counting(n: nat): (r: seq<nat>)
    ensures Permutation(r, n)
    ensures forall i :: 0 <= i < n ==> r[i] == i
  {
    var r := seq(n, i requires 0 <= i < n => i);
    assert forall w: nat :: w < n ==> w in r by {
      forall w: nat | w < n ensures w in r {
        assert r[w] == w;
      }
    }
    r
  }

  /** Removes every occurrence of x, as list::remove does. */
  function Without(s: seq<nat>, x: nat): (r: seq<nat>)
    ensures |r| <= |s|
    ensures forall y :: y in r <==> y in s && y != x
  {
    if s == [] then [] else (if s[0] == x then [] else [s[0]]) + Without(s[1..], x)
  }

  function MoveToFront(order: seq<nat>, w: nat): seq<nat> {
    [w] + Without(order, w)
  }

  ghost predicate NoDuplicates(s: seq<nat>) {
    forall i, j :: 0 <= i < j < |s| ==> s[i] != s[j]
  }

  lemma {:induction false} WithoutAbsent(s: seq<nat>, x: nat)
    requires x !in s
    ensures Without(s, x) == s
  {
    if s == [] {
    } else {
      WithoutAbsent(s[1..], x);
    }
  }

  lemma {:induction false} WithoutOnce(s: seq<nat>, x: nat)
    requires NoDuplicates(s)
    ensures NoDuplicates(Without(s, x))
    ensures |Without(s, x)| == if x in s then |s| - 1 else |s|
  {
    if s == [] {
    } else {
      WithoutOnce(s[1..], x);
      if s[0] == x {
        WithoutAbsent(s[1..], x);
      } else {
        assert s[0] !in s[1..];
      }
    }
  }

  lemma {:induction false} WithoutConcat(a: seq<nat>, b: seq<nat>, x: nat)
    ensures Without(a + b, x) == Without(a, x) + Without(b, x)
  {
    if a == [] {
      assert a + b == b;
    } else {
      assert (a + b)[1..] == a[1..] + b;
      WithoutConcat(a[1..], b, x);
    }
  }

  lemma {:induction false} WithoutInRange(s: seq<nat>, x: nat, n: nat)
    requires InRange(s, n)
    ensures InRange(Without(s, x), n)
  {
    if s == [] {
    } else {
      WithoutInRange(s[1..], x, n);
    }
  }

  lemma MoveToFrontKeepsPermutation(order: seq<nat>, w: nat, n: nat)
    requires Permutation(order, n) && w < n
    ensures Permutation(MoveToFront(order, w), n)
  {
    WithoutOnce(order, w);
    WithoutInRange(order, w, n);
    var rest := Without(order, w);
    assert MoveToFront(order, w) == [w] + rest;
    assert forall v :: 0 <= v < n && v != w ==> v in rest;
  }

  /** Moving the back slot to the front does not depend on its having been taken off first. */
  lemma BackToFront(order: seq<nat>)
    requires NoDuplicates(order) && order != []
    ensures var w := order[|order| - 1];
            MoveToFront(order[..|order| - 1], w) == MoveToFront(order, w)
  {
    var front, w := order[..|order| - 1], order[|order| - 1];
    assert order == front + [w];
    WithoutConcat(front, [w], w);
  }

  // ----- the keys in recency order -----

  /** The keys the slots hold, read in list order: most recently used first. */
  function Stack(slots: seq<Slot>, order: seq<nat>): (r: seq<nat>)
    requires InRange(order, |slots|)
    ensures |r| <= |order|
  {
    if order == [] then
      []
    else
      var rest := Stack(slots, order[1..]);
      match slots[order[0]]
      case Empty => rest
      case Holds(t) => [t] + rest
  }

  lemma {:induction false} StackMember(slots: seq<Slot>, order: seq<nat>, t: nat)
    requires InRange(order, |slots|)
    ensures t in Stack(slots, order) <==> exists i :: 0 <= i < |order| && slots[order[i]] == Holds(t)
  {
    if order == [] {
    } else {
      StackMember(slots, order[1..], t);
      assert forall i :: 1 <= i < |order| ==> order[i] == order[1..][i - 1];
    }
  }

  lemma {:induction false} StackOfNothing(slots: seq<Slot>, order: seq<nat>)
    requires InRange(order, |slots|) && forall i :: 0 <= i < |slots| ==> slots[i].Empty?
    ensures Stack(slots, order) == []
  {
    if order == [] {
    } else {
      StackOfNothing(slots, order[1..]);
    }
  }

  ghost predicate DistinctKeys(slots: seq<Slot>) {
    forall i, j :: 0 <= i < j < |slots| && slots[i].Holds? ==> slots[i] != slots[j]
  }

  /** What an access does to the recency order of a structure with n slots. */
  function Touch(stack: seq<nat>, t: nat, n: nat): seq<nat> {
    var s := [t] + Without(stack, t);
    if |s| <= n then s else s[..n]
  }

  /** The slot an absent key is given: the first empty one, else the back of the list. */
  function Victim(slots: seq<Slot>, order: seq<nat>): (w: nat)
    requires Permutation(order, |slots|) && |slots| > 0
    ensures w < |slots|
    ensures slots[w].Empty? || (w == order[|order| - 1] && forall i :: 0 <= i < |slots| ==> slots[i].Holds?)
    ensures slots[w].Empty? ==> forall i :: 0 <= i < w ==> slots[i].Holds?
  {
    var i := FirstEmpty(slots, 0);
    if i < |slots| then i else order[|order| - 1]
  }

  function FirstEmpty(slots: seq<Slot>, from: nat): (i: nat)
    requires from <= |slots|
    ensures from <= i <= |slots|
    ensures i < |slots| ==> slots[i].Empty?
    ensures forall j :: from <= j < i ==> slots[j].Holds?
    decreases |slots| - from
  {
    if from == |slots| || slots[from].Empty? then from else FirstEmpty(slots, from + 1)
  }

  lemma {:induction false} StackIgnores(slots: seq<Slot>, w: nat, s: Slot, order: seq<nat>)
    requires w < |slots| && w !in order
    requires InRange(order, |slots|)
    ensures Stack(slots[w := s], order) == Stack(slots, order)
  {
    if order == [] {
    } else {
      StackIgnores(slots, w, s, order[1..]);
    }
  }

  lemma WithoutTwice(s: seq<nat>, slot: Slot)
    ensures slot.Holds? ==> Without([slot.key] + s, slot.key) == Without(s, slot.key)
  {
    if slot.Holds? {
      assert ([slot.key] + s)[1..] == s;
    }
  }

  lemma {:induction false} StackWithout(slots: seq<Slot>, order: seq<nat>, w: nat)
    requires w < |slots| && DistinctKeys(slots)
    requires InRange(order, |slots|)
    ensures InRange(Without(order, w), |slots|)
    ensures Stack(slots, Without(order, w)) ==
            if slots[w].Holds? then Without(Stack(slots, order), slots[w].key) else Stack(slots, order)
  {
    WithoutInRange(order, w, |slots|);
    if order == [] {
    } else {
      var v, rest := order[0], order[1..];
      StackWithout(slots, rest, w);
      if v == w {
        assert Without(order, w) == Without(rest, w);
        WithoutTwice(Stack(slots, rest), slots[w]);
      } else {
        assert Without(order, w) == [v] + Without(rest, w);
        assert (([v] + Without(rest, w))[1..]) == Without(rest, w);
        if slots[v].Holds? {
          assert slots[v] != slots[w];
          assert Stack(slots, order)[1..] == Stack(slots, rest);
        }
      }
    }
  }

  lemma {:induction false} StackConcat(slots: seq<Slot>, a: seq<nat>, b: seq<nat>)
    requires InRange(a + b, |slots|)
    ensures InRange(a, |slots|) && InRange(b, |slots|)
    ensures Stack(slots, a + b) == Stack(slots, a) + Stack(slots, b)
  {
    assert forall i :: 0 <= i < |a| ==> a[i] == (a + b)[i];
    assert forall i :: 0 <= i < |b| ==> b[i] == (a + b)[|a| + i];
    if a == [] {
      assert a + b == b;
    } else {
      assert (a + b)[1..] == a[1..] + b;
      StackConcat(slots, a[1..], b);
    }
  }

  lemma {:induction false} StackLength(slots: seq<Slot>, order: seq<nat>)
    requires InRange(order, |slots|)
    ensures (forall i :: 0 <= i < |order| ==> slots[order[i]].Holds?) ==> |Stack(slots, order)| == |order|
    ensures (exists i :: 0 <= i < |order| && slots[order[i]].Empty?) ==> |Stack(slots, order)| < |order|
  {
    if order == [] {
    } else {
      StackLength(slots, order[1..]);
    }
  }

  lemma {:induction false} StackDistinct(slots: seq<Slot>, order: seq<nat>)
    requires DistinctKeys(slots) && NoDuplicates(order)
    requires InRange(order, |slots|)
    ensures NoDuplicates(Stack(slots, order))
  {
    if order == [] {
    } else {
      StackDistinct(slots, order[1..]);
      var v := order[0];
      assert v !in order[1..];
      if slots[v].Holds? {
        StackMember(slots, order[1..], slots[v].key);
        assert forall i :: 0 <= i < |order[1..]| ==> order[1..][i] == order[i + 1] != v;
      }
    }
  }

  /** A hit: moving the slot of a present key to the front is an LRU touch of that key. */
  lemma HitTouches(slots: seq<Slot>, order: seq<nat>, w: nat)
    requires Permutation(order, |slots|) && DistinctKeys(slots)
    requires w < |slots| && slots[w].Holds?
    ensures InRange(MoveToFront(order, w), |slots|)
    ensures slots[w].key in Stack(slots, order)
    ensures Stack(slots, MoveToFront(order, w)) == Touch(Stack(slots, order), slots[w].key, |slots|)
  {
    var t := slots[w].key;
    WithoutInRange(order, w, |slots|);
    FrontPushes(slots, order, w);
    StackWithout(slots, order, w);
    assert w in order;
    assert t in Stack(slots, order) by {
      StackMember(slots, order, t);
    }
    assert |[t] + Without(Stack(slots, order), t)| <= |slots| by {
      StackDistinct(slots, order);
      WithoutOnce(Stack(slots, order), t);
    }
  }

  lemma FrontPushes(slots: seq<Slot>, order: seq<nat>, w: nat)
    requires w < |slots| && slots[w].Holds? && InRange(Without(order, w), |slots|)
    ensures InRange(MoveToFront(order, w), |slots|)
    ensures Stack(slots, MoveToFront(order, w)) == [slots[w].key] + Stack(slots, Without(order, w))
  {
    assert MoveToFront(order, w)[1..] == Without(order, w);
  }

  lemma WithoutLast(s: seq<nat>)
    requires NoDuplicates(s) && s != []
    ensures Without(s, s[|s| - 1]) == s[..|s| - 1]
  {
    var front, x := s[..|s| - 1], s[|s| - 1];
    assert s == front + [x];
    WithoutConcat(front, [x], x);
    WithoutAbsent(front, x);
  }

  /** Taking a full structure's back slot off the recency order drops its last key. */
  lemma BackIsLast(slots: seq<Slot>, order: seq<nat>)
    requires Permutation(order, |slots|) && DistinctKeys(slots) && |slots| > 0
    requires forall i :: 0 <= i < |slots| ==> slots[i].Holds?
    ensures var n := |slots|;
            var w := order[n - 1];
            && |Stack(slots, order)| == n
            && Without(Stack(slots, order), slots[w].key) == Stack(slots, order)[..n - 1]
  {
    hide Without, DistinctKeys;
    var n := |slots|;
    var w, front := order[n - 1], order[..n - 1];
    assert order == front + [w];
    StackLength(slots, order);
    StackDistinct(slots, order);
    StackConcat(slots, front, [w]);
    assert Stack(slots, [w]) == [slots[w].key];
    WithoutLast(Stack(slots, order));
  }

  lemma FillingKeepsDistinct(slots: seq<Slot>, w: nat, t: nat)
    requires w < |slots| && DistinctKeys(slots)
    requires forall i :: 0 <= i < |slots| ==> slots[i] != Holds(t)
    ensures DistinctKeys(slots[w := Holds(t)])
  {
  }

  /** A miss: filling the victim slot with an absent key and moving it to the front is an
      LRU touch of that key, whether or not a key had to be evicted. */
  lemma MissTouches(slots: seq<Slot>, order: seq<nat>, t: nat)
    requires Permutation(order, |slots|) && DistinctKeys(slots) && |slots| > 0
    requires forall i :: 0 <= i < |slots| ==> slots[i] != Holds(t)
    ensures var w := Victim(slots, order);
            var slots' := slots[w := Holds(t)];
            && InRange(MoveToFront(order, w), |slots'|)
            && t !in Stack(slots, order)
            && Stack(slots', MoveToFront(order, w)) == Touch(Stack(slots, order), t, |slots|)
            && DistinctKeys(slots')
  {
    hide Without, DistinctKeys, Stack;
    var w := Victim(slots, order);
    var slots' := slots[w := Holds(t)];
    var before := Stack(slots, order);
    WithoutInRange(order, w, |slots|);
    FillingKeepsDistinct(slots, w, t);
    FrontPushes(slots', order, w);
    StackIgnores(slots, w, Holds(t), Without(order, w));
    StackWithout(slots, order, w);
    StackMember(slots, order, t);
    WithoutAbsent(before, t);
    if slots[w].Holds? {
      BackIsLast(slots, order);
    } else {
      StackLength(slots, order);
      assert w in order;
    }
  }

  /** Emptying a slot without touching the list removes its key from the recency order. */
  lemma {:induction false} EmptyingRemoves(slots: seq<Slot>, order: seq<nat>, w: nat)
    requires DistinctKeys(slots) && NoDuplicates(order)
    requires InRange(order, |slots|)
    requires w < |slots| && slots[w].Holds?
    ensures Stack(slots[w := Empty], order) == Without(Stack(slots, order), slots[w].key)
    ensures DistinctKeys(slots[w := Empty])
  {
    if order == [] {
    } else {
      var v := order[0];
      EmptyingRemoves(slots, order[1..], w);
      if v == w {
        StackMember(slots, order[1..], slots[w].key);
        assert forall i :: 0 <= i < |order[1..]| ==> order[1..][i] == order[i + 1] != w;
        StackIgnores(slots, w, Empty, order[1..]);
        WithoutAbsent(Stack(slots, order[1..]), slots[w].key);
        WithoutTwice(Stack(slots, order[1..]), slots[w]);
      }
    }
  }

  // ----- recency against the access history -----

  /** The recency order of an n-slot structure after a history of accesses, oldest first. */
  function AfterHistory(h: seq<nat>, n: nat): seq<nat> {
    if h == [] then [] else Touch(AfterHistory(h[..|h| - 1], n), h[|h| - 1], n)
  }

  /** The distinct keys of a history, most recently accessed first. */
  function Recent(h: seq<nat>): (r: seq<nat>)
    ensures forall t :: t in r <==> t in h
  {
    if h == [] then
      []
    else
      var last := h[|h| - 1];
      assert h == h[..|h| - 1] + [last];
      [last] + Without(Recent(h[..|h| - 1]), last)
  }

  /** The distinct keys accessed after the last access to t (all of them if t was never accessed). */
  function Since(h: seq<nat>, t: nat): set<nat> {
    if h == [] then
      {}
    else if h[|h| - 1] == t then
      {}
    else
      Since(h[..|h| - 1], t) + {h[|h| - 1]}
  }

  lemma {:induction false} RecentDistinct(h: seq<nat>)
    ensures NoDuplicates(Recent(h))
  {
    if h == [] {
    } else {
      RecentDistinct(h[..|h| - 1]);
      WithoutOnce(Recent(h[..|h| - 1]), h[|h| - 1]);
    }
  }

  lemma {:induction false} WithoutOfPrefix(s: seq<nat>, t: nat, n: nat)
    requires NoDuplicates(s)
    ensures Touch(if |s| <= n then s else s[..n], t, n) ==
            (var u := [t] + Without(s, t); if |u| <= n then u else u[..n])
  {
    if |s| > n {
      var p, q := s[..n], s[n..];
      assert s == p + q;
      WithoutConcat(p, q, t);
      WithoutOnce(p, t);
      WithoutOnce(s, t);
      var u := [t] + Without(s, t);
      var v := [t] + Without(p, t);
      assert u == v + Without(q, t);
      if t !in p {
        WithoutAbsent(p, t);
        assert |v| == n + 1;
      } else {
        assert |v| == n;
        assert v == u[..n];
      }
    }
  }

  /** An n-slot LRU structure holds the n most recently accessed distinct keys, in order. */
  lemma {:induction false} HoldsMostRecent(h: seq<nat>, n: nat)
    ensures AfterHistory(h, n) == (var r := Recent(h); if |r| <= n then r else r[..n])
  {
    if h == [] {
    } else {
      var h' := h[..|h| - 1];
      HoldsMostRecent(h', n);
      RecentDistinct(h');
      WithoutOfPrefix(Recent(h'), h[|h| - 1], n);
    }
  }

  /** Reading the recent keys up to t meets exactly the keys accessed since t. */
  lemma {:induction false} RecentPosition(h: seq<nat>, t: nat) returns (i: nat)
    requires t in h
    ensures i == |Since(h, t)| && i < |Recent(h)| && Recent(h)[i] == t
    ensures forall k :: k in Recent(h)[..i] <==> k in Since(h, t)
  {
    var last := h[|h| - 1];
    var h' := h[..|h| - 1];
    assert h == h' + [last];
    if last == t {
      i := 0;
    } else {
      var j := RecentPosition(h', t);
      RecentDistinct(h');
      i := PositionAfterFront(Recent(h'), j, last, Since(h', t));
      assert Recent(h) == [last] + Without(Recent(h'), last);
      assert Since(h, t) == Since(h', t) + {last};
    }
  }

  lemma WithoutAround(s: seq<nat>, j: nat, x: nat)
    requires j < |s| && s[j] != x
    ensures Without(s, x) == Without(s[..j], x) + [s[j]] + Without(s[j + 1..], x)
  {
    assert s == s[..j] + [s[j]] + s[j + 1..];
    WithoutConcat(s[..j] + [s[j]], s[j + 1..], x);
    WithoutConcat(s[..j], [s[j]], x);
    WithoutAbsent([s[j]], x);
  }

  lemma PrefixWithout(p: seq<nat>, x: nat, before: set<nat>)
    requires NoDuplicates(p) && |p| == |before|
    requires forall k :: k in p <==> k in before
    ensures 1 + |Without(p, x)| == |before + {x}|
    ensures forall k :: k in [x] + Without(p, x) <==> k in before + {x}
  {
    WithoutOnce(p, x);
    if x in p {
      assert before + {x} == before;
    }
  }

  /** Moving x != s[j] to the front leaves s[j] behind x and the elements it was behind. */
  lemma PositionAfterFront(s: seq<nat>, j: nat, x: nat, before: set<nat>) returns (i: nat)
    requires NoDuplicates(s) && j < |s| && s[j] != x
    requires j == |before| && forall k :: k in s[..j] <==> k in before
    ensures var r := [x] + Without(s, x);
            && i < |r| && r[i] == s[j]
            && i == |before + {x}|
            && forall k :: k in r[..i] <==> k in before + {x}
  {
    hide Without;
    var p := s[..j];
    assert NoDuplicates(p);
    WithoutAround(s, j, x);
    PrefixWithout(p, x, before);
    i := 1 + |Without(p, x)|;
    var r := [x] + Without(s, x);
    assert r[..i] == [x] + Without(p, x);
  }

  /** The hit rule: a key is resident exactly when fewer than n distinct other keys have been
      accessed since its own last access. */
  lemma ResidentIff(h: seq<nat>, t: nat, n: nat)
    ensures t in AfterHistory(h, n) <==> t in h && |Since(h, t)| < n
  {
    HoldsMostRecent(h, n);
    RecentDistinct(h);
    var r := Recent(h);
    if t in h {
      var i := RecentPosition(h, t);
      assert |r| > n ==> (t in r[..n] <==> i < n);
    }
  }
}
