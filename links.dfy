/** The pointer surgery of one dimension of a dancing-links structure, on values.

    A Chain holds the two link fields of one direction for every node: next/prev stand for
    right/left (row rings) or for down/up (column rings).  Unlink is remove_from_row /
    remove_from_col and Relink is put_in_row / put_in_col.  The main result: after a sequence of
    unlinks, relinking every removed node again restores every link, as long as each relink is
    "safe"; in particular relinking in the same order as the removals (not the reverse order)
    restores the original links exactly. */
module Links {

  datatype Chain = Chain(next: seq<int>, prev: seq<int>)

  /** Both link fields are defined for the same nodes and point to nodes. */
  ghost predicate Valid(s: Chain)
  {
    |s.next| == |s.prev|
    && (forall p :: 0 <= p < |s.next| ==> 0 <= s.next[p] < |s.next|)
    && (forall p :: 0 <= p < |s.prev| ==> 0 <= s.prev[p] < |s.next|)
  }

  /** Detach x from its neighbours: prev[x].next := next[x]; next[x].prev := prev[x].  The links
      of x itself are left as they are. */
  function Unlink(s: Chain, x: int): (r: Chain)
    requires Valid(s) && 0 <= x < |s.next|
    ensures Valid(r) && |r.next| == |s.next|
    ensures r.next[s.prev[x]] == s.next[x] && r.prev[s.next[x]] == s.prev[x]
    ensures r.next[x] == s.next[x] && r.prev[x] == s.prev[x]
  {
    Chain(s.next[s.prev[x] := s.next[x]], s.prev[s.next[x] := s.prev[x]])
  }

  /** Reattach x between the nodes its own links still name: prev[x].next := x; next[x].prev := x. */
  function Relink(s: Chain, x: int): (r: Chain)
    requires Valid(s) && 0 <= x < |s.next|
    ensures Valid(r) && |r.next| == |s.next|
    ensures r.next[s.prev[x]] == x && r.prev[s.next[x]] == x
  {
    Chain(s.next[s.prev[x] := x], s.prev[s.next[x] := x])
  }

  ghost predicate InRange(xs: seq<int>, n: int)
  {
    forall i :: 0 <= i < |xs| ==> 0 <= xs[i] < n
  }

  ghost function Elems(xs: seq<int>): set<int>
  {
    set z | z in xs
  }

  /** The nodes of P that xs does not name. */
  ghost function Remaining(P: set<int>, xs: seq<int>): set<int>
    decreases |xs|
  {
    if xs == [] then P else Remaining(P, xs[..|xs| - 1]) - {xs[|xs| - 1]}
  }

  /** Unlink the nodes of xs one after the other, in the order given. */
  function RemoveAll(s: Chain, xs: seq<int>): (r: Chain)
    requires Valid(s) && InRange(xs, |s.next|)
    ensures Valid(r) && |r.next| == |s.next|
    decreases |xs|
  {
    if xs == [] then s else Unlink(RemoveAll(s, xs[..|xs| - 1]), xs[|xs| - 1])
  }

  /** Relink the nodes of xs one after the other, in the order given. */
  function PutAll(s: Chain, xs: seq<int>): (r: Chain)
    requires Valid(s) && InRange(xs, |s.next|)
    ensures Valid(r) && |r.next| == |s.next|
    decreases |xs|
  {
    if xs == [] then s else Relink(PutAll(s, xs[..|xs| - 1]), xs[|xs| - 1])
  }

  /** The nodes of P form consistent doubly linked lists among themselves.  (Each fact is
      triggered on the link terms it is about, so that following links does not feed itself.) */
  ghost predicate Linked(s: Chain, P: set<int>)
    requires Valid(s)
  {
    (forall y :: y in P ==> 0 <= y < |s.next|)
    && (forall y {:trigger s.next[y]} :: y in P ==> s.next[y] in P)
    && (forall y {:trigger s.prev[y]} :: y in P ==> s.prev[y] in P)
    && (forall y {:trigger s.prev[s.next[y]]} :: y in P ==> s.prev[s.next[y]] == y)
    && (forall y {:trigger s.next[s.prev[y]]} :: y in P ==> s.next[s.prev[y]] == y)
  }

  /** z was removed before y in the removal sequence xs (anywhere in xs when y was never removed). */
  ghost predicate RemovedBefore(xs: seq<int>, z: int, y: int)
    decreases |xs|
  {
    |xs| > 0
    && var init := xs[..|xs| - 1];
       if y in init then RemovedBefore(init, z, y)
       else z in init || (z == xs[|xs| - 1] && y != z)
  }

  lemma RemovedBeforeIn(xs: seq<int>, z: int, y: int)
    requires RemovedBefore(xs, z, y)
    ensures z in xs
    decreases |xs|
  {
    var init := xs[..|xs| - 1];
    if y in init {
      RemovedBeforeIn(init, z, y);
    }
  }

  lemma UnlinkLinkedAt(s: Chain, Q: set<int>, x: int, y: int)
    requires Valid(s) && Linked(s, Q) && x in Q && y in Q && y != x
    ensures Unlink(s, x).next[y] in Q - {x} && Unlink(s, x).prev[y] in Q - {x}
    ensures Unlink(s, x).prev[Unlink(s, x).next[y]] == y && Unlink(s, x).next[Unlink(s, x).prev[y]] == y
  {
    var e := Unlink(s, x);
    var a, b := s.prev[x], s.next[x];
    assert s.prev[b] == x && s.next[a] == x;
    var n, p := s.next[y], s.prev[y];
    assert s.prev[n] == y && s.next[p] == y;
    if y == a {
      assert e.next[y] == b;
      assert b != x;
      assert e.prev[b] == y;
    } else {
      assert e.next[y] == n;
      assert n != x;
      assert n != b;
      assert e.prev[n] == s.prev[n];
    }
    if y == b {
      assert e.prev[y] == a;
      assert e.next[a] == y;
    } else {
      assert e.prev[y] == p;
      assert p != x;
      assert p != a;
      assert e.next[p] == s.next[p];
    }
  }

  /** Unlinking a node of a consistent set leaves the rest of the set consistent. */
  lemma UnlinkLinked(s: Chain, Q: set<int>, x: int)
    requires Valid(s) && Linked(s, Q) && x in Q
    ensures Linked(Unlink(s, x), Q - {x})
  {
    var e := Unlink(s, x);
    forall y | y in Q - {x}
      ensures 0 <= y < |e.next| && e.next[y] in Q - {x} && e.prev[y] in Q - {x}
      ensures e.prev[e.next[y]] == y && e.next[e.prev[y]] == y
    {
      UnlinkLinkedAt(s, Q, x, y);
    }
  }

  lemma UnlinkBeforeAt(o: Chain, e0: Chain, P: set<int>, init: seq<int>, x: int, y: int)
    requires Valid(o) && Valid(e0) && |e0.next| == |o.next|
    requires Linked(e0, Remaining(P, init)) && x in Remaining(P, init) && y in P && 0 <= y < |o.next|
    requires e0.next[y] != o.next[y] ==> RemovedBefore(init, o.next[y], y)
    requires e0.prev[y] != o.prev[y] ==> RemovedBefore(init, o.prev[y], y)
    ensures Unlink(e0, x).next[y] != o.next[y] ==> RemovedBefore(init + [x], o.next[y], y)
    ensures Unlink(e0, x).prev[y] != o.prev[y] ==> RemovedBefore(init + [x], o.prev[y], y)
  {
    var e := Unlink(e0, x);
    var xs := init + [x];
    assert xs[..|xs| - 1] == init && xs[|xs| - 1] == x;
    var a, b := e0.prev[x], e0.next[x];
    assert e0.next[a] == x && e0.prev[b] == x;
    RemainingIn(P, init, a);
    RemainingIn(P, init, b);
    if e.next[y] != o.next[y] {
      if e.next[y] == e0.next[y] {
        RemovedBeforeIn(init, o.next[y], y);
      } else {
        assert y == a && a != x && a !in init;
        if e0.next[a] != o.next[a] {
          RemovedBeforeIn(init, o.next[y], y);
        }
      }
    }
    if e.prev[y] != o.prev[y] {
      if e.prev[y] == e0.prev[y] {
        RemovedBeforeIn(init, o.prev[y], y);
      } else {
        assert y == b && b != x && b !in init;
        if e0.prev[b] != o.prev[b] {
          RemovedBeforeIn(init, o.prev[y], y);
        }
      }
    }
  }

  /** xs names nodes of P, none of them twice. */
  ghost predicate FreshFrom(P: set<int>, xs: seq<int>)
  {
    forall i :: 0 <= i < |xs| ==> xs[i] in Remaining(P, xs[..i])
  }

  lemma FreshFromInit(P: set<int>, xs: seq<int>)
    requires FreshFrom(P, xs) && xs != []
    ensures FreshFrom(P, xs[..|xs| - 1]) && xs[|xs| - 1] in Remaining(P, xs[..|xs| - 1])
  {
    var init := xs[..|xs| - 1];
    forall i | 0 <= i < |init|
      ensures init[i] in Remaining(P, init[..i])
    {
      assert init[..i] == xs[..i];
    }
  }

  /** The nodes a run of unlinks leaves in a consistent set P stay consistently linked. */
  lemma {:induction false} RemoveAllLinked(o: Chain, P: set<int>, xs: seq<int>)
    requires Valid(o) && Linked(o, P) && InRange(xs, |o.next|) && FreshFrom(P, xs)
    ensures Linked(RemoveAll(o, xs), Remaining(P, xs))
    decreases |xs|
  {
    if xs != [] {
      var init := xs[..|xs| - 1];
      FreshFromInit(P, xs);
      RemoveAllLinked(o, P, init);
      UnlinkLinked(RemoveAll(o, init), Remaining(P, init), xs[|xs| - 1]);
    }
  }

  /** A link a run of unlinks changes pointed, in the original, to a node removed earlier. */
  lemma {:induction false} RemoveAllChanges(o: Chain, P: set<int>, xs: seq<int>)
    requires Valid(o) && Linked(o, P) && InRange(xs, |o.next|) && FreshFrom(P, xs)
    ensures forall y :: y in P && RemoveAll(o, xs).next[y] != o.next[y] ==> RemovedBefore(xs, o.next[y], y)
    ensures forall y :: y in P && RemoveAll(o, xs).prev[y] != o.prev[y] ==> RemovedBefore(xs, o.prev[y], y)
    decreases |xs|
  {
    if xs != [] {
      var init := xs[..|xs| - 1];
      var x := xs[|xs| - 1];
      FreshFromInit(P, xs);
      RemoveAllChanges(o, P, init);
      RemoveAllLinked(o, P, init);
      var e0 := RemoveAll(o, init);
      var e := RemoveAll(o, xs);
      assert e == Unlink(e0, x);
      assert xs == init + [x];
      forall y | y in P
        ensures e.next[y] != o.next[y] ==> RemovedBefore(xs, o.next[y], y)
        ensures e.prev[y] != o.prev[y] ==> RemovedBefore(xs, o.prev[y], y)
      {
        UnlinkBeforeAt(o, e0, P, init, x, y);
      }
    }
  }

  /** A run of unlinks of nodes of P does not touch the links of nodes outside P. */
  lemma {:induction false} RemoveAllOutside(o: Chain, P: set<int>, xs: seq<int>)
    requires Valid(o) && Linked(o, P) && InRange(xs, |o.next|) && FreshFrom(P, xs)
    ensures forall p :: 0 <= p < |o.next| && p !in P ==>
      RemoveAll(o, xs).next[p] == o.next[p] && RemoveAll(o, xs).prev[p] == o.prev[p]
    decreases |xs|
  {
    if xs != [] {
      var init := xs[..|xs| - 1];
      var x := xs[|xs| - 1];
      FreshFromInit(P, xs);
      RemoveAllOutside(o, P, init);
      RemoveAllLinked(o, P, init);
      var e0 := RemoveAll(o, init);
      var e := RemoveAll(o, xs);
      assert e == Unlink(e0, x);
      RemainingIn(P, init, e0.prev[x]);
      RemainingIn(P, init, e0.next[x]);
      forall p | 0 <= p < |o.next| && p !in P
        ensures e.next[p] == o.next[p] && e.prev[p] == o.prev[p]
      {
        assert e.next[p] == e0.next[p] && e.prev[p] == e0.prev[p];
      }
    }
  }

  lemma RemainingIn(P: set<int>, xs: seq<int>, y: int)
    ensures y in Remaining(P, xs) <==> y in P && y !in xs
    decreases |xs|
  {
    if xs != [] {
      RemainingIn(P, xs[..|xs| - 1], y);
      assert xs == xs[..|xs| - 1] + [xs[|xs| - 1]];
    }
  }

  /** In a removal sequence without repetitions, exactly the earlier entries are removed before
      xs[i]. */
  lemma {:induction false} RemovedBeforePrefix(P: set<int>, xs: seq<int>, i: int, z: int)
    requires FreshFrom(P, xs) && 0 <= i < |xs|
    ensures RemovedBefore(xs, z, xs[i]) <==> z in xs[..i]
    decreases |xs|
  {
    var init := xs[..|xs| - 1];
    FreshFromInit(P, xs);
    RemainingIn(P, init, xs[|xs| - 1]);
    if i < |xs| - 1 {
      assert xs[i] == init[i];
      RemovedBeforePrefix(P, init, i, z);
      assert init[..i] == xs[..i];
    } else {
      assert xs[..i] == init;
    }
  }

  /** The relinking phase: the unlinks of xs took o to e, and since then the nodes of Done have
      been relinked, giving s.  Every link holds either its value in e or its original value, and
      around every relinked node w the original neighbours point back to w again. */
  ghost predicate Relinking(o: Chain, e: Chain, s: Chain, Done: set<int>)
    requires Valid(o) && Valid(e) && Valid(s)
  {
    |e.next| == |o.next| && |s.next| == |o.next|
    && (forall p :: 0 <= p < |s.next| ==> s.next[p] == e.next[p] || s.next[p] == o.next[p])
    && (forall p :: 0 <= p < |s.prev| ==> s.prev[p] == e.prev[p] || s.prev[p] == o.prev[p])
    && (forall w :: w in Done ==> 0 <= w < |o.next| && s.next[o.prev[w]] == w && s.prev[o.next[w]] == w)
  }

  /** Relinking y is safe when y belongs to P and every original neighbour of y that was removed
      before y has been relinked already. */
  ghost predicate Safe(o: Chain, P: set<int>, xs: seq<int>, Done: set<int>, y: int)
    requires Valid(o)
  {
    y in P && 0 <= y < |o.next|
    && (RemovedBefore(xs, o.next[y], y) ==> o.next[y] in Done)
    && (RemovedBefore(xs, o.prev[y], y) ==> o.prev[y] in Done)
  }

  /** A link whose original target has been relinked (or that the unlinks never changed) holds its
      original value again. */
  lemma RestoredNext(o: Chain, P: set<int>, e: Chain, s: Chain, Done: set<int>, x: int)
    requires Valid(o) && Valid(e) && Valid(s) && Linked(o, P) && Relinking(o, e, s, Done)
    requires x in P && (e.next[x] == o.next[x] || o.next[x] in Done)
    ensures s.next[x] == o.next[x]
  {
  }

  lemma RestoredPrev(o: Chain, P: set<int>, e: Chain, s: Chain, Done: set<int>, x: int)
    requires Valid(o) && Valid(e) && Valid(s) && Linked(o, P) && Relinking(o, e, s, Done)
    requires x in P && (e.prev[x] == o.prev[x] || o.prev[x] in Done)
    ensures s.prev[x] == o.prev[x]
  {
  }

  /** Relinking a node of P whose own links are original writes only original values. */
  lemma RelinkStep(o: Chain, P: set<int>, e: Chain, s: Chain, Done: set<int>, y: int)
    requires Valid(o) && Valid(e) && Valid(s) && Linked(o, P) && Relinking(o, e, s, Done) && Done <= P
    requires y in P && s.next[y] == o.next[y] && s.prev[y] == o.prev[y]
    ensures Relinking(o, e, Relink(s, y), Done + {y})
  {
    var a, b := o.prev[y], o.next[y];
    assert o.next[a] == y && o.prev[b] == y;
    var t := Relink(s, y);
    forall p | 0 <= p < |t.next|
      ensures t.next[p] == e.next[p] || t.next[p] == o.next[p]
      ensures t.prev[p] == e.prev[p] || t.prev[p] == o.prev[p]
    {
    }
    forall w | w in Done + {y}
      ensures t.next[o.prev[w]] == w && t.prev[o.next[w]] == w
    {
      if w != y {
        assert w in P;
        assert o.next[o.prev[w]] == w && o.prev[o.next[w]] == w;
      }
    }
  }

  /** A safe relink finds the links of y at their original values, writes only original values,
      and extends the relinking phase by y. */
  lemma PutStep(o: Chain, P: set<int>, xs: seq<int>, e: Chain, s: Chain, Done: set<int>, y: int)
    requires Valid(o) && Linked(o, P) && InRange(xs, |o.next|) && FreshFrom(P, xs)
    requires e == RemoveAll(o, xs) && Valid(s) && Relinking(o, e, s, Done) && Done <= P
    requires Safe(o, P, xs, Done, y)
    ensures s.next[y] == o.next[y] && s.prev[y] == o.prev[y]
    ensures Relinking(o, e, Relink(s, y), Done + {y})
  {
    RemoveAllChanges(o, P, xs);
    RestoredNext(o, P, e, s, Done, y);
    RestoredPrev(o, P, e, s, Done, y);
    RelinkStep(o, P, e, s, Done, y);
  }

  /** Once every removed node has been relinked, every link is back at its original value. */
  lemma {:induction false} Restored(o: Chain, P: set<int>, xs: seq<int>, e: Chain, s: Chain, Done: set<int>)
    requires Valid(o) && Linked(o, P) && InRange(xs, |o.next|) && FreshFrom(P, xs)
    requires e == RemoveAll(o, xs) && Valid(s) && Relinking(o, e, s, Done)
    requires forall i :: 0 <= i < |xs| ==> xs[i] in Done
    ensures s == o
  {
    RemoveAllChanges(o, P, xs);
    RemoveAllOutside(o, P, xs);
    forall p | 0 <= p < |o.next|
      ensures s.next[p] == o.next[p] && s.prev[p] == o.prev[p]
    {
      if p in P {
        if e.next[p] != o.next[p] {
          RemovedBeforeIn(xs, o.next[p], p);
        }
        RestoredNext(o, P, e, s, Done, p);
        if e.prev[p] != o.prev[p] {
          RemovedBeforeIn(xs, o.prev[p], p);
        }
        RestoredPrev(o, P, e, s, Done, p);
      }
    }
    assert s.next == o.next && s.prev == o.prev;
  }

  /** Relinking in the same order as the removals gives back the original links.  (What this
      needs of the order is safety: when y is relinked, its neighbours removed before it are back.
      Relinking in the reverse order is the textbook way; the same order works as well.) */
  lemma {:induction false} SameOrderRestores(o: Chain, P: set<int>, xs: seq<int>)
    requires Valid(o) && Linked(o, P) && InRange(xs, |o.next|) && FreshFrom(P, xs)
    ensures PutAll(RemoveAll(o, xs), xs) == o
  {
    var e := RemoveAll(o, xs);
    var k := 0;
    var s := e;
    RemainingSub(P, xs);
    while k < |xs|
      invariant 0 <= k <= |xs| && Valid(s)
      invariant s == PutAll(e, xs[..k])
      invariant Relinking(o, e, s, Elems(xs[..k])) && Elems(xs[..k]) <= P
    {
      forall z | RemovedBefore(xs, z, xs[k])
        ensures z in Elems(xs[..k])
      {
        RemovedBeforePrefix(P, xs, k, z);
      }
      PutStep(o, P, xs, e, s, Elems(xs[..k]), xs[k]);
      PutAllStep(e, xs, k);
      ElemsPrefixStep(xs, k);
      s := Relink(s, xs[k]);
      k := k + 1;
    }
    TakeAll(xs, k);
    Restored(o, P, xs, e, s, Elems(xs));
  }

  lemma RemainingSub(P: set<int>, xs: seq<int>)
    requires FreshFrom(P, xs)
    ensures forall i :: 0 <= i < |xs| ==> xs[i] in P
  {
    forall i | 0 <= i < |xs|
      ensures xs[i] in P
    {
      RemainingIn(P, xs[..i], xs[i]);
    }
  }

  ghost predicate Distinct(xs: seq<int>)
  {
    forall i, j :: 0 <= i < j < |xs| ==> xs[i] != xs[j]
  }

  /** ring lists the nodes of one circular list in order: the next of each is the following one,
      the next of the last is the first, and prev runs the other way. */
  ghost predicate Ring(s: Chain, ring: seq<int>)
    requires Valid(s)
  {
    |ring| >= 1 && InRange(ring, |s.next|)
    && (forall k {:trigger s.next[ring[k]]} :: 0 <= k < |ring| - 1 ==> s.next[ring[k]] == ring[k + 1])
    && (forall k {:trigger s.prev[ring[k]]} :: 0 < k < |ring| ==> s.prev[ring[k]] == ring[k - 1])
    && s.next[ring[|ring| - 1]] == ring[0] && s.prev[ring[0]] == ring[|ring| - 1]
  }

  /** A ring read from any of its nodes is still a ring. */
  lemma RingRotate(s: Chain, ring: seq<int>, k: int)
    requires Valid(s) && Ring(s, ring) && 0 <= k <= |ring|
    ensures Ring(s, ring[k..] + ring[..k])
  {
    var r := ring[k..] + ring[..k];
    if k == |ring| {
      assert r == ring;
      return;
    }
    var n := |ring|;
    assert forall i :: 0 <= i < n ==> r[i] == if i < n - k then ring[k + i] else ring[i - (n - k)];
    forall i | 0 <= i < n - 1
      ensures s.next[r[i]] == r[i + 1]
    {
      if i == n - k - 1 {
        assert r[i] == ring[n - 1] && r[i + 1] == ring[0];
      } else if i < n - k - 1 {
        assert r[i] == ring[k + i];
      } else {
        assert r[i] == ring[i - (n - k)];
      }
    }
    forall i | 0 < i < n
      ensures s.prev[r[i]] == r[i - 1]
    {
      if i == n - k {
        assert r[i] == ring[0] && r[i - 1] == ring[n - 1];
      } else if i < n - k {
        assert r[i] == ring[k + i];
      } else {
        assert r[i] == ring[i - (n - k)];
      }
    }
  }

  /** Unlinking the last node of a ring of two or more leaves the others as a ring. */
  lemma RingUnlinkLast(s: Chain, q: seq<int>, x: int)
    requires Valid(s) && Ring(s, q + [x]) && |q| >= 1 && Distinct(q + [x])
    ensures Ring(Unlink(s, x), q)
  {
    var r := q + [x];
    var t := Unlink(s, x);
    var n := |q|;
    assert s.prev[x] == q[n - 1] && s.next[x] == q[0];
    assert forall i :: 0 <= i < n ==> r[i] == q[i];
    forall i | 0 <= i < n - 1
      ensures t.next[q[i]] == q[i + 1]
    {
      assert s.next[r[i]] == r[i + 1];
      assert r[i] != r[n - 1];
    }
    forall i | 0 < i < n
      ensures t.prev[q[i]] == q[i - 1]
    {
      assert s.prev[r[i]] == r[i - 1];
      assert r[i] != r[0];
    }
  }

  /** Unlinking a node of a ring of two or more leaves the others, in the same order, as a ring. */
  lemma RingUnlink(s: Chain, a: seq<int>, x: int, b: seq<int>)
    requires Valid(s) && 0 <= x < |s.next|
    requires Ring(s, a + [x] + b) && |a + b| >= 1 && Distinct(a + [x] + b)
    ensures Ring(Unlink(s, x), a + b)
  {
    var r := a + [x] + b;
    RingRotate(s, r, |a| + 1);
    assert r[|a| + 1..] + r[..|a| + 1] == b + a + [x];
    DistinctRotate(r, |a| + 1);
    RingUnlinkLast(s, b + a, x);
    RingRotate(Unlink(s, x), b + a, |b|);
    assert (b + a)[|b|..] + (b + a)[..|b|] == a + b;
  }

  lemma DistinctRotate(r: seq<int>, k: int)
    requires Distinct(r) && 0 <= k <= |r|
    ensures Distinct(r[k..] + r[..k])
  {
    var t := r[k..] + r[..k];
    var n := |r|;
    assert forall i :: 0 <= i < n ==> t[i] == if i < n - k then r[k + i] else r[i - (n - k)];
  }

  /** A ring is not disturbed by changes to links that do not belong to its nodes. */
  lemma RingFrame(s: Chain, t: Chain, ring: seq<int>)
    requires Valid(s) && Valid(t) && |t.next| == |s.next| && Ring(s, ring)
    requires forall k :: 0 <= k < |ring| ==> t.next[ring[k]] == s.next[ring[k]] && t.prev[ring[k]] == s.prev[ring[k]]
    ensures Ring(t, ring)
  {
  }

  /** The node after the k-th node of a ring. */
  lemma RingNextAt(s: Chain, ring: seq<int>, k: int)
    requires Valid(s) && Ring(s, ring) && 0 <= k < |ring|
    ensures s.next[ring[k]] == if k < |ring| - 1 then ring[k + 1] else ring[0]
  {
  }

  lemma RingLinkedAt(s: Chain, ring: seq<int>, k: int)
    requires Valid(s) && Ring(s, ring) && 0 <= k < |ring|
    ensures s.next[ring[k]] in ring && s.prev[ring[k]] in ring
    ensures s.prev[s.next[ring[k]]] == ring[k] && s.next[s.prev[ring[k]]] == ring[k]
  {
    var n := |ring|;
    if k < n - 1 {
      assert s.next[ring[k]] == ring[k + 1];
    } else {
      assert s.next[ring[k]] == ring[0];
    }
    if k > 0 {
      assert s.prev[ring[k]] == ring[k - 1];
    } else {
      assert s.prev[ring[k]] == ring[n - 1];
    }
  }

  /** The nodes of a ring are consistently linked. */
  lemma RingLinked(s: Chain, ring: seq<int>)
    requires Valid(s) && Ring(s, ring)
    ensures Linked(s, Elems(ring))
  {
    forall y | y in Elems(ring)
      ensures 0 <= y < |s.next| && s.next[y] in Elems(ring) && s.prev[y] in Elems(ring)
      ensures s.prev[s.next[y]] == y && s.next[s.prev[y]] == y
    {
      assert y in ring;
      var k :| 0 <= k < |ring| && ring[k] == y;
      RingLinkedAt(s, ring, k);
      assert s.next[y] in ring && s.prev[y] in ring;
    }
  }
  /** The nodes of ring that are not in D, in ring order: what remains of a ring after D is unlinked. */
  ghost function Without(ring: seq<int>, D: set<int>): seq<int>
  {
    if ring == [] then [] else (if ring[0] in D then [] else [ring[0]]) + Without(ring[1..], D)
  }

  lemma WithoutIn(ring: seq<int>, D: set<int>)
    ensures forall y :: y in Without(ring, D) <==> y in ring && y !in D
  {
    if ring != [] {
      WithoutIn(ring[1..], D);
      assert ring == [ring[0]] + ring[1..];
    }
  }

  lemma {:induction false} WithoutConcat(a: seq<int>, b: seq<int>, D: set<int>)
    ensures Without(a + b, D) == Without(a, D) + Without(b, D)
  {
    if a != [] {
      var h := if a[0] in D then [] else [a[0]];
      ConsConcat(a, b);
      WithoutConcat(a[1..], b, D);
      ConcatAssoc(h, Without(a[1..], D), Without(b, D));
    } else {
      assert a + b == b;
    }
  }

  lemma ConsConcat(a: seq<int>, b: seq<int>)
    requires a != []
    ensures a + b != [] && (a + b)[0] == a[0] && (a + b)[1..] == a[1..] + b
  {
  }

  lemma ConcatAssoc(a: seq<int>, b: seq<int>, c: seq<int>)
    ensures (a + b) + c == a + (b + c)
  {
  }

  /** Only the nodes of the ring matter to Without. */
  lemma WithoutSame(ring: seq<int>, D: set<int>, E: set<int>)
    requires forall k :: 0 <= k < |ring| ==> (ring[k] in D <==> ring[k] in E)
    ensures Without(ring, D) == Without(ring, E)
  {
    if ring != [] {
      WithoutSame(ring[1..], D, E);
    }
  }

  lemma WithoutWithout(ring: seq<int>, D: set<int>, E: set<int>)
    ensures Without(Without(ring, D), E) == Without(ring, D + E)
  {
    if ring != [] {
      WithoutConcat(if ring[0] in D then [] else [ring[0]], Without(ring[1..], D), E);
      WithoutWithout(ring[1..], D, E);
    }
  }

  lemma WithoutDistinct(ring: seq<int>, D: set<int>)
    requires Distinct(ring)
    ensures Distinct(Without(ring, D))
  {
    if ring != [] {
      WithoutDistinct(ring[1..], D);
      WithoutIn(ring[1..], D);
      var w := Without(ring, D);
      var w1 := Without(ring[1..], D);
      if ring[0] !in D {
        assert w == [ring[0]] + w1;
        assert ring[0] !in ring[1..];
        forall i, j | 0 <= i < j < |w|
          ensures w[i] != w[j]
        {
          if i == 0 {
            assert w[j] == w1[j - 1];
          } else {
            assert w[i] == w1[i - 1] && w[j] == w1[j - 1];
          }
        }
      }
    }
  }

  /** The first node of a ring, when kept, still comes first. */
  lemma WithoutFirst(ring: seq<int>, D: set<int>)
    requires |ring| >= 1 && ring[0] !in D
    ensures |Without(ring, D)| >= 1 && Without(ring, D)[0] == ring[0]
  {
  }

  /** When ring[j] is the first node of ring not in D, it comes first in Without(ring, D). */
  lemma {:induction false} WithoutHead(ring: seq<int>, D: set<int>, j: int)
    requires 0 <= j < |ring| && ring[j] !in D
    requires forall i :: 0 <= i < j ==> ring[i] in D
    ensures |Without(ring, D)| >= 1 && Without(ring, D)[0] == ring[j]
  {
    if j > 0 {
      WithoutHead(ring[1..], D, j - 1);
    }
  }

  lemma WithoutNotIn(ring: seq<int>, D: set<int>, x: int)
    requires x !in ring
    ensures Without(ring, D + {x}) == Without(ring, D)
  {
    if ring != [] {
      WithoutNotIn(ring[1..], D, x);
    }
  }

  lemma DistinctSplit(ring: seq<int>, k: int)
    requires Distinct(ring) && 0 <= k < |ring|
    ensures ring[k] !in ring[..k] && ring[k] !in ring[k + 1..]
  {
  }

  /** Around a kept node x at position k, Without splits into the part before and the part after. */
  lemma {:induction false} WithoutSplit(ring: seq<int>, D: set<int>, k: int)
    requires 0 <= k < |ring| && ring[k] !in D && ring[k] !in ring[..k] && ring[k] !in ring[k + 1..]
    ensures Without(ring, D) == Without(ring[..k], D) + [ring[k]] + Without(ring[k + 1..], D)
    ensures Without(ring, D + {ring[k]}) == Without(ring[..k], D) + Without(ring[k + 1..], D)
  {
    var x := ring[k];
    var a, b := ring[..k], ring[k + 1..];
    assert ring == a + [x] + b;
    WithoutConcat(a + [x], b, D);
    WithoutConcat(a, [x], D);
    WithoutConcat(a + [x], b, D + {x});
    WithoutConcat(a, [x], D + {x});
    assert Without([x], D) == [x];
    assert Without([x], D + {x}) == [];
    WithoutNotIn(a, D, x);
    WithoutNotIn(b, D, x);
  }

  /** Unlinking a present node x that is not the first one of a distinct ring: what remains of the
      ring without x is a ring again. */
  lemma RingUnlinkWithout(s: Chain, ring: seq<int>, D: set<int>, x: int)
    requires Valid(s) && 0 <= x < |s.next| && Distinct(ring) && |ring| >= 1
    requires x in ring && x !in D && ring[0] != x && ring[0] !in D
    requires Ring(s, Without(ring, D))
    ensures Ring(Unlink(s, x), Without(ring, D + {x}))
  {
    var k :| 0 <= k < |ring| && ring[k] == x;
    DistinctSplit(ring, k);
    WithoutSplit(ring, D, k);
    var a := Without(ring[..k], D);
    var b := Without(ring[k + 1..], D);
    assert ring[..k][0] == ring[0];
    WithoutFirst(ring[..k], D);
    WithoutDistinct(ring, D);
    RingUnlink(s, a, x, b);
  }

  /** The two neighbours of a node of a ring belong to the ring. */
  lemma RingNeighbours(s: Chain, ring: seq<int>, x: int)
    requires Valid(s) && Ring(s, ring) && x in ring
    ensures s.next[x] in ring && s.prev[x] in ring
  {
    var k :| 0 <= k < |ring| && ring[k] == x;
    RingLinkedAt(s, ring, k);
  }

  /** Rings with no node in common. */
  ghost predicate Disjoint(rings: seq<seq<int>>, J: set<int>)
  {
    forall j, j', k ::
      (j in J && j' in J && j != j' && 0 <= j < |rings| && 0 <= j' < |rings| && 0 <= k < |rings[j]|)
      ==> rings[j][k] !in rings[j']
  }

  /** What remains of each ring of a family after D is unlinked is a ring. */
  ghost predicate Rings(s: Chain, rings: seq<seq<int>>, J: set<int>, D: set<int>)
    requires Valid(s)
  {
    forall j :: j in J ==>
      (0 <= j < |rings| && Distinct(rings[j]) && |rings[j]| >= 1
       && rings[j][0] !in D && Ring(s, Without(rings[j], D)))
  }

  /** Unlinking a present node that is not the first one of its ring keeps a family of disjoint rings. */
  lemma UnlinkRings(s: Chain, rings: seq<seq<int>>, J: set<int>, D: set<int>, j0: int, x: int)
    requires Valid(s) && 0 <= x < |s.next| && Rings(s, rings, J, D) && Disjoint(rings, J)
    requires j0 in J && x in rings[j0] && x !in D && x != rings[j0][0]
    ensures Rings(Unlink(s, x), rings, J, D + {x})
  {
    var t := Unlink(s, x);
    RingUnlinkWithout(s, rings[j0], D, x);
    var w0 := Without(rings[j0], D);
    WithoutIn(rings[j0], D);
    RingNeighbours(s, w0, x);
    forall j | j in J && j != j0
      ensures Ring(t, Without(rings[j], D + {x}))
    {
      var w := Without(rings[j], D);
      WithoutIn(rings[j], D);
      assert s.prev[x] !in w && s.next[x] !in w && x !in rings[j];
      WithoutSame(rings[j], D, D + {x});
      RingFrame(s, t, w);
    }
  }

  /** Linking a new node y in after the last node of a ring (and so before its first) gives the
      ring with y at its end. */
  lemma RingInsert(s: Chain, ring: seq<int>, y: int)
    requires Valid(s) && Ring(s, ring) && Distinct(ring) && 0 <= y < |s.next| && y !in ring
    ensures
      var a, b := ring[|ring| - 1], ring[0];
      Ring(Chain(s.next[a := y][y := b], s.prev[b := y][y := a]), ring + [y])
  {
    var a, b := ring[|ring| - 1], ring[0];
    var t := Chain(s.next[a := y][y := b], s.prev[b := y][y := a]);
    var r := ring + [y];
    var n := |ring|;
    forall k | 0 <= k < n - 1
      ensures t.next[r[k]] == r[k + 1]
    {
      assert r[k] == ring[k] && r[k + 1] == ring[k + 1];
      assert s.next[ring[k]] == ring[k + 1];
      assert ring[k] != y && ring[k] != a;
    }
    forall k | 0 < k < n
      ensures t.prev[r[k]] == r[k - 1]
    {
      assert r[k] == ring[k] && r[k - 1] == ring[k - 1];
      assert s.prev[ring[k]] == ring[k - 1];
      assert ring[k] != y && ring[k] != b;
    }
  }

  /** Putting a node back right after taking it out restores every link, provided its neighbours
      pointed back at it. */
  lemma RelinkUnlink(s: Chain, x: int)
    requires Valid(s) && 0 <= x < |s.next|
    requires s.next[s.prev[x]] == x && s.prev[s.next[x]] == x
    ensures Relink(Unlink(s, x), x) == s
  {
    var u := Unlink(s, x);
    assert Relink(u, x).next == s.next;
    assert Relink(u, x).prev == s.prev;
  }

  /** A ring survives appending new nodes. */
  lemma RingGrow(s: Chain, t: Chain, ring: seq<int>)
    requires Valid(s) && Valid(t) && |t.next| >= |s.next| && Ring(s, ring)
    requires forall p :: 0 <= p < |s.next| ==> t.next[p] == s.next[p] && t.prev[p] == s.prev[p]
    ensures Ring(t, ring)
  {
  }
  /** A ring is not disturbed by writing two next links and two prev links of other nodes. */
  lemma RingAvoid(s: Chain, ring: seq<int>, p1: int, x1: int, p2: int, x2: int, q1: int, y1: int, q2: int, y2: int)
    requires Valid(s) && Ring(s, ring)
    requires 0 <= p1 < |s.next| && 0 <= p2 < |s.next| && 0 <= q1 < |s.next| && 0 <= q2 < |s.next|
    requires 0 <= x1 < |s.next| && 0 <= x2 < |s.next| && 0 <= y1 < |s.next| && 0 <= y2 < |s.next|
    requires p1 !in ring && p2 !in ring && q1 !in ring && q2 !in ring
    ensures Valid(Chain(s.next[p1 := x1][p2 := x2], s.prev[q1 := y1][q2 := y2]))
    ensures Ring(Chain(s.next[p1 := x1][p2 := x2], s.prev[q1 := y1][q2 := y2]), ring)
  {
    var t := Chain(s.next[p1 := x1][p2 := x2], s.prev[q1 := y1][q2 := y2]);
    forall k | 0 <= k < |ring|
      ensures t.next[ring[k]] == s.next[ring[k]] && t.prev[ring[k]] == s.prev[ring[k]]
    {
      assert ring[k] in ring;
    }
    RingFrame(s, t, ring);
  }

  /** Stores to different positions commute. */
  lemma UpdateSwap(s: seq<int>, p: int, x: int, q: int, w: int)
    requires 0 <= p < |s| && 0 <= q < |s| && p != q
    ensures s[p := x][q := w] == s[q := w][p := x]
  {
  }

  lemma TakeAll(xs: seq<int>, t: int)
    requires t == |xs|
    ensures xs[..t] == xs
  {
  }

  lemma SnocDrop(xs: seq<int>, x: int)
    ensures (xs + [x])[..|xs|] == xs && |xs + [x]| == |xs| + 1
  {
  }

  lemma PrefixStep(xs: seq<int>, t: int)
    requires 0 <= t < |xs|
    ensures xs[..t + 1] == xs[..t] + [xs[t]]
  {
  }

  lemma InPrefixStep(xs: seq<int>, t: int, y: int)
    requires 0 <= t < |xs|
    ensures y in xs[..t + 1] <==> y in xs[..t] || xs[t] == y
  {
    assert xs[..t + 1] == xs[..t] + [xs[t]];
  }

  lemma DistinctPrefix(xs: seq<int>, k: int)
    requires Distinct(xs) && 0 <= k <= |xs|
    ensures Distinct(xs[..k])
  {
    assert forall i :: 0 <= i < k ==> xs[..k][i] == xs[i];
  }

  /** Appending a node not yet listed keeps a list free of repetitions. */
  lemma DistinctSnoc(xs: seq<int>, x: int)
    requires Distinct(xs) && x !in xs
    ensures Distinct(xs + [x])
  {
    forall i, j | 0 <= i < j < |xs + [x]|
      ensures (xs + [x])[i] != (xs + [x])[j]
    {
      assert (xs + [x])[i] == xs[i];
      if j < |xs| {
        assert (xs + [x])[j] == xs[j];
      }
    }
  }

  lemma DistinctConcat(a: seq<int>, b: seq<int>)
    requires Distinct(a) && Distinct(b) && forall y :: y in b ==> y !in a
    ensures Distinct(a + b)
  {
    forall i, j | 0 <= i < j < |a + b|
      ensures (a + b)[i] != (a + b)[j]
    {
      if j < |a| {
        assert (a + b)[i] == a[i] && (a + b)[j] == a[j];
      } else if i < |a| {
        assert (a + b)[i] == a[i] && (a + b)[j] == b[j - |a|];
        assert b[j - |a|] in b;
      } else {
        assert (a + b)[i] == b[i - |a|] && (a + b)[j] == b[j - |a|];
      }
    }
  }

  /** A sequence of nodes of P without repetitions is fresh from P. */
  lemma DistinctFresh(P: set<int>, xs: seq<int>)
    requires Distinct(xs) && forall i :: 0 <= i < |xs| ==> xs[i] in P
    ensures FreshFrom(P, xs)
  {
    forall i | 0 <= i < |xs|
      ensures xs[i] in Remaining(P, xs[..i])
    {
      RemainingIn(P, xs[..i], xs[i]);
    }
  }

  /** Unlinking a + b is unlinking a, then b. */
  lemma {:induction false} RemoveAllConcat(s: Chain, a: seq<int>, b: seq<int>)
    requires Valid(s) && InRange(a + b, |s.next|)
    ensures InRange(a, |s.next|) && InRange(b, |s.next|)
    ensures RemoveAll(s, a + b) == RemoveAll(RemoveAll(s, a), b)
    decreases |b|
  {
    assert forall i :: 0 <= i < |a| ==> a[i] == (a + b)[i];
    assert forall i :: 0 <= i < |b| ==> b[i] == (a + b)[|a| + i];
    if b == [] {
      assert a + b == a;
    } else {
      var b' := b[..|b| - 1];
      assert (a + b)[..|a + b| - 1] == a + b';
      assert forall i :: 0 <= i < |a + b'| ==> (a + b')[i] == (a + b)[i];
      RemoveAllConcat(s, a, b');
    }
  }

  /** The members of a ring read from one of its elements p, past p. */
  lemma RotateMembers(W: seq<int>, q: int, p: int, T: seq<int>, w: int)
    requires 0 <= q < |W| && W[q..] + W[..q] == [p] + T && Distinct([p] + T)
    ensures w in T <==> w in W && w != p
    ensures Distinct(T)
  {
    assert W == W[..q] + W[q..];
    assert w in W <==> w in W[..q] || w in W[q..];
    assert w in W <==> w in [p] + T;
    assert forall k :: 0 <= k < |T| ==> T[k] == ([p] + T)[k + 1];
    assert p !in T by {
      assert ([p] + T)[0] == p;
    }
  }

  /** What remains of a ring, read from a kept node W[q]: W[q], then what remains of the rest of
      the ring read from below W[q]. */
  lemma {:induction false} WithoutRotate(W: seq<int>, P: set<int>, q: int) returns (a: int)
    requires Distinct(W) && 0 <= q < |W| && W[q] !in P
    ensures 0 <= a < |Without(W, P)| && Distinct(Without(W, P))
    ensures Without(W, P)[a..] + Without(W, P)[..a] == [W[q]] + Without(W[q + 1..] + W[..q], P)
  {
    var p := W[q];
    DistinctSplit(W, q);
    WithoutSplit(W, P, q);
    var A, B := Without(W[..q], P), Without(W[q + 1..], P);
    var X := Without(W, P);
    assert X == A + [p] + B;
    a := |A|;
    assert X[a..] == [p] + B && X[..a] == A;
    WithoutConcat(W[q + 1..], W[..q], P);
    WithoutDistinct(W, P);
  }

  lemma DistinctMiddle(a: seq<int>, b: seq<int>, c: seq<int>, y: int)
    requires Distinct(a + b + c) && y in b
    ensures y !in a && y !in c
  {
    var x := a + b + c;
    var k :| 0 <= k < |b| && b[k] == y;
    assert x[|a| + k] == y;
    forall i | 0 <= i < |a|
      ensures a[i] != y
    {
      assert x[i] == a[i];
    }
    forall i | 0 <= i < |c|
      ensures c[i] != y
    {
      assert x[|a| + |b| + i] == c[i];
    }
  }

  /** In a distinct sequence made of a, then u, b and c: the nodes of b are in neither a nor u. */
  lemma DistinctPart(x: seq<int>, a: seq<int>, u: seq<int>, b: seq<int>, c: seq<int>, y: int)
    requires x == a + (u + b + c) && Distinct(x) && y in b
    ensures y !in a && y !in u
  {
    assert x == (a + u) + b + c;
    DistinctMiddle(a + u, b, c, y);
  }

  /** Unlinking distinct present nodes T, none of them the first of its ring, one after the
      other keeps a family of disjoint rings: T[i] lies in the ring cols[i]. */
  lemma {:induction false} UnlinkAllRings(s: Chain, rings: seq<seq<int>>, J: set<int>, D: set<int>, T: seq<int>, cols: seq<int>)
    requires Valid(s) && Rings(s, rings, J, D) && Disjoint(rings, J) && Distinct(T) && |cols| == |T|
    requires forall i :: 0 <= i < |T| ==> 0 <= T[i] < |s.next| && T[i] !in D && cols[i] in J
    requires forall i :: 0 <= i < |T| ==> 0 <= cols[i] < |rings| && T[i] in rings[cols[i]] && T[i] != rings[cols[i]][0]
    ensures InRange(T, |s.next|) && Rings(RemoveAll(s, T), rings, J, D + Elems(T))
    decreases |T|
  {
    if T == [] {
      assert D + Elems(T) == D;
    } else {
      var n := |T| - 1;
      assert forall i :: 0 <= i < n ==> T[..n][i] == T[i] && cols[..n][i] == cols[i];
      UnlinkAllRings(s, rings, J, D, T[..n], cols[..n]);
      UnlinkLastRings(s, rings, J, D, T, cols);
    }
  }

  lemma {:induction false} UnlinkLastRings(s: Chain, rings: seq<seq<int>>, J: set<int>, D: set<int>, T: seq<int>, cols: seq<int>)
    requires Valid(s) && Disjoint(rings, J) && Distinct(T) && |cols| == |T| && T != []
    requires InRange(T, |s.next|) && T[|T| - 1] !in D && cols[|T| - 1] in J
    requires var y, c := T[|T| - 1], cols[|T| - 1]; 0 <= c < |rings| && y in rings[c] && y != rings[c][0]
    requires Rings(RemoveAll(s, T[..|T| - 1]), rings, J, D + Elems(T[..|T| - 1]))
    ensures Rings(RemoveAll(s, T), rings, J, D + Elems(T))
  {
    var n := |T| - 1;
    var T', y := T[..n], T[n];
    RemoveAllSnoc(s, T);
    ElemsSnoc(T);
    UnionSnoc(D, Elems(T'), y);
    assert y !in D + Elems(T') by { assert y !in T'; }
    UnlinkRingsAs(RemoveAll(s, T'), RemoveAll(s, T), rings, J, D + Elems(T'), D + Elems(T), cols[n], y);
  }

  lemma RemoveAllSnoc(s: Chain, T: seq<int>)
    requires Valid(s) && InRange(T, |s.next|) && T != []
    ensures InRange(T[..|T| - 1], |s.next|) && 0 <= T[|T| - 1] < |s.next|
    ensures RemoveAll(s, T) == Unlink(RemoveAll(s, T[..|T| - 1]), T[|T| - 1])
  {
  }

  lemma InRangeConcat(a: seq<int>, b: seq<int>, n: int)
    requires InRange(a, n) && InRange(b, n)
    ensures InRange(a + b, n)
  {
    assert forall i :: 0 <= i < |a| ==> (a + b)[i] == a[i];
    assert forall i :: |a| <= i < |a + b| ==> (a + b)[i] == b[i - |a|];
  }

  /** The nodes named by a + b, with D added in front. */
  /** A sequence that starts with xs + [x] starts with xs. */
  lemma PrefixOfPrefix(xs: seq<int>, x: int, ys: seq<int>)
    requires |xs| + 1 <= |ys| && ys[..|xs| + 1] == xs + [x]
    ensures |xs| <= |ys| && ys[..|xs|] == xs
  {
    assert ys[..|xs|] == ys[..|xs| + 1][..|xs|];
  }

  lemma ElemsConcat(D: set<int>, a: seq<int>, b: seq<int>)
    ensures D + Elems(a + b) == (D + Elems(a)) + Elems(b)
  {
    assert Elems(a + b) == Elems(a) + Elems(b);
  }

  lemma UnionSnoc(D: set<int>, A: set<int>, y: int)
    ensures D + (A + {y}) == (D + A) + {y}
  {
  }

  lemma InRangePrefix(xs: seq<int>, n: int, k: int)
    requires InRange(xs, n) && 0 <= k <= |xs|
    ensures InRange(xs[..k], n)
  {
    assert forall i :: 0 <= i < k ==> xs[..k][i] == xs[i];
  }

  /** UnlinkRings, with the resulting chain and set named by the caller. */
  lemma UnlinkRingsAs(s: Chain, t: Chain, rings: seq<seq<int>>, J: set<int>, D: set<int>, D': set<int>, j0: int, x: int)
    requires Valid(s) && 0 <= x < |s.next| && Rings(s, rings, J, D) && Disjoint(rings, J)
    requires j0 in J && x in rings[j0] && x !in D && x != rings[j0][0]
    requires t == Unlink(s, x) && D' == D + {x}
    ensures Rings(t, rings, J, D')
  {
    UnlinkRings(s, rings, J, D, j0, x);
  }

  lemma ElemsSnoc(T: seq<int>)
    requires T != []
    ensures Elems(T) == Elems(T[..|T| - 1]) + {T[|T| - 1]}
  {
    assert T == T[..|T| - 1] + [T[|T| - 1]];
  }

  /** In a removal sequence without repetitions, what is removed before y is what precedes y. */
  lemma RemovedBeforeSplit(P: set<int>, xs: seq<int>, a: seq<int>, y: int, b: seq<int>, z: int)
    requires FreshFrom(P, xs) && xs == a + [y] + b
    ensures RemovedBefore(xs, z, y) <==> z in a
  {
    assert xs[..|a|] == a && xs[|a|] == y;
    RemovedBeforePrefix(P, xs, |a|, z);
  }

  /** What is removed before a node of a prefix of the removals lies in that prefix. */
  lemma RemovedBeforeWithin(P: set<int>, xs: seq<int>, a: seq<int>, y: int, z: int)
    requires FreshFrom(P, xs) && a <= xs && y in a && RemovedBefore(xs, z, y)
    ensures z in a
  {
    var i :| 0 <= i < |a| && a[i] == y;
    assert xs[i] == y && xs[..i] == a[..i];
    RemovedBeforePrefix(P, xs, i, z);
  }

  /** In a ring of two or more distinct nodes no node is its own predecessor. */
  lemma RingPrevOther(s: Chain, ring: seq<int>, x: int, x': int)
    requires Valid(s) && Ring(s, ring) && Distinct(ring) && x in ring && x' in ring && x != x'
    ensures s.prev[x] != x
  {
    var k :| 0 <= k < |ring| && ring[k] == x;
    if k > 0 {
      assert s.prev[ring[k]] == ring[k - 1];
    } else {
      assert |ring| >= 2 && s.prev[ring[0]] == ring[|ring| - 1];
    }
  }

  /** The first n nodes of T relinked one after the other from s: each of them is not its own
      predecessor when it is relinked. */
  ghost predicate FreshPuts(v: Chain, T: seq<int>, n: int)
    requires Valid(v) && InRange(T, |v.next|) && 0 <= n <= |T|
  {
    forall i :: 0 <= i < n ==> InRange(T[..i], |v.next|) && PutAll(v, T[..i]).prev[T[i]] != T[i]
  }

  /** Relinking the first i + 1 nodes of T is relinking the first i, then T[i]. */
  lemma PutAllStep(s: Chain, T: seq<int>, i: int)
    requires Valid(s) && InRange(T, |s.next|) && 0 <= i < |T|
    ensures InRange(T[..i + 1], |s.next|) && InRange(T[..i], |s.next|)
    ensures PutAll(s, T[..i + 1]) == Relink(PutAll(s, T[..i]), T[i])
  {
    assert T[..i + 1][..i] == T[..i];
  }

  lemma ElemsStep(D: set<int>, T: seq<int>, i: int)
    requires 0 <= i < |T|
    ensures D + Elems(T[..i + 1]) == (D + Elems(T[..i])) + {T[i]}
  {
    assert T[..i + 1] == T[..i] + [T[i]];
  }

  lemma ElemsPrefixStep(T: seq<int>, i: int)
    requires 0 <= i < |T|
    ensures Elems(T[..i + 1]) == Elems(T[..i]) + {T[i]}
  {
    assert T[..i + 1] == T[..i] + [T[i]];
  }

  lemma EmptyPrefix(T: seq<int>, D: set<int>)
    ensures T[..0] == [] && D + Elems(T[..0]) == D
  {
  }
}
