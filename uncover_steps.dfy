/** What uncover relinks, and why relinking in cover's own order restores every link.

    uncover visits the phases of cover in the same order.  When it reaches the column of
    phase k, everything cover detached from that column is back already, so its walk meets the
    whole present column, and at every cell there it relinks the rest of that cell's row into
    the columns (some cells more than once).  UPlan lists those relinks in order.  Each of them
    is safe in the sense of Links.Safe: the neighbours a relinked cell had before cover and that
    cover detached before it are back by then.  So once uncover is done, every link is as it
    was before cover. */
module UncoverSteps {
  import opened Links
  import opened NodeLayout
  import opened SearchState
  import opened CoverPlan
  import opened CoverSteps

  /** The cells uncover relinks in the phase of p: the rest of the row of every cell of the
      present column of p, walking down from below p. */
  ghost function UBlock(Z: seq<seq<int>>, S: set<int>, p: int): seq<int>
  {
    if 1 <= p < Size(Z) then Tails(Z, Walk(Z, S, p)) else []
  }

  /** The cells uncover relinks into their columns in its phases ps, in that order. */
  ghost function UPlan(Z: seq<seq<int>>, S: set<int>, ps: seq<int>): seq<int>
    decreases |ps|
  {
    if ps == [] then [] else UPlan(Z, S, ps[..|ps| - 1]) + UBlock(Z, S, ps[|ps| - 1])
  }

  /** The links cover left, from the search state (h0, v0) of S and the phases ps of row R. */
  ghost predicate Covered(Z: seq<seq<int>>, S: set<int>, R: int, ps: seq<int>, h0: Chain, v0: Chain)
  {
    Phased(Z, S, R, ps) && Inv(Z, S, h0, v0)
    && InRange(Heads(Z, ps), Size(Z)) && InRange(Plan(Z, S, ps), Size(Z))
  }

  /** The links (h, v) cover leaves, started at the cell r of the live row R from the search
      state (h0, v0) of S. */
  ghost predicate CoverLeft(Z: seq<seq<int>>, S: set<int>, R: int, r: int, h0: Chain, v0: Chain, h: Chain, v: Chain)
  {
    Inv(Z, S, h0, v0) && Alive(Z, S, R) && r in RowRing(Z, R)
    && InRange(Heads(Z, Phases(Z, R, r)), Size(Z)) && InRange(Plan(Z, S, Phases(Z, R, r)), Size(Z))
    && h == RemoveAll(h0, Heads(Z, Phases(Z, R, r))) && v == RemoveAll(v0, Plan(Z, S, Phases(Z, R, r)))
  }

  /** The root ring under uncover: since cover finished, the headers DH are back, each of them
      relinked safely. */
  ghost predicate HBack(Z: seq<seq<int>>, S: set<int>, ps: seq<int>, h0: Chain, h: Chain, DH: set<int>)
  {
    Valid(h0) && InRange(Heads(Z, ps), |h0.next|) && Valid(h)
    && Relinking(h0, RemoveAll(h0, Heads(Z, ps)), h, DH) && DH <= Elems(PresentRoot(Z, S))
  }

  /** The columns under uncover: since cover finished, the cells DV are back, each of them
      relinked safely. */
  ghost predicate VBack(Z: seq<seq<int>>, S: set<int>, ps: seq<int>, v0: Chain, v: Chain, DV: set<int>)
  {
    Valid(v0) && InRange(Plan(Z, S, ps), |v0.next|) && Valid(v)
    && Relinking(v0, RemoveAll(v0, Plan(Z, S, ps)), v, DV) && DV <= Present(Z, S)
  }

  /** What the walk of phase k has relinked into the root ring after its first t nodes,
      on top of DH: the header, once the walk has met it. */
  ghost function WalkHeads(Z: seq<seq<int>>, S: set<int>, ps: seq<int>, k: int, t: int, DH: set<int>): set<int>
    requires 0 <= k < |ps| && 1 <= ps[k] < Size(Z) && 0 <= t <= |Walk(Z, S, ps[k])|
  {
    if Head(Z, ps[k]) in Walk(Z, S, ps[k])[..t] then DH + {Head(Z, ps[k])} else DH
  }

  /** What the walk of phase k has relinked into the columns after its first t nodes, on top
      of DV: the rests of their rows. */
  ghost function WalkCells(Z: seq<seq<int>>, S: set<int>, ps: seq<int>, k: int, t: int, DV: set<int>): set<int>
    requires 0 <= k < |ps| && 1 <= ps[k] < Size(Z) && 0 <= t <= |Walk(Z, S, ps[k])|
  {
    DV + Elems(Tails(Z, Walk(Z, S, ps[k])[..t]))
  }

  lemma UPlanStep(Z: seq<seq<int>>, S: set<int>, ps: seq<int>, k: int)
    requires 0 <= k < |ps|
    ensures UPlan(Z, S, ps[..k + 1]) == UPlan(Z, S, ps[..k]) + UBlock(Z, S, ps[k])
  {
    assert ps[..k + 1][..k] == ps[..k];
  }

  /** A tail of the nodes of ws that are not in E is a tail of a node of ws. */
  lemma TailsWithout(Z: seq<seq<int>>, ws: seq<int>, E: set<int>, y: int)
    requires y in Tails(Z, Without(ws, E))
    ensures y in Tails(Z, ws)
  {
    var t := TailsWitness(Z, Without(ws, E), y);
    var w := Without(ws, E)[t];
    WithoutIn(ws, E);
    assert w in ws;
    var t' :| 0 <= t' < |ws| && ws[t'] == w;
    TailsHas(Z, ws, t', y);
  }


  /** What cover detaches in the last phase, uncover relinks in that phase. */
  lemma BlockInUBlock(Z: seq<seq<int>>, S: set<int>, qs: seq<int>, y: int)
    requires qs != [] && y in Block(Z, S, qs)
    ensures y in UBlock(Z, S, qs[|qs| - 1])
  {
    TailsWithout(Z, Walk(Z, S, qs[|qs| - 1]), Elems(Plan(Z, S, qs[..|qs| - 1])), y);
  }

  /** uncover relinks every cell cover detached, in the same phase or a later one. */
  lemma {:induction false} UPlanHas(Z: seq<seq<int>>, S: set<int>, qs: seq<int>, y: int)
    requires y in Plan(Z, S, qs)
    ensures y in UPlan(Z, S, qs)
    decreases |qs|
  {
    var init := qs[..|qs| - 1];
    if y in Plan(Z, S, init) {
      UPlanHas(Z, S, init, y);
    } else {
      BlockInUBlock(Z, S, qs, y);
    }
  }

  lemma UPlanMono(Z: seq<seq<int>>, S: set<int>, ps: seq<int>, m: int, k: int, y: int)
    requires 0 <= m <= k <= |ps| && y in UPlan(Z, S, ps[..m])
    ensures y in UPlan(Z, S, ps[..k])
  {
    var qs := ps[..k];
    assert qs[..m] == ps[..m];
    UPlanPrefixIn(Z, S, qs, m, y);
  }

  /** What uncover relinks in the first m phases it relinks in all of them. */
  lemma {:induction false} UPlanPrefixIn(Z: seq<seq<int>>, S: set<int>, qs: seq<int>, m: int, y: int)
    requires 0 <= m <= |qs| && y in UPlan(Z, S, qs[..m])
    ensures y in UPlan(Z, S, qs)
    decreases |qs|
  {
    if m < |qs| {
      var init := qs[..|qs| - 1];
      assert init[..m] == qs[..m];
      UPlanPrefixIn(Z, S, init, m, y);
      InLeft(UPlan(Z, S, init), UBlock(Z, S, qs[|qs| - 1]), y);
    } else {
      assert qs[..m] == qs;
    }
  }

  lemma InLeft(a: seq<int>, b: seq<int>, y: int)
    requires y in a
    ensures y in a + b
  {
  }

  /** y is the i-th cell of the rest of the row of the t-th node of the walk of phase k, and D
      holds everything uncover relinks before y. */
  ghost predicate PutAt(Z: seq<seq<int>>, S: set<int>, ps: seq<int>, k: int, t: int, i: int, D: set<int>, y: int)
  {
    0 <= k < |ps| && 1 <= ps[k] < Size(Z) && 0 <= t < |Walk(Z, S, ps[k])|
    && var W := Walk(Z, S, ps[k]);
       0 <= i < |Tail(Z, W[t])| && y == Tail(Z, W[t])[i]
       && Elems(UPlan(Z, S, ps[..k])) + Elems(Tails(Z, W[..t])) + Elems(Tail(Z, W[t])[..i]) <= D
  }

  /** What a relinked cell is: a present cell of a live row other than R, which has a 1 in the
      column of phase k, so that its first phase column is phase k or an earlier one. */
  lemma {:induction false} PutCell(Z: seq<seq<int>>, S: set<int>, R: int, ps: seq<int>, k: int, t: int, i: int, D: set<int>, y: int)
    returns (w: int, Q: int)
    requires Phased(Z, S, R, ps) && PutAt(Z, S, ps, k, t, i, D, y)
    ensures w == Walk(Z, S, ps[k])[t] && y in Tail(Z, w) && Q == RowIdx(Z)[w]
    ensures IsCell(Z, w) && IsCell(Z, y) && RowIdx(Z)[y] == Q && y != w && Col(Z, w) == Col(Z, ps[k])
    ensures Alive(Z, S, Q) && Q != R && y in Present(Z, S) && y in PresentCol(Z, S, Col(Z, y))
    ensures FirstHit(Z, ps, Q) <= k
  {
    var p := ps[k];
    var W := Walk(Z, S, p);
    w := W[t];
    Q := RowIdx(Z)[w];
    PhaseCell(Z, S, R, ps, k);
    WalkIn(Z, S, p, w);
    TailIn(Z, w, y);
    PresentColIn(Z, S, Col(Z, p), w);
    RowIdxOf(Z, w);
    NotGone(Z, S, w);
    if Q == R {
      SameRowCol(Z, w, p);
    }
    RowRingIn(Z, Q, y);
    AliveCellPresent(Z, S, Q, y);
    assert HitAt(Z, p, Q);
    HitBound(Z, ps, Q, k);
  }

  /** A cell detached by an earlier phase has its earlier-detached neighbours relinked by the
      end of that phase of uncover. */
  lemma {:induction false} SafeEarlier(Z: seq<seq<int>>, S: set<int>, R: int, ps: seq<int>, k: int, t: int, i: int, D: set<int>, y: int, z: int)
    requires Phased(Z, S, R, ps) && PutAt(Z, S, ps, k, t, i, D, y)
    requires y in Plan(Z, S, ps) && 0 <= y < Size(Z) && FirstHit(Z, ps, RowIdx(Z)[y]) < k && RemovedBefore(Plan(Z, S, ps), z, y)
    ensures z in D
  {
    var j := FirstPhasePlan(Z, S, R, ps, y);
    PlanFresh(Z, S, R, ps);
    RemovedBeforeWithin(Present(Z, S), Plan(Z, S, ps), Plan(Z, S, ps[..j + 1]), y, z);
    UPlanHas(Z, S, ps[..j + 1], z);
    UPlanMono(Z, S, ps, j + 1, k, z);
  }

  /** A detached cell is detached by the phases up to the first one whose column holds a 1 of
      its row, and what those detach is where cover starts. */
  lemma FirstPhasePlan(Z: seq<seq<int>>, S: set<int>, R: int, ps: seq<int>, y: int) returns (j: int)
    requires Phased(Z, S, R, ps) && y in Plan(Z, S, ps) && 0 <= y < Size(Z)
    ensures j == FirstHit(Z, ps, RowIdx(Z)[y]) && 0 <= j < |ps|
    ensures y in Plan(Z, S, ps[..j + 1]) && Plan(Z, S, ps[..j + 1]) <= Plan(Z, S, ps)
  {
    var Q := RowIdx(Z)[y];
    j := FirstHit(Z, ps, Q);
    PlanIn(Z, S, R, ps, y);
    PhasedPrefix(Z, S, R, ps, j + 1);
    FirstHitPrefix(Z, ps, Q, j + 1);
    assert ps[..j + 1][j] == ps[j];
    PlanIn(Z, S, R, ps[..j + 1], y);
    PlanPrefix(Z, S, ps, j + 1);
  }

  /** In phase k cover detaches the tail of a walk node w it meets after the tails of the walk
      nodes before w that it meets, and before those of the ones after w. */
  lemma {:induction false} BlockAround(Z: seq<seq<int>>, S: set<int>, R: int, ps: seq<int>, k: int, t: int)
    requires Phased(Z, S, R, ps) && 0 <= k < |ps| && 1 <= ps[k] < Size(Z) && 0 <= t < |Walk(Z, S, ps[k])|
    requires Walk(Z, S, ps[k])[t] !in Plan(Z, S, ps[..k])
    ensures var W, E := Walk(Z, S, ps[k]), Elems(Plan(Z, S, ps[..k]));
      Tails(Z, ColumnWalk(Z, S, ps, k)) == Tails(Z, Without(W[..t], E)) + Tail(Z, W[t]) + Tails(Z, Without(W[t + 1..], E))
  {
    var W := Walk(Z, S, ps[k]);
    var w := W[t];
    var E := Elems(Plan(Z, S, ps[..k]));
    PhaseCell(Z, S, R, ps, k);
    WalkIn(Z, S, ps[k], w);
    DistinctSplit(W, t);
    WithoutSplit(W, E, t);
    var A1, B1 := Without(W[..t], E), Without(W[t + 1..], E);
    TailsConcat(Z, A1 + [w], B1);
    TailsSnoc(Z, A1, w);
  }

  /** Plan of all phases: Plan of the phases before k, then what phase k detaches, then the rest. */
  lemma {:induction false} PlanAt(Z: seq<seq<int>>, S: set<int>, ps: seq<int>, k: int) returns (rest: seq<int>)
    requires 0 <= k < |ps| && 1 <= ps[k] < Size(Z)
    ensures Plan(Z, S, ps) == Plan(Z, S, ps[..k]) + Tails(Z, ColumnWalk(Z, S, ps, k)) + rest
  {
    WalkBlock(Z, S, ps, k);
    PlanPrefix(Z, S, ps, k + 1);
    rest := Plan(Z, S, ps)[|Plan(Z, S, ps[..k + 1])|..];
    assert Plan(Z, S, ps) == Plan(Z, S, ps[..k + 1]) + rest;
  }

  lemma Regroup(p0: seq<int>, a: seq<int>, t: seq<int>, i: int, b: seq<int>, rest: seq<int>)
    requires 0 <= i < |t|
    ensures p0 + (a + t + b) + rest == (p0 + a + t[..i]) + [t[i]] + (t[i + 1..] + b + rest)
  {
    assert t == t[..i] + [t[i]] + t[i + 1..];
  }

  /** Where cover detaches the i-th cell y of the tail of the t-th walk node of phase k, when it
      meets that node: after Plan of the earlier phases, after the tails of the walk nodes
      before that node, and after the cells of its tail before y. */
  lemma {:induction false} PlanAround(Z: seq<seq<int>>, S: set<int>, R: int, ps: seq<int>, k: int, t: int, i: int)
    returns (a: seq<int>, b: seq<int>)
    requires Phased(Z, S, R, ps) && 0 <= k < |ps| && 1 <= ps[k] < Size(Z) && 0 <= t < |Walk(Z, S, ps[k])|
    requires 0 <= i < |Tail(Z, Walk(Z, S, ps[k])[t])| && Walk(Z, S, ps[k])[t] !in Plan(Z, S, ps[..k])
    ensures Plan(Z, S, ps) == a + [Tail(Z, Walk(Z, S, ps[k])[t])[i]] + b
    ensures forall z :: z in a ==>
      z in Plan(Z, S, ps[..k]) || z in Tails(Z, Walk(Z, S, ps[k])[..t]) || z in Tail(Z, Walk(Z, S, ps[k])[t])[..i]
  {
    var W := Walk(Z, S, ps[k]);
    var T := Tail(Z, W[t]);
    var E := Elems(Plan(Z, S, ps[..k]));
    var A1, B1 := Tails(Z, Without(W[..t], E)), Tails(Z, Without(W[t + 1..], E));
    BlockAround(Z, S, R, ps, k, t);
    var rest := PlanAt(Z, S, ps, k);
    Regroup(Plan(Z, S, ps[..k]), A1, T, i, B1, rest);
    a := Plan(Z, S, ps[..k]) + A1 + T[..i];
    b := T[i + 1..] + B1 + rest;
    forall z | z in a
      ensures z in Plan(Z, S, ps[..k]) || z in Tails(Z, W[..t]) || z in T[..i]
    {
      if z in A1 {
        TailsWithout(Z, W[..t], E, z);
      }
    }
  }

  /** A cell detached in phase k itself has its earlier-detached neighbours relinked before it. */
  lemma {:induction false} SafeSame(Z: seq<seq<int>>, S: set<int>, R: int, ps: seq<int>, k: int, t: int, i: int, D: set<int>, y: int, z: int)
    requires Phased(Z, S, R, ps) && PutAt(Z, S, ps, k, t, i, D, y)
    requires y in Plan(Z, S, ps) && 0 <= y < Size(Z) && FirstHit(Z, ps, RowIdx(Z)[y]) == k && RemovedBefore(Plan(Z, S, ps), z, y)
    ensures z in D
  {
    var w, Q := PutCell(Z, S, R, ps, k, t, i, D, y);
    PlanFresh(Z, S, R, ps);
    PhasedPrefix(Z, S, R, ps, k);
    FirstHitPrefix(Z, ps, Q, k);
    PlanIn(Z, S, R, ps[..k], w);
    var a, b := PlanAround(Z, S, R, ps, k, t, i);
    RemovedBeforeSplit(Present(Z, S), Plan(Z, S, ps), a, y, b, z);
    if z in Plan(Z, S, ps[..k]) {
      UPlanHas(Z, S, ps[..k], z);
    }
  }

  /** A cell cover never detached (the cell of its row in the row's first phase column) is
      relinked only after that phase, so its neighbours detached by cover are back. */
  lemma {:induction false} SafeKept(Z: seq<seq<int>>, S: set<int>, R: int, ps: seq<int>, k: int, t: int, i: int, D: set<int>, y: int, z: int)
    requires Phased(Z, S, R, ps) && PutAt(Z, S, ps, k, t, i, D, y)
    requires y !in Plan(Z, S, ps) && RemovedBefore(Plan(Z, S, ps), z, y)
    requires 1 <= z < Size(Z) && 1 <= y < Size(Z) && Col(Z, z) == Col(Z, y)
    ensures z in D
  {
    var w, Q := PutCell(Z, S, R, ps, k, t, i, D, y);
    var j := FirstHit(Z, ps, Q);
    RemovedBeforeIn(Plan(Z, S, ps), z, y);
    PlanIn(Z, S, R, ps, y);
    PhaseCell(Z, S, R, ps, j);
    if j == k {
      SameRowCol(Z, y, w);
    }
    ColumnInPrefix(Z, S, R, ps, j, z);
    UPlanHas(Z, S, ps[..j], z);
    UPlanMono(Z, S, ps, j, k, z);
  }

  /** Every relink of uncover is safe, and finds its cell not linked to itself. */
  lemma {:induction false} PutSafe(Z: seq<seq<int>>, S: set<int>, R: int, ps: seq<int>, k: int, t: int, i: int, D: set<int>, y: int, h0: Chain, v0: Chain)
    requires Covered(Z, S, R, ps, h0, v0) && PutAt(Z, S, ps, k, t, i, D, y)
    ensures Safe(v0, Present(Z, S), Plan(Z, S, ps), D, y) && v0.prev[y] != y
  {
    var w, Q := PutCell(Z, S, R, ps, k, t, i, D, y);
    var c := Col(Z, y);
    var W := PresentCol(Z, S, c);
    assert ColRings(Z)[c] == ColRing(Z, c);
    assert Ring(v0, W);
    PresentColIn(Z, S, c, y);
    RingNeighbours(v0, W, y);
    var a, b := v0.next[y], v0.prev[y];
    PresentColIn(Z, S, c, a);
    PresentColIn(Z, S, c, b);
    var xs := Plan(Z, S, ps);
    var j := FirstHit(Z, ps, Q);
    forall z | z == a || z == b
      ensures RemovedBefore(xs, z, y) ==> z in D
    {
      if RemovedBefore(xs, z, y) {
        if y !in xs {
          SafeKept(Z, S, R, ps, k, t, i, D, y, z);
        } else if j < k {
          SafeEarlier(Z, S, R, ps, k, t, i, D, y, z);
        } else {
          SafeSame(Z, S, R, ps, k, t, i, D, y, z);
        }
      }
    }
    HeadTail(Z, y);
    RowIdxOf(Z, y);
    PresentColIn(Z, S, c, Head(Z, y));
    RingPrevOther(v0, W, y, Head(Z, y));
  }

  /** A node of the walk of phase k is the header of that column or a cell of a live row other
      than R in it. */
  lemma {:induction false} UWalkNode(Z: seq<seq<int>>, S: set<int>, R: int, ps: seq<int>, k: int, t: int)
    requires Phased(Z, S, R, ps) && 0 <= k < |ps| && 1 <= ps[k] < Size(Z) && 0 <= t < |Walk(Z, S, ps[k])|
    ensures var w := Walk(Z, S, ps[k])[t];
      1 <= w < Size(Z) && Col(Z, w) == Col(Z, ps[k])
      && (w == Head(Z, ps[k]) || IsCell(Z, w))
      && (RowIdx(Z)[w] == -1 <==> w == Head(Z, ps[k]))
  {
    var p := ps[k];
    var c := Col(Z, p);
    var w := Walk(Z, S, p)[t];
    PhaseCell(Z, S, R, ps, k);
    WalkIn(Z, S, p, w);
    PresentColIn(Z, S, c, w);
    RowIdxOf(Z, w);
    if Pos(Z, w) == -1 {
      assert w == Node(Z, c, -1);
    } else {
      NodeBounds(Z, c, -1);
      PlacesAt(Z, c, -1);
    }
  }

  /** Read from the phase cell p, the column of p before cover is p followed by its walk. */
  lemma {:induction false} ColumnBefore(Z: seq<seq<int>>, S: set<int>, R: int, ps: seq<int>, v0: Chain, k: int, t: int)
    requires Phased(Z, S, R, ps) && 0 <= k < |ps| && 1 <= ps[k] < Size(Z)
    requires Valid(v0) && Ring(v0, PresentCol(Z, S, Col(Z, ps[k])))
    requires 0 <= t <= |Walk(Z, S, ps[k])|
    ensures var W := Walk(Z, S, ps[k]); var X := [ps[k]] + W;
      InRange(X, |v0.next|) && v0.next[X[t]] == (if t < |W| then W[t] else ps[k])
      && X[t] in PresentCol(Z, S, Col(Z, ps[k])) && v0.next[X[t]] in PresentCol(Z, S, Col(Z, ps[k]))
  {
    var p := ps[k];
    var W := Walk(Z, S, p);
    var X := [p] + W;
    var c := Col(Z, p);
    var Wc := PresentCol(Z, S, c);
    PhaseCell(Z, S, R, ps, k);
    WalkShape(Z, S, p);
    RingRotate(v0, Wc, IndexOf(Wc, p));
    assert Ring(v0, X);
    RingNextAt(v0, X, t);
    assert X[t] in X && v0.next[X[t]] in X;
    WalkIn(Z, S, p, X[t]);
    WalkIn(Z, S, p, v0.next[X[t]]);
  }

  /** Cover changes a link down from a node of the column of phase k only by detaching a cell
      of that column in an earlier phase. */
  lemma {:induction false} DownDetached(Z: seq<seq<int>>, S: set<int>, R: int, ps: seq<int>, h0: Chain, v0: Chain,
                                        k: int, x: int)
    requires Covered(Z, S, R, ps, h0, v0) && 0 <= k < |ps| && 1 <= ps[k] < Size(Z) && 0 <= x < |v0.next|
    requires x in PresentCol(Z, S, Col(Z, ps[k])) && v0.next[x] in PresentCol(Z, S, Col(Z, ps[k]))
    ensures x in Present(Z, S)
    ensures RemoveAll(v0, Plan(Z, S, ps)).next[x] == v0.next[x] || v0.next[x] in UPlan(Z, S, ps[..k])
  {
    var c := Col(Z, ps[k]);
    var xs := Plan(Z, S, ps);
    var n := v0.next[x];
    PhaseCell(Z, S, R, ps, k);
    PresentColIn(Z, S, c, x);
    PresentColIn(Z, S, c, n);
    PresentLinked(Z, S, h0, v0);
    PlanFresh(Z, S, R, ps);
    RemoveAllChanges(v0, Present(Z, S), xs);
    if RemoveAll(v0, xs).next[x] != n {
      RemovedBeforeIn(xs, n, x);
      ColumnInPrefix(Z, S, R, ps, k, n);
      UPlanHas(Z, S, ps[..k], n);
    }
  }

  /** A link down from a node of the column of phase k is back at its value before cover
      once uncover has reached phase k. */
  lemma {:induction false} DownRestored(Z: seq<seq<int>>, S: set<int>, R: int, ps: seq<int>, h0: Chain, v0: Chain,
                                        v: Chain, DV: set<int>, k: int, x: int)
    requires Covered(Z, S, R, ps, h0, v0) && VBack(Z, S, ps, v0, v, DV) && 0 <= k < |ps| && 1 <= ps[k] < Size(Z)
    requires Elems(UPlan(Z, S, ps[..k])) <= DV && 0 <= x < |v0.next| && 0 <= x < |v.next|
    requires x in PresentCol(Z, S, Col(Z, ps[k])) && v0.next[x] in PresentCol(Z, S, Col(Z, ps[k]))
    ensures v.next[x] == v0.next[x]
  {
    var e := RemoveAll(v0, Plan(Z, S, ps));
    DownDetached(Z, S, R, ps, h0, v0, k, x);
    if e.next[x] != v0.next[x] {
      assert v0.next[x] in Elems(UPlan(Z, S, ps[..k]));
    }
    PresentLinked(Z, S, h0, v0);
    RestoredNext(v0, Present(Z, S), e, v, DV, x);
  }

  /** When uncover reaches phase k, the column of that phase is whole again: walking down from
      ps[k] meets the walk of ps[k]. */
  lemma {:induction false} WalkRestored(Z: seq<seq<int>>, S: set<int>, R: int, ps: seq<int>, h0: Chain, v0: Chain,
                                        v: Chain, DV: set<int>, k: int, t: int)
    requires Covered(Z, S, R, ps, h0, v0) && VBack(Z, S, ps, v0, v, DV) && 0 <= k < |ps|
    requires Elems(UPlan(Z, S, ps[..k])) <= DV && 1 <= ps[k] < Size(Z) && 0 <= t <= |Walk(Z, S, ps[k])|
    ensures var W := Walk(Z, S, ps[k]); var X := [ps[k]] + W;
      InRange(X, |v.next|) && v.next[X[t]] == if t < |W| then W[t] else ps[k]
  {
    PhaseCell(Z, S, R, ps, k);
    ActiveRing(Z, S, h0, v0, Col(Z, ps[k]));
    ColumnBefore(Z, S, R, ps, v0, k, t);
    DownRestored(Z, S, R, ps, h0, v0, v, DV, k, ([ps[k]] + Walk(Z, S, ps[k]))[t]);
  }

  /** A safe relink of a cell that was not its own predecessor before cover. */
  lemma {:induction false} SafeRelink(Z: seq<seq<int>>, S: set<int>, R: int, ps: seq<int>, h0: Chain, v0: Chain,
                                      v: Chain, DV: set<int>, y: int)
    requires Covered(Z, S, R, ps, h0, v0) && VBack(Z, S, ps, v0, v, DV)
    requires Safe(v0, Present(Z, S), Plan(Z, S, ps), DV, y) && v0.prev[y] != y
    ensures 0 <= y < |v.next| && v.prev[y] != y
    ensures VBack(Z, S, ps, v0, Relink(v, y), DV + {y})
  {
    PresentLinked(Z, S, h0, v0);
    PlanFresh(Z, S, R, ps);
    PutStep(v0, Present(Z, S), Plan(Z, S, ps), RemoveAll(v0, Plan(Z, S, ps)), v, DV, y);
  }

  /** One relink of uncover: it finds its cell not linked to itself, and it is safe. */
  lemma {:induction false} RowPut(Z: seq<seq<int>>, S: set<int>, R: int, ps: seq<int>, h0: Chain, v0: Chain,
                                  v: Chain, DV: set<int>, k: int, t: int, i: int, y: int)
    requires Covered(Z, S, R, ps, h0, v0) && VBack(Z, S, ps, v0, v, DV) && PutAt(Z, S, ps, k, t, i, DV, y)
    ensures 0 <= y < |v.next| && v.prev[y] != y
    ensures VBack(Z, S, ps, v0, Relink(v, y), DV + {y})
  {
    PutSafe(Z, S, R, ps, k, t, i, DV, y, h0, v0);
    SafeRelink(Z, S, R, ps, h0, v0, v, DV, y);
  }

  /** The cells of a tail are nodes. */
  lemma TailRange(Z: seq<seq<int>>, w: int)
    requires WellFormed(Z) && 0 <= w < Size(Z)
    ensures InRange(Tail(Z, w), Size(Z))
  {
    forall i | 0 <= i < |Tail(Z, w)|
      ensures 0 <= Tail(Z, w)[i] < Size(Z)
    {
      TailIn(Z, w, Tail(Z, w)[i]);
    }
  }

  /** The relink of the n-th cell of the rest T of the row of the t-th walk node of phase k. */
  lemma {:induction false} RowPutsStep(Z: seq<seq<int>>, S: set<int>, R: int, ps: seq<int>, h0: Chain, v0: Chain,
                                       v: Chain, DV: set<int>, k: int, t: int, T: seq<int>, n: int)
    requires Covered(Z, S, R, ps, h0, v0) && 0 <= k < |ps|
    requires 1 <= ps[k] < Size(Z) && 0 <= t < |Walk(Z, S, ps[k])| && T == Tail(Z, Walk(Z, S, ps[k])[t])
    requires Elems(UPlan(Z, S, ps[..k])) + Elems(Tails(Z, Walk(Z, S, ps[k])[..t])) <= DV
    requires Valid(v) && InRange(T, |v.next|) && 0 <= n < |T|
    requires InRange(T[..n], |v.next|) && VBack(Z, S, ps, v0, PutAll(v, T[..n]), DV + Elems(T[..n]))
    requires FreshPuts(v, T, n)
    ensures InRange(T[..n + 1], |v.next|) && VBack(Z, S, ps, v0, PutAll(v, T[..n + 1]), DV + Elems(T[..n + 1]))
    ensures FreshPuts(v, T, n + 1)
  {
    var s, D := PutAll(v, T[..n]), DV + Elems(T[..n]);
    assert PutAt(Z, S, ps, k, t, n, D, T[n]);
    RowPut(Z, S, R, ps, h0, v0, s, D, k, t, n, T[n]);
    PutAllStep(v, T, n);
    ElemsStep(DV, T, n);
    forall i | 0 <= i < n + 1
      ensures InRange(T[..i], |v.next|) && PutAll(v, T[..i]).prev[T[i]] != T[i]
    {
      InRangePrefix(T, |v.next|, i);
    }
  }

  /** The relinks of the rest T of the row of the t-th walk node of phase k, in order: each
      finds its cell not linked to itself, and each is safe. */
  lemma RowPuts(Z: seq<seq<int>>, S: set<int>, R: int, ps: seq<int>, h0: Chain, v0: Chain,
                v: Chain, DV: set<int>, k: int, t: int, T: seq<int>)
    requires Covered(Z, S, R, ps, h0, v0) && VBack(Z, S, ps, v0, v, DV) && 0 <= k < |ps|
    requires 1 <= ps[k] < Size(Z) && 0 <= t < |Walk(Z, S, ps[k])| && T == Tail(Z, Walk(Z, S, ps[k])[t])
    requires Elems(UPlan(Z, S, ps[..k])) + Elems(Tails(Z, Walk(Z, S, ps[k])[..t])) <= DV
    ensures InRange(T, |v.next|) && FreshPuts(v, T, |T|)
    ensures VBack(Z, S, ps, v0, PutAll(v, T), DV + Elems(T))
  {
    UWalkNode(Z, S, R, ps, k, t);
    TailRange(Z, Walk(Z, S, ps[k])[t]);
    EmptyPrefix(T, DV);
    var n := 0;
    while n < |T|
      invariant 0 <= n <= |T| && InRange(T[..n], |v.next|)
      invariant VBack(Z, S, ps, v0, PutAll(v, T[..n]), DV + Elems(T[..n]))
      invariant FreshPuts(v, T, n)
    {
      RowPutsStep(Z, S, R, ps, h0, v0, v, DV, k, t, T, n);
      n := n + 1;
    }
    TakeAll(T, n);
  }

  /** The walk of phase k meets the header of its column and not ps[k]; once it is done, the
      headers and the cells of the phases up to k are back. */
  lemma {:induction false} PhaseRelinked(Z: seq<seq<int>>, S: set<int>, R: int, ps: seq<int>, k: int)
    requires Phased(Z, S, R, ps) && 0 <= k < |ps|
    ensures 1 <= ps[k] < Size(Z) && Head(Z, ps[k]) in Walk(Z, S, ps[k]) && ps[k] !in Walk(Z, S, ps[k])
    ensures UBlock(Z, S, ps[k]) == Tails(Z, Walk(Z, S, ps[k]))
    ensures Elems(Heads(Z, ps[..k + 1])) == Elems(Heads(Z, ps[..k])) + {Head(Z, ps[k])}
    ensures Elems(UPlan(Z, S, ps[..k + 1])) == Elems(UPlan(Z, S, ps[..k])) + Elems(UBlock(Z, S, ps[k]))
  {
    var p := ps[k];
    PhaseCell(Z, S, R, ps, k);
    WalkIn(Z, S, p, p);
    WalkIn(Z, S, p, Head(Z, p));
    UPlanStep(Z, S, ps, k);
    HeadStep(Z, S, R, ps, k);
    assert Elems(UPlan(Z, S, ps[..k]) + UBlock(Z, S, p)) == Elems(UPlan(Z, S, ps[..k])) + Elems(UBlock(Z, S, p));
    assert Elems(Heads(Z, ps[..k]) + [Head(Z, p)]) == Elems(Heads(Z, ps[..k])) + {Head(Z, p)};
  }

  /** Before the walk of phase k, it has relinked nothing. */
  lemma WalkStart(Z: seq<seq<int>>, S: set<int>, ps: seq<int>, k: int, DH: set<int>, DV: set<int>)
    requires 0 <= k < |ps| && 1 <= ps[k] < Size(Z)
    ensures WalkHeads(Z, S, ps, k, 0, DH) == DH && WalkCells(Z, S, ps, k, 0, DV) == DV
  {
    assert Walk(Z, S, ps[k])[..0] == [];
  }

  /** After the whole walk of phase k, it has relinked the header and UBlock(ps[k]). */
  lemma WalkEnd(Z: seq<seq<int>>, S: set<int>, ps: seq<int>, k: int, t: int, DH: set<int>, DV: set<int>)
    requires 0 <= k < |ps| && 1 <= ps[k] < Size(Z) && t == |Walk(Z, S, ps[k])|
    requires Head(Z, ps[k]) in Walk(Z, S, ps[k])
    ensures WalkHeads(Z, S, ps, k, t, DH) == DH + {Head(Z, ps[k])}
    ensures WalkCells(Z, S, ps, k, t, DV) == DV + Elems(UBlock(Z, S, ps[k]))
  {
    assert Walk(Z, S, ps[k])[..t] == Walk(Z, S, ps[k]);
  }

  lemma {:induction false} HeadsFresh(Z: seq<seq<int>>, S: set<int>, R: int, ps: seq<int>)
    requires Phased(Z, S, R, ps)
    ensures FreshFrom(Elems(PresentRoot(Z, S)), Heads(Z, ps))
  {
    var H := Heads(Z, ps);
    forall a, b | 0 <= a < b < |H|
      ensures H[a] != H[b]
    {
      PhaseCols(Z, S, R, ps, a, b);
      HeadTail(Z, ps[a]);
      HeadTail(Z, ps[b]);
      NodeBounds(Z, Col(Z, ps[a]), -1);
      PlacesAt(Z, Col(Z, ps[a]), -1);
      PlacesAt(Z, Col(Z, ps[b]), -1);
      PlaceOf(Z, H[a]);
    }
    forall m | 0 <= m < |H|
      ensures H[m] in Elems(PresentRoot(Z, S))
    {
      PhaseCell(Z, S, R, ps, m);
      HeadTail(Z, ps[m]);
      NodeBounds(Z, Col(Z, ps[m]), -1);
      PlacesAt(Z, Col(Z, ps[m]), -1);
      PlaceOf(Z, H[m]);
      RootIn(Z, S, H[m]);
    }
    DistinctFresh(Elems(PresentRoot(Z, S)), H);
  }

  /** The header put of phase k is safe: the headers relinked before it are those of the earlier
      phases, and it finds the header not linked to itself. */
  lemma {:induction false} HeadPut(Z: seq<seq<int>>, S: set<int>, R: int, ps: seq<int>, h0: Chain, v0: Chain,
                                   h: Chain, DH: set<int>, k: int)
    requires Covered(Z, S, R, ps, h0, v0) && HBack(Z, S, ps, h0, h, DH) && 0 <= k < |ps|
    requires Elems(Heads(Z, ps[..k])) <= DH
    ensures 0 <= Head(Z, ps[k]) < |h.next| && h.prev[Head(Z, ps[k])] != Head(Z, ps[k])
    ensures HBack(Z, S, ps, h0, Relink(h, Head(Z, ps[k])), DH + {Head(Z, ps[k])})
  {
    var hd := Head(Z, ps[k]);
    var Ph := Elems(PresentRoot(Z, S));
    var xs := Heads(Z, ps);
    RingLinked(h0, PresentRoot(Z, S));
    HeadsFresh(Z, S, R, ps);
    RemainingSub(Ph, xs);
    assert xs[k] == hd && xs[..k] == Heads(Z, ps[..k]);
    forall z | RemovedBefore(xs, z, hd)
      ensures z in DH
    {
      RemovedBeforePrefix(Ph, xs, k, z);
    }
    PutStep(h0, Ph, xs, RemoveAll(h0, xs), h, DH, hd);
    HeadStep(Z, S, R, ps, k);
    RootIn(Z, S, hd);
    RootIn(Z, S, 0);
    RingPrevOther(h0, PresentRoot(Z, S), hd, 0);
  }

  /** uncover never changes the links of the row rings. */
  lemma {:induction false} RowsKept(Z: seq<seq<int>>, S: set<int>, R: int, ps: seq<int>, h0: Chain, v0: Chain,
                                    h: Chain, DH: set<int>)
    requires Covered(Z, S, R, ps, h0, v0) && HBack(Z, S, ps, h0, h, DH)
    ensures Rows(Z, h)
  {
    var Ph := Elems(PresentRoot(Z, S));
    var xs := Heads(Z, ps);
    var e := RemoveAll(h0, xs);
    RingLinked(h0, PresentRoot(Z, S));
    HeadsFresh(Z, S, R, ps);
    RemoveAllOutside(h0, Ph, xs);
    forall i | RowRing(Z, i) != []
      ensures Ring(h, RowRing(Z, i))
    {
      var RR := RowRing(Z, i);
      forall m | 0 <= m < |RR|
        ensures h.next[RR[m]] == h0.next[RR[m]] && h.prev[RR[m]] == h0.prev[RR[m]]
      {
        RowRingIn(Z, i, RR[m]);
        RootIn(Z, S, RR[m]);
        assert RR[m] !in Ph;
      }
      RingFrame(h0, h, RR);
    }
  }

  /** Under uncover, right of the cell before phase k comes the cell of phase k, as before
      cover: the rows are whole all along. */
  lemma {:induction false} PhaseNext(Z: seq<seq<int>>, S: set<int>, R: int, r: int, h0: Chain, v0: Chain,
                                     h: Chain, DH: set<int>, k: int)
    requires r in RowRing(Z, R) && Covered(Z, S, R, Phases(Z, R, r), h0, v0)
    requires HBack(Z, S, Phases(Z, R, r), h0, h, DH) && 0 <= k < |Phases(Z, R, r)|
    ensures InRange([r] + Phases(Z, R, r), |h.next|)
    ensures h.next[([r] + Phases(Z, R, r))[k]] == Phases(Z, R, r)[k]
  {
    RowsKept(Z, S, R, Phases(Z, R, r), h0, v0, h, DH);
    PhaseLink(Z, R, r, h, k);
  }

  /** uncover starts from the links cover left, with nothing relinked yet. */
  lemma UncoverStart(Z: seq<seq<int>>, S: set<int>, R: int, ps: seq<int>, h0: Chain, v0: Chain)
    requires Covered(Z, S, R, ps, h0, v0)
    ensures HBack(Z, S, ps, h0, RemoveAll(h0, Heads(Z, ps)), {})
    ensures VBack(Z, S, ps, v0, RemoveAll(v0, Plan(Z, S, ps)), {})
  {
  }

  /** What uncover starts from: the links cover left from the search state (h0, v0), before any
      phase; the first phase is the cell right of r. */
  lemma {:induction false} UncoverBegin(Z: seq<seq<int>>, S: set<int>, R: int, r: int, h0: Chain, v0: Chain,
                                        h: Chain, v: Chain)
    requires CoverLeft(Z, S, R, r, h0, v0, h, v)
    ensures Covered(Z, S, R, Phases(Z, R, r), h0, v0)
    ensures |Phases(Z, R, r)| >= 1 && Phases(Z, R, r)[|Phases(Z, R, r)| - 1] == r
    ensures HBack(Z, S, Phases(Z, R, r), h0, h, Elems(Heads(Z, Phases(Z, R, r)[..0])))
    ensures VBack(Z, S, Phases(Z, R, r), v0, v, Elems(UPlan(Z, S, Phases(Z, R, r)[..0])))
    ensures 0 <= r < |h.next| && h.next[r] == Phases(Z, R, r)[0]
  {
    var ps := Phases(Z, R, r);
    assert ps[..0] == [] && Heads(Z, []) == [] && UPlan(Z, S, []) == [] && Elems([]) == {};
    PhasesOf(Z, S, R, r, r);
    assert ps[|ps| - 1] == r;
    UncoverStart(Z, S, R, ps, h0, v0);
    PhaseNext(Z, S, R, r, h0, v0, h, {}, 0);
    assert ([r] + ps)[0] == r;
  }

  /** Once the headers of all phases and UPlan of all phases are relinked, every link is back. */
  lemma {:induction false} UncoverDone(Z: seq<seq<int>>, S: set<int>, R: int, ps: seq<int>, h0: Chain, v0: Chain,
                                       h: Chain, v: Chain, DH: set<int>, DV: set<int>)
    requires Covered(Z, S, R, ps, h0, v0) && HBack(Z, S, ps, h0, h, DH) && VBack(Z, S, ps, v0, v, DV)
    requires Elems(Heads(Z, ps)) <= DH && Elems(UPlan(Z, S, ps)) <= DV
    ensures h == h0 && v == v0
  {
    var xs := Plan(Z, S, ps);
    RingLinked(h0, PresentRoot(Z, S));
    HeadsFresh(Z, S, R, ps);
    Restored(h0, Elems(PresentRoot(Z, S)), Heads(Z, ps), RemoveAll(h0, Heads(Z, ps)), h, DH);
    PresentLinked(Z, S, h0, v0);
    PlanFresh(Z, S, R, ps);
    forall i | 0 <= i < |xs|
      ensures xs[i] in DV
    {
      UPlanHas(Z, S, ps, xs[i]);
    }
    Restored(v0, Present(Z, S), xs, RemoveAll(v0, xs), v, DV);
  }
}
