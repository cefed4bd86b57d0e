/** The links in the middle of cover: what the walk of each phase meets, why every unlink of
    cover is one of a present node, and that the structure cover leaves behind is the search
    state with the covered row added. */
module CoverSteps {
  import opened Links
  import opened NodeLayout
  import opened SearchState
  import opened CoverPlan

  /** The nodes missing from the column rings when phase k starts. */
  ghost function Detached(Z: seq<seq<int>>, S: set<int>, ps: seq<int>, k: int): set<int>
    requires 0 <= k <= |ps|
  {
    Gone(Z, S) + Elems(Plan(Z, S, ps[..k]))
  }

  /** The headers missing from the root ring when phase k starts. */
  ghost function Hidden(Z: seq<seq<int>>, S: set<int>, ps: seq<int>, k: int): set<int>
    requires 0 <= k <= |ps|
  {
    InactiveHeads(Z, S) + Elems(Heads(Z, ps[..k]))
  }

  /** What the walk of phase k meets: the nodes of the column of ps[k] below it, round to the one
      above it, that are still linked. */
  ghost function ColumnWalk(Z: seq<seq<int>>, S: set<int>, ps: seq<int>, k: int): seq<int>
    requires 0 <= k < |ps| && 1 <= ps[k] < Size(Z)
  {
    Without(Walk(Z, S, ps[k]), Elems(Plan(Z, S, ps[..k])))
  }

  /** The links between the phases of cover. */
  ghost predicate CoverInv(Z: seq<seq<int>>, S: set<int>, ps: seq<int>, k: int, h: Chain, v: Chain)
    requires 0 <= k <= |ps|
  {
    WellFormed(Z) && Valid(h) && Valid(v) && |h.next| == Size(Z) && |v.next| == Size(Z)
    && Ring(h, Without(RootRing(Z), Hidden(Z, S, ps, k)))
    && Rings(v, ColRings(Z), ActiveSet(Z, S), Detached(Z, S, ps, k))
    && Rows(Z, h)
  }

  /** A cell of a phase: a cell of the covered row, in an active column, never detached. */
  lemma {:induction false} PhaseCell(Z: seq<seq<int>>, S: set<int>, R: int, ps: seq<int>, k: int)
    requires Phased(Z, S, R, ps) && 0 <= k < |ps|
    ensures IsCell(Z, ps[k]) && RowIdx(Z)[ps[k]] == R && Active(Z, S, Col(Z, ps[k]))
    ensures ps[k] !in Gone(Z, S) && ps[k] !in Plan(Z, S, ps)
  {
    var p := ps[k];
    RowRingIn(Z, R, p);
    RowIdxOf(Z, p);
    PlanIn(Z, S, R, ps, p);
  }

  /** The walk of phase k is a ring with ps[k], as long as only nodes of other columns have been
      detached since the phase started. */
  lemma {:induction false} PhaseRing(Z: seq<seq<int>>, S: set<int>, R: int, ps: seq<int>, k: int, v: Chain, E: set<int>)
    requires Phased(Z, S, R, ps) && 0 <= k < |ps| && Valid(v)
    requires Rings(v, ColRings(Z), ActiveSet(Z, S), Detached(Z, S, ps, k) + E)
    requires IsCell(Z, ps[k]) && forall y :: y in E ==> y !in ColRing(Z, Col(Z, ps[k]))
    ensures Ring(v, [ps[k]] + ColumnWalk(Z, S, ps, k)) && Distinct([ps[k]] + ColumnWalk(Z, S, ps, k))
  {
    var p := ps[k];
    PhaseCell(Z, S, R, ps, k);
    PhasedPrefix(Z, S, R, ps, k);
    PlanPrefix(Z, S, ps, k);
    var c := Col(Z, p);
    var P := Elems(Plan(Z, S, ps[..k]));
    var G := Gone(Z, S);
    assert c in ActiveSet(Z, S);
    assert ColRings(Z)[c] == ColRing(Z, c);
    WithoutSame(ColRing(Z, c), G + P + E, G + P);
    WithoutWithout(ColRing(Z, c), G, P);
    var W := PresentCol(Z, S, c);
    assert Ring(v, Without(W, P));
    PresentColIn(Z, S, c, p);
    var q := IndexOf(W, p);
    var a := WithoutRotate(W, P, q);
    RingRotate(v, Without(W, P), a);
    DistinctRotate(Without(W, P), a);
  }

  /** What the walk of phase k meets is the header of the column or a cell of a live row other
      than the covered one; the rest of that row has not been detached yet and lies in active
      columns. */
  lemma {:induction false} WalkNode(Z: seq<seq<int>>, S: set<int>, R: int, ps: seq<int>, k: int, t: int)
    requires Phased(Z, S, R, ps) && 0 <= k < |ps| && IsCell(Z, ps[k])
    requires 0 <= t < |ColumnWalk(Z, S, ps, k)|
    ensures var w := ColumnWalk(Z, S, ps, k)[t];
      1 <= w < Size(Z) && Col(Z, w) == Col(Z, ps[k])
      && (w == Head(Z, ps[k]) || (IsCell(Z, w) && Alive(Z, S, RowIdx(Z)[w]) && RowIdx(Z)[w] != R))
      && (RowIdx(Z)[w] == -1 <==> w == Head(Z, ps[k]))
  {
    var p := ps[k];
    var c := Col(Z, p);
    var CW := ColumnWalk(Z, S, ps, k);
    var w := CW[t];
    PhaseCell(Z, S, R, ps, k);
    WithoutIn(Walk(Z, S, p), Elems(Plan(Z, S, ps[..k])));
    WalkIn(Z, S, p, w);
    PresentColIn(Z, S, c, w);
    RowIdxOf(Z, w);
    if Pos(Z, w) == -1 {
      assert w == Node(Z, c, -1);
    } else {
      NotGone(Z, S, w);
      RowRingIn(Z, R, p);
      if RowIdx(Z)[w] == R {
        SameRowCol(Z, w, p);
      }
      NodeBounds(Z, c, -1);
      PlacesAt(Z, c, -1);
    }
  }

  /** The walk of phase k lies in the column of ps[k] and meets its header. */
  lemma {:induction false} WalkColumn(Z: seq<seq<int>>, S: set<int>, R: int, ps: seq<int>, k: int)
    requires Phased(Z, S, R, ps) && 0 <= k < |ps| && IsCell(Z, ps[k])
    ensures var CW := ColumnWalk(Z, S, ps, k);
      Distinct(CW) && (forall t :: 0 <= t < |CW| ==> CW[t] in ColRing(Z, Col(Z, ps[k])))
      && Head(Z, ps[k]) in CW && ps[k] !in CW
  {
    var p := ps[k];
    PhaseCell(Z, S, R, ps, k);
    WalkIn(Z, S, p, Head(Z, p));
    WalkIn(Z, S, p, p);
    var P := Elems(Plan(Z, S, ps[..k]));
    WithoutIn(Walk(Z, S, p), P);
    WithoutDistinct(Walk(Z, S, p), P);
    var CW := ColumnWalk(Z, S, ps, k);
    forall t | 0 <= t < |CW|
      ensures CW[t] in ColRing(Z, Col(Z, p))
    {
      WalkIn(Z, S, p, CW[t]);
      PresentColIn(Z, S, Col(Z, p), CW[t]);
      ColRingIn(Z, Col(Z, p), CW[t]);
    }
    PhasedPrefix(Z, S, R, ps, k);
    var hd := Node(Z, Col(Z, p), -1);
    assert Head(Z, p) == hd;
    NodeBounds(Z, Col(Z, p), -1);
    PlacesAt(Z, Col(Z, p), -1);
    assert !IsCell(Z, hd);
    PlanIn(Z, S, R, ps[..k], hd);
    assert hd !in P;
  }

  /** What the walk of phase k detaches is the block of the phase. */
  lemma {:induction false} WalkBlock(Z: seq<seq<int>>, S: set<int>, ps: seq<int>, k: int)
    requires 0 <= k < |ps| && 1 <= ps[k] < Size(Z)
    ensures Block(Z, S, ps[..k + 1]) == Tails(Z, ColumnWalk(Z, S, ps, k))
    ensures Plan(Z, S, ps[..k + 1]) == Plan(Z, S, ps[..k]) + Tails(Z, ColumnWalk(Z, S, ps, k))
  {
    var qs := ps[..k + 1];
    assert |qs| - 1 == k && qs[k] == ps[k] && qs[..k] == ps[..k];
  }

  /** A node of the rest of the row of the t-th node of the walk of phase k has not been
      detached by the phases before k nor earlier in phase k. */
  lemma {:induction false} TailNotDetached(Z: seq<seq<int>>, S: set<int>, R: int, ps: seq<int>, k: int, t: int, y: int)
    requires Phased(Z, S, R, ps) && 0 <= k < |ps| && 1 <= ps[k] < Size(Z)
    requires 0 <= t < |ColumnWalk(Z, S, ps, k)| && y in Tail(Z, ColumnWalk(Z, S, ps, k)[t])
    ensures y !in Plan(Z, S, ps[..k]) && y !in Tails(Z, ColumnWalk(Z, S, ps, k)[..t])
  {
    var CW := ColumnWalk(Z, S, ps, k);
    WalkBlock(Z, S, ps, k);
    PhasedPrefix(Z, S, R, ps, k + 1);
    PlanFresh(Z, S, R, ps[..k + 1]);
    TailsSplit(Z, CW, t);
    DistinctPart(Plan(Z, S, ps[..k + 1]), Plan(Z, S, ps[..k]), Tails(Z, CW[..t]), Tail(Z, CW[t]), Tails(Z, CW[t + 1..]), y);
  }

  /** A node of the rest of the row of the t-th node of the walk of phase k is a present cell of
      an active column other than the column of the phase. */
  lemma {:induction false} TailPresent(Z: seq<seq<int>>, S: set<int>, R: int, ps: seq<int>, k: int, t: int, y: int)
    requires Phased(Z, S, R, ps) && 0 <= k < |ps| && IsCell(Z, ps[k])
    requires 0 <= t < |ColumnWalk(Z, S, ps, k)| && y in Tail(Z, ColumnWalk(Z, S, ps, k)[t])
    ensures 1 <= y < Size(Z) && Pos(Z, y) >= 0 && Col(Z, y) in ActiveSet(Z, S) && y !in Gone(Z, S)
    ensures y !in ColRing(Z, Col(Z, ps[k]))
  {
    var CW := ColumnWalk(Z, S, ps, k);
    var w := CW[t];
    WalkColumn(Z, S, R, ps, k);
    WalkNode(Z, S, R, ps, k, t);
    TailIn(Z, w, y);
    RowIdxOf(Z, y);
    assert Active(Z, S, Col(Z, y));
    TailsDistinct(Z, CW, Col(Z, ps[k]));
    TailsHas(Z, CW, t, y);
  }

  /** The rest of the row of the t-th node of the walk of phase k: distinct, not detached so far,
      present cells of active columns other than that of the phase. */
  lemma {:induction false} TailFresh(Z: seq<seq<int>>, S: set<int>, R: int, ps: seq<int>, k: int, t: int)
    requires Phased(Z, S, R, ps) && 0 <= k < |ps| && IsCell(Z, ps[k])
    requires 0 <= t < |ColumnWalk(Z, S, ps, k)|
    ensures var CW := ColumnWalk(Z, S, ps, k); var w := CW[t];
      Distinct(Tail(Z, w))
      && forall y :: y in Tail(Z, w) ==>
        1 <= y < Size(Z) && Pos(Z, y) >= 0 && Col(Z, y) in ActiveSet(Z, S)
        && y !in Detached(Z, S, ps, k) + Elems(Tails(Z, CW[..t])) && y !in ColRing(Z, Col(Z, ps[k]))
  {
    var CW := ColumnWalk(Z, S, ps, k);
    WalkNode(Z, S, R, ps, k, t);
    TailIn(Z, CW[t], CW[t]);
    forall y | y in Tail(Z, CW[t])
      ensures 1 <= y < Size(Z) && Pos(Z, y) >= 0 && Col(Z, y) in ActiveSet(Z, S)
      ensures y !in Detached(Z, S, ps, k) + Elems(Tails(Z, CW[..t])) && y !in ColRing(Z, Col(Z, ps[k]))
    {
      TailNotDetached(Z, S, R, ps, k, t, y);
      TailPresent(Z, S, R, ps, k, t, y);
    }
  }

  /** The header of phase k is still in the root ring, and after phase k it is hidden too. */
  lemma {:induction false} HeadStep(Z: seq<seq<int>>, S: set<int>, R: int, ps: seq<int>, k: int)
    requires Phased(Z, S, R, ps) && 0 <= k < |ps|
    ensures Head(Z, ps[k]) in RootRing(Z) && Head(Z, ps[k]) != 0
    ensures Head(Z, ps[k]) !in Hidden(Z, S, ps, k)
    ensures Hidden(Z, S, ps, k + 1) == Hidden(Z, S, ps, k) + {Head(Z, ps[k])}
    ensures Heads(Z, ps[..k + 1]) == Heads(Z, ps[..k]) + [Head(Z, ps[k])]
  {
    var p := ps[k];
    PhaseCell(Z, S, R, ps, k);
    var c := Col(Z, p);
    NodeBounds(Z, c, -1);
    PlacesAt(Z, c, -1);
    RootRingIn(Z, Head(Z, p));
    if Head(Z, p) in InactiveHeads(Z, S) {
      var j :| 0 <= j < |Z| && !Active(Z, S, j) && Head(Z, p) == Node(Z, j, -1);
      NodeInjective(Z, j, -1, c, -1);
    }
    forall m | 0 <= m < k
      ensures Heads(Z, ps[..k])[m] != Head(Z, p)
    {
      PhaseCols(Z, S, R, ps, m, k);
      NodeBounds(Z, Col(Z, ps[m]), -1);
      if Node(Z, Col(Z, ps[m]), -1) == Node(Z, c, -1) {
        NodeInjective(Z, Col(Z, ps[m]), -1, c, -1);
      }
    }
    HeadsStep(Z, ps, k);
  }

  /** Unlinking a node of a ring of root and headers leaves every row ring whole. */
  lemma {:induction false} RowsUnlink(Z: seq<seq<int>>, h: Chain, X: seq<int>, x: int)
    requires WellFormed(Z) && Valid(h) && Rows(Z, h) && Ring(h, X) && x in X && 0 <= x < |h.next|
    requires forall y :: y in X ==> y in RootRing(Z)
    ensures Rows(Z, Unlink(h, x))
  {
    RingNeighbours(h, X, x);
    forall i | RowRing(Z, i) != []
      ensures Ring(Unlink(h, x), RowRing(Z, i))
    {
      forall k | 0 <= k < |RowRing(Z, i)|
        ensures RowRing(Z, i)[k] != h.prev[x] && RowRing(Z, i)[k] != h.next[x]
      {
        RootAndRows(Z, h.prev[x], i, RowRing(Z, i)[k]);
        RootAndRows(Z, h.next[x], i, RowRing(Z, i)[k]);
      }
      RingFrame(h, Unlink(h, x), RowRing(Z, i));
    }
  }

  /** A search state is the link state of cover before its first phase. */
  lemma {:induction false} CoverStart(Z: seq<seq<int>>, S: set<int>, ps: seq<int>, h: Chain, v: Chain)
    requires Inv(Z, S, h, v)
    ensures CoverInv(Z, S, ps, 0, h, v)
  {
    assert ps[..0] == [];
    assert Hidden(Z, S, ps, 0) == InactiveHeads(Z, S);
    assert Detached(Z, S, ps, 0) == Gone(Z, S);
  }

  /** The phases of cover from the cell r of the live row R are the cells of R, each once. */
  lemma {:induction false} PhasesOf(Z: seq<seq<int>>, S: set<int>, R: int, r: int, y: int)
    requires WellFormed(Z) && Alive(Z, S, R) && r in RowRing(Z, R)
    ensures Phased(Z, S, R, Phases(Z, R, r))
    ensures y in Phases(Z, R, r) <==> y in RowRing(Z, R)
  {
    var T := RowTail(Z, R, r);
    RowTailIn(Z, R, r, y);
    RowTailIn(Z, R, r, r);
    forall m | 0 <= m < |T|
      ensures T[m] in RowRing(Z, R)
    {
      RowTailIn(Z, R, r, T[m]);
    }
    DistinctConcat(T, [r]);
  }

  /** Every column of the covered row is the column of one of the phases. */
  lemma {:induction false} PhaseOfColumn(Z: seq<seq<int>>, S: set<int>, R: int, r: int, j: int) returns (m: int)
    requires WellFormed(Z) && Alive(Z, S, R) && r in RowRing(Z, R) && 0 <= j < |Z| && R in Z[j]
    ensures 0 <= m < |Phases(Z, R, r)| && IsCell(Z, Phases(Z, R, r)[m])
    ensures Col(Z, Phases(Z, R, r)[m]) == j
  {
    var t := IndexOf(Z[j], R);
    var y := Node(Z, j, t);
    NodeBounds(Z, j, t);
    PlacesAt(Z, j, t);
    RowIdxAt(Z, j, t);
    RowRingIn(Z, R, y);
    PhasesOf(Z, S, R, r, y);
    m := IndexOf(Phases(Z, R, r), y);
  }

  lemma {:induction false} HitBound(Z: seq<seq<int>>, ps: seq<int>, Q: int, m: int)
    requires 0 <= m < |ps| && HitAt(Z, ps[m], Q)
    ensures FirstHit(Z, ps, Q) <= m
  {
    FirstHitIs(Z, ps, Q);
  }

  /** A phase cell lies in a column of the covered row. */
  lemma {:induction false} PhaseColumn(Z: seq<seq<int>>, S: set<int>, R: int, ps: seq<int>, m: int)
    requires Phased(Z, S, R, ps) && 0 <= m < |ps|
    ensures IsCell(Z, ps[m]) && R in Z[Col(Z, ps[m])]
  {
    RowRingIn(Z, R, ps[m]);
    RowIdxOf(Z, ps[m]);
  }

  /** After cover, a cell of a column still active is detached exactly when its row has been
      ruled out by adding R to the chosen rows. */
  lemma {:induction false} ColumnAfter(Z: seq<seq<int>>, S: set<int>, R: int, r: int, y: int)
    requires WellFormed(Z) && Alive(Z, S, R) && r in RowRing(Z, R)
    requires IsCell(Z, y) && Active(Z, S + {R}, Col(Z, y))
    ensures y in Gone(Z, S) + Elems(Plan(Z, S, Phases(Z, R, r))) <==> y in Gone(Z, S + {R})
  {
    var ps := Phases(Z, R, r);
    PhasesOf(Z, S, R, r, y);
    var Q := RowIdx(Z)[y];
    var j := Col(Z, y);
    RowIdxOf(Z, y);
    assert Q in Z[j] && R !in Z[j];
    PlanIn(Z, S, R, ps, y);
    if !Alive(Z, S + {R}, Q) && Alive(Z, S, Q) {
      var j' :| 0 <= j' < |Z| && Q in Z[j'] && !Active(Z, S + {R}, j');
      assert R in Z[j'];
      var m := PhaseOfColumn(Z, S, R, r, j');
      HitBound(Z, ps, Q, m);
      var f := FirstHit(Z, ps, Q);
      PhaseColumn(Z, S, R, ps, f);
      assert Removed(Z, S, R, ps, y);
    }
    if y in Plan(Z, S, ps) {
      var f := FirstHit(Z, ps, Q);
      FirstHitIs(Z, ps, Q);
      PhaseColumn(Z, S, R, ps, f);
      assert !Active(Z, S + {R}, Col(Z, ps[f]));
    }
  }

  /** After cover, a node of the root ring is hidden exactly when it is the header of a column
      no longer active once R is chosen. */
  lemma {:induction false} RootAfter(Z: seq<seq<int>>, S: set<int>, R: int, r: int, y: int)
    requires WellFormed(Z) && Alive(Z, S, R) && r in RowRing(Z, R) && y in RootRing(Z)
    ensures y in InactiveHeads(Z, S) + Elems(Heads(Z, Phases(Z, R, r))) <==> y in InactiveHeads(Z, S + {R})
  {
    var ps := Phases(Z, R, r);
    PhasesOf(Z, S, R, r, y);
    RootRingIn(Z, y);
    if y == 0 {
      forall j | 0 <= j < |Z|
        ensures Node(Z, j, -1) != 0
      {
        NodeBounds(Z, j, -1);
      }
      forall m | 0 <= m < |ps|
        ensures Heads(Z, ps)[m] != 0
      {
        PhaseColumn(Z, S, R, ps, m);
        NodeBounds(Z, Col(Z, ps[m]), -1);
      }
    } else {
      var j := Col(Z, y);
      RowIdxOf(Z, y);
      forall j' | 0 <= j' < |Z| && Node(Z, j', -1) == y
        ensures j' == j
      {
        NodeInjective(Z, j', -1, j, -1);
      }
      assert y in InactiveHeads(Z, S) <==> !Active(Z, S, j);
      assert y in InactiveHeads(Z, S + {R}) <==> !Active(Z, S + {R}, j);
      if R in Z[j] {
        var m := PhaseOfColumn(Z, S, R, r, j);
        assert Heads(Z, ps)[m] == y;
      }
      if y in Heads(Z, ps) {
        var m :| 0 <= m < |ps| && Heads(Z, ps)[m] == y;
        PhaseColumn(Z, S, R, ps, m);
        NodeInjective(Z, Col(Z, ps[m]), -1, j, -1);
      }
    }
  }

  /** After cover, the root ring holds the root and the headers of the columns still active
      once R is chosen. */
  lemma {:induction false} CoverPostRoot(Z: seq<seq<int>>, S: set<int>, R: int, r: int)
    requires WellFormed(Z) && Alive(Z, S, R) && r in RowRing(Z, R)
    ensures Without(RootRing(Z), Hidden(Z, S, Phases(Z, R, r), |Phases(Z, R, r)|)) == PresentRoot(Z, S + {R})
  {
    var ps := Phases(Z, R, r);
    var RR := RootRing(Z);
    forall k | 0 <= k < |RR|
      ensures RR[k] in Hidden(Z, S, ps, |ps|) <==> RR[k] in InactiveHeads(Z, S + {R})
    {
      assert ps[..|ps|] == ps;
      RootAfter(Z, S, R, r, RR[k]);
    }
    WithoutSame(RR, Hidden(Z, S, ps, |ps|), InactiveHeads(Z, S + {R}));
  }

  /** After cover, a column still active once R is chosen holds its header and the cells of
      the rows still live. */
  lemma {:induction false} CoverPostColumn(Z: seq<seq<int>>, S: set<int>, R: int, r: int, j: int)
    requires WellFormed(Z) && Alive(Z, S, R) && r in RowRing(Z, R) && j in ActiveSet(Z, S + {R})
    ensures Without(ColRing(Z, j), Detached(Z, S, Phases(Z, R, r), |Phases(Z, R, r)|)) == PresentCol(Z, S + {R}, j)
    ensures ColRing(Z, j)[0] !in Gone(Z, S + {R})
  {
    var ps := Phases(Z, R, r);
    var C := ColRing(Z, j);
    forall k | 0 <= k < |C|
      ensures C[k] in Detached(Z, S, ps, |ps|) <==> C[k] in Gone(Z, S + {R})
    {
      assert ps[..|ps|] == ps;
      ColRingIn(Z, j, C[k]);
      if Pos(Z, C[k]) >= 0 {
        ColumnAfter(Z, S, R, r, C[k]);
      } else {
        PhasesOf(Z, S, R, r, C[k]);
        PlanIn(Z, S, R, ps, C[k]);
      }
    }
    WithoutSame(C, Detached(Z, S, ps, |ps|), Gone(Z, S + {R}));
    NodeBounds(Z, j, -1);
    PlacesAt(Z, j, -1);
  }

  /** When cover has run all its phases from the cell r of the live row R, the links are the
      search state with R chosen as well. */
  lemma {:induction false} CoverPost(Z: seq<seq<int>>, S: set<int>, R: int, r: int, h: Chain, v: Chain)
    requires WellFormed(Z) && Alive(Z, S, R) && r in RowRing(Z, R)
    requires CoverInv(Z, S, Phases(Z, R, r), |Phases(Z, R, r)|, h, v)
    ensures Inv(Z, S + {R}, h, v)
  {
    var S' := S + {R};
    CoverPostRoot(Z, S, R, r);
    forall j | j in ActiveSet(Z, S')
      ensures 0 <= j < |ColRings(Z)| && Distinct(ColRings(Z)[j]) && |ColRings(Z)[j]| >= 1
      ensures ColRings(Z)[j][0] !in Gone(Z, S') && Ring(v, Without(ColRings(Z)[j], Gone(Z, S')))
    {
      assert j in ActiveSet(Z, S);
      assert ColRings(Z)[j] == ColRing(Z, j);
      CoverPostColumn(Z, S, R, r, j);
    }
  }

  /** Read from the cell right of r, the row ring of r is the phase order of cover. */
  lemma {:induction false} PhasesRing(Z: seq<seq<int>>, R: int, r: int, h: Chain)
    requires WellFormed(Z) && Valid(h) && r in RowRing(Z, R) && Ring(h, RowRing(Z, R))
    ensures Ring(h, Phases(Z, R, r))
  {
    var RR := RowRing(Z, R);
    var q := IndexOf(RR, r);
    RowTailRotate(Z, R, r);
    RingRotate(h, RR, q);
    var X := [r] + RowTail(Z, R, r);
    RingRotate(h, X, 1);
    assert X[1..] + X[..1] == Phases(Z, R, r);
  }

  /** A cell lies in the ring of its column, and is not its header. */
  lemma {:induction false} CellNotHead(Z: seq<seq<int>>, y: int)
    requires WellFormed(Z) && 1 <= y < Size(Z) && Pos(Z, y) >= 0
    ensures Col(Z, y) < |ColRings(Z)| && y in ColRings(Z)[Col(Z, y)] && y != ColRings(Z)[Col(Z, y)][0]
  {
    var c := Col(Z, y);
    assert ColRings(Z)[c] == ColRing(Z, c);
    ColRingIn(Z, c, y);
    NodeBounds(Z, c, -1);
    PlacesAt(Z, c, -1);
  }

  /** The header of a column has no row to unlink. */
  lemma {:induction false} HeadTail(Z: seq<seq<int>>, p: int)
    requires WellFormed(Z) && 1 <= p < Size(Z)
    ensures Tail(Z, Head(Z, p)) == [] && 1 <= Head(Z, p) < Size(Z) && Pos(Z, Head(Z, p)) == -1
  {
    var hd := Head(Z, p);
    NodeBounds(Z, Col(Z, p), -1);
    PlacesAt(Z, Col(Z, p), -1);
    RowIdxAt(Z, Col(Z, p), -1);
    RowRingIn(Z, -1, hd);
  }

  /** Read from a cell w, the row ring of w is w followed by the rest of its row. */
  lemma {:induction false} RowFrom(Z: seq<seq<int>>, h: Chain, w: int)
    requires WellFormed(Z) && Valid(h) && Rows(Z, h) && IsCell(Z, w)
    ensures Ring(h, [w] + Tail(Z, w)) && Distinct([w] + Tail(Z, w))
  {
    var Q := RowIdx(Z)[w];
    RowRingIn(Z, Q, w);
    RowTailRotate(Z, Q, w);
    RingRotate(h, RowRing(Z, Q), IndexOf(RowRing(Z, Q), w));
    DistinctRotate(RowRing(Z, Q), IndexOf(RowRing(Z, Q), w));
  }

  /** Unlinking the distinct present cells T of active columns, one after the other, keeps the
      column rings. */
  lemma {:induction false} HideRings(Z: seq<seq<int>>, A: set<int>, D: set<int>, T: seq<int>, v: Chain)
    requires WellFormed(Z) && Valid(v) && |v.next| == Size(Z) && Rings(v, ColRings(Z), A, D) && Distinct(T)
    requires forall i :: 0 <= i < |T| ==> 1 <= T[i] < Size(Z) && Pos(Z, T[i]) >= 0 && Col(Z, T[i]) in A && T[i] !in D
    ensures InRange(T, |v.next|) && Rings(RemoveAll(v, T), ColRings(Z), A, D + Elems(T))
  {
    var cols := seq(|T|, i requires 0 <= i < |T| => Col(Z, T[i]));
    forall i | 0 <= i < |T|
      ensures 0 <= cols[i] < |ColRings(Z)| && T[i] in ColRings(Z)[cols[i]] && T[i] != ColRings(Z)[cols[i]][0]
    {
      CellNotHead(Z, T[i]);
    }
    ColRingsDisjoint(Z, A);
    UnlinkAllRings(v, ColRings(Z), A, D, T, cols);
  }

  /** After the walk of phase k has passed its first t nodes, the column rings are those of the
      phase start without the rows unlinked so far. */
  lemma {:induction false} WalkRings(Z: seq<seq<int>>, S: set<int>, R: int, ps: seq<int>, k: int, t: int, v: Chain)
    requires Phased(Z, S, R, ps) && 0 <= k < |ps| && IsCell(Z, ps[k])
    requires 0 <= t <= |ColumnWalk(Z, S, ps, k)|
    requires Valid(v) && |v.next| == Size(Z) && Rings(v, ColRings(Z), ActiveSet(Z, S), Detached(Z, S, ps, k))
    ensures var E := Tails(Z, ColumnWalk(Z, S, ps, k)[..t]);
      InRange(E, |v.next|) && Rings(RemoveAll(v, E), ColRings(Z), ActiveSet(Z, S), Detached(Z, S, ps, k) + Elems(E))
    decreases t
  {
    var CW := ColumnWalk(Z, S, ps, k);
    var D := Detached(Z, S, ps, k);
    if t == 0 {
      assert CW[..0] == [];
      assert D + Elems([]) == D;
    } else {
      WalkRings(Z, S, R, ps, k, t - 1, v);
      var E0 := Tails(Z, CW[..t - 1]);
      var w := CW[t - 1];
      PrefixStep(CW, t - 1);
      TailsSnoc(Z, CW[..t - 1], w);
      TailFresh(Z, S, R, ps, k, t - 1);
      HideMore(Z, ActiveSet(Z, S), D, E0, Tail(Z, w), v);
    }
  }

  /** Unlinking more cells, with none already gone, from the rings of a family of columns. */
  lemma {:induction false} HideMore(Z: seq<seq<int>>, A: set<int>, D: set<int>, E0: seq<int>, T: seq<int>, v: Chain)
    requires WellFormed(Z) && Valid(v) && |v.next| == Size(Z) && InRange(E0, |v.next|)
    requires Rings(RemoveAll(v, E0), ColRings(Z), A, D + Elems(E0)) && Distinct(T)
    requires forall y :: y in T ==> 1 <= y < Size(Z) && Pos(Z, y) >= 0 && Col(Z, y) in A && y !in D + Elems(E0)
    ensures InRange(E0 + T, |v.next|) && Rings(RemoveAll(v, E0 + T), ColRings(Z), A, D + Elems(E0 + T))
  {
    forall i | 0 <= i < |T|
      ensures 1 <= T[i] < Size(Z) && Pos(Z, T[i]) >= 0 && Col(Z, T[i]) in A && T[i] !in D + Elems(E0)
    {
      assert T[i] in T;
    }
    HideRings(Z, A, D + Elems(E0), T, RemoveAll(v, E0));
    InRangeConcat(E0, T, |v.next|);
    RemoveAllConcat(v, E0, T);
    ElemsConcat(D, E0, T);
  }

  /** During the walk of phase k, once it has passed its first t nodes, the node below the
      last one passed (below ps[k] itself when t == 0) is the next node of the walk, or ps[k]
      again when the walk is over. */
  lemma {:induction false} WalkLink(Z: seq<seq<int>>, S: set<int>, R: int, ps: seq<int>, k: int, t: int, v: Chain)
    requires Phased(Z, S, R, ps) && 0 <= k < |ps| && IsCell(Z, ps[k])
    requires 0 <= t <= |ColumnWalk(Z, S, ps, k)|
    requires Valid(v) && |v.next| == Size(Z) && Rings(v, ColRings(Z), ActiveSet(Z, S), Detached(Z, S, ps, k))
    ensures var CW := ColumnWalk(Z, S, ps, k); var E := Tails(Z, CW[..t]);
      InRange(E, |v.next|)
      && var X := [ps[k]] + CW; var u := RemoveAll(v, E);
      InRange(X, |u.next|) && u.next[X[t]] == (if t < |CW| then CW[t] else ps[k])
  {
    var CW := ColumnWalk(Z, S, ps, k);
    var c := Col(Z, ps[k]);
    var E := Tails(Z, CW[..t]);
    WalkRings(Z, S, R, ps, k, t, v);
    WalkColumn(Z, S, R, ps, k);
    DistinctPrefix(CW, t);
    TailsDistinct(Z, CW[..t], c);
    var u := RemoveAll(v, E);
    PhaseRing(Z, S, R, ps, k, u, Elems(E));
    var X := [ps[k]] + CW;
    if t < |CW| {
      assert X[t + 1] == CW[t];
    }
  }

  /** The root is never hidden. */
  lemma {:induction false} RootNotHidden(Z: seq<seq<int>>, S: set<int>, R: int, ps: seq<int>, k: int)
    requires Phased(Z, S, R, ps) && 0 <= k <= |ps|
    ensures 0 !in Hidden(Z, S, ps, k) && RootRing(Z)[0] == 0
  {
    RootRingIn(Z, 0);
    forall j | 0 <= j < |Z|
      ensures Node(Z, j, -1) != 0
    {
      NodeBounds(Z, j, -1);
    }
    forall m | 0 <= m < k
      ensures Heads(Z, ps[..k])[m] != 0
    {
      PhaseColumn(Z, S, R, ps, m);
      NodeBounds(Z, Col(Z, ps[m]), -1);
    }
  }

  /** Unlinking the header of phase k from the root ring. */
  lemma {:induction false} HeadUnlinked(Z: seq<seq<int>>, S: set<int>, R: int, ps: seq<int>, k: int, h: Chain, v: Chain)
    requires Phased(Z, S, R, ps) && 0 <= k < |ps| && CoverInv(Z, S, ps, k, h, v)
    ensures 0 <= Head(Z, ps[k]) < |h.next|
    ensures Rows(Z, Unlink(h, Head(Z, ps[k])))
    ensures Ring(Unlink(h, Head(Z, ps[k])), Without(RootRing(Z), Hidden(Z, S, ps, k + 1)))
  {
    var hd := Head(Z, ps[k]);
    HeadStep(Z, S, R, ps, k);
    RootNotHidden(Z, S, R, ps, k);
    WithoutIn(RootRing(Z), Hidden(Z, S, ps, k));
    RootRingIn(Z, hd);
    RingUnlinkWithout(h, RootRing(Z), Hidden(Z, S, ps, k), hd);
    RowsUnlink(Z, h, Without(RootRing(Z), Hidden(Z, S, ps, k)), hd);
  }

  /** The links after phase k: the header unlinked, and the rows met by the walk. */
  lemma {:induction false} ColumnDone(Z: seq<seq<int>>, S: set<int>, R: int, ps: seq<int>, k: int, h: Chain, v: Chain)
    requires Phased(Z, S, R, ps) && 0 <= k < |ps| && CoverInv(Z, S, ps, k, h, v)
    ensures 1 <= ps[k] < Size(Z) && 0 <= Head(Z, ps[k]) < |h.next|
    ensures InRange(Block(Z, S, ps[..k + 1]), |v.next|)
    ensures CoverInv(Z, S, ps, k + 1, Unlink(h, Head(Z, ps[k])), RemoveAll(v, Block(Z, S, ps[..k + 1])))
  {
    PhaseCell(Z, S, R, ps, k);
    var CW := ColumnWalk(Z, S, ps, k);
    HeadUnlinked(Z, S, R, ps, k, h, v);
    WalkRings(Z, S, R, ps, k, |CW|, v);
    assert CW[..|CW|] == CW;
    WalkBlock(Z, S, ps, k);
    assert Detached(Z, S, ps, k + 1) == Detached(Z, S, ps, k) + Elems(Tails(Z, CW));
  }

  /** The links after phase k, as the links before the phases with the headers and the blocks
      of the first k + 1 phases unlinked. */
  lemma {:induction false} PhaseAdvance(Z: seq<seq<int>>, S: set<int>, ps: seq<int>, k: int, h0: Chain, v0: Chain)
    requires 0 <= k < |ps| && Valid(h0) && Valid(v0)
    requires InRange(Heads(Z, ps[..k]), |h0.next|) && InRange(Plan(Z, S, ps[..k]), |v0.next|)
    requires 0 <= Head(Z, ps[k]) < |h0.next| && InRange(Block(Z, S, ps[..k + 1]), |v0.next|)
    ensures InRange(Heads(Z, ps[..k + 1]), |h0.next|) && InRange(Plan(Z, S, ps[..k + 1]), |v0.next|)
    ensures RemoveAll(h0, Heads(Z, ps[..k + 1])) == Unlink(RemoveAll(h0, Heads(Z, ps[..k])), Head(Z, ps[k]))
    ensures RemoveAll(v0, Plan(Z, S, ps[..k + 1])) == RemoveAll(RemoveAll(v0, Plan(Z, S, ps[..k])), Block(Z, S, ps[..k + 1]))
  {
    var qs := ps[..k + 1];
    var A, hd := Heads(Z, ps[..k]), Head(Z, ps[k]);
    HeadsStep(Z, ps, k);
    PlanStep(Z, S, ps, k);
    InRangeConcat(A, [hd], |h0.next|);
    InRangeConcat(Plan(Z, S, ps[..k]), Block(Z, S, qs), |v0.next|);
    RemoveAllSnoc(h0, A + [hd]);
    SnocDrop(A, hd);
    RemoveAllConcat(v0, Plan(Z, S, ps[..k]), Block(Z, S, qs));
  }

  /** Along the row being covered, the node right of each phase cell (of r itself first) is
      the cell of the next phase. */
  lemma {:induction false} PhaseLink(Z: seq<seq<int>>, R: int, r: int, h: Chain, k: int)
    requires WellFormed(Z) && Valid(h) && Rows(Z, h) && r in RowRing(Z, R)
    requires 0 <= k < |Phases(Z, R, r)|
    ensures InRange([r] + Phases(Z, R, r), |h.next|)
    ensures h.next[([r] + Phases(Z, R, r))[k]] == Phases(Z, R, r)[k]
  {
    var P := Phases(Z, R, r);
    assert RowRing(Z, R) != [];
    assert Ring(h, RowRing(Z, R));
    PhasesRing(Z, R, r, h);
    if k == 0 {
      assert P[|P| - 1] == r;
    } else {
      assert ([r] + P)[k] == P[k - 1];
    }
  }
}
