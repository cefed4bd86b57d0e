/** What cover detaches, as functions of the matrix and the search state.

    cover, started at the cell r of row R, visits the cells of R from the one right of r round
    to r itself (the phases).  In each phase it walks the column of the phase cell downwards,
    from below that cell back up to it: at the column header it detaches the header from the
    root ring, and at every other cell it detaches the rest of that cell's row from their
    columns.  Plan lists the detached cells in the order cover detaches them; Removed says
    which cells they are. */
module CoverPlan {
  import opened Links
  import opened NodeLayout
  import opened SearchState

  /** The nodes of the outer loop of cover and uncover started at r: the cells of r's row
      to the right of r, wrapping round, and r itself last. */
  ghost function Phases(Z: seq<seq<int>>, R: int, r: int): seq<int>
  {
    RowTail(Z, R, r) + [r]
  }

  /** The column of the node p holds a 1 of row Q. */
  ghost predicate HitAt(Z: seq<seq<int>>, p: int, Q: int)
  {
    1 <= p < Size(Z) && Q in Z[Col(Z, p)]
  }

  /** The first phase whose column holds a 1 of row Q; |ps| when there is none. */
  ghost function FirstHit(Z: seq<seq<int>>, ps: seq<int>, Q: int): (m: nat)
    ensures m <= |ps|
    decreases |ps|
  {
    if ps == [] then 0
    else
      var f := FirstHit(Z, ps[..|ps| - 1], Q);
      if f < |ps| - 1 then f
      else if HitAt(Z, ps[|ps| - 1], Q) then |ps| - 1
      else |ps|
  }

  /** The nodes the walk down the column of p meets, from the one below p round to the one
      above it, while the structure is the search state of S. */
  ghost function Walk(Z: seq<seq<int>>, S: set<int>, p: int): seq<int>
    requires 1 <= p < Size(Z)
  {
    var W := PresentCol(Z, S, Col(Z, p));
    if p in W then W[IndexOf(W, p) + 1..] + W[..IndexOf(W, p)] else []
  }

  /** The rest of the row of the node w, from the one right of w round to the one left of it;
      empty for the root and the headers, whose row rings are not rows. */
  ghost function Tail(Z: seq<seq<int>>, w: int): seq<int>
  {
    if 0 <= w < Size(Z) then RowTail(Z, RowIdx(Z)[w], w) else []
  }

  ghost function Tails(Z: seq<seq<int>>, ws: seq<int>): seq<int>
    decreases |ws|
  {
    if ws == [] then [] else Tails(Z, ws[..|ws| - 1]) + Tail(Z, ws[|ws| - 1])
  }

  /** The cells cover detaches from their columns in its phases ps, in that order. */
  ghost function Plan(Z: seq<seq<int>>, S: set<int>, ps: seq<int>): seq<int>
    decreases |ps|, 1
  {
    if ps == [] then [] else Plan(Z, S, ps[..|ps| - 1]) + Block(Z, S, ps)
  }

  /** The cells detached in the last phase: the walk of its column meets only the cells not
      detached before, and detaches the rest of each of their rows. */
  ghost function Block(Z: seq<seq<int>>, S: set<int>, ps: seq<int>): seq<int>
    requires ps != []
    decreases |ps|, 0
  {
    var p := ps[|ps| - 1];
    if 1 <= p < Size(Z) then Tails(Z, Without(Walk(Z, S, p), Elems(Plan(Z, S, ps[..|ps| - 1])))) else []
  }

  /** The header of the column of p. */
  ghost function Head(Z: seq<seq<int>>, p: int): int
  {
    if 1 <= p < Size(Z) then Node(Z, Col(Z, p), -1) else 0
  }

  /** The headers cover detaches from the root ring in its phases ps, in that order. */
  ghost function Heads(Z: seq<seq<int>>, ps: seq<int>): seq<int>
  {
    seq(|ps|, m requires 0 <= m < |ps| => Head(Z, ps[m]))
  }

  /** ps are distinct cells of the live row R. */
  ghost predicate Phased(Z: seq<seq<int>>, S: set<int>, R: int, ps: seq<int>)
  {
    WellFormed(Z) && Alive(Z, S, R) && Distinct(ps)
    && forall m :: 0 <= m < |ps| ==> ps[m] in RowRing(Z, R)
  }

  /** The cells cover detaches in the phases ps: the cells of every live row other than R
      that has a 1 in a phase column, except its cell in the first such column. */
  ghost predicate Removed(Z: seq<seq<int>>, S: set<int>, R: int, ps: seq<int>, y: int)
  {
    IsCell(Z, y)
    && var Q := RowIdx(Z)[y];
       var m := FirstHit(Z, ps, Q);
       Alive(Z, S, Q) && Q != R && m < |ps| && 0 <= ps[m] < Size(Z) && Col(Z, y) != Col(Z, ps[m])
  }

  /** A row has one cell per column. */
  lemma SameRowCol(Z: seq<seq<int>>, a: int, b: int)
    requires WellFormed(Z) && IsCell(Z, a) && IsCell(Z, b)
    requires RowIdx(Z)[a] == RowIdx(Z)[b] && Col(Z, a) == Col(Z, b)
    ensures a == b
  {
    RowIdxOf(Z, a);
    RowIdxOf(Z, b);
    var c := Col(Z, a);
    assert Increasing(Z[c]);
  }

  lemma TailIn(Z: seq<seq<int>>, w: int, y: int)
    requires WellFormed(Z) && 0 <= w < Size(Z)
    ensures y in Tail(Z, w) <==> IsCell(Z, w) && IsCell(Z, y) && RowIdx(Z)[y] == RowIdx(Z)[w] && y != w
    ensures Distinct(Tail(Z, w))
  {
    var Q := RowIdx(Z)[w];
    RowRingIn(Z, Q, w);
    if IsCell(Z, w) {
      RowTailIn(Z, Q, w, y);
      RowRingIn(Z, Q, y);
    }
  }

  lemma TailsSnoc(Z: seq<seq<int>>, ws: seq<int>, w: int)
    ensures Tails(Z, ws + [w]) == Tails(Z, ws) + Tail(Z, w)
  {
    assert (ws + [w])[..|ws|] == ws;
  }

  /** One more node of ws: its tail is added at the end, and nothing when the node has none. */
  lemma TailsStep(Z: seq<seq<int>>, ws: seq<int>, t: int)
    requires 0 <= t < |ws|
    ensures Tails(Z, ws[..t + 1]) == Tails(Z, ws[..t]) + Tail(Z, ws[t])
    ensures Tail(Z, ws[t]) == [] ==> Tails(Z, ws[..t + 1]) == Tails(Z, ws[..t])
  {
    assert ws[..t + 1][..t] == ws[..t];
    assert Tails(Z, ws[..t]) + [] == Tails(Z, ws[..t]);
  }

  lemma {:induction false} TailsConcat(Z: seq<seq<int>>, a: seq<int>, b: seq<int>)
    ensures Tails(Z, a + b) == Tails(Z, a) + Tails(Z, b)
    decreases |b|
  {
    if b == [] {
      assert a + b == a;
    } else {
      var b', w := b[..|b| - 1], b[|b| - 1];
      PrefixStep(b, |b| - 1);
      TakeAll(b, |b|);
      ConcatAssoc(a, b', [w]);
      TailsSnoc(Z, a + b', w);
      TailsConcat(Z, a, b');
      TailsSnoc(Z, b', w);
      ConcatAssoc(Tails(Z, a), Tails(Z, b'), Tail(Z, w));
    }
  }

  /** The tails of ws, split at its t-th node. */
  lemma TailsSplit(Z: seq<seq<int>>, ws: seq<int>, t: int)
    requires 0 <= t < |ws|
    ensures Tails(Z, ws) == Tails(Z, ws[..t]) + Tail(Z, ws[t]) + Tails(Z, ws[t + 1..])
  {
    assert ws == ws[..t] + [ws[t]] + ws[t + 1..];
    TailsConcat(Z, ws[..t] + [ws[t]], ws[t + 1..]);
    TailsSnoc(Z, ws[..t], ws[t]);
  }

  lemma {:induction false} TailsHas(Z: seq<seq<int>>, ws: seq<int>, k: int, y: int)
    requires 0 <= k < |ws| && y in Tail(Z, ws[k])
    ensures y in Tails(Z, ws)
    decreases |ws|
  {
    if k < |ws| - 1 {
      TailsHas(Z, ws[..|ws| - 1], k, y);
    }
  }

  lemma {:induction false} TailsWitness(Z: seq<seq<int>>, ws: seq<int>, y: int) returns (k: int)
    requires y in Tails(Z, ws)
    ensures 0 <= k < |ws| && y in Tail(Z, ws[k])
    decreases |ws|
  {
    if y in Tail(Z, ws[|ws| - 1]) {
      k := |ws| - 1;
    } else {
      k := TailsWitness(Z, ws[..|ws| - 1], y);
    }
  }

  /** The row tails of distinct nodes of one column are disjoint, and none reaches back into
      that column. */
  lemma {:induction false} TailsDistinct(Z: seq<seq<int>>, ws: seq<int>, c: int)
    requires WellFormed(Z) && 0 <= c < |Z| && Distinct(ws)
    requires forall k :: 0 <= k < |ws| ==> ws[k] in ColRing(Z, c)
    ensures Distinct(Tails(Z, ws))
    ensures forall y :: y in Tails(Z, ws) ==> y !in ColRing(Z, c)
    decreases |ws|
  {
    if ws != [] {
      var init := ws[..|ws| - 1];
      var w := ws[|ws| - 1];
      TailsDistinct(Z, init, c);
      ColRingIn(Z, c, w);
      forall y | y in Tail(Z, w)
        ensures y !in Tails(Z, init) && y !in ColRing(Z, c)
      {
        TailIn(Z, w, y);
        ColRingIn(Z, c, y);
        if Col(Z, y) == c {
          SameRowCol(Z, y, w);
        }
        if y in Tails(Z, init) {
          var k := TailsWitness(Z, init, y);
          ColRingIn(Z, c, init[k]);
          TailIn(Z, init[k], y);
          SameRowCol(Z, init[k], w);
        }
      }
      TailIn(Z, w, 0);
      DistinctConcat(Tails(Z, init), Tail(Z, w));
    }
  }

  /** Read from p, the present column of a present cell p is p followed by the walk. */
  lemma WalkShape(Z: seq<seq<int>>, S: set<int>, p: int)
    requires WellFormed(Z) && IsCell(Z, p) && p !in Gone(Z, S)
    ensures var W := PresentCol(Z, S, Col(Z, p));
      p in W && W[IndexOf(W, p)..] + W[..IndexOf(W, p)] == [p] + Walk(Z, S, p)
    ensures Distinct([p] + Walk(Z, S, p))
  {
    var c := Col(Z, p);
    var W := PresentCol(Z, S, c);
    PresentColIn(Z, S, c, p);
    var q := IndexOf(W, p);
    RotateAt(W, q);
    DistinctRotate(W, q);
  }

  /** The walk down the column of a present cell p: the rest of the present column, read
      from below p. */
  lemma WalkIn(Z: seq<seq<int>>, S: set<int>, p: int, w: int)
    requires WellFormed(Z) && IsCell(Z, p) && p !in Gone(Z, S)
    ensures w in Walk(Z, S, p) <==> w in PresentCol(Z, S, Col(Z, p)) && w != p
    ensures Distinct(Walk(Z, S, p)) && Node(Z, Col(Z, p), -1) in Walk(Z, S, p)
    ensures forall k :: 0 <= k < |Walk(Z, S, p)| ==> Walk(Z, S, p)[k] in ColRing(Z, Col(Z, p))
  {
    var c := Col(Z, p);
    var W := PresentCol(Z, S, c);
    WalkShape(Z, S, p);
    PresentColIn(Z, S, c, p);
    var q := IndexOf(W, p);
    var V := Walk(Z, S, p);
    RotateMembers(W, q, p, V, w);
    RowIdxOf(Z, p);
    PlacesAt(Z, c, -1);
    RotateMembers(W, q, p, V, W[0]);
    WithoutIn(ColRing(Z, c), Gone(Z, S));
    forall k | 0 <= k < |V|
      ensures V[k] in ColRing(Z, c)
    {
      RotateMembers(W, q, p, V, V[k]);
    }
  }


  lemma {:induction false} FirstHitIs(Z: seq<seq<int>>, ps: seq<int>, Q: int)
    ensures FirstHit(Z, ps, Q) < |ps| ==> HitAt(Z, ps[FirstHit(Z, ps, Q)], Q)
    ensures forall m :: 0 <= m < FirstHit(Z, ps, Q) ==> !HitAt(Z, ps[m], Q)
    decreases |ps|
  {
    if ps != [] {
      var init := ps[..|ps| - 1];
      FirstHitIs(Z, init, Q);
      assert forall m :: 0 <= m < |init| ==> init[m] == ps[m];
    }
  }

  lemma FirstHitPrefix(Z: seq<seq<int>>, ps: seq<int>, Q: int, k: int)
    requires 0 <= k <= |ps|
    ensures FirstHit(Z, ps[..k], Q) == if FirstHit(Z, ps, Q) < k then FirstHit(Z, ps, Q) else k
  {
    FirstHitIs(Z, ps, Q);
    FirstHitIs(Z, ps[..k], Q);
    assert forall m :: 0 <= m < k ==> ps[..k][m] == ps[m];
  }

  lemma PhasedPrefix(Z: seq<seq<int>>, S: set<int>, R: int, ps: seq<int>, k: int)
    requires Phased(Z, S, R, ps) && 0 <= k <= |ps|
    ensures Phased(Z, S, R, ps[..k])
  {
    assert forall m :: 0 <= m < k ==> ps[..k][m] == ps[m];
  }

  /** Distinct phases lie in distinct columns. */
  lemma PhaseCols(Z: seq<seq<int>>, S: set<int>, R: int, ps: seq<int>, a: int, b: int)
    requires Phased(Z, S, R, ps) && 0 <= a < |ps| && 0 <= b < |ps| && a != b
    ensures IsCell(Z, ps[a]) && IsCell(Z, ps[b]) && Col(Z, ps[a]) != Col(Z, ps[b])
  {
    RowRingIn(Z, R, ps[a]);
    RowRingIn(Z, R, ps[b]);
    if Col(Z, ps[a]) == Col(Z, ps[b]) {
      SameRowCol(Z, ps[a], ps[b]);
    }
  }

  /** What cover detaches, phase by phase. */
  lemma {:induction false} PlanIn(Z: seq<seq<int>>, S: set<int>, R: int, ps: seq<int>, y: int)
    requires Phased(Z, S, R, ps)
    ensures y in Plan(Z, S, ps) <==> Removed(Z, S, R, ps, y)
    decreases |ps|, 3
  {
    if ps != [] {
      var n := |ps| - 1;
      var init := ps[..n];
      PhasedPrefix(Z, S, R, ps, n);
      PlanIn(Z, S, R, init, y);
      BlockIn(Z, S, R, ps, y);
      if IsCell(Z, y) {
        FirstHitPrefix(Z, ps, RowIdx(Z)[y], n);
      }
    }
  }

  /** The last phase detaches the cells of the rows whose first phase column is its own. */
  lemma {:induction false} BlockIn(Z: seq<seq<int>>, S: set<int>, R: int, ps: seq<int>, y: int)
    requires Phased(Z, S, R, ps) && ps != []
    ensures y in Block(Z, S, ps) <==> Removed(Z, S, R, ps, y) && FirstHit(Z, ps, RowIdx(Z)[y]) == |ps| - 1
    decreases |ps|, 2
  {
    BlockRemoved(Z, S, R, ps, y);
    RemovedInBlock(Z, S, R, ps, y);
  }

  /** What the last phase detaches is a cell of a row whose first phase column is that phase's. */
  lemma {:induction false} BlockRemoved(Z: seq<seq<int>>, S: set<int>, R: int, ps: seq<int>, y: int)
    requires Phased(Z, S, R, ps) && ps != []
    ensures y in Block(Z, S, ps) ==> Removed(Z, S, R, ps, y) && FirstHit(Z, ps, RowIdx(Z)[y]) == |ps| - 1
    decreases |ps|, 1
  {
    var n := |ps| - 1;
    var p := ps[n];
    AliveCellPresent(Z, S, R, p);
    var X := Plan(Z, S, ps[..n]);
    var CW := Without(Walk(Z, S, p), Elems(X));
    assert Block(Z, S, ps) == Tails(Z, CW);
    if y in Tails(Z, CW) {
      var k := TailsWitness(Z, CW, y);
      var w := CW[k];
      WithoutIn(Walk(Z, S, p), Elems(X));
      TailIn(Z, w, y);
      WalkRowFirst(Z, S, R, ps, w);
      if Col(Z, y) == Col(Z, p) {
        SameRowCol(Z, y, w);
      }
    }
  }

  /** A node the last phase's walk meets, when cover has not detached it in an earlier phase,
      is a cell of a live row other than R whose first phase column is the last phase's. */
  lemma {:induction false} WalkRowFirst(Z: seq<seq<int>>, S: set<int>, R: int, ps: seq<int>, w: int)
    requires Phased(Z, S, R, ps) && ps != [] && 1 <= ps[|ps| - 1] < Size(Z)
    requires IsCell(Z, w) && w in Walk(Z, S, ps[|ps| - 1]) && w !in Plan(Z, S, ps[..|ps| - 1])
    ensures Col(Z, w) == Col(Z, ps[|ps| - 1])
    ensures Alive(Z, S, RowIdx(Z)[w]) && RowIdx(Z)[w] != R && FirstHit(Z, ps, RowIdx(Z)[w]) == |ps| - 1
    decreases |ps|, 0
  {
    var n := |ps| - 1;
    PhasedPrefix(Z, S, R, ps, n);
    WalkCell(Z, S, R, ps[n], w);
    PlanIn(Z, S, R, ps[..n], w);
    FirstHitLast(Z, S, R, ps, w);
  }

  /** A cell the walk down the column of a cell p of the live row R meets is a cell of another
      live row with a 1 in that column. */
  lemma WalkCell(Z: seq<seq<int>>, S: set<int>, R: int, p: int, w: int)
    requires WellFormed(Z) && Alive(Z, S, R) && p in RowRing(Z, R) && 1 <= p < Size(Z)
    requires IsCell(Z, w) && w in Walk(Z, S, p)
    ensures Col(Z, w) == Col(Z, p) && Alive(Z, S, RowIdx(Z)[w]) && RowIdx(Z)[w] != R
    ensures HitAt(Z, p, RowIdx(Z)[w])
  {
    AliveCellPresent(Z, S, R, p);
    var c := Col(Z, p);
    WalkIn(Z, S, p, w);
    PresentColIn(Z, S, c, w);
    RowIdxOf(Z, w);
    if RowIdx(Z)[w] == R {
      SameRowCol(Z, w, p);
    }
  }

  /** A cell of a live row other than R, in the column of the last phase, that no earlier
      phase detaches: the last phase is the first whose column holds a 1 of its row. */
  lemma FirstHitLast(Z: seq<seq<int>>, S: set<int>, R: int, ps: seq<int>, w: int)
    requires Phased(Z, S, R, ps) && ps != [] && IsCell(Z, w) && Alive(Z, S, RowIdx(Z)[w]) && RowIdx(Z)[w] != R
    requires HitAt(Z, ps[|ps| - 1], RowIdx(Z)[w]) && Col(Z, w) == Col(Z, ps[|ps| - 1])
    requires !Removed(Z, S, R, ps[..|ps| - 1], w)
    ensures FirstHit(Z, ps, RowIdx(Z)[w]) == |ps| - 1
  {
    var n := |ps| - 1;
    var Q := RowIdx(Z)[w];
    FirstHitPrefix(Z, ps, Q, n);
    var f := FirstHit(Z, ps[..n], Q);
    if f < n {
      assert ps[..n][f] == ps[f];
      PhaseCols(Z, S, R, ps, f, n);
    }
  }

  /** The last phase detaches every removed cell of a row whose first phase column is that
      phase's. */
  lemma {:induction false} RemovedInBlock(Z: seq<seq<int>>, S: set<int>, R: int, ps: seq<int>, y: int)
    requires Phased(Z, S, R, ps) && ps != []
    ensures Removed(Z, S, R, ps, y) && FirstHit(Z, ps, RowIdx(Z)[y]) == |ps| - 1 ==> y in Block(Z, S, ps)
    decreases |ps|, 0
  {
    var n := |ps| - 1;
    var init := ps[..n];
    var p := ps[n];
    PhasedPrefix(Z, S, R, ps, n);
    var X := Plan(Z, S, init);
    AliveCellPresent(Z, S, R, p);
    var c := Col(Z, p);
    var W := Walk(Z, S, p);
    var CW := Without(W, Elems(X));
    assert Block(Z, S, ps) == Tails(Z, CW);
    WithoutIn(W, Elems(X));
    if Removed(Z, S, R, ps, y) && FirstHit(Z, ps, RowIdx(Z)[y]) == n {
      var Q := RowIdx(Z)[y];
      FirstHitIs(Z, ps, Q);
      var t := IndexOf(Z[c], Q);
      var w := Node(Z, c, t);
      NodeBounds(Z, c, t);
      PlacesAt(Z, c, t);
      RowIdxAt(Z, c, t);
      PresentColIn(Z, S, c, w);
      RowIdxOf(Z, p);
      WalkIn(Z, S, p, w);
      PlanIn(Z, S, R, init, w);
      FirstHitPrefix(Z, ps, Q, n);
      TailIn(Z, w, y);
      TailsHas(Z, CW, IndexOf(CW, w), y);
    }
  }

  /** cover detaches no cell twice, and only present cells. */
  lemma {:induction false} PlanFresh(Z: seq<seq<int>>, S: set<int>, R: int, ps: seq<int>)
    requires Phased(Z, S, R, ps)
    ensures Distinct(Plan(Z, S, ps)) && FreshFrom(Present(Z, S), Plan(Z, S, ps))
    decreases |ps|
  {
    var X := Plan(Z, S, ps);
    if ps != [] {
      var n := |ps| - 1;
      var init := ps[..n];
      var p := ps[n];
      PhasedPrefix(Z, S, R, ps, n);
      PlanFresh(Z, S, R, init);
      AliveCellPresent(Z, S, R, p);
      var c := Col(Z, p);
      var W := Walk(Z, S, p);
      var E := Elems(Plan(Z, S, init));
      WalkIn(Z, S, p, 0);
      WithoutDistinct(W, E);
      WithoutIn(W, E);
      forall k | 0 <= k < |Without(W, E)|
        ensures Without(W, E)[k] in ColRing(Z, c)
      {
        assert Without(W, E)[k] in W;
      }
      TailsDistinct(Z, Without(W, E), c);
      forall y | y in Block(Z, S, ps)
        ensures y !in Plan(Z, S, init)
      {
        BlockIn(Z, S, R, ps, y);
        PlanIn(Z, S, R, init, y);
        FirstHitPrefix(Z, ps, RowIdx(Z)[y], n);
      }
      DistinctConcat(Plan(Z, S, init), Block(Z, S, ps));
    }
    forall i | 0 <= i < |X|
      ensures X[i] in Present(Z, S)
    {
      PlanIn(Z, S, R, ps, X[i]);
      RowRingIn(Z, RowIdx(Z)[X[i]], X[i]);
      AliveCellPresent(Z, S, RowIdx(Z)[X[i]], X[i]);
    }
    DistinctFresh(Present(Z, S), X);
  }

  lemma HeadsStep(Z: seq<seq<int>>, ps: seq<int>, k: int)
    requires 0 <= k < |ps|
    ensures Heads(Z, ps[..k + 1]) == Heads(Z, ps[..k]) + [Head(Z, ps[k])]
  {
    assert Heads(Z, ps[..k + 1]) == Heads(Z, ps[..k]) + [Head(Z, ps[k])];
  }

  lemma PlanStep(Z: seq<seq<int>>, S: set<int>, ps: seq<int>, k: int)
    requires 0 <= k < |ps|
    ensures Plan(Z, S, ps[..k + 1]) == Plan(Z, S, ps[..k]) + Block(Z, S, ps[..k + 1])
  {
    assert ps[..k + 1][..k] == ps[..k];
  }

  lemma {:induction false} PlanPrefix(Z: seq<seq<int>>, S: set<int>, ps: seq<int>, k: int)
    requires 0 <= k <= |ps|
    ensures Plan(Z, S, ps[..k]) <= Plan(Z, S, ps)
    decreases |ps|
  {
    if k < |ps| {
      var init := ps[..|ps| - 1];
      assert init[..k] == ps[..k];
      PlanPrefix(Z, S, init, k);
    } else {
      assert ps[..k] == ps;
    }
  }

  /** The cells of the column of phase k detached at all are detached before phase k. */
  lemma ColumnInPrefix(Z: seq<seq<int>>, S: set<int>, R: int, ps: seq<int>, k: int, z: int)
    requires Phased(Z, S, R, ps) && 0 <= k < |ps|
    requires z in Plan(Z, S, ps) && 1 <= z < Size(Z) && 1 <= ps[k] < Size(Z) && Col(Z, z) == Col(Z, ps[k])
    ensures z in Plan(Z, S, ps[..k])
  {
    PlanIn(Z, S, R, ps, z);
    var Q := RowIdx(Z)[z];
    RowIdxOf(Z, z);
    FirstHitIs(Z, ps, Q);
    assert HitAt(Z, ps[k], Q);
    PhasedPrefix(Z, S, R, ps, k);
    FirstHitPrefix(Z, ps, Q, k);
    PlanIn(Z, S, R, ps[..k], z);
  }
}
