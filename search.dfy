/** The state of the exact-cover search, as a function of the chosen rows.

    With S the set of rows chosen so far, a column is active when no chosen row has a 1 in it,
    and a row is alive when all of its columns are active.  The links of a NodeMap in the middle
    of the search are described by Inv: the root ring holds the root and the headers of the
    active columns, in column order; each active column ring holds its header and the cells of
    the live rows, top to bottom; every row ring is whole. */
module SearchState {
  import opened Links
  import opened NodeLayout

  ghost predicate Active(Z: seq<seq<int>>, S: set<int>, j: int)
    requires 0 <= j < |Z|
  {
    forall s :: s in S ==> s !in Z[j]
  }

  ghost predicate Alive(Z: seq<seq<int>>, S: set<int>, i: int)
  {
    forall j :: 0 <= j < |Z| && i in Z[j] ==> Active(Z, S, j)
  }

  ghost function ActiveSet(Z: seq<seq<int>>, S: set<int>): set<int>
  {
    set j | 0 <= j < |Z| && Active(Z, S, j)
  }

  /** The cells of the rows that can no longer be chosen. */
  ghost function Gone(Z: seq<seq<int>>, S: set<int>): set<int>
  {
    set y | 0 <= y < Size(Z) && IsCell(Z, y) && !Alive(Z, S, RowIdx(Z)[y])
  }

  ghost function InactiveHeads(Z: seq<seq<int>>, S: set<int>): set<int>
  {
    set j | 0 <= j < |Z| && !Active(Z, S, j) :: Node(Z, j, -1)
  }

  /** The nodes still linked into the column rings. */
  ghost function Present(Z: seq<seq<int>>, S: set<int>): set<int>
  {
    set y | 1 <= y < Size(Z) && Col(Z, y) in ActiveSet(Z, S) && y !in Gone(Z, S)
  }

  /** What is left of column c: its header and its cells of live rows. */
  ghost function PresentCol(Z: seq<seq<int>>, S: set<int>, c: int): seq<int>
    requires 0 <= c < |Z|
  {
    Without(ColRing(Z, c), Gone(Z, S))
  }

  /** The root and the headers of the active columns. */
  ghost function PresentRoot(Z: seq<seq<int>>, S: set<int>): seq<int>
  {
    Without(RootRing(Z), InactiveHeads(Z, S))
  }

  ghost predicate Inv(Z: seq<seq<int>>, S: set<int>, h: Chain, v: Chain)
  {
    WellFormed(Z) && Valid(h) && Valid(v) && |h.next| == Size(Z) && |v.next| == Size(Z)
    && Ring(h, PresentRoot(Z, S))
    && Rings(v, ColRings(Z), ActiveSet(Z, S), Gone(Z, S))
    && Rows(Z, h)
  }

  lemma WithoutNone(ring: seq<int>)
    ensures Without(ring, {}) == ring
  {
    if ring != [] {
      WithoutNone(ring[1..]);
      assert ring == [ring[0]] + ring[1..];
    }
  }

  /** With nothing chosen, the structure built from the matrix is a search state. */
  lemma {:induction false} InvStart(Z: seq<seq<int>>, h: Chain, v: Chain, rx: seq<int>)
    requires Built(Z, h, v, rx)
    ensures Inv(Z, {}, h, v)
  {
    assert InactiveHeads(Z, {}) == {};
    assert Gone(Z, {}) == {};
    WithoutNone(RootRing(Z));
    forall j | j in ActiveSet(Z, {})
      ensures 0 <= j < |ColRings(Z)| && Distinct(ColRings(Z)[j]) && |ColRings(Z)[j]| >= 1
      ensures ColRings(Z)[j][0] !in Gone(Z, {}) && Ring(v, Without(ColRings(Z)[j], Gone(Z, {})))
    {
      ColRingDistinct(Z, j);
      WithoutNone(ColRing(Z, j));
    }
  }

  lemma NotGone(Z: seq<seq<int>>, S: set<int>, y: int)
    requires WellFormed(Z) && 1 <= y < Size(Z)
    ensures y !in Gone(Z, S) <==> Pos(Z, y) == -1 || Alive(Z, S, RowIdx(Z)[y])
  {
  }

  /** Membership of what is left of a column. */
  lemma PresentColIn(Z: seq<seq<int>>, S: set<int>, c: int, y: int)
    requires WellFormed(Z) && 0 <= c < |Z|
    ensures y in PresentCol(Z, S, c) <==> 1 <= y < Size(Z) && Col(Z, y) == c && y !in Gone(Z, S)
    ensures Distinct(PresentCol(Z, S, c)) && |PresentCol(Z, S, c)| >= 1
    ensures PresentCol(Z, S, c)[0] == Node(Z, c, -1)
  {
    ColRingIn(Z, c, y);
    WithoutIn(ColRing(Z, c), Gone(Z, S));
    ColRingDistinct(Z, c);
    WithoutDistinct(ColRing(Z, c), Gone(Z, S));
    NodeBounds(Z, c, -1);
    PlacesAt(Z, c, -1);
    WithoutFirst(ColRing(Z, c), Gone(Z, S));
  }

  /** A cell of a live row is still linked into its column. */
  lemma AliveCellPresent(Z: seq<seq<int>>, S: set<int>, i: int, y: int)
    requires WellFormed(Z) && Alive(Z, S, i) && y in RowRing(Z, i)
    ensures IsCell(Z, y) && RowIdx(Z)[y] == i && y in Present(Z, S)
    ensures y in PresentCol(Z, S, Col(Z, y))
  {
    RowRingIn(Z, i, y);
    RowIdxOf(Z, y);
    PresentColIn(Z, S, Col(Z, y), y);
  }

  /** Under Inv the present nodes form consistent lists: each is the column ring they lie in. */
  lemma {:induction false} PresentLinked(Z: seq<seq<int>>, S: set<int>, h: Chain, v: Chain)
    requires Inv(Z, S, h, v)
    ensures Linked(v, Present(Z, S))
  {
    var P := Present(Z, S);
    forall y | y in P
      ensures 0 <= y < |v.next| && v.next[y] in P && v.prev[y] in P
      ensures v.prev[v.next[y]] == y && v.next[v.prev[y]] == y
    {
      var c := Col(Z, y);
      var W := PresentCol(Z, S, c);
      assert ColRings(Z)[c] == ColRing(Z, c);
      PresentColIn(Z, S, c, y);
      var k := IndexOf(W, y);
      RingLinkedAt(v, W, k);
      PresentColIn(Z, S, c, v.next[y]);
      PresentColIn(Z, S, c, v.prev[y]);
    }
  }

  lemma RootIn(Z: seq<seq<int>>, S: set<int>, y: int)
    requires WellFormed(Z)
    ensures y in PresentRoot(Z, S) <==>
      y == 0 || (1 <= y < Size(Z) && Pos(Z, y) == -1 && Active(Z, S, Col(Z, y)))
    ensures Distinct(PresentRoot(Z, S)) && PresentRoot(Z, S)[0] == 0
  {
    RootRingIn(Z, y);
    WithoutIn(RootRing(Z), InactiveHeads(Z, S));
    WithoutDistinct(RootRing(Z), InactiveHeads(Z, S));
    if y in InactiveHeads(Z, S) {
      var j :| 0 <= j < |Z| && !Active(Z, S, j) && y == Node(Z, j, -1);
      NodeBounds(Z, j, -1);
      PlacesAt(Z, j, -1);
    }
    if 1 <= y < Size(Z) && Pos(Z, y) == -1 && !Active(Z, S, Col(Z, y)) {
      PlaceOf(Z, y);
      assert y in InactiveHeads(Z, S);
    }
    forall j | 0 <= j < |Z| && !Active(Z, S, j)
      ensures Node(Z, j, -1) != 0
    {
      NodeBounds(Z, j, -1);
    }
    assert 0 !in InactiveHeads(Z, S);
    WithoutFirst(RootRing(Z), InactiveHeads(Z, S));
  }

  /** The root ring is the root alone exactly when every column has been covered. */
  lemma {:induction false} RootAlone(Z: seq<seq<int>>, S: set<int>, h: Chain, v: Chain)
    requires Inv(Z, S, h, v)
    ensures h.next[0] == 0 <==> forall j :: 0 <= j < |Z| ==> !Active(Z, S, j)
  {
    var W := PresentRoot(Z, S);
    RootIn(Z, S, 0);
    if h.next[0] == 0 {
      forall j | 0 <= j < |Z|
        ensures !Active(Z, S, j)
      {
        NodeBounds(Z, j, -1);
        PlacesAt(Z, j, -1);
        RootIn(Z, S, Node(Z, j, -1));
      }
    } else {
      assert |W| > 1 && h.next[0] == W[1];
      RootIn(Z, S, W[1]);
      PlaceOf(Z, W[1]);
    }
  }

  /** The first active column from column j on; |Z| when there is none. */
  ghost function FirstActive(Z: seq<seq<int>>, S: set<int>, j: int): (r: int)
    requires 0 <= j <= |Z|
    ensures j <= r <= |Z| && (r < |Z| ==> Active(Z, S, r))
    ensures forall i :: j <= i < r ==> !Active(Z, S, i)
    decreases |Z| - j
  {
    if j == |Z| then |Z| else if Active(Z, S, j) then j else FirstActive(Z, S, j + 1)
  }

  /** In a search state the right neighbour of the root is the header of the leftmost active
      column, or the root itself when every column is covered. */
  lemma {:induction false} RootRight(Z: seq<seq<int>>, S: set<int>, h: Chain, v: Chain)
    requires Inv(Z, S, h, v)
    ensures FirstActive(Z, S, 0) < |Z| ==> h.next[0] == Node(Z, FirstActive(Z, S, 0), -1)
    ensures FirstActive(Z, S, 0) == |Z| <==> h.next[0] == 0
  {
    var j := FirstActive(Z, S, 0);
    var D := InactiveHeads(Z, S);
    var W := PresentRoot(Z, S);
    RootIn(Z, S, 0);
    RootAlone(Z, S, h, v);
    if j < |Z| {
      var RR := RootRing(Z);
      var Hs := RR[1..];
      assert RR == [0] + Hs;
      WithoutConcat([0], Hs, D);
      assert Without([0], D) == [0];
      forall i | 0 <= i < j
        ensures Hs[i] in D
      {
        assert Hs[i] == Node(Z, i, -1);
      }
      if Hs[j] in D {
        var i :| 0 <= i < |Z| && !Active(Z, S, i) && Hs[j] == Node(Z, i, -1);
        NodeInjective(Z, i, -1, j, -1);
      }
      WithoutHead(Hs, D, j);
      assert W[1] == Node(Z, j, -1);
      RingNextAt(h, W, 0);
    }
  }

  /** A node of what is left of column c other than its header is a cell of a live row with a 1
      in column c. */
  lemma ColumnCell(Z: seq<seq<int>>, S: set<int>, c: int, t: int)
    requires WellFormed(Z) && 0 <= c < |Z| && 1 <= t < |PresentCol(Z, S, c)|
    ensures var y := PresentCol(Z, S, c)[t];
      IsCell(Z, y) && RowIdx(Z)[y] in Z[c] && Alive(Z, S, RowIdx(Z)[y]) && y in RowRing(Z, RowIdx(Z)[y])
  {
    var W := PresentCol(Z, S, c);
    var y := W[t];
    PresentColIn(Z, S, c, y);
    RowIdxOf(Z, y);
    NotGone(Z, S, y);
    RowRingIn(Z, RowIdx(Z)[y], y);
  }

  /** Every live row with a 1 in column c has its cell there in what is left of column c, below
      the header. */
  lemma AliveInColumn(Z: seq<seq<int>>, S: set<int>, c: int, i: int) returns (u: int)
    requires WellFormed(Z) && 0 <= c < |Z| && i in Z[c] && Alive(Z, S, i)
    ensures 1 <= u < |PresentCol(Z, S, c)| && IsCell(Z, PresentCol(Z, S, c)[u])
    ensures RowIdx(Z)[PresentCol(Z, S, c)[u]] == i
  {
    var W := PresentCol(Z, S, c);
    var t := IndexOf(Z[c], i);
    var y := Node(Z, c, t);
    NodeBounds(Z, c, t);
    PlacesAt(Z, c, t);
    RowIdxAt(Z, c, t);
    NotGone(Z, S, y);
    PresentColIn(Z, S, c, y);
    u := IndexOf(W, y);
    if u == 0 {
      NodeInjective(Z, c, t, c, -1);
    }
  }

  /** In a search state, down from the t-th node of what is left of an active column c comes
      the next one, and down from the last comes the header. */
  lemma ColumnNext(Z: seq<seq<int>>, S: set<int>, h: Chain, v: Chain, c: int, t: int)
    requires Inv(Z, S, h, v) && 0 <= c < |Z| && Active(Z, S, c) && 0 <= t < |PresentCol(Z, S, c)|
    ensures PresentCol(Z, S, c)[0] == Node(Z, c, -1)
    ensures 0 <= PresentCol(Z, S, c)[t] < |v.next|
    ensures v.next[PresentCol(Z, S, c)[t]] ==
      if t + 1 < |PresentCol(Z, S, c)| then PresentCol(Z, S, c)[t + 1] else PresentCol(Z, S, c)[0]
  {
    PresentColIn(Z, S, c, 0);
    ActiveRing(Z, S, h, v, c);
    RingNextAt(v, PresentCol(Z, S, c), t);
  }

  /** In a search state what is left of an active column is one ring of the down links. */
  lemma ActiveRing(Z: seq<seq<int>>, S: set<int>, h: Chain, v: Chain, c: int)
    requires Inv(Z, S, h, v) && 0 <= c < |Z| && Active(Z, S, c)
    ensures Ring(v, PresentCol(Z, S, c))
  {
    assert c in ActiveSet(Z, S) && ColRings(Z)[c] == ColRing(Z, c);
  }
}
