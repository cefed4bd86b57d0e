/** Where every node of a NodeMap sits and which rings it forms, as functions of the matrix.

    NodeMap(cols) creates, in this order, the root, then for each column j its header followed by
    one cell for every row i with cols[j][i] == 1, in increasing i.  A node is named by its
    creation number; Node(Z, j, t) is the t-th cell of column j and Node(Z, j, -1) its header,
    where Z[j] lists the rows of the 1s of column j. */
module NodeLayout {
  import opened Links

  /** The rows i with col[i] == 1, in increasing order. */
  function Ones(col: seq<int>): (z: seq<int>)
    ensures forall k :: 0 <= k < |z| ==> 0 <= z[k] < |col| && col[z[k]] == 1
    ensures forall i :: 0 <= i < |col| && col[i] == 1 ==> i in z
    decreases |col|
  {
    if col == [] then []
    else Ones(col[..|col| - 1]) + (if col[|col| - 1] == 1 then [|col| - 1] else [])
  }

  ghost predicate Increasing(z: seq<int>)
  {
    forall a, b :: 0 <= a < b < |z| ==> z[a] < z[b]
  }

  lemma OnesIncreasing(col: seq<int>)
    ensures Increasing(Ones(col))
    decreases |col|
  {
    if col != [] {
      OnesIncreasing(col[..|col| - 1]);
    }
  }

  /** Every column lists distinct, non-negative rows in increasing order. */
  ghost predicate WellFormed(Z: seq<seq<int>>)
  {
    forall j :: 0 <= j < |Z| ==> Increasing(Z[j]) && forall t :: 0 <= t < |Z[j]| ==> Z[j][t] >= 0
  }

  /** The number of cells in the columns before column j. */
  function Offset(Z: seq<seq<int>>, j: int): nat
    requires 0 <= j <= |Z|
  {
    if j == 0 then 0 else Offset(Z, j - 1) + |Z[j - 1]|
  }

  /** The creation number of the t-th cell of column j; t == -1 names the column's header. */
  function Node(Z: seq<seq<int>>, j: int, t: int): int
    requires 0 <= j <= |Z|
  {
    2 + j + Offset(Z, j) + t
  }

  /** The number of nodes: the root, one header per column and one node per 1. */
  function Size(Z: seq<seq<int>>): int
  {
    Node(Z, |Z|, -1)
  }

  /** The row_index of every node in creation order: -1 for the root and the headers. */
  function RowIdx(Z: seq<seq<int>>): (r: seq<int>)
    ensures |r| == Size(Z)
    decreases |Z|
  {
    if Z == [] then [-1]
    else
      var init := Z[..|Z| - 1];
      OffsetPrefix(Z, init, |Z| - 1);
      RowIdx(init) + [-1] + Z[|Z| - 1]
  }

  /** Offset(Z, j) depends on the columns before j only. */
  lemma OffsetPrefix(Z: seq<seq<int>>, Z': seq<seq<int>>, j: int)
    requires 0 <= j <= |Z| && j <= |Z'| && Z[..j] == Z'[..j]
    ensures Offset(Z, j) == Offset(Z', j)
  {
    if j > 0 {
      assert Z[..j - 1] == Z'[..j - 1];
      assert Z[j - 1] == Z[..j][j - 1];
      OffsetPrefix(Z, Z', j - 1);
    }
  }

  /** A coordinate of a node: a header (t == -1) or a cell of column j. */
  ghost predicate IsPlace(Z: seq<seq<int>>, j: int, t: int)
  {
    0 <= j < |Z| && -1 <= t < |Z[j]|
  }

  lemma NodeNext(Z: seq<seq<int>>, j: int)
    requires 0 <= j < |Z|
    ensures Node(Z, j + 1, -1) == Node(Z, j, |Z[j]|)
  {
  }

  lemma NodeMonotone(Z: seq<seq<int>>, j: int, k: int)
    requires 0 <= j <= k <= |Z|
    ensures Node(Z, j, -1) + (k - j) <= Node(Z, k, -1)
    decreases k - j
  {
    if j < k {
      NodeMonotone(Z, j + 1, k);
    }
  }

  /** Nodes lie between 1 and Size - 1, and different places are different nodes. */
  lemma NodeBounds(Z: seq<seq<int>>, j: int, t: int)
    requires IsPlace(Z, j, t)
    ensures 1 <= Node(Z, j, t) < Size(Z)
    ensures Node(Z, j, -1) <= Node(Z, j, t) < Node(Z, j + 1, -1)
  {
    NodeMonotone(Z, j + 1, |Z|);
  }

  lemma NodeInjective(Z: seq<seq<int>>, j: int, t: int, j': int, t': int)
    requires IsPlace(Z, j, t) && IsPlace(Z, j', t') && Node(Z, j, t) == Node(Z, j', t')
    ensures j == j' && t == t'
  {
    NodeBounds(Z, j, t);
    NodeBounds(Z, j', t');
    if j < j' {
      NodeMonotone(Z, j + 1, j');
    } else if j' < j {
      NodeMonotone(Z, j' + 1, j);
    }
  }

  /** The row_index of a node: -1 for the header of a column, the row for one of its cells. */
  lemma {:induction false} RowIdxAt(Z: seq<seq<int>>, j: int, t: int)
    requires IsPlace(Z, j, t)
    ensures 0 <= Node(Z, j, t) < |RowIdx(Z)|
    ensures RowIdx(Z)[Node(Z, j, t)] == if t == -1 then -1 else Z[j][t]
    decreases |Z|
  {
    NodeBounds(Z, j, t);
    var n := |Z| - 1;
    var init := Z[..n];
    OffsetPrefix(Z, init, n);
    var A := RowIdx(init);
    assert RowIdx(Z) == A + [-1] + Z[n] && |A| == Node(Z, n, -1);
    if j < n {
      OffsetPrefix(Z, init, j);
      RowIdxAt(init, j, t);
      NodeBounds(init, j, t);
      ConcatIndexLeft(A, [-1] + Z[n], Node(Z, j, t));
    } else {
      ConcatIndexRight(A, [-1] + Z[n], Node(Z, j, t));
    }
  }

  lemma ConcatIndexLeft(a: seq<int>, b: seq<int>, i: int)
    requires 0 <= i < |a|
    ensures (a + b)[i] == a[i]
  {
  }

  lemma ConcatIndexRight(a: seq<int>, b: seq<int>, i: int)
    requires |a| <= i < |a| + |b|
    ensures (a + b)[i] == b[i - |a|]
  {
  }

  lemma RowIdxRoot(Z: seq<seq<int>>)
    ensures RowIdx(Z)[0] == -1
    decreases |Z|
  {
    if Z != [] {
      RowIdxRoot(Z[..|Z| - 1]);
    }
  }
  /** The column and the position in it of a node; the root has column -1. */
  datatype Place = Place(col: int, pos: int)

  ghost function Places(Z: seq<seq<int>>): (p: seq<Place>)
    ensures |p| == Size(Z)
    decreases |Z|
  {
    if Z == [] then [Place(-1, -1)]
    else
      var init := Z[..|Z| - 1];
      OffsetPrefix(Z, init, |Z| - 1);
      Places(init) + seq(|Z[|Z| - 1]| + 1, t => Place(|Z| - 1, t - 1))
  }

  lemma PlacesAt(Z: seq<seq<int>>, j: int, t: int)
    requires IsPlace(Z, j, t)
    ensures 0 <= Node(Z, j, t) < |Places(Z)| && Places(Z)[Node(Z, j, t)] == Place(j, t)
    decreases |Z|
  {
    NodeBounds(Z, j, t);
    var init := Z[..|Z| - 1];
    OffsetPrefix(Z, init, |Z| - 1);
    if j < |Z| - 1 {
      OffsetPrefix(Z, init, j);
      PlacesAt(init, j, t);
      NodeBounds(init, j, t);
    }
  }

  /** Every node but the root is the node of its place. */
  lemma PlaceOf(Z: seq<seq<int>>, y: int)
    requires 1 <= y < Size(Z)
    ensures IsPlace(Z, Places(Z)[y].col, Places(Z)[y].pos)
    ensures Node(Z, Places(Z)[y].col, Places(Z)[y].pos) == y
    decreases |Z|
  {
    var init := Z[..|Z| - 1];
    OffsetPrefix(Z, init, |Z| - 1);
    if y < Size(init) {
      PlaceOf(init, y);
      var q := Places(init)[y];
      OffsetPrefix(Z, init, q.col);
    }
  }

  ghost function Col(Z: seq<seq<int>>, y: int): (c: int)
    requires 0 <= y < Size(Z)
    ensures 1 <= y ==> 0 <= c < |Z|
  {
    if 1 <= y then PlaceOf(Z, y); Places(Z)[y].col else Places(Z)[y].col
  }

  ghost function Pos(Z: seq<seq<int>>, y: int): (t: int)
    requires 0 <= y < Size(Z)
    ensures 1 <= y ==> 0 <= Col(Z, y) < |Z| && -1 <= t < |Z[Col(Z, y)]|
  {
    if 1 <= y then PlaceOf(Z, y); Places(Z)[y].pos else Places(Z)[y].pos
  }

  /** y is a node standing for a 1 of the matrix, not the root nor a header. */
  ghost predicate IsCell(Z: seq<seq<int>>, y: int)
  {
    1 <= y < Size(Z) && Pos(Z, y) >= 0
  }

  /** The row_index of a node, read from its place. */
  lemma RowIdxOf(Z: seq<seq<int>>, y: int)
    requires 1 <= y < Size(Z)
    ensures IsPlace(Z, Col(Z, y), Pos(Z, y)) && Node(Z, Col(Z, y), Pos(Z, y)) == y
    ensures RowIdx(Z)[y] == if Pos(Z, y) == -1 then -1 else Z[Col(Z, y)][Pos(Z, y)]
  {
    PlaceOf(Z, y);
    RowIdxAt(Z, Col(Z, y), Pos(Z, y));
  }

  /** The header of column j followed by its cells, top to bottom. */
  ghost function ColRing(Z: seq<seq<int>>, j: int): seq<int>
    requires 0 <= j < |Z|
  {
    seq(|Z[j]| + 1, k requires 0 <= k < |Z[j]| + 1 => Node(Z, j, k - 1))
  }

  ghost function ColRings(Z: seq<seq<int>>): seq<seq<int>>
  {
    seq(|Z|, j requires 0 <= j < |Z| => ColRing(Z, j))
  }

  lemma ColRingIn(Z: seq<seq<int>>, j: int, y: int)
    requires 0 <= j < |Z|
    ensures y in ColRing(Z, j) <==> 1 <= y < Size(Z) && Col(Z, y) == j
  {
    if y in ColRing(Z, j) {
      var k :| 0 <= k < |Z[j]| + 1 && ColRing(Z, j)[k] == y;
      NodeBounds(Z, j, k - 1);
      PlacesAt(Z, j, k - 1);
    }
    if 1 <= y < Size(Z) && Col(Z, y) == j {
      PlaceOf(Z, y);
      assert ColRing(Z, j)[Pos(Z, y) + 1] == y;
    }
  }

  lemma ColRingDistinct(Z: seq<seq<int>>, j: int)
    requires 0 <= j < |Z|
    ensures Distinct(ColRing(Z, j)) && ColRing(Z, j)[0] == Node(Z, j, -1)
  {
  }

  /** Columns share no node. */
  lemma ColRingsDisjoint(Z: seq<seq<int>>, J: set<int>)
    ensures Disjoint(ColRings(Z), J)
  {
    forall j, j', k | j in J && j' in J && j != j' && 0 <= j < |Z| && 0 <= j' < |Z| && 0 <= k < |ColRings(Z)[j]|
      ensures ColRings(Z)[j][k] !in ColRings(Z)[j']
    {
      var y := ColRings(Z)[j][k];
      assert y in ColRing(Z, j);
      ColRingIn(Z, j, y);
      ColRingIn(Z, j', y);
    }
  }

  /** The root followed by the headers of all columns, left to right. */
  ghost function RootRing(Z: seq<seq<int>>): seq<int>
  {
    [0] + seq(|Z|, j requires 0 <= j < |Z| => Node(Z, j, -1))
  }

  lemma RootRingIn(Z: seq<seq<int>>, y: int)
    ensures y in RootRing(Z) <==> y == 0 || (1 <= y < Size(Z) && Pos(Z, y) == -1)
    ensures Distinct(RootRing(Z)) && RootRing(Z)[0] == 0
  {
    var R := RootRing(Z);
    RootRingDistinct(Z);
    if y in R && y != 0 {
      var k :| 0 <= k < |R| && R[k] == y;
      NodeBounds(Z, k - 1, -1);
      PlacesAt(Z, k - 1, -1);
    }
    if 1 <= y < Size(Z) && Pos(Z, y) == -1 {
      PlaceOf(Z, y);
      assert R[Col(Z, y) + 1] == y;
    }
  }

  lemma RootRingDistinct(Z: seq<seq<int>>)
    ensures Distinct(RootRing(Z)) && RootRing(Z)[0] == 0
  {
    var R := RootRing(Z);
    forall a, b | 0 <= a < b < |R|
      ensures R[a] != R[b]
    {
      NodeBounds(Z, b - 1, -1);
      if a > 0 {
        NodeMonotone(Z, a - 1, b - 1);
      }
    }
  }

  /** The position of the first occurrence of x in z. */
  function IndexOf(z: seq<int>, x: int): (k: int)
    requires x in z
    ensures 0 <= k < |z| && z[k] == x && x !in z[..k]
  {
    if z[0] == x then 0 else assert z == [z[0]] + z[1..]; 1 + IndexOf(z[1..], x)
  }

  /** The cell of row i in column j. */
  ghost function CellOf(Z: seq<seq<int>>, j: int, i: int): int
    requires 0 <= j < |Z| && i in Z[j]
  {
    Node(Z, j, IndexOf(Z[j], i))
  }

  /** The cells of row i in the columns before n, left to right. */
  ghost function RowRingUpTo(Z: seq<seq<int>>, i: int, n: int): seq<int>
    requires 0 <= n <= |Z|
  {
    if n == 0 then []
    else RowRingUpTo(Z, i, n - 1) + (if i in Z[n - 1] then [CellOf(Z, n - 1, i)] else [])
  }

  /** The cells of row i, left to right: one row of the structure. */
  ghost function RowRing(Z: seq<seq<int>>, i: int): seq<int>
  {
    RowRingUpTo(Z, i, |Z|)
  }
  lemma IndexUnique(z: seq<int>, t: int)
    requires Increasing(z) && 0 <= t < |z|
    ensures IndexOf(z, z[t]) == t
  {
  }

  lemma IncreasingDistinct(z: seq<int>)
    requires Increasing(z)
    ensures Distinct(z)
  {
  }

  /** The cells of row i before column n: exactly the cells of row i in those columns, in
      increasing order of creation. */
  lemma {:induction false} RowRingUpToIn(Z: seq<seq<int>>, i: int, n: int, y: int)
    requires WellFormed(Z) && 0 <= n <= |Z|
    ensures y in RowRingUpTo(Z, i, n) <==> IsCell(Z, y) && Col(Z, y) < n && RowIdx(Z)[y] == i
  {
    if 1 <= y < Size(Z) {
      RowIdxOf(Z, y);
    }
    if n > 0 {
      RowRingUpToIn(Z, i, n - 1, y);
      if i in Z[n - 1] {
        var t := IndexOf(Z[n - 1], i);
        PlacesAt(Z, n - 1, t);
        RowIdxAt(Z, n - 1, t);
        NodeBounds(Z, n - 1, t);
        if IsCell(Z, y) && Col(Z, y) == n - 1 && RowIdx(Z)[y] == i {
          IndexUnique(Z[n - 1], Pos(Z, y));
        }
      }
    }
  }

  lemma RowRingUpToIncreasing(Z: seq<seq<int>>, i: int, n: int)
    requires 0 <= n <= |Z|
    ensures Increasing(RowRingUpTo(Z, i, n))
    ensures forall k :: 0 <= k < |RowRingUpTo(Z, i, n)| ==> RowRingUpTo(Z, i, n)[k] < Node(Z, n, -1)
  {
    if n > 0 {
      RowRingUpToIncreasing(Z, i, n - 1);
      NodeNext(Z, n - 1);
      if i in Z[n - 1] {
        var t := IndexOf(Z[n - 1], i);
        NodeMonotone(Z, n - 1, n);
      }
    }
  }

  lemma RowRingIn(Z: seq<seq<int>>, i: int, y: int)
    requires WellFormed(Z)
    ensures y in RowRing(Z, i) <==> IsCell(Z, y) && RowIdx(Z)[y] == i
    ensures Distinct(RowRing(Z, i))
  {
    RowRingUpToIn(Z, i, |Z|, y);
    if 1 <= y < Size(Z) {
      PlaceOf(Z, y);
    }
    RowRingUpToIncreasing(Z, i, |Z|);
    IncreasingDistinct(RowRing(Z, i));
  }

  /** The cells of x's row after x, going right and wrapping round, without x itself. */
  ghost function RowTail(Z: seq<seq<int>>, i: int, x: int): seq<int>
  {
    var R := RowRing(Z, i);
    if x in R then R[IndexOf(R, x) + 1..] + R[..IndexOf(R, x)] else []
  }

  lemma {:induction false} RowTailIn(Z: seq<seq<int>>, i: int, x: int, y: int)
    requires WellFormed(Z) && x in RowRing(Z, i)
    ensures y in RowTail(Z, i, x) <==> y in RowRing(Z, i) && y != x
    ensures Distinct(RowTail(Z, i, x))
  {
    var R := RowRing(Z, i);
    var q := IndexOf(R, x);
    RowRingIn(Z, i, x);
    RowTailRotate(Z, i, x);
    DistinctRotate(R, q);
    RotateMembers(R, q, x, RowTail(Z, i, x), y);
  }

  /** Read from x, the row ring is x followed by the rest of its row. */
  lemma {:induction false} RowTailRotate(Z: seq<seq<int>>, i: int, x: int)
    requires x in RowRing(Z, i)
    ensures var R := RowRing(Z, i); R[IndexOf(R, x)..] + R[..IndexOf(R, x)] == [x] + RowTail(Z, i, x)
  {
    var R := RowRing(Z, i);
    RotateAt(R, IndexOf(R, x));
  }

  lemma RotateAt(R: seq<int>, q: int)
    requires 0 <= q < |R|
    ensures R[q..] + R[..q] == [R[q]] + (R[q + 1..] + R[..q])
  {
    assert R[q..] == [R[q]] + R[q + 1..];
  }
  /** Columns agreeing before column n give the same row rings before n. */
  lemma {:induction false} RowRingUpToPrefix(Z: seq<seq<int>>, Z': seq<seq<int>>, i: int, n: int)
    requires 0 <= n <= |Z| && n <= |Z'| && Z[..n] == Z'[..n]
    ensures RowRingUpTo(Z, i, n) == RowRingUpTo(Z', i, n)
  {
    if n > 0 {
      assert Z[..n - 1] == Z'[..n - 1];
      assert Z[n - 1] == Z[..n][n - 1] && Z'[n - 1] == Z'[..n][n - 1];
      RowRingUpToPrefix(Z, Z', i, n - 1);
      OffsetPrefix(Z, Z', n - 1);
    }
  }

  /** Adding an empty column: a new header at the right end of the root ring. */
  lemma {:induction false} AddEmptyColumn(Z: seq<seq<int>>)
    ensures Size(Z + [[]]) == Size(Z) + 1 && RowIdx(Z + [[]]) == RowIdx(Z) + [-1]
    ensures RootRing(Z + [[]]) == RootRing(Z) + [Size(Z)]
    ensures forall j :: 0 <= j < |Z| ==> ColRing(Z + [[]], j) == ColRing(Z, j)
    ensures ColRing(Z + [[]], |Z|) == [Size(Z)]
    ensures forall i :: RowRing(Z + [[]], i) == RowRing(Z, i)
  {
    var Z' := Z + [[]];
    assert Z'[..|Z|] == Z;
    OffsetPrefix(Z', Z, |Z|);
    assert RowIdx(Z') == RowIdx(Z) + [-1] + [];
    forall j | 0 <= j < |Z|
      ensures ColRing(Z', j) == ColRing(Z, j) && Node(Z', j, -1) == Node(Z, j, -1)
    {
      assert Z'[..j] == Z[..j];
      OffsetPrefix(Z', Z, j);
    }
    forall i
      ensures RowRing(Z', i) == RowRing(Z, i)
    {
      RowRingUpToPrefix(Z', Z, i, |Z|);
    }
  }

  lemma {:induction false} AddEmptyRoot(Z: seq<seq<int>>)
    ensures Size(Z + [[]]) == Size(Z) + 1 && RootRing(Z + [[]]) == RootRing(Z) + [Size(Z)]
  {
    var Z' := Z + [[]];
    assert Z'[..|Z|] == Z;
    OffsetPrefix(Z', Z, |Z|);
    forall j | 0 <= j < |Z|
      ensures Node(Z', j, -1) == Node(Z, j, -1)
    {
      assert Z'[..j] == Z[..j];
      OffsetPrefix(Z', Z, j);
    }
  }

  /** Adding row i at the bottom of the last column: a new cell at the end of that column's ring
      and of row i's ring, every other ring unchanged. */
  /** The cell add_col adds for a 1 of row i at the bottom of the last column is the node right
      after the existing ones, and the cells of row i in the earlier columns are those row i had. */
  lemma AddCellLast(M: seq<seq<int>>, z: seq<int>, i: int)
    requires i !in z
    ensures var Z' := M + [z + [i]]; var J := |M|;
      |Z'| >= 1 && |Z'[J]| >= 1 && Z'[J][|Z'[J]| - 1] == i && Node(Z', J, |Z'[J]| - 1) == Size(M + [z])
      && RowRingUpTo(Z', i, J) == RowRing(M + [z], i)
  {
    OffsetPrefix(M + [z + [i]], M + [z], |M|);
    AddCellRow(M, z, i, i);
    assert (M + [z + [i]])[|M|] == z + [i] && (z + [i])[|z|] == i;
  }

  lemma {:induction false} AddCellSize(M: seq<seq<int>>, z: seq<int>, i: int)
    ensures Size(M + [z + [i]]) == Size(M + [z]) + 1 && RowIdx(M + [z + [i]]) == RowIdx(M + [z]) + [i]
  {
    var Z, Z' := M + [z], M + [z + [i]];
    assert Z[..|M|] == M && Z'[..|M|] == M;
    OffsetPrefix(Z', Z, |M|);
    assert Z[..|Z| - 1] == M && Z'[..|Z'| - 1] == M;
  }

  /** The columns before the last keep their nodes; the last column's ring gains the new cell. */
  lemma {:induction false} AddCellColumn(M: seq<seq<int>>, z: seq<int>, i: int, j: int)
    requires 0 <= j <= |M|
    ensures Node(M + [z + [i]], j, -1) == Node(M + [z], j, -1)
    ensures j < |M| ==> ColRing(M + [z + [i]], j) == ColRing(M + [z], j)
    ensures j == |M| ==> ColRing(M + [z + [i]], j) == ColRing(M + [z], j) + [Size(M + [z])]
  {
    var Z, Z' := M + [z], M + [z + [i]];
    assert Z'[..j] == Z[..j];
    OffsetPrefix(Z', Z, j);
    if j == |M| {
      AddCellSize(M, z, i);
    }
  }

  lemma {:induction false} AddCellRoot(M: seq<seq<int>>, z: seq<int>, i: int)
    ensures RootRing(M + [z + [i]]) == RootRing(M + [z])
  {
    forall j | 0 <= j < |M| + 1
      ensures Node(M + [z + [i]], j, -1) == Node(M + [z], j, -1)
    {
      AddCellColumn(M, z, i, j);
    }
  }

  lemma {:induction false} AddCellRow(M: seq<seq<int>>, z: seq<int>, i: int, i': int)
    requires i !in z
    ensures var Z, Z' := M + [z], M + [z + [i]];
      (i' == i ==> RowRing(Z', i) == RowRing(Z, i) + [Size(Z)] && RowRingUpTo(Z', i, |M|) == RowRing(Z, i))
      && (i' != i ==> RowRing(Z', i') == RowRing(Z, i'))
  {
    var Z, Z' := M + [z], M + [z + [i]];
    var J := |M|;
    assert Z[..J] == M && Z'[..J] == M;
    OffsetPrefix(Z', Z, J);
    RowRingUpToPrefix(Z', Z, i', J);
    assert Z'[J] == z + [i] && Z[J] == z;
    assert RowRing(Z', i') == RowRingUpTo(Z', i', J) + (if i' in Z'[J] then [CellOf(Z', J, i')] else []);
    assert RowRing(Z, i') == RowRingUpTo(Z, i', J) + (if i' in Z[J] then [CellOf(Z, J, i')] else []);
    if i' == i {
      assert i in Z'[J];
      assert IndexOf(Z'[J], i) == |z| by {
        assert Z'[J][|z|] == i;
        assert Z'[J][..|z|] == z;
      }
      AddCellSize(M, z, i);
      assert CellOf(Z', J, i) == Size(Z);
    } else {
      assert i' in Z'[J] <==> i' in z;
      if i' in z {
        IndexOfAppend(z, i', i);
      }
    }
  }

  lemma {:induction false} IndexOfAppend(z: seq<int>, x: int, y: int)
    requires x in z
    ensures x in z + [y] && IndexOf(z + [y], x) == IndexOf(z, x)
  {
    if z[0] != x {
      assert (z + [y])[1..] == z[1..] + [y];
      IndexOfAppend(z[1..], x, y);
    }
  }
  /** The links NodeMap lays out for the columns Z, the row rings apart: the root ring of the
      headers, one vertical ring per column, and the root alone in its vertical ring.
      h holds the (right, left) links and v the (down, up) links. */
  ghost predicate Columns(Z: seq<seq<int>>, h: Chain, v: Chain, rx: seq<int>)
  {
    WellFormed(Z) && Valid(h) && Valid(v) && |h.next| == Size(Z) && |v.next| == Size(Z)
    && rx == RowIdx(Z)
    && Ring(h, RootRing(Z))
    && (forall j :: 0 <= j < |Z| ==> Ring(v, ColRing(Z, j)))
    && v.next[0] == 0 && v.prev[0] == 0
  }

  /** Every row with a 1 is one horizontal ring of its cells, left to right. */
  ghost predicate Rows(Z: seq<seq<int>>, h: Chain)
    requires Valid(h)
  {
    forall i :: RowRing(Z, i) != [] ==> Ring(h, RowRing(Z, i))
  }

  ghost predicate Built(Z: seq<seq<int>>, h: Chain, v: Chain, rx: seq<int>)
  {
    Columns(Z, h, v, rx) && Rows(Z, h)
  }

  /** In a built map every node's neighbours point back at it: left[right[n]] == n and
      right[left[n]] == n, and likewise up[down[n]] == n and down[up[n]] == n. */
  lemma BuiltInverse(Z: seq<seq<int>>, h: Chain, v: Chain, rx: seq<int>)
    requires Built(Z, h, v, rx)
    ensures forall n :: 0 <= n < Size(Z) ==> h.prev[h.next[n]] == n && h.next[h.prev[n]] == n
    ensures forall n :: 0 <= n < Size(Z) ==> v.prev[v.next[n]] == n && v.next[v.prev[n]] == n
  {
    forall n | 0 <= n < Size(Z)
      ensures h.prev[h.next[n]] == n && h.next[h.prev[n]] == n
      ensures v.prev[v.next[n]] == n && v.next[v.prev[n]] == n
    {
      RootRingIn(Z, n);
      if n in RootRing(Z) {
        RingInverseAt(h, RootRing(Z), n);
      } else {
        RowRingIn(Z, RowIdx(Z)[n], n);
        RingInverseAt(h, RowRing(Z, RowIdx(Z)[n]), n);
      }
      if n != 0 {
        ColRingIn(Z, Col(Z, n), n);
        RingInverseAt(v, ColRing(Z, Col(Z, n)), n);
      }
    }
  }

  lemma RingInverseAt(s: Chain, ring: seq<int>, y: int)
    requires Valid(s) && Ring(s, ring) && y in ring
    ensures s.prev[s.next[y]] == y && s.next[s.prev[y]] == y
  {
    var k :| 0 <= k < |ring| && ring[k] == y;
    RingLinkedAt(s, ring, k);
  }

  /** The root alone. */
  lemma BuiltStart()
    ensures Built([], Chain([0], [0]), Chain([0], [0]), [-1])
  {
    assert RootRing([]) == [0];
    forall i
      ensures RowRing([], i) == []
    {
    }
  }

  /** A root ring element is the root or a header; a row ring element is a cell. */
  lemma RootAndRows(Z: seq<seq<int>>, a: int, i: int, y: int)
    requires WellFormed(Z) && a in RootRing(Z) && y in RowRing(Z, i)
    ensures a != y && 0 <= a < Size(Z) && 0 <= y < Size(Z)
    ensures RowIdx(Z)[a] == -1 && RowIdx(Z)[y] == i && i >= 0
  {
    RootRingIn(Z, a);
    RowRingIn(Z, i, y);
    RowIdxOf(Z, y);
    if a == 0 {
      RowIdxRoot(Z);
    } else {
      RowIdxOf(Z, a);
    }
  }

  /** add_col, first part: a new header node linked in at the right end of the root ring. */
  lemma {:induction false} BuiltAddHeader(M: seq<seq<int>>, h: Chain, v: Chain, rx: seq<int>)
    requires Built(M, h, v, rx)
    ensures var y, a := Size(M), h.prev[0];
      Built(M + [[]],
        Chain((h.next + [y])[a := y][y := 0], (h.prev + [y])[0 := y][y := a]),
        Chain(v.next + [y], v.prev + [y]), rx + [-1])
  {
    var y, a := Size(M), h.prev[0];
    var Z := M + [[]];
    var h1, v1 := Chain(h.next + [y], h.prev + [y]), Chain(v.next + [y], v.prev + [y]);
    var h2 := Chain((h.next + [y])[a := y][y := 0], (h.prev + [y])[0 := y][y := a]);
    AddEmptyColumn(M);
    assert WellFormed(Z);
    HeaderRoot(M, h, h1, h2);
    HeaderColumns(M, v, v1);
    HeaderRows(M, h, h1, h2);
  }

  lemma {:induction false} HeaderRoot(M: seq<seq<int>>, h: Chain, h1: Chain, h2: Chain)
    requires Valid(h) && |h.next| == Size(M) && Ring(h, RootRing(M))
    requires h1 == Chain(h.next + [Size(M)], h.prev + [Size(M)])
    requires h2 == Chain(h1.next[h.prev[0] := Size(M)][Size(M) := 0], h1.prev[0 := Size(M)][Size(M) := h.prev[0]])
    ensures Valid(h1) && Valid(h2) && Ring(h2, RootRing(M + [[]]))
  {
    var y, a := Size(M), h.prev[0];
    AddEmptyRoot(M);
    RootRingIn(M, y);
    RingGrow(h, h1, RootRing(M));
    RingInsert(h1, RootRing(M), y);
    assert h2 == Chain(h1.next[a := y][y := 0], h1.prev[0 := y][y := a]);
  }

  lemma {:induction false} HeaderColumns(M: seq<seq<int>>, v: Chain, v1: Chain)
    requires Valid(v) && |v.next| == Size(M) && (forall j :: 0 <= j < |M| ==> Ring(v, ColRing(M, j)))
    requires v.next[0] == 0 && v.prev[0] == 0
    requires v1 == Chain(v.next + [Size(M)], v.prev + [Size(M)])
    ensures Valid(v1) && (forall j :: 0 <= j < |M| + 1 ==> Ring(v1, ColRing(M + [[]], j)))
    ensures v1.next[0] == 0 && v1.prev[0] == 0
  {
    var y := Size(M);
    AddEmptyColumn(M);
    forall j | 0 <= j < |M| + 1
      ensures Ring(v1, ColRing(M + [[]], j))
    {
      if j < |M| {
        RingGrow(v, v1, ColRing(M, j));
      } else {
        assert ColRing(M + [[]], j) == [y];
      }
    }
  }

  lemma {:induction false} HeaderRows(M: seq<seq<int>>, h: Chain, h1: Chain, h2: Chain)
    requires WellFormed(M) && Valid(h) && |h.next| == Size(M) && Ring(h, RootRing(M)) && Rows(M, h)
    requires h1 == Chain(h.next + [Size(M)], h.prev + [Size(M)])
    requires h2 == Chain(h1.next[h.prev[0] := Size(M)][Size(M) := 0], h1.prev[0 := Size(M)][Size(M) := h.prev[0]])
    ensures Valid(h2) && Rows(M + [[]], h2)
  {
    AddEmptyColumn(M);
    forall i | RowRing(M + [[]], i) != []
      ensures Ring(h2, RowRing(M + [[]], i))
    {
      HeaderRow(M, h, h1, h2, i);
    }
  }

  lemma {:induction false} HeaderRow(M: seq<seq<int>>, h: Chain, h1: Chain, h2: Chain, i: int)
    requires WellFormed(M) && Valid(h) && |h.next| == Size(M) && Ring(h, RootRing(M))
    requires RowRing(M, i) != [] && Ring(h, RowRing(M, i))
    requires h1 == Chain(h.next + [Size(M)], h.prev + [Size(M)])
    requires h2 == Chain(h1.next[h.prev[0] := Size(M)][Size(M) := 0], h1.prev[0 := Size(M)][Size(M) := h.prev[0]])
    ensures Valid(h2) && Ring(h2, RowRing(M, i))
  {
    var y, a := Size(M), h.prev[0];
    var R := RowRing(M, i);
    RingNeighbours(h, RootRing(M), 0);
    assert 0 in RootRing(M);
    RingGrow(h, h1, R);
    if a in R {
      RootAndRows(M, a, i, a);
    }
    if 0 in R {
      RootAndRows(M, 0, i, 0);
    }
    if y in R {
      RowRingIn(M, i, y);
    }
    RingAvoid(h1, R, a, y, y, 0, 0, y, y, a);
  }
  lemma RootRingIdx(Z: seq<seq<int>>, a: int)
    requires a in RootRing(Z)
    ensures 0 <= a < Size(Z) && RowIdx(Z)[a] == -1
  {
    RootRingIn(Z, a);
    if a == 0 {
      RowIdxRoot(Z);
    } else {
      RowIdxOf(Z, a);
    }
  }

  lemma RowRingIdx(Z: seq<seq<int>>, i: int, y: int)
    requires WellFormed(Z) && y in RowRing(Z, i)
    ensures 1 <= y < Size(Z) && RowIdx(Z)[y] == i && i >= 0
  {
    RowRingIn(Z, i, y);
    RowIdxOf(Z, y);
  }

  /** add_col, for a 1 in row i: a new cell y linked in at the bottom of the last column, whose
      header is hd and whose bottom cell was a. */
  lemma {:induction false} BuiltAddCellColumn(M: seq<seq<int>>, z: seq<int>, i: int, h: Chain, v: Chain, rx: seq<int>,
                                              y: int, hd: int, a: int, h1: Chain, v1: Chain, v2: Chain, rx1: seq<int>)
    requires Built(M + [z], h, v, rx) && i !in z && WellFormed(M + [z + [i]])
    requires y == Size(M + [z]) && hd == Node(M + [z], |M|, -1) && 0 <= hd < |v.prev| && a == v.prev[hd]
    requires h1 == Chain(h.next + [y], h.prev + [y]) && v1 == Chain(v.next + [y], v.prev + [y])
    requires v2 == Chain(v1.next[a := y][y := hd], v1.prev[hd := y][y := a]) && rx1 == rx + [i]
    ensures Columns(M + [z + [i]], h1, v2, rx1)
    ensures Rows(M + [z], h1) && h1.next[y] == y && h1.prev[y] == y
  {
    var Z, Z2 := M + [z], M + [z + [i]];
    AddCellSize(M, z, i);
    AddCellRoot(M, z, i);
    GrowRows(Z, h, h1);
    forall j | 0 <= j < |Z2|
      ensures Ring(v2, ColRing(Z2, j))
    {
      CellColumn(M, z, i, v, v1, v2, j);
    }
    CellColumn(M, z, i, v, v1, v2, |M|);
    ColRingIn(Z, |M|, 0);
    ColRingIn(Z, |M|, a);
    assert 0 != a && 0 != hd;
    assert v2.next[0] == 0 && v2.prev[0] == 0;
    assert rx1 == RowIdx(Z2) && |v2.next| == Size(Z2) && |h1.next| == Size(Z2);
  }

  lemma {:induction false} GrowRows(Z: seq<seq<int>>, h: Chain, h1: Chain)
    requires Valid(h) && |h.next| == Size(Z) && Rows(Z, h) && Ring(h, RootRing(Z))
    requires h1 == Chain(h.next + [Size(Z)], h.prev + [Size(Z)])
    ensures Valid(h1) && Rows(Z, h1) && Ring(h1, RootRing(Z))
  {
    RingGrow(h, h1, RootRing(Z));
    forall i' | RowRing(Z, i') != []
      ensures Ring(h1, RowRing(Z, i'))
    {
      RingGrow(h, h1, RowRing(Z, i'));
    }
  }

  lemma {:induction false} CellColumn(M: seq<seq<int>>, z: seq<int>, i: int, v: Chain, v1: Chain, v2: Chain, j: int)
    requires i !in z && Valid(v) && |v.next| == Size(M + [z])
    requires forall j :: 0 <= j < |M| + 1 ==> Ring(v, ColRing(M + [z], j))
    requires v1 == Chain(v.next + [Size(M + [z])], v.prev + [Size(M + [z])])
    requires var y, hd := Size(M + [z]), Node(M + [z], |M|, -1); var a := v.prev[hd];
      v2 == Chain(v1.next[a := y][y := hd], v1.prev[hd := y][y := a])
    requires 0 <= j <= |M|
    ensures Valid(v2) && Ring(v2, ColRing(M + [z + [i]], j))
  {
    var Z := M + [z];
    var y, hd := Size(Z), Node(Z, |M|, -1);
    var a := v.prev[hd];
    AddCellColumn(M, z, i, j);
    var C := ColRing(Z, |M|);
    RingGrow(v, v1, C);
    ColRingDistinct(Z, |M|);
    assert a == C[|C| - 1];
    if j == |M| {
      ColRingIn(Z, |M|, y);
      InsertAtBottom(v1, C, y, v2);
      assert ColRing(M + [z + [i]], j) == C + [y];
    } else {
      var D := ColRing(Z, j);
      RingGrow(v, v1, D);
      ColRingIn(Z, j, a);
      ColRingIn(Z, j, hd);
      ColRingIn(Z, j, y);
      ColRingIn(Z, |M|, a);
      RingAvoid(v1, D, a, y, y, hd, hd, y, y, a);
    }
  }

  lemma InsertAtBottom(v1: Chain, C: seq<int>, y: int, v2: Chain)
    requires Valid(v1) && Ring(v1, C) && Distinct(C) && 0 <= y < |v1.next| && y !in C
    requires v2 == Chain(v1.next[C[|C| - 1] := y][y := C[0]], v1.prev[C[0] := y][y := C[|C| - 1]])
    ensures Valid(v2) && Ring(v2, C + [y])
  {
    RingInsert(v1, C, y);
  }

  /** add_col, for a 1 in row i: the new cell linked in after L, the cell of row i in the nearest
      column to the left (or the cell itself when row i has no other cell). */
  lemma {:induction false} BuiltAddCellRow(M: seq<seq<int>>, z: seq<int>, i: int, h: Chain, v: Chain, rx: seq<int>, L: int,
                                           h3: Chain)
    requires i !in z && Columns(M + [z + [i]], h, v, rx) && Rows(M + [z], h)
    requires |h.next| == Size(M + [z]) + 1
    requires var y := Size(M + [z]); h.next[y] == y && h.prev[y] == y
    requires var R := RowRing(M + [z], i); L == if R == [] then Size(M + [z]) else R[|R| - 1]
    requires var y, b := Size(M + [z]), h.next[L]; h3 == Chain(h.next[y := b][L := y], h.prev[b := y][y := L])
    ensures Built(M + [z + [i]], h3, v, rx)
  {
    var Z, Z2 := M + [z], M + [z + [i]];
    AddCellSize(M, z, i);
    assert WellFormed(Z) by {
      assert forall j :: 0 <= j < |M| ==> Z[j] == Z2[j];
      assert forall t :: 0 <= t < |z| ==> z[t] == Z2[|M|][t];
    }
    CellRowRoot(M, z, i, h, L, h3);
    forall i' | RowRing(Z2, i') != []
      ensures Ring(h3, RowRing(Z2, i'))
    {
      CellRowRing(M, z, i, h, L, i');
    }
  }

  /** The root ring does not hold the nodes BuiltAddCellRow relinks. */
  lemma {:induction false} CellRowRoot(M: seq<seq<int>>, z: seq<int>, i: int, h: Chain, L: int, h3: Chain)
    requires i !in z && WellFormed(M + [z + [i]]) && WellFormed(M + [z])
    requires Valid(h) && Ring(h, RootRing(M + [z + [i]]))
    requires RowRing(M + [z], i) != [] ==> Ring(h, RowRing(M + [z], i))
    requires |h.next| == Size(M + [z]) + 1
    requires var y := Size(M + [z]); h.next[y] == y && h.prev[y] == y
    requires var R := RowRing(M + [z], i); L == if R == [] then Size(M + [z]) else R[|R| - 1]
    requires var y, b := Size(M + [z]), h.next[L]; h3 == Chain(h.next[y := b][L := y], h.prev[b := y][y := L])
    ensures Valid(h3) && Ring(h3, RootRing(M + [z + [i]]))
  {
    var Z2 := M + [z + [i]];
    var y := Size(M + [z]);
    var b := RowLinkCells(M, z, i, h, L);
    NotRoot(Z2, y);
    NotRoot(Z2, L);
    NotRoot(Z2, b);
    RingAvoid(h, RootRing(Z2), y, b, L, y, b, y, y, L);
  }

  /** The new node y, the node L it goes right of and the node b right of L are all cells of
      row i once y is added. */
  lemma RowLinkCells(M: seq<seq<int>>, z: seq<int>, i: int, h: Chain, L: int) returns (b: int)
    requires i !in z && WellFormed(M + [z + [i]]) && WellFormed(M + [z])
    requires Valid(h) && (RowRing(M + [z], i) != [] ==> Ring(h, RowRing(M + [z], i)))
    requires |h.next| == Size(M + [z]) + 1
    requires var y := Size(M + [z]); h.next[y] == y && h.prev[y] == y
    requires var R := RowRing(M + [z], i); L == if R == [] then Size(M + [z]) else R[|R| - 1]
    ensures b == h.next[L] && |h.next| == Size(M + [z + [i]]) && i >= 0
    ensures 0 <= L < |h.next| && 0 <= b < |h.next| && RowIdx(M + [z + [i]])[L] == i && RowIdx(M + [z + [i]])[b] == i
    ensures RowIdx(M + [z + [i]])[Size(M + [z])] == i
  {
    var Z, Z2 := M + [z], M + [z + [i]];
    var R := RowRing(Z, i);
    AddCellSize(M, z, i);
    RowRingIdx(Z2, i, Size(Z));
    if R != [] {
      RingNeighbours(h, R, L);
      RowRingIdx(Z, i, L);
      RowRingIdx(Z, i, h.next[L]);
    }
    b := h.next[L];
  }

  /** A node with a row is not in the root ring. */
  lemma NotRoot(Z: seq<seq<int>>, x: int)
    requires 0 <= x < Size(Z) && RowIdx(Z)[x] >= 0
    ensures x !in RootRing(Z)
  {
    if x in RootRing(Z) {
      RootRingIdx(Z, x);
    }
  }

  lemma {:induction false} CellRowRing(M: seq<seq<int>>, z: seq<int>, i: int, h: Chain, L: int, i': int)
    requires i !in z && WellFormed(M + [z + [i]]) && WellFormed(M + [z])
    requires Valid(h) && |h.next| == Size(M + [z + [i]]) && Rows(M + [z], h) && RowRing(M + [z + [i]], i') != []
    requires |h.next| == Size(M + [z]) + 1
    requires var y := Size(M + [z]); h.next[y] == y && h.prev[y] == y
    requires var R := RowRing(M + [z], i); L == if R == [] then Size(M + [z]) else R[|R| - 1]
    requires 0 <= L < |h.next|
    ensures var y, b := Size(M + [z]), h.next[L];
      Valid(Chain(h.next[y := b][L := y], h.prev[b := y][y := L]))
      && Ring(Chain(h.next[y := b][L := y], h.prev[b := y][y := L]), RowRing(M + [z + [i]], i'))
  {
    var Z := M + [z];
    var y, b := Size(Z), h.next[L];
    var R := RowRing(Z, i);
    AddCellRow(M, z, i, i');
    if R != [] {
      RingNeighbours(h, R, L);
      RowRingIdx(Z, i, L);
      RowRingIdx(Z, i, b);
    }
    if i' == i {
      CellRowSame(Z, i, h, y, L, b);
    } else {
      CellRowOther(Z, i, i', h, y, L, b);
    }
  }

  /** The new cell y joins the ring of its row after L, the row's last cell, or alone. */
  lemma {:induction false} CellRowSame(Z: seq<seq<int>>, i: int, h: Chain, y: int, L: int, b: int)
    requires WellFormed(Z) && Valid(h) && y == Size(Z) && |h.next| == y + 1
    requires h.next[y] == y && h.prev[y] == y
    requires RowRing(Z, i) != [] ==> Ring(h, RowRing(Z, i))
    requires var R := RowRing(Z, i); L == if R == [] then y else R[|R| - 1]
    requires 0 <= L < |h.next| && b == h.next[L]
    ensures Valid(Chain(h.next[y := b][L := y], h.prev[b := y][y := L]))
    ensures Ring(Chain(h.next[y := b][L := y], h.prev[b := y][y := L]), RowRing(Z, i) + [y])
  {
    var R := RowRing(Z, i);
    if R == [] {
      assert h.next[y := b][L := y] == h.next && h.prev[b := y][y := L] == h.prev;
      assert R + [y] == [y];
    } else {
      RowRingIn(Z, i, y);
      assert b == R[0];
      RingInsert(h, R, y);
      assert h.next[y := b][L := y] == h.next[L := y][y := b];
    }
  }

  /** The rings of the other rows do not see the new cell. */
  lemma {:induction false} CellRowOther(Z: seq<seq<int>>, i: int, i': int, h: Chain, y: int, L: int, b: int)
    requires WellFormed(Z) && Valid(h) && y == Size(Z) && |h.next| == y + 1 && i' != i
    requires RowRing(Z, i') != [] && Ring(h, RowRing(Z, i'))
    requires 0 <= L < |h.next| && 0 <= b < |h.next|
    requires L == y || (L < y && RowIdx(Z)[L] == i)
    requires b == y || (b < y && RowIdx(Z)[b] == i)
    ensures Valid(Chain(h.next[y := b][L := y], h.prev[b := y][y := L]))
    ensures Ring(Chain(h.next[y := b][L := y], h.prev[b := y][y := L]), RowRing(Z, i'))
  {
    var R' := RowRing(Z, i');
    if y in R' {
      RowRingIn(Z, i', y);
    }
    if L in R' {
      RowRingIdx(Z, i', L);
    }
    if b in R' {
      RowRingIdx(Z, i', b);
    }
    RingAvoid(h, R', y, b, L, y, b, y, y, L);
  }
  lemma WellFormedAppend(M: seq<seq<int>>, z: seq<int>)
    requires WellFormed(M) && Increasing(z) && forall t :: 0 <= t < |z| ==> z[t] >= 0
    ensures WellFormed(M + [z])
  {
    assert forall j :: 0 <= j < |M| ==> (M + [z])[j] == M[j];
  }

  /** Ones of a prefix grows by one row exactly when the next entry is a 1. */
  lemma OnesStep(col: seq<int>, i: int)
    requires 0 <= i < |col|
    ensures Ones(col[..i + 1]) == Ones(col[..i]) + (if col[i] == 1 then [i] else [])
    ensures i !in Ones(col[..i]) && Increasing(Ones(col[..i + 1]))
    ensures var z := Ones(col[..i + 1]); forall t :: 0 <= t < |z| ==> z[t] >= 0
  {
    assert col[..i + 1][..i] == col[..i];
    OnesIncreasing(col[..i + 1]);
  }

  /** The last cell of row i left of column n is its cell in column c when no column between
      c and n holds row i. */
  lemma {:induction false} RowRingLast(Z: seq<seq<int>>, i: int, c: int, n: int)
    requires 0 <= c < n <= |Z| && i in Z[c]
    requires forall j :: c < j < n ==> i !in Z[j]
    ensures var R := RowRingUpTo(Z, i, n); |R| > 0 && R[|R| - 1] == CellOf(Z, c, i)
    decreases n
  {
    if n - 1 > c {
      RowRingLast(Z, i, c, n - 1);
    }
  }

  lemma {:induction false} RowRingNone(Z: seq<seq<int>>, i: int, n: int)
    requires 0 <= n <= |Z| && forall j :: 0 <= j < n ==> i !in Z[j]
    ensures RowRingUpTo(Z, i, n) == []
  {
    if n > 0 {
      RowRingNone(Z, i, n - 1);
    }
  }
  /** One step left along the root ring: from the header of column c to the header of c - 1,
      from the first header to the root, and from the root (c == -1) to the last header. */
  lemma StepLeft(Z: seq<seq<int>>, h: Chain, v: Chain, rx: seq<int>, c: int)
    requires Columns(Z, h, v, rx) && -1 <= c < |Z|
    ensures var n := if c == -1 then 0 else Node(Z, c, -1);
      (0 <= n < |h.prev|
       && h.prev[n] == if c == -1 then (if Z == [] then 0 else Node(Z, |Z| - 1, -1))
                       else if c == 0 then 0 else Node(Z, c - 1, -1))
  {
    var R := RootRing(Z);
    if c == -1 {
      assert h.prev[R[0]] == R[|R| - 1];
    } else {
      assert h.prev[R[c + 1]] == R[c];
    }
  }

  /** One step down a column ring, and the row_index of the node reached. */
  lemma StepDown(Z: seq<seq<int>>, h: Chain, v: Chain, rx: seq<int>, c: int, t: int)
    requires Columns(Z, h, v, rx) && IsPlace(Z, c, t)
    ensures var n, t' := Node(Z, c, t), if t + 1 < |Z[c]| then t + 1 else -1;
      0 <= n < |v.next| && v.next[n] == Node(Z, c, t') && 0 <= Node(Z, c, t') < |rx|
      && rx[Node(Z, c, t')] == if t' == -1 then -1 else Z[c][t']
  {
    var C := ColRing(Z, c);
    assert Ring(v, C);
    assert Node(Z, c, t) == C[t + 1];
    if t + 1 < |Z[c]| {
      assert v.next[C[t + 1]] == C[t + 2];
      RowIdxAt(Z, c, t + 1);
    } else {
      assert v.next[C[t + 1]] == C[0];
      RowIdxAt(Z, c, -1);
    }
  }
  /** One step up a column ring, and the row_index of the node reached. */
  lemma StepUp(Z: seq<seq<int>>, h: Chain, v: Chain, rx: seq<int>, c: int, t: int)
    requires Columns(Z, h, v, rx) && IsPlace(Z, c, t)
    ensures var n, t' := Node(Z, c, t), if t == -1 then |Z[c]| - 1 else t - 1;
      (0 <= n < |v.prev| && v.prev[n] == Node(Z, c, t') && 0 <= Node(Z, c, t') < |rx|
       && rx[Node(Z, c, t')] == if t' == -1 then -1 else Z[c][t'])
  {
    var C := ColRing(Z, c);
    assert Ring(v, C);
    assert Node(Z, c, t) == C[t + 1];
    if t == -1 {
      assert v.prev[C[0]] == C[|C| - 1];
      RowIdxAt(Z, c, |Z[c]| - 1);
    } else {
      assert v.prev[C[t + 1]] == C[t];
      RowIdxAt(Z, c, t - 1);
    }
  }
}
