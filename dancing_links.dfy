/** The node map of the dancing-links solver, as a class.

    Every node of the structure is a number, in creation order: 0 is the root, and add_col
    creates a header and then one cell per 1 of its column.  The four link fields and row_index
    of the nodes are sequences indexed by that number, so the class updates pointer fields by
    updating one entry of a sequence.  The layout lemmas of NodeLayout say which numbers the
    rings hold. */
module DancingLinks {
  import opened Links
  import opened NodeLayout
  import opened SearchState
  import opened CoverPlan
  import opened CoverSteps
  import opened UncoverSteps
  import opened ExactCover

  /** The columns of a 0/1 constraint matrix as lists of the rows holding their 1s. */
  ghost function Matrix(cols: seq<seq<int>>): seq<seq<int>>
  {
    seq(|cols|, j requires 0 <= j < |cols| => Ones(cols[j]))
  }

  lemma MatrixStep(cols: seq<seq<int>>, k: int)
    requires 0 <= k < |cols|
    ensures Matrix(cols[..k + 1]) == Matrix(cols[..k]) + [Ones(cols[k])]
  {
  }

  class NodeMap {
    /** Node k links to left[k], right[k], up[k] and down[k]. */
    var left: seq<int>
    var right: seq<int>
    var up: seq<int>
    var down: seq<int>
    /** The row of a cell; -1 for the root and for the column headers. */
    var rowIndex: seq<int>
    /** The rows chosen so far by the search, in the order chosen. */
    var solution: seq<int>

    /** The horizontal links (right, left) and the vertical links (down, up). */
    ghost function H(): Chain
      reads this
    {
      Chain(right, left)
    }

    ghost function V(): Chain
      reads this
    {
      Chain(down, up)
    }

    /** A new node linked to itself in both directions. */
    method NewNode(row: int) returns (x: int)
      modifies this
      ensures x == |old(right)|
      ensures right == old(right) + [x] && left == old(left) + [x]
      ensures down == old(down) + [x] && up == old(up) + [x]
      ensures rowIndex == old(rowIndex) + [row] && solution == old(solution)
    {
      x := |right|;
      left, right, up, down := left + [x], right + [x], up + [x], down + [x];
      rowIndex := rowIndex + [row];
    }

    method RemoveFromRow(x: int)
      requires Valid(H()) && 0 <= x < |right|
      modifies this
      ensures H() == Unlink(old(H()), x)
      ensures up == old(up) && down == old(down) && rowIndex == old(rowIndex) && solution == old(solution)
    {
      right := right[left[x] := right[x]];
      left := left[right[x] := left[x]];
    }

    method RemoveFromCol(x: int)
      requires Valid(V()) && 0 <= x < |down|
      modifies this
      ensures V() == Unlink(old(V()), x)
      ensures left == old(left) && right == old(right) && rowIndex == old(rowIndex) && solution == old(solution)
    {
      down := down[up[x] := down[x]];
      up := up[down[x] := up[x]];
    }

    /** put_in_row reads x's right link after the first store, so a node whose left link names
        itself is only linked to itself; otherwise this is Relink. */
    method PutInRow(x: int)
      requires Valid(H()) && 0 <= x < |right|
      modifies this
      ensures old(left[x]) != x ==> H() == Relink(old(H()), x)
      ensures old(left[x]) == x ==> right == old(right)[x := x] && left == old(left)
      ensures up == old(up) && down == old(down) && rowIndex == old(rowIndex) && solution == old(solution)
    {
      right := right[left[x] := x];
      left := left[right[x] := x];
    }

    method PutInCol(x: int)
      requires Valid(V()) && 0 <= x < |down|
      modifies this
      ensures old(up[x]) != x ==> V() == Relink(old(V()), x)
      ensures old(up[x]) == x ==> down == old(down)[x := x] && up == old(up)
      ensures left == old(left) && right == old(right) && rowIndex == old(rowIndex) && solution == old(solution)
    {
      down := down[up[x] := x];
      up := up[down[x] := x];
    }

    /** col_header: walk up from node x, at position t0 of column j, until a node with
        row_index -1, which is the header of that column. */
    method ColHeader(ghost Z: seq<seq<int>>, ghost j: int, ghost t0: int, x: int) returns (hd: int)
      requires Columns(Z, H(), V(), rowIndex) && IsPlace(Z, j, t0) && x == Node(Z, j, t0)
      ensures hd == Node(Z, j, -1)
    {
      StepUp(Z, H(), V(), rowIndex, j, t0);
      hd := up[x];
      ghost var t := if t0 == -1 then |Z[j]| - 1 else t0 - 1;
      while rowIndex[hd] != -1
        invariant -1 <= t < |Z[j]| && hd == Node(Z, j, t)
        invariant 0 <= hd < |rowIndex| && rowIndex[hd] == if t == -1 then -1 else Z[j][t]
        decreases t
      {
        StepUp(Z, H(), V(), rowIndex, j, t);
        hd := up[hd];
        t := t - 1;
      }
    }

    /** The inner walk of traverse_find_left_node: from the header of column c (or from the root,
        c == -1) down the column until a node of the given row or the header again.  Increasing
        rows make the first hit the row's cell. */
    method FindInColumn(ghost Z: seq<seq<int>>, ghost c: int, start: int, row: int) returns (node: int)
      requires Columns(Z, H(), V(), rowIndex) && row >= 0 && -1 <= c < |Z|
      requires start == if c == -1 then 0 else Node(Z, c, -1)
      ensures c == -1 ==> node == 0
      ensures c >= 0 && row in Z[c] ==> node == CellOf(Z, c, row)
      ensures c >= 0 && row !in Z[c] ==> node == Node(Z, c, -1)
      ensures 0 <= node < |rowIndex| && (rowIndex[node] == row <==> c >= 0 && row in Z[c])
    {
      RowIdxRoot(Z);
      node := start;
      ghost var t := -1;
      while true
        invariant c >= 0 ==> -1 <= t < |Z[c]| && node == Node(Z, c, t)
        invariant c >= 0 ==> row !in Z[c][..t + 1]
        invariant c == -1 ==> node == 0
        decreases if c == -1 then 0 else |Z[c]| - t
      {
        if c >= 0 {
          StepDown(Z, H(), V(), rowIndex, c, t);
          assert t + 1 == |Z[c]| || Z[c][..t + 2] == Z[c][..t + 1] + [Z[c][t + 1]];
          t := if t + 1 < |Z[c]| then t + 1 else -1;
        }
        node := down[node];
        if rowIndex[node] == row {
          assert c >= 0 && Z[c][t] == row;
          IndexUnique(Z[c], t);
          return;
        } else if rowIndex[node] == -1 {
          assert c >= 0 ==> t == -1 && Z[c][..|Z[c]|] == Z[c];
          return;
        }
      }
    }

    /** traverse_find_left_node for the cell x just added at the bottom of the last column:
        the cell of the same row in the nearest column to the left, or x itself when the row has
        no other cell.  The walk goes left along the headers, down each column, and wraps
        around through the root to the last column. */
    method TraverseFindLeftNode(x: int, ghost Z: seq<seq<int>>) returns (l: int)
      requires Columns(Z, H(), V(), rowIndex) && |Z| >= 1
      requires var J := |Z| - 1; |Z[J]| >= 1 && x == Node(Z, J, |Z[J]| - 1)
      ensures var J := |Z| - 1; var R := RowRingUpTo(Z, Z[J][|Z[J]| - 1], J);
        l == if R == [] then x else R[|R| - 1]
      ensures 0 <= l < |right|
    {
      ghost var J := |Z| - 1;
      ghost var last := |Z[J]| - 1;
      RowIdxAt(Z, J, last);
      var row := rowIndex[x];
      var node := ColHeader(Z, J, last, x);
      ghost var c := J;
      while true
        invariant -1 <= c <= J && node == (if c == -1 then 0 else Node(Z, c, -1))
        invariant forall j :: 0 <= j && c <= j < J ==> row !in Z[j]
        decreases c + 2
      {
        StepLeft(Z, H(), V(), rowIndex, c);
        ghost var wrapped := c == -1;
        c := if c == -1 then J else c - 1;
        node := left[node];
        node := FindInColumn(Z, c, node, row);
        if rowIndex[node] == row {
          if wrapped {
            RowRingNone(Z, row, J);
            IndexUnique(Z[J], last);
          } else {
            RowRingLast(Z, row, c, J);
          }
          return node;
        }
        assert !wrapped;
      }
    }

    /** NodeMap's constructor: the root, then one add_col per column of the matrix. */
    constructor (cols: seq<seq<int>>)
      ensures Built(Matrix(cols), H(), V(), rowIndex) && solution == []
    {
      left, right, up, down := [0], [0], [0], [0];
      rowIndex := [-1];
      solution := [];
      new;
      BuiltStart();
      ghost var Z: seq<seq<int>> := [];
      for k := 0 to |cols|
        invariant Z == Matrix(cols[..k]) && Built(Z, H(), V(), rowIndex) && solution == []
      {
        AddCol(cols[k], Z);
        MatrixStep(cols, k);
        Z := Z + [Ones(cols[k])];
      }
      assert cols[..|cols|] == cols;
    }

    /** add_col: a header at the right end of the root ring, then for every 1 of the column, a
        cell at the bottom of the column, linked into its row after the cell found by
        traverse_find_left_node. */
    method AddCol(col: seq<int>, ghost M: seq<seq<int>>)
      requires Built(M, H(), V(), rowIndex)
      modifies this
      ensures Built(M + [Ones(col)], H(), V(), rowIndex) && solution == old(solution)
    {
      ghost var h0, v0, rx0 := H(), V(), rowIndex;
      var colHeader := NewNode(-1);
      right := right[left[0] := colHeader];
      left := left[colHeader := left[0]];
      left := left[0 := colHeader];
      right := right[colHeader := 0];
      BuiltAddHeader(M, h0, v0, rx0);
      assert left == (h0.prev + [colHeader])[0 := colHeader][colHeader := h0.prev[0]];
      OffsetPrefix(M + [[]], M, |M|);
      assert col[..0] == [];
      ghost var z: seq<int> := [];
      for i := 0 to |col|
        invariant z == Ones(col[..i]) && WellFormed(M)
        invariant Built(M + [z], H(), V(), rowIndex) && colHeader == Node(M + [z], |M|, -1)
        invariant solution == old(solution)
      {
        OnesStep(col, i);
        if col[i] == 1 {
          WellFormedAppend(M, z + [i]);
          AddCell(colHeader, i, M, z);
          z := z + [i];
        } else {
          assert z + [] == z;
        }
      }
      assert col[..|col|] == col;
    }

    /** The body of add_col's loop for a 1 in row i of the column whose header is colHeader and
        whose rows so far are z. */
    method AddCell(colHeader: int, i: int, ghost M: seq<seq<int>>, ghost z: seq<int>)
      requires Built(M + [z], H(), V(), rowIndex) && i !in z && WellFormed(M + [z + [i]])
      requires colHeader == Node(M + [z], |M|, -1)
      modifies this
      ensures Built(M + [z + [i]], H(), V(), rowIndex) && solution == old(solution)
      ensures colHeader == Node(M + [z + [i]], |M|, -1)
    {
      var curr := AddCellToColumn(colHeader, i, M, z);
      ghost var h1 := H();
      AddCellLast(M, z, i);
      var leftNode := TraverseFindLeftNode(curr, M + [z + [i]]);
      LinkAfter(leftNode, curr);
      BuiltAddCellRow(M, z, i, h1, V(), rowIndex, leftNode, H());
    }

    /** The first half of AddCell: a new cell for row i, linked into the bottom of its column and
        still alone in its row. */
    method AddCellToColumn(colHeader: int, i: int, ghost M: seq<seq<int>>, ghost z: seq<int>) returns (curr: int)
      requires Built(M + [z], H(), V(), rowIndex) && i !in z && WellFormed(M + [z + [i]])
      requires colHeader == Node(M + [z], |M|, -1)
      modifies this
      ensures curr == Size(M + [z]) && |right| == Size(M + [z]) + 1
      ensures Columns(M + [z + [i]], H(), V(), rowIndex) && Rows(M + [z], H())
      ensures right[curr] == curr && left[curr] == curr && solution == old(solution)
    {
      ghost var h, v, rx := H(), V(), rowIndex;
      curr := NewNode(i);
      ghost var h1, v1, rx1 := H(), V(), rowIndex;
      ghost var a := up[colHeader];
      LinkAbove(colHeader, curr);
      UpdateSwap(v1.prev, curr, a, colHeader, curr);
      ghost var v2 := Chain(v1.next[a := curr][curr := colHeader], v1.prev[colHeader := curr][curr := a]);
      assert V() == v2;
      BuiltAddCellColumn(M, z, i, h, v, rx, curr, colHeader, a, h1, v1, v2, rx1);
    }

    /** add_col's vertical insertion: y goes just above the header hd, at the bottom of its
        column. */
    method LinkAbove(hd: int, y: int)
      requires Valid(V()) && 0 <= hd < |down| && 0 <= y < |down|
      modifies this
      ensures var a := old(up[hd]); V() == Chain(old(down)[a := y][y := hd], old(up)[y := a][hd := y])
      ensures H() == old(H()) && rowIndex == old(rowIndex) && solution == old(solution)
    {
      down := down[up[hd] := y];
      up := up[y := up[hd]];
      up := up[hd := y];
      down := down[y := hd];
    }

    /** add_col's horizontal insertion: y goes just right of L. */
    method LinkAfter(L: int, y: int)
      requires Valid(H()) && 0 <= L < |right| && 0 <= y < |right|
      modifies this
      ensures var b := old(right[L]); H() == Chain(old(right)[y := b][L := y], old(left)[b := y][y := L])
      ensures V() == old(V()) && rowIndex == old(rowIndex) && solution == old(solution)
    {
      left := left[right[L] := y];
      right := right[y := right[L]];
      right := right[L := y];
      left := left[y := L];
    }

    /** The innermost loop of cover, for a clashing cell w whose row ring is w followed by T:
        every other cell of the row is unlinked from its column, going right from w; w itself
        stays linked. */
    method HideRow(w: int, ghost T: seq<int>)
      requires Valid(H()) && Valid(V()) && |down| == |right|
      requires Ring(H(), [w] + T) && Distinct([w] + T)
      modifies this
      ensures InRange(T, |old(down)|) && V() == RemoveAll(old(V()), T)
      ensures H() == old(H()) && rowIndex == old(rowIndex) && solution == old(solution)
    {
      ghost var v0 := V();
      ghost var X := [w] + T;
      assert X[0] == w && (|T| > 0 ==> X[1] == T[0]);
      assert forall i :: 0 <= i < |T| ==> T[i] == X[i + 1];
      var node := right[w];
      ghost var i := 0;
      while node != w
        invariant 0 <= i <= |T| && node == if i < |T| then T[i] else w
        invariant Valid(V()) && |down| == |right| && H() == old(H())
        invariant V() == RemoveAll(v0, T[..i])
        invariant rowIndex == old(rowIndex) && solution == old(solution)
        decreases |T| - i
      {
        RemoveFromCol(node);
        assert T[..i + 1][..i] == T[..i];
        node := right[node];
        i := i + 1;
      }
      assert T[..i] == T;
    }

    /** cover, for the cell r of row R that the search has just chosen: for each cell of the
        row, starting right of r and ending with r itself, the walk of its column (CoverColumn).
        Afterwards the links are the search state with R chosen, and they are the links
        before with the headers and the blocks of the phases unlinked, in order. */
    method Cover(r: int, ghost Z: seq<seq<int>>, ghost S: set<int>, ghost R: int)
      requires Inv(Z, S, H(), V()) && rowIndex == RowIdx(Z) && Alive(Z, S, R) && r in RowRing(Z, R)
      modifies this
      ensures InRange(Heads(Z, Phases(Z, R, r)), Size(Z)) && InRange(Plan(Z, S, Phases(Z, R, r)), Size(Z))
      ensures H() == RemoveAll(old(H()), Heads(Z, Phases(Z, R, r)))
      ensures V() == RemoveAll(old(V()), Plan(Z, S, Phases(Z, R, r)))
      ensures Inv(Z, S + {R}, H(), V())
      ensures rowIndex == old(rowIndex) && solution == old(solution)
    {
      ghost var ps := Phases(Z, R, r);
      ghost var h0, v0 := H(), V();
      PhasesOf(Z, S, R, r, r);
      CoverStart(Z, S, ps, h0, v0);
      PhaseLink(Z, R, r, h0, 0);
      assert ps[..0] == [] && Heads(Z, []) == [];
      var node := right[r];
      ghost var k := 0;
      while true
        invariant 0 <= k < |ps| && node == ps[k]
        invariant InRange(Heads(Z, ps[..k]), Size(Z)) && InRange(Plan(Z, S, ps[..k]), Size(Z))
        invariant H() == RemoveAll(h0, Heads(Z, ps[..k])) && V() == RemoveAll(v0, Plan(Z, S, ps[..k]))
        invariant CoverInv(Z, S, ps, k, H(), V())
        invariant rowIndex == old(rowIndex) && solution == old(solution)
        decreases |ps| - k
      {
        CoverColumn(node, Z, S, R, ps, k);
        PhaseAdvance(Z, S, ps, k, h0, v0);
        if node == r {
          break;
        }
        PhaseLink(Z, R, r, H(), k + 1);
        node := right[node];
        k := k + 1;
      }
      assert ps[|ps| - 1] == r;
      TakeAll(ps, k + 1);
      CoverPost(Z, S, R, r, H(), V());
    }

    /** One phase of cover, for the cell p = ps[k] of the row being covered: the walk down the
        column of p, from the node below p round to the node above it.  A cell met there has
        the rest of its row unlinked from the columns; the header met there is unlinked from
        the root ring. */
    method CoverColumn(p: int, ghost Z: seq<seq<int>>, ghost S: set<int>, ghost R: int, ghost ps: seq<int>, ghost k: int)
      requires Phased(Z, S, R, ps) && 0 <= k < |ps| && p == ps[k]
      requires CoverInv(Z, S, ps, k, H(), V()) && rowIndex == RowIdx(Z)
      modifies this
      ensures 0 <= Head(Z, p) < |old(right)| && InRange(Block(Z, S, ps[..k + 1]), |old(down)|)
      ensures H() == Unlink(old(H()), Head(Z, p))
      ensures V() == RemoveAll(old(V()), Block(Z, S, ps[..k + 1]))
      ensures CoverInv(Z, S, ps, k + 1, H(), V())
      ensures rowIndex == old(rowIndex) && solution == old(solution)
    {
      PhaseCell(Z, S, R, ps, k);
      ghost var CW := ColumnWalk(Z, S, ps, k);
      ghost var h0, v0 := H(), V();
      ghost var hd := Head(Z, p);
      HeadTail(Z, p);
      WalkLink(Z, S, R, ps, k, 0, v0);
      assert CW[..0] == [];
      var node := down[p];
      ghost var t := 0;
      while node != p
        invariant 0 <= t <= |CW| && node == if t < |CW| then CW[t] else p
        invariant InRange(Tails(Z, CW[..t]), Size(Z))
        invariant V() == RemoveAll(v0, Tails(Z, CW[..t]))
        invariant H() == if hd in CW[..t] then Unlink(h0, hd) else h0
        invariant rowIndex == old(rowIndex) && solution == old(solution)
        decreases |CW| - t
      {
        node := CoverNode(node, Z, S, R, ps, k, t, h0, v0);
        t := t + 1;
      }
      WalkColumn(Z, S, R, ps, k);
      TakeAll(CW, t);
      WalkBlock(Z, S, ps, k);
      ColumnDone(Z, S, R, ps, k, h0, v0);
    }

    /** One step of the walk of a phase of cover: node, the t-th node met below ps[k], is a cell
        whose row is unlinked from the columns, or the header, unlinked from the root ring; the
        result is the node below it. */
    method CoverNode(node: int, ghost Z: seq<seq<int>>, ghost S: set<int>, ghost R: int, ghost ps: seq<int>, ghost k: int,
                     ghost t: int, ghost h0: Chain, ghost v0: Chain) returns (next: int)
      requires Phased(Z, S, R, ps) && 0 <= k < |ps| && IsCell(Z, ps[k])
      requires CoverInv(Z, S, ps, k, h0, v0) && rowIndex == RowIdx(Z) && 1 <= Head(Z, ps[k]) < Size(Z)
      requires 0 <= t < |ColumnWalk(Z, S, ps, k)| && node == ColumnWalk(Z, S, ps, k)[t]
      requires var CW := ColumnWalk(Z, S, ps, k);
        InRange(Tails(Z, CW[..t]), Size(Z)) && V() == RemoveAll(v0, Tails(Z, CW[..t]))
        && H() == if Head(Z, ps[k]) in CW[..t] then Unlink(h0, Head(Z, ps[k])) else h0
      modifies this
      ensures var CW := ColumnWalk(Z, S, ps, k);
        InRange(Tails(Z, CW[..t + 1]), Size(Z)) && V() == RemoveAll(v0, Tails(Z, CW[..t + 1]))
        && H() == (if Head(Z, ps[k]) in CW[..t + 1] then Unlink(h0, Head(Z, ps[k])) else h0)
        && next == if t + 1 < |CW| then CW[t + 1] else ps[k]
      ensures rowIndex == old(rowIndex) && solution == old(solution)
    {
      ghost var CW := ColumnWalk(Z, S, ps, k);
      ghost var hd := Head(Z, ps[k]);
      ghost var w := CW[t];
      WalkColumn(Z, S, R, ps, k);
      WalkNode(Z, S, R, ps, k, t);
      WalkLink(Z, S, R, ps, k, t + 1, v0);
      HeadUnlinked(Z, S, R, ps, k, h0, v0);
      DistinctSplit(CW, t);
      TailsStep(Z, CW, t);
      InPrefixStep(CW, t, hd);
      if rowIndex[node] != -1 {
        RowFrom(Z, H(), w);
        HideRow(node, Tail(Z, w));
        RemoveAllConcat(v0, Tails(Z, CW[..t]), Tail(Z, w));
      } else {
        HeadTail(Z, ps[k]);
        RemoveFromRow(node);
      }
      assert ([ps[k]] + CW)[t + 1] == w;
      next := down[node];
    }

    /** The innermost loop of uncover, for a cell w whose row ring is w followed by T: every
        other cell of the row goes back into its column, going right from w.  Each relink finds
        its cell not linked to itself in its column. */
    method UnhideRow(w: int, ghost T: seq<int>)
      requires Valid(H()) && Valid(V()) && |down| == |right|
      requires Ring(H(), [w] + T) && Distinct([w] + T)
      requires InRange(T, |down|) && FreshPuts(V(), T, |T|)
      modifies this
      ensures V() == PutAll(old(V()), T)
      ensures H() == old(H()) && rowIndex == old(rowIndex) && solution == old(solution)
    {
      ghost var v0 := V();
      ghost var X := [w] + T;
      assert X[0] == w && (|T| > 0 ==> X[1] == T[0]);
      assert forall i :: 0 <= i < |T| ==> T[i] == X[i + 1];
      var node := right[w];
      ghost var i := 0;
      while node != w
        invariant 0 <= i <= |T| && node == if i < |T| then T[i] else w
        invariant Valid(V()) && |down| == |right| && H() == old(H())
        invariant V() == PutAll(v0, T[..i])
        invariant rowIndex == old(rowIndex) && solution == old(solution)
        decreases |T| - i
      {
        PutAllStep(v0, T, i);
        PutInCol(node);
        node := right[node];
        i := i + 1;
      }
      TakeAll(T, i);
    }

    /** choose_column: the header right of the root, which is the header of the leftmost active
        column, or the root itself once every column is covered. */
    method ChooseColumn(ghost Z: seq<seq<int>>, ghost S: set<int>) returns (hd: int)
      requires Inv(Z, S, H(), V())
      ensures FirstActive(Z, S, 0) < |Z| ==> hd == Node(Z, FirstActive(Z, S, 0), -1)
      ensures FirstActive(Z, S, 0) == |Z| <==> hd == 0
    {
      RootRight(Z, S, H(), V());
      hd := right[0];
    }

    /** dancing_link: the backtracking search from the search state whose chosen rows S are the
        rows of solution.  It stops at the first exact cover it reaches, with solution holding
        it.  When no exact cover holds S, it gives back the links and solution it started from.
        It tries the live rows of the leftmost active column c, top to bottom (TryRow). */
    method DancingLink(ghost Z: seq<seq<int>>, ghost S: set<int>) returns (found: bool)
      requires Inv(Z, S, H(), V()) && rowIndex == RowIdx(Z)
      requires RowsDisjoint(Z, S) && Elems(solution) == S && Distinct(solution)
      modifies this
      ensures found ==> IsExactCover(Z, Elems(solution)) && Distinct(solution)
      ensures found ==> |old(solution)| <= |solution| && solution[..|old(solution)|] == old(solution)
      ensures !found ==> NoCoverFrom(Z, S)
      ensures !found ==> H() == old(H()) && V() == old(V()) && solution == old(solution)
      ensures rowIndex == old(rowIndex)
      decreases |ActiveSet(Z, S)|, 2
    {
      RootRight(Z, S, H(), V());
      if right[0] == 0 {
        AllCovered(Z, S);
        TakeAll(solution, |solution|);
        return true;
      }
      var hd := ChooseColumn(Z, S);
      ghost var c := FirstActive(Z, S, 0);
      ghost var W := PresentCol(Z, S, c);
      ghost var h0, v0 := H(), V();
      PresentColIn(Z, S, c, hd);
      ColumnNext(Z, S, h0, v0, c, 0);
      var node := down[hd];
      ghost var t := 1;
      TriedNone(Z, S, c);
      while node != hd
        invariant 1 <= t <= |W| && node == if t < |W| then W[t] else hd
        invariant H() == h0 && V() == v0 && solution == old(solution) && rowIndex == old(rowIndex)
        invariant Tried(Z, S, c, t)
        decreases |W| - t
      {
        found := TryRow(node, Z, S, c, t);
        if found {
          return;
        }
        TriedStep(Z, S, c, t);
        ColumnNext(Z, S, h0, v0, c, t);
        node := down[node];
        t := t + 1;
      }
      ColumnTried(Z, S, c);
      found := false;
    }

    /** The body of the loop of dancing_link, for the t-th node of what is left of column c: append
        its row to solution, cover, search one level down (Descend), and, failing that, delete
        the row from solution and uncover. */
    method TryRow(node: int, ghost Z: seq<seq<int>>, ghost S: set<int>, ghost c: int, ghost t: int) returns (found: bool)
      requires Inv(Z, S, H(), V()) && rowIndex == RowIdx(Z)
      requires RowsDisjoint(Z, S) && Elems(solution) == S && Distinct(solution)
      requires 0 <= c < |Z| && Active(Z, S, c) && 1 <= t < |PresentCol(Z, S, c)| && node == PresentCol(Z, S, c)[t]
      modifies this
      ensures IsCell(Z, node)
      ensures found ==> IsExactCover(Z, Elems(solution)) && Distinct(solution)
      ensures found ==> |old(solution)| <= |solution| && solution[..|old(solution)|] == old(solution)
      ensures !found ==> NoCoverFrom(Z, S + {RowIdx(Z)[node]})
      ensures !found ==> H() == old(H()) && V() == old(V()) && solution == old(solution)
      ensures rowIndex == old(rowIndex)
      decreases |ActiveSet(Z, S)|, 1
    {
      ghost var h0, v0, s0 := H(), V(), solution;
      ColumnCell(Z, S, c, t);
      ghost var R := RowIdx(Z)[node];
      found := Descend(node, Z, S, c, t);
      if found {
        return;
      }
      SnocDrop(s0, R);
      solution := solution[..|solution| - 1];
      Uncover(node, Z, S, R, h0, v0);
    }

    /** The first half of TryRow: the row of node appended to solution, covered, and the search
        one level down.  When that finds nothing, solution ends with the row and the links are
        those cover left. */
    method Descend(node: int, ghost Z: seq<seq<int>>, ghost S: set<int>, ghost c: int, ghost t: int) returns (found: bool)
      requires Inv(Z, S, H(), V()) && rowIndex == RowIdx(Z)
      requires RowsDisjoint(Z, S) && Elems(solution) == S && Distinct(solution)
      requires 0 <= c < |Z| && Active(Z, S, c) && 1 <= t < |PresentCol(Z, S, c)| && node == PresentCol(Z, S, c)[t]
      modifies this
      ensures IsCell(Z, node) && Alive(Z, S, RowIdx(Z)[node]) && node in RowRing(Z, RowIdx(Z)[node])
      ensures found ==> IsExactCover(Z, Elems(solution)) && Distinct(solution)
      ensures found ==> |old(solution)| <= |solution| && solution[..|old(solution)|] == old(solution)
      ensures !found ==> NoCoverFrom(Z, S + {RowIdx(Z)[node]}) && solution == old(solution) + [RowIdx(Z)[node]]
      ensures !found ==> CoverLeft(Z, S, RowIdx(Z)[node], node, old(H()), old(V()), H(), V())
      ensures rowIndex == old(rowIndex)
      decreases |ActiveSet(Z, S)|, 0
    {
      ghost var s0 := solution;
      ColumnCell(Z, S, c, t);
      var row := rowIndex[node];
      DistinctSnoc(s0, row);
      solution := solution + [row];
      SnocDrop(s0, row);
      ElemsSnoc(solution);
      Cover(node, Z, S, row);
      ChooseAlive(Z, S, row);
      ChooseShrinks(Z, S, row, c);
      found := DancingLink(Z, S + {row});
      if found {
        PrefixOfPrefix(s0, row, solution);
      }
    }

    /** uncover, for the cell r of row R that cover has removed: the same walk as cover, each
        column in the same order, with every link put back.  After cover from the links h0, v0
        of a search state, uncover gives back exactly h0 and v0. */
    method Uncover(r: int, ghost Z: seq<seq<int>>, ghost S: set<int>, ghost R: int, ghost h0: Chain, ghost v0: Chain)
      requires CoverLeft(Z, S, R, r, h0, v0, H(), V()) && rowIndex == RowIdx(Z)
      modifies this
      ensures H() == h0 && V() == v0
      ensures rowIndex == old(rowIndex) && solution == old(solution)
    {
      ghost var ps := Phases(Z, R, r);
      UncoverBegin(Z, S, R, r, h0, v0, H(), V());
      var node := right[r];
      ghost var k := 0;
      while true
        invariant 0 <= k < |ps| && node == ps[k]
        invariant HBack(Z, S, ps, h0, H(), Elems(Heads(Z, ps[..k])))
        invariant VBack(Z, S, ps, v0, V(), Elems(UPlan(Z, S, ps[..k])))
        invariant rowIndex == old(rowIndex) && solution == old(solution)
        decreases |ps| - k
      {
        UncoverColumn(node, Z, S, R, ps, k, h0, v0);
        if node == r {
          break;
        }
        PhaseNext(Z, S, R, r, h0, v0, H(), Elems(Heads(Z, ps[..k + 1])), k + 1);
        node := right[node];
        k := k + 1;
      }
      TakeAll(ps, k + 1);
      UncoverDone(Z, S, R, ps, h0, v0, H(), V(), Elems(Heads(Z, ps)), Elems(UPlan(Z, S, ps)));
    }

    /** One step of the walk of a phase of uncover: node, the t-th node met below ps[k], is a
        cell whose row goes back into the columns, or the header, which goes back into the root
        ring; the result is the node below it. */
    method UncoverNode(node: int, ghost Z: seq<seq<int>>, ghost S: set<int>, ghost R: int, ghost ps: seq<int>,
                       ghost k: int, ghost t: int, ghost h0: Chain, ghost v0: Chain, ghost DH: set<int>, ghost DV: set<int>)
      returns (next: int)
      requires Covered(Z, S, R, ps, h0, v0) && 0 <= k < |ps| && 1 <= ps[k] < Size(Z) && rowIndex == RowIdx(Z)
      requires 0 <= t < |Walk(Z, S, ps[k])| && node == Walk(Z, S, ps[k])[t]
      requires Elems(Heads(Z, ps[..k])) <= DH && Elems(UPlan(Z, S, ps[..k])) <= DV
      requires HBack(Z, S, ps, h0, H(), WalkHeads(Z, S, ps, k, t, DH))
      requires VBack(Z, S, ps, v0, V(), WalkCells(Z, S, ps, k, t, DV))
      modifies this
      ensures HBack(Z, S, ps, h0, H(), WalkHeads(Z, S, ps, k, t + 1, DH))
      ensures VBack(Z, S, ps, v0, V(), WalkCells(Z, S, ps, k, t + 1, DV))
      ensures t + 1 < |Walk(Z, S, ps[k])| ==> next == Walk(Z, S, ps[k])[t + 1]
      ensures t + 1 == |Walk(Z, S, ps[k])| ==> next == ps[k]
      ensures rowIndex == old(rowIndex) && solution == old(solution)
    {
      ghost var W := Walk(Z, S, ps[k]);
      ghost var hd := Head(Z, ps[k]);
      ghost var dh, dv := WalkHeads(Z, S, ps, k, t, DH), WalkCells(Z, S, ps, k, t, DV);
      UWalkNode(Z, S, R, ps, k, t);
      TailsStep(Z, W, t);
      ElemsConcat(DV, Tails(Z, W[..t]), Tail(Z, node));
      InPrefixStep(W, t, hd);
      if rowIndex[node] != -1 {
        RowsKept(Z, S, R, ps, h0, v0, H(), dh);
        RowFrom(Z, H(), node);
        RowPuts(Z, S, R, ps, h0, v0, V(), dv, k, t, Tail(Z, node));
        UnhideRow(node, Tail(Z, node));
      } else {
        HeadTail(Z, ps[k]);
        HeadPut(Z, S, R, ps, h0, v0, H(), dh, k);
        PutInRow(node);
        EmptyPrefix(Tail(Z, node), dv);
      }
      WalkRestored(Z, S, R, ps, h0, v0, V(), dv + Elems(Tail(Z, node)), k, t + 1);
      assert ([ps[k]] + W)[t + 1] == node;
      next := down[node];
    }

    /** One phase of uncover, for the cell p = ps[k] of the row being uncovered: the walk down
        the column of p, which is whole again by now, from the node below p round to the node
        above it.  A cell met there has the rest of its row relinked into the columns; the
        header met there is relinked into the root ring. */
    method UncoverColumn(p: int, ghost Z: seq<seq<int>>, ghost S: set<int>, ghost R: int, ghost ps: seq<int>,
                         ghost k: int, ghost h0: Chain, ghost v0: Chain)
      requires Covered(Z, S, R, ps, h0, v0) && 0 <= k < |ps| && p == ps[k] && rowIndex == RowIdx(Z)
      requires HBack(Z, S, ps, h0, H(), Elems(Heads(Z, ps[..k])))
      requires VBack(Z, S, ps, v0, V(), Elems(UPlan(Z, S, ps[..k])))
      modifies this
      ensures HBack(Z, S, ps, h0, H(), Elems(Heads(Z, ps[..k + 1])))
      ensures VBack(Z, S, ps, v0, V(), Elems(UPlan(Z, S, ps[..k + 1])))
      ensures rowIndex == old(rowIndex) && solution == old(solution)
    {
      ghost var DH, DV := Elems(Heads(Z, ps[..k])), Elems(UPlan(Z, S, ps[..k]));
      PhaseRelinked(Z, S, R, ps, k);
      ghost var W := Walk(Z, S, p);
      WalkStart(Z, S, ps, k, DH, DV);
      WalkRestored(Z, S, R, ps, h0, v0, V(), DV, k, 0);
      assert ([p] + W)[0] == p;
      var node := down[p];
      ghost var t := 0;
      while node != p
        invariant 0 <= t <= |W| && (t < |W| ==> node == W[t]) && (t == |W| ==> node == p)
        invariant HBack(Z, S, ps, h0, H(), WalkHeads(Z, S, ps, k, t, DH))
        invariant VBack(Z, S, ps, v0, V(), WalkCells(Z, S, ps, k, t, DV))
        invariant rowIndex == old(rowIndex) && solution == old(solution)
        decreases |W| - t
      {
        node := UncoverNode(node, Z, S, R, ps, k, t, h0, v0, DH, DV);
        t := t + 1;
      }
      WalkEnd(Z, S, ps, k, t, DH, DV);
    }
  }

  /** The top level: the node map built from the columns of the 0/1 matrix, then dancing_link
      from an empty solution.  It ends with an exact cover of the matrix, or reports that there
      is none at all. */
  method Solve(cols: seq<seq<int>>) returns (found: bool, solution: seq<int>)
    ensures found ==> IsExactCover(Matrix(cols), Elems(solution)) && Distinct(solution)
    ensures !found ==> solution == [] && forall T :: !IsExactCover(Matrix(cols), T)
  {
    var m := new NodeMap(cols);
    InvStart(Matrix(cols), m.H(), m.V(), m.rowIndex);
    found := m.DancingLink(Matrix(cols), {});
    solution := m.solution;
  }
}
