/** What the search looks for: an exact cover of the matrix, a set of rows with exactly one 1 in
    every column, and the facts about choosing rows that the recursion of dancing_link rests on. */
module ExactCover {
  import opened NodeLayout
  import opened SearchState

  /** No two rows of T have a 1 in the same column. */
  ghost predicate RowsDisjoint(Z: seq<seq<int>>, T: set<int>)
  {
    forall j, a, b :: 0 <= j < |Z| && a in T && b in T && a in Z[j] && b in Z[j] ==> a == b
  }

  /** Column j has a 1 in one of the rows of T. */
  ghost predicate Hits(Z: seq<seq<int>>, T: set<int>, j: int)
    requires 0 <= j < |Z|
  {
    exists i :: i in T && i in Z[j]
  }

  /** Every column has exactly one 1 among the rows of T. */
  ghost predicate IsExactCover(Z: seq<seq<int>>, T: set<int>)
  {
    RowsDisjoint(Z, T) && forall j :: 0 <= j < |Z| ==> Hits(Z, T, j)
  }

  /** No exact cover holds all of the rows S. */
  ghost predicate NoCoverFrom(Z: seq<seq<int>>, S: set<int>)
  {
    forall T :: S <= T ==> !IsExactCover(Z, T)
  }

  /** Disjoint rows that leave no column active are an exact cover. */
  lemma AllCovered(Z: seq<seq<int>>, S: set<int>)
    requires RowsDisjoint(Z, S) && forall j :: 0 <= j < |Z| ==> !Active(Z, S, j)
    ensures IsExactCover(Z, S)
  {
    forall j | 0 <= j < |Z|
      ensures Hits(Z, S, j)
    {
      var i := CoveredBy(Z, S, j);
    }
  }

  /** A column that is not active has a 1 in one of the rows S. */
  lemma CoveredBy(Z: seq<seq<int>>, S: set<int>, j: int) returns (i: int)
    requires 0 <= j < |Z| && !Active(Z, S, j)
    ensures i in S && i in Z[j]
  {
    i :| i in S && i in Z[j];
  }

  /** Choosing a live row keeps the chosen rows disjoint. */
  lemma ChooseAlive(Z: seq<seq<int>>, S: set<int>, R: int)
    requires RowsDisjoint(Z, S) && Alive(Z, S, R)
    ensures RowsDisjoint(Z, S + {R})
  {
    forall j, a, b | 0 <= j < |Z| && a in S + {R} && b in S + {R} && a in Z[j] && b in Z[j]
      ensures a == b
    {
      if a == R || b == R {
        assert Active(Z, S, j);
      }
    }
  }

  /** Choosing a row with a 1 in the active column c covers c: fewer columns stay active. */
  lemma ChooseShrinks(Z: seq<seq<int>>, S: set<int>, R: int, c: int)
    requires 0 <= c < |Z| && Active(Z, S, c) && R in Z[c]
    ensures ActiveSet(Z, S + {R}) < ActiveSet(Z, S)
    ensures |ActiveSet(Z, S + {R})| < |ActiveSet(Z, S)|
  {
    var A, B := ActiveSet(Z, S + {R}), ActiveSet(Z, S);
    assert c in B - A;
    assert B == A + (B - A) && A * (B - A) == {};
  }

  /** An exact cover T holding the rows S has a row with a 1 in the active column c, and that
      row is live: it shares no column with S. */
  lemma CoverRow(Z: seq<seq<int>>, S: set<int>, T: set<int>, c: int) returns (i: int)
    requires 0 <= c < |Z| && Active(Z, S, c) && S <= T
    ensures IsExactCover(Z, T) ==> i in T && i in Z[c] && Alive(Z, S, i)
  {
    if IsExactCover(Z, T) {
      assert Hits(Z, T, c);
      i :| i in T && i in Z[c];
      forall j | 0 <= j < |Z| && i in Z[j]
        ensures Active(Z, S, j)
      {
        forall s | s in S
          ensures s !in Z[j]
        {
          assert s in T;
        }
      }
    } else {
      i := 0;
    }
  }

  /** When no live row of the active column c extends the rows S to an exact cover, nothing
      does: every exact cover holding S holds one of them. */
  lemma ColumnExhausted(Z: seq<seq<int>>, S: set<int>, c: int)
    requires 0 <= c < |Z| && Active(Z, S, c)
    requires forall i :: i in Z[c] && Alive(Z, S, i) ==> NoCoverFrom(Z, S + {i})
    ensures NoCoverFrom(Z, S)
  {
    forall T | S <= T
      ensures !IsExactCover(Z, T)
    {
      var i := CoverRow(Z, S, T, c);
      assert IsExactCover(Z, T) ==> S + {i} <= T;
    }
  }

  /** The rows of the cells 1 .. t - 1 of what is left of column c have been tried: none of
      them, chosen on top of S, leads to an exact cover. */
  ghost predicate Tried(Z: seq<seq<int>>, S: set<int>, c: int, t: int)
    requires 0 <= c < |Z|
  {
    forall u :: 1 <= u < t && u < |PresentCol(Z, S, c)| ==>
      IsCell(Z, PresentCol(Z, S, c)[u]) && NoCoverFrom(Z, S + {RowIdx(Z)[PresentCol(Z, S, c)[u]]})
  }

  lemma TriedNone(Z: seq<seq<int>>, S: set<int>, c: int)
    requires 0 <= c < |Z|
    ensures Tried(Z, S, c, 1)
  {
  }

  lemma TriedStep(Z: seq<seq<int>>, S: set<int>, c: int, t: int)
    requires 0 <= c < |Z| && Tried(Z, S, c, t) && 1 <= t < |PresentCol(Z, S, c)|
    requires IsCell(Z, PresentCol(Z, S, c)[t]) && NoCoverFrom(Z, S + {RowIdx(Z)[PresentCol(Z, S, c)[t]]})
    ensures Tried(Z, S, c, t + 1)
  {
  }

  /** When every live row of the active column c has been tried without reaching an exact
      cover, there is none holding S. */
  lemma ColumnTried(Z: seq<seq<int>>, S: set<int>, c: int)
    requires WellFormed(Z) && 0 <= c < |Z| && Active(Z, S, c)
    requires Tried(Z, S, c, |PresentCol(Z, S, c)|)
    ensures NoCoverFrom(Z, S)
  {
    forall i | i in Z[c] && Alive(Z, S, i)
      ensures NoCoverFrom(Z, S + {i})
    {
      var u := AliveInColumn(Z, S, c, i);
    }
    ColumnExhausted(Z, S, c);
  }
}
