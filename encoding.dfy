/** Index arithmetic that turns a Sudoku grid of box dimension d (a d*d by d*d grid with values
    0 .. d*d-1) into rows of an exact-cover matrix, and back.

    A matrix row has four blocks of d^4 entries each: "row has value", "column has value",
    "box has value" and "cell is filled".  Each block holds exactly one 1. */
module SudokuEncoding {

  datatype Option<T> = None | Some(value: T)

  /** A list of n zeros. */
  function Zeros(n: nat): (r: seq<int>)
    ensures |r| == n && forall k :: 0 <= k < n ==> r[k] == 0
  {
    if n == 0 then [] else Zeros(n - 1) + [0]
  }

  /** s has length n and holds a single 1, at position k; every other entry is 0. */
  ghost predicate OneHot(s: seq<int>, n: nat, k: int)
  {
    |s| == n && 0 <= k < n && s[k] == 1 && forall i :: 0 <= i < n && i != k ==> s[i] == 0
  }

  lemma MulLe(a: int, b: int, c: int)
    requires a <= b && c >= 0
    ensures a * c <= b * c
  {
    assert b * c - a * c == (b - a) * c;
  }

  /** a and b as the two digits of a base-m number. */
  function Place(m: nat, a: int, b: int): int
  {
    a * m + b
  }

  lemma PlaceBounds(m: nat, n: nat, a: int, b: int)
    requires 0 <= a < n && 0 <= b < m
    ensures 0 <= Place(m, a, b) < n * m
  {
    MulLe(0, a, m);
    MulLe(a, n - 1, m);
    assert (n - 1) * m == n * m - m;
  }

  lemma PlaceLess(m: nat, a: int, b: int, a': int, b': int)
    requires 0 <= b < m && 0 <= b' < m && (a < a' || (a == a' && b < b'))
    ensures Place(m, a, b) < Place(m, a', b')
  {
    if a < a' {
      MulLe(a + 1, a', m);
      assert (a + 1) * m == a * m + m;
    }
  }

  lemma PlaceCarry(m: nat, a: int)
    ensures Place(m, a, m) == Place(m, a + 1, 0)
  {
    assert (a + 1) * m == a * m + m;
  }

  /** Division and remainder by m > 0 are determined by any q, r with x == q*m + r, 0 <= r < m. */
  lemma DivModUnique(x: int, m: int, q: int, r: int)
    requires m > 0 && 0 <= r < m && x == q * m + r
    ensures x / m == q && x % m == r
  {
    var q', r' := x / m, x % m;
    assert (q - q') * m == r' - r;
    SmallMultiple(q - q', m);
  }

  lemma SmallMultiple(k: int, m: int)
    requires m > 0 && -m < k * m < m
    ensures k == 0
  {
    if k >= 1 {
      MulLe(1, k, m);
    } else if k <= -1 {
      MulLe(k, -1, m);
    }
  }

  lemma MulBounds(d: nat, a: int, b: int)
    requires 0 <= a < d * d && 0 <= b < d * d
    ensures 0 <= a * (d * d) + b < d * d * (d * d)
  {
    PlaceBounds(d * d, d * d, a, b);
  }

  /** "value exists in row/column x": one 1 at x*d^2 + value (cr_transform). */
  function CrTransform(d: nat, x: int, value: int): (r: seq<int>)
    requires 0 <= x < d * d && 0 <= value < d * d
    ensures OneHot(r, d * d * (d * d), x * (d * d) + value)
  {
    MulBounds(d, x, value);
    Zeros(d * d * (d * d))[x * (d * d) + value := 1]
  }

  /** "cell (row, col) is filled": one 1 at row*d^2 + col (v_transform). */
  function VTransform(d: nat, row: int, col: int): (r: seq<int>)
    requires 0 <= row < d * d && 0 <= col < d * d
    ensures OneHot(r, d * d * (d * d), row * (d * d) + col)
  {
    MulBounds(d, row, col);
    Zeros(d * d * (d * d))[row * (d * d) + col := 1]
  }

  /** The number of the d*d box that holds cell (row, col), counted row by row. */
  function BoxOf(d: nat, row: int, col: int): int
    requires d > 0 && 0 <= row && 0 <= col
  {
    (row / d) * d + col / d
  }

  lemma BoxInRange(d: nat, row: int, col: int)
    requires d > 0 && 0 <= row < d * d && 0 <= col < d * d
    ensures 0 <= BoxOf(d, row, col) < d * d
  {
    DivBelow(row, d);
    DivBelow(col, d);
    PlaceBounds(d, d, row / d, col / d);
  }

  lemma DivBelow(x: int, d: nat)
    requires d > 0 && 0 <= x < d * d
    ensures 0 <= x / d < d
  {
    DivModUnique(x, d, x / d, x % d);
    if x / d >= d {
      MulLe(d, x / d, d);
    }
  }

  /** "value exists in box": one 1 at box*d^2 + value.  As in s_transform, the box number is
      read from a table built by two nested loops: table[i][j] = i*d + j. */
  method STransform(d: nat, row: int, col: int, value: int) returns (r: seq<int>)
    requires d > 0 && 0 <= row < d * d && 0 <= col < d * d && 0 <= value < d * d
    ensures 0 <= BoxOf(d, row, col) < d * d
    ensures OneHot(r, d * d * (d * d), BoxOf(d, row, col) * (d * d) + value)
  {
    var table: map<int, map<int, int>> := map[];
    var i := 0;
    while i < d
      invariant 0 <= i <= d
      invariant forall a :: a in table <==> 0 <= a < i
      invariant forall a, b :: a in table && 0 <= b < d ==> b in table[a] && table[a][b] == a * d + b
    {
      var tmp: map<int, int> := map[];
      var j := 0;
      while j < d
        invariant 0 <= j <= d
        invariant forall b :: b in tmp <==> 0 <= b < j
        invariant forall b :: b in tmp ==> tmp[b] == i * d + b
      {
        tmp := tmp[j := i * d + j];
        j := j + 1;
      }
      table := table[i := tmp];
      i := i + 1;
    }
    DivBelow(row, d);
    DivBelow(col, d);
    BoxInRange(d, row, col);
    var box := table[row / d][col / d];
    MulBounds(d, box, value);
    r := Zeros(d * d * (d * d))[box * (d * d) + value := 1];
  }

  /** The four constraint blocks of the matrix row for (row, col, value). */
  ghost function ConstraintRow(d: nat, row: int, col: int, value: int): seq<int>
    requires d > 0 && 0 <= row < d * d && 0 <= col < d * d && 0 <= value < d * d
  {
    BoxInRange(d, row, col);
    MulBounds(d, BoxOf(d, row, col), value);
    CrTransform(d, row, value) + CrTransform(d, col, value)
      + Zeros(d * d * (d * d))[BoxOf(d, row, col) * (d * d) + value := 1]
      + VTransform(d, row, col)
  }

  /** The matrix row number of (row, col, value) in construct_sudoku_matrix's loop order. */
  function RowNumber(d: nat, row: int, col: int, value: int): int
  {
    Place(d * d, Place(d * d, row, col), value)
  }

  /** Row numbers grow with (row, col, value) in lexicographic order. */
  lemma RowNumberLess(d: nat, r: int, c: int, v: int, row: int, col: int, value: int)
    requires 0 <= c < d * d && 0 <= v < d * d && 0 <= col < d * d && 0 <= value < d * d
    requires r < row || (r == row && c < col) || (r == row && c == col && v < value)
    ensures RowNumber(d, r, c, v) < RowNumber(d, row, col, value)
  {
    if r < row || c < col {
      PlaceLess(d * d, r, c, row, col);
      PlaceLess(d * d, Place(d * d, r, c), v, Place(d * d, row, col), value);
    }
  }

  /** The three coordinates are read back from a matrix row number. */
  lemma RowNumberDecodes(d: nat, row: int, col: int, value: int)
    requires d > 0 && 0 <= row < d * d && 0 <= col < d * d && 0 <= value < d * d
    ensures var k := RowNumber(d, row, col, value);
      0 <= k < d * d * (d * d) * (d * d)
      && k / (d * d) / (d * d) == row && k / (d * d) % (d * d) == col && k % (d * d) == value
  {
    var m := d * d;
    var k := RowNumber(d, row, col, value);
    DivModUnique(k, m, Place(m, row, col), value);
    DivModUnique(Place(m, row, col), m, row, col);
    PlaceBounds(m, m, row, col);
    PlaceBounds(m, m * m, Place(m, row, col), value);
  }

  /** x / m < n when x < n * m. */
  lemma DivLess(x: int, m: int, n: int)
    requires m > 0 && 0 <= x < n * m
    ensures 0 <= x / m < n
  {
    var q := x / m;
    assert x == q * m + x % m;
    if q >= n {
      MulLe(n, q, m);
    }
    if q < 0 {
      MulLe(q, -1, m);
    }
  }

  /** The three base-m digits of a number below m^3 are in range. */
  lemma Digits(m: nat, k: int)
    requires m > 0 && 0 <= k < m * m * m
    ensures 0 <= k / m / m < m && 0 <= k / m % m < m && 0 <= k % m < m
  {
    assert m * m * m == (m * m) * m;
    DivLess(k, m, m * m);
    DivLess(k / m, m, m);
  }

  /** The matrix row that belongs at position k: the one for the (row, col, value) that k spells in
      base d^2 (empty past the last row). */
  ghost function RowAt(d: nat, k: nat): seq<int>
  {
    var m := d * d;
    if k < m * m * m then
      Digits(m, k);
      ConstraintRow(d, k / m / m, k / m % m, k % m)
    else []
  }

  lemma RowAtNumber(d: nat, row: int, col: int, value: int)
    requires d > 0 && 0 <= row < d * d && 0 <= col < d * d && 0 <= value < d * d
    ensures 0 <= RowNumber(d, row, col, value) < d * d * (d * d) * (d * d)
    ensures RowAt(d, RowNumber(d, row, col, value)) == ConstraintRow(d, row, col, value)
  {
    RowNumberDecodes(d, row, col, value);
  }

  /** One step of construct_sudoku_matrix: appending the row for (row, col, value) at its own row
      number keeps every position k holding RowAt(d, k). */
  lemma AppendRow(d: nat, result: seq<seq<int>>, row: int, col: int, value: int)
    requires d > 0 && 0 <= row < d * d && 0 <= col < d * d && 0 <= value < d * d
    requires |result| == RowNumber(d, row, col, value)
    requires forall k :: 0 <= k < |result| ==> result[k] == RowAt(d, k)
    ensures forall k :: 0 <= k < |result| + 1 ==> (result + [ConstraintRow(d, row, col, value)])[k] == RowAt(d, k)
  {
    RowAtNumber(d, row, col, value);
  }

  /** construct_sudoku_matrix: the row at position (row*d^2 + col)*d^2 + value encodes (row, col, value). */
  method ConstructSudokuMatrix(d: nat) returns (result: seq<seq<int>>)
    ensures |result| == d * d * (d * d) * (d * d)
    ensures forall k :: 0 <= k < |result| ==> result[k] == RowAt(d, k)
  {
    var d2 := d * d;
    result := [];
    var row := 0;
    while row < d2
      invariant 0 <= row <= d2
      invariant |result| == RowNumber(d, row, 0, 0)
      invariant forall k :: 0 <= k < |result| ==> result[k] == RowAt(d, k)
    {
      var col := 0;
      while col < d2
        invariant 0 <= col <= d2
        invariant |result| == RowNumber(d, row, col, 0)
        invariant forall k :: 0 <= k < |result| ==> result[k] == RowAt(d, k)
      {
        var value := 0;
        while value < d2
          invariant 0 <= value <= d2
          invariant |result| == RowNumber(d, row, col, value)
          invariant forall k :: 0 <= k < |result| ==> result[k] == RowAt(d, k)
        {
          var rConstraint := CrTransform(d, row, value);
          var cConstraint := CrTransform(d, col, value);
          var sConstraint := STransform(d, row, col, value);
          var vConstraint := VTransform(d, row, col);
          assert rConstraint + cConstraint + sConstraint + vConstraint == ConstraintRow(d, row, col, value);
          AppendRow(d, result, row, col, value);
          result := result + [rConstraint + cConstraint + sConstraint + vConstraint];
          value := value + 1;
        }
        PlaceCarry(d2, Place(d2, row, col));
        col := col + 1;
      }
      PlaceCarry(d2, row);
      row := row + 1;
    }
    assert RowNumber(d, d2, 0, 0) == d2 * d2 * d2;
  }

  /** inverse_transform: (row, col, value) from the row-block and column-block positions. */
  function InverseTransform(d: nat, rConstraint: int, cConstraint: int): (r: (int, int, int))
    requires d > 0
    ensures rConstraint == r.0 * (d * d) + r.2 && 0 <= r.2 < d * d
    ensures r.1 * (d * d) <= cConstraint < r.1 * (d * d) + d * d
  {
    (rConstraint / (d * d), cConstraint / (d * d), rConstraint % (d * d))
  }

  lemma {:induction false} InverseTransformRoundTrip(d: nat, row: int, col: int, value: int)
    requires d > 0 && 0 <= row < d * d && 0 <= col < d * d && 0 <= value < d * d
    ensures InverseTransform(d, row * (d * d) + value, col * (d * d) + value) == (row, col, value)
  {
    DivModUnique(row * (d * d) + value, d * d, row, value);
    DivModUnique(col * (d * d) + value, d * d, col, value);
  }

  /** The first position of a 1 in s, as the comprehension [..][0] in output_sudoku_solution; None
      where that comprehension would be empty. */
  function FirstOne(s: seq<int>): (r: Option<nat>)
    ensures r.Some? ==> r.value < |s| && s[r.value] == 1 && forall i :: 0 <= i < r.value ==> s[i] != 1
    ensures r.None? ==> forall i :: 0 <= i < |s| ==> s[i] != 1
  {
    if s == [] then None
    else if s[0] == 1 then Some(0)
    else match FirstOne(s[1..])
      case None => None
      case Some(i) => Some(i + 1)
  }

  /** No entry of point from a up to b is a 1. */
  ghost predicate NoOneIn(point: seq<int>, a: int, b: int)
    requires 0 <= a <= b <= |point|
  {
    forall i :: a <= i < b ==> point[i] != 1
  }

  /** (row, col, value) are in range, the row block of point has a 1 at row*d^2 + value, and the
      column block has a 1 among the d^2 entries of col. */
  ghost predicate Located(d: nat, point: seq<int>, row: int, col: int, value: int)
    requires d > 0 && |point| >= 2 * (d * d * (d * d))
  {
    var m := d * d;
    0 <= row < m && 0 <= col < m && 0 <= value < m
    && 0 <= row * m + value < m * m && point[row * m + value] == 1
    && m * m + col * m + m <= |point| && 1 in point[m * m + col * m .. m * m + col * m + m]
  }

  /** Those 1s are the first ones: no 1 comes before row*d^2 + value in the row block, nor before
      block col in the column block. */
  ghost predicate DecodedAt(d: nat, point: seq<int>, row: int, col: int, value: int)
    requires d > 0 && |point| >= 2 * (d * d * (d * d))
  {
    var m := d * d;
    Located(d, point, row, col, value)
    && NoOneIn(point, 0, row * m + value) && NoOneIn(point, m * m, m * m + col * m)
  }

  /** The index reconstruction of output_sudoku_solution: read the row block and the column block of
      a matrix row and invert them.  None where the source's [..][0] would find no 1. */
  function DecodeRow(d: nat, point: seq<int>): (r: Option<(int, int, int)>)
    requires d > 0 && |point| >= 2 * (d * d * (d * d))
    ensures r.None? <==> NoOneIn(point, 0, d * d * (d * d)) || NoOneIn(point, d * d * (d * d), 2 * (d * d * (d * d)))
    ensures r.Some? ==> DecodedAt(d, point, r.value.0, r.value.1, r.value.2)
  {
    var d4 := d * d * (d * d);
    FirstOneTake(point, d4);
    FirstOneShift(point, d4, 2 * d4);
    match (FirstOne(point[..d4]), FirstOne(point[d4 .. 2 * d4]))
    case (Some(i), Some(j)) => DecodeFound(d, point, i, j); DecodeFirst(d, point, i, j); Some(InverseTransform(d, i, j))
    case _ => None
  }

  lemma FirstOneTake(point: seq<int>, b: int)
    requires 0 <= b <= |point|
    ensures FirstOne(point[..b]).None? <==> NoOneIn(point, 0, b)
    ensures FirstOne(point[..b]).Some? ==> FirstOne(point[..b]).value < b && point[FirstOne(point[..b]).value] == 1
    ensures FirstOne(point[..b]).Some? ==> NoOneIn(point, 0, FirstOne(point[..b]).value)
  {
    var f := FirstOne(point[..b]);
    var e := if f.Some? then f.value else b;
    forall i | 0 <= i < e
      ensures point[i] != 1
    {
      assert point[..b][i] == point[i];
    }
  }

  lemma FirstOneShift(point: seq<int>, a: int, b: int)
    requires 0 <= a <= b <= |point|
    ensures FirstOne(point[a..b]).None? <==> NoOneIn(point, a, b)
    ensures FirstOne(point[a..b]).Some? ==> a + FirstOne(point[a..b]).value < b && point[a + FirstOne(point[a..b]).value] == 1
    ensures FirstOne(point[a..b]).Some? ==> NoOneIn(point, a, a + FirstOne(point[a..b]).value)
  {
    var f := FirstOne(point[a..b]);
    var e := if f.Some? then a + f.value else b;
    forall i | a <= i < e
      ensures point[i] != 1
    {
      assert point[a..b][i - a] == point[i];
    }
  }

  /** A 1 at i in the row block and at j in the column block decode to in-range coordinates whose
      own blocks hold those 1s. */
  lemma DecodeFound(d: nat, point: seq<int>, i: int, j: int)
    requires d > 0 && |point| >= 2 * (d * d * (d * d))
    requires 0 <= i < d * d * (d * d) && 0 <= j < d * d * (d * d)
    requires point[i] == 1 && point[d * d * (d * d) + j] == 1
    ensures var t := InverseTransform(d, i, j); Located(d, point, t.0, t.1, t.2)
  {
    var m := d * d;
    var t := InverseTransform(d, i, j);
    DivLess(i, m, m);
    DivLess(j, m, m);
    var col := t.1;
    assert col == j / m && 0 <= col < m;
    BlockFits(m, col);
    assert col * m <= j < col * m + m;
    var a := m * m + col * m;
    assert a + m <= |point|;
    assert point[a .. a + m][j - col * m] == point[m * m + j];
  }

  /** When i and j are the first 1s of their blocks, the decoded 1s are the first ones. */
  lemma DecodeFirst(d: nat, point: seq<int>, i: int, j: int)
    requires d > 0 && |point| >= 2 * (d * d * (d * d))
    requires 0 <= i < d * d * (d * d) && 0 <= j < d * d * (d * d)
    requires NoOneIn(point, 0, i) && NoOneIn(point, d * d * (d * d), d * d * (d * d) + j)
    requires var t := InverseTransform(d, i, j); Located(d, point, t.0, t.1, t.2)
    ensures var t := InverseTransform(d, i, j); DecodedAt(d, point, t.0, t.1, t.2)
  {
    var m := d * d;
    var t := InverseTransform(d, i, j);
    NoOneInPrefix(point, m * m, m * m + t.1 * m, m * m + j);
  }

  lemma NoOneInPrefix(point: seq<int>, a: int, b: int, c: int)
    requires 0 <= a <= b <= c <= |point| && NoOneIn(point, a, c)
    ensures NoOneIn(point, a, b)
  {
  }

  /** Block col of m blocks of width m ends within m * m. */
  lemma BlockFits(m: int, col: int)
    requires 0 <= col < m
    ensures col * m + m <= m * m
  {
    MulLe(col + 1, m, m);
    assert (col + 1) * m == col * m + m;
  }

  lemma OneHotFirst(s: seq<int>, n: nat, k: int)
    requires OneHot(s, n, k)
    ensures FirstOne(s) == Some(k)
  {
    assert s[k] == 1;
  }

  /** Where the first two of four equal-length blocks sit in their concatenation. */
  lemma Blocks(a: seq<int>, b: seq<int>, s: seq<int>, v: seq<int>, n: nat)
    requires |a| == n && |b| == n && |s| == n && |v| == n
    ensures |a + b + s + v| == 4 * n
    ensures (a + b + s + v)[..n] == a && (a + b + s + v)[n .. 2 * n] == b
  {
    assert (a + b + s + v)[..n] == a;
  }

  /** Decoding the matrix row built for (row, col, value) gives back (row, col, value). */
  lemma {:induction false} DecodeConstraintRow(d: nat, row: int, col: int, value: int)
    requires d > 0 && 0 <= row < d * d && 0 <= col < d * d && 0 <= value < d * d
    ensures |ConstraintRow(d, row, col, value)| == 4 * (d * d * (d * d))
    ensures DecodeRow(d, ConstraintRow(d, row, col, value)) == Some((row, col, value))
  {
    var d4 := d * d * (d * d);
    var a := CrTransform(d, row, value);
    var b := CrTransform(d, col, value);
    BoxInRange(d, row, col);
    MulBounds(d, BoxOf(d, row, col), value);
    var s := Zeros(d4)[BoxOf(d, row, col) * (d * d) + value := 1];
    var v := VTransform(d, row, col);
    assert ConstraintRow(d, row, col, value) == a + b + s + v;
    Blocks(a, b, s, v, d4);
    OneHotFirst(a, d4, row * (d * d) + value);
    OneHotFirst(b, d4, col * (d * d) + value);
    InverseTransformRoundTrip(d, row, col, value);
  }
}
