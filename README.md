# Dancing links for exact cover, with the Sudoku encoding

This project models `dancing_link.py`, a Sudoku solver built on Knuth's dancing-links (DLX)
algorithm. The solver turns a d²×d² Sudoku into an exact-cover matrix. It builds a four-way
circular doubly linked node map from the matrix's columns. Then it searches that map by
backtracking: choose a column, try each row in it, `cover` the row, recurse, and `uncover` it
again.

The model has these parts:

- **`Links`**: the pointer surgery of one link direction, on values. `Unlink` stands for
  `remove_from_row`/`remove_from_col` and `Relink` for `put_in_row`/`put_in_col`. The module
  also holds the general theorem behind `uncover`: relinking removed nodes in the *same* order
  they were removed restores every link, as long as each relink is safe.
- **`NodeLayout`**: which creation number each node gets, and which rings the built map has,
  as functions of the matrix. This is the root ring of headers, one column ring per column and
  one row ring per row.
- **`SearchState`** and **`ExactCover`**: the search state for a set of chosen rows (active
  columns, live rows, the invariant `Inv` the links satisfy), what an exact cover is, and the
  facts the recursion relies on.
- **`CoverPlan`**, **`CoverSteps`** and **`UncoverSteps`**: exactly which nodes `cover` unlinks
  and in what order; that the result is the search state with the chosen row added; and that
  `uncover`, walking in the same order, gives back every link.
- **`DancingLinks`**: the node map as a class. Its fields are `left`, `right`, `up`, `down` and
  `rowIndex` (one entry per node) plus `solution`. Its methods are the source's methods, with
  the same loops.
- **`SudokuEncoding`**: `cr_transform`, `s_transform`, `v_transform`,
  `construct_sudoku_matrix` and `inverse_transform`, plus the index reconstruction done in
  `output_sudoku_solution`.

### How the model names things

- **Node numbers.** Python nodes are objects. Here a node is its creation number: root 0, then
  for each column its header followed by one cell per 1, top to bottom. A pointer field write is
  an update of one sequence entry. Nodes are only ever appended, as in the source, which never
  frees a node.
- **Globals.** The globals `node_map` and `solution_set` are the receiver object and its
  `solution` field.
- **Stopping on success.** `exit()` on success becomes `found == true`, returned up through the
  recursion. Every caller returns at once on `found`, so no further link or solution update
  happens after the first exact cover is reached, as with the process exit.
- **Ghost parameters.** The matrix `Z` (for each column, the rows of its 1s) and the chosen rows
  `S` are ghost parameters of the methods. They only appear in contracts.

### Where the code and its comments differ (the model follows the code)

- **`choose_column`.** Its comment and the comment in `dancing_link` speak of choosing the column
  with the fewest 1s. The code returns `root.right`, the leftmost active column.
- **`put_in_row`/`put_in_col` on a node linked to itself.** They read the node's own link again
  after the first store. For a node whose left (up) link names itself, the second store
  therefore uses the new value. `PutInRow`/`PutInCol` model this exactly. The search never
  relinks such a node.

## Model

| member | source | states |
|---|---|---|
| DancingLinks.NodeMap.NewNode | dancing_link.py:4-10 | a new node is appended with all four links pointing at itself and the given row index |
| DancingLinks.NodeMap.RemoveFromRow | dancing_link.py:19-21 | the horizontal links become `Unlink` of the old ones: left[x].right := right[x]; right[x].left := left[x]; x's own links and the vertical links are unchanged |
| DancingLinks.NodeMap.RemoveFromCol | dancing_link.py:23-25 | the same for down/up; the horizontal links are unchanged |
| DancingLinks.NodeMap.PutInRow | dancing_link.py:27-29 | `Relink` of the old horizontal links; for a node left-linked to itself, the self-loop result the double store gives |
| DancingLinks.NodeMap.PutInCol | dancing_link.py:31-33 | the same for down/up |
| Links.Unlink | dancing_link.py:19-25 | the node's former neighbours now point at each other, and the node's own links keep their values |
| Links.Relink | dancing_link.py:27-33 | the neighbours the node still names point back at it |
| Links.RelinkUnlink | dancing_link.py:19-33 | put right after remove restores every link, when the node's neighbours pointed back at it |
| Links.UnlinkLinked | dancing_link.py:19-25 | unlinking a node of a consistent doubly linked set leaves the rest consistent |
| Links.RingUnlink | dancing_link.py:19-25 | unlinking a node from a ring of two or more leaves the others as a ring in the same order |
| Links.RingInsert | dancing_link.py:114-133 | linking a new node after the last node of a ring gives the ring with the node at its end |
| Links.RemoveAllLinked | dancing_link.py:39-57 | after any run of unlinks of fresh nodes, the nodes left still form consistent lists |
| Links.RemoveAllChanges | dancing_link.py:39-57 | a link changed by a run of unlinks originally pointed to a node removed earlier |
| Links.RemoveAllOutside | dancing_link.py:39-57 | a run of unlinks does not touch links of nodes outside the set |
| Links.PutStep | dancing_link.py:61-80 | a safe relink finds the node's links at their original values and writes only original values |
| Links.Restored | dancing_link.py:61-80 | when every removed node has been safely relinked, every link equals its original value |
| Links.SameOrderRestores | dancing_link.py:39-80 | relinking in the same order as the removals (not the reverse) gives back the original links exactly |
| NodeLayout.OnesIncreasing | dancing_link.py:120-121 | the rows of a column's 1s are listed in increasing order, the order add_col appends them |
| NodeLayout.NodeInjective | dancing_link.py:107-133 | distinct places (column, position) get distinct node numbers |
| NodeLayout.RowIdxAt | dancing_link.py:107-133 | the row index of a header is -1 and of the t-th cell of column j is the row of its 1 |
| NodeLayout.RootRingIn | dancing_link.py:106-118 | the root ring holds exactly the root and the headers, distinct, starting at the root |
| NodeLayout.ColRingIn | dancing_link.py:120-126 | column ring j holds exactly the header and the cells of column j |
| NodeLayout.RowRingIn | dancing_link.py:128-133 | row ring i holds exactly the cells of row i, distinct |
| NodeLayout.RowTailRotate | dancing_link.py:41-57 | the row walk started right of a cell visits the rest of the row ring and ends at that cell |
| NodeLayout.BuiltInverse | dancing_link.py:111-133 | in a well-built map every node's neighbours point back at it: left[right[n]] == n, right[left[n]] == n, up[down[n]] == n and down[up[n]] == n for every node n |
| NodeLayout.BuiltStart | dancing_link.py:106-107 | the root alone is a well-built map of the empty matrix |
| NodeLayout.BuiltAddHeader | dancing_link.py:112-118 | inserting a header just left of the root (at the rightmost place) keeps the map well built, now with one more, empty column |
| NodeLayout.BuiltAddCellColumn | dancing_link.py:122-126 | linking a new cell above the header puts it at the bottom of the column ring, and every column ring stays a ring |
| NodeLayout.BuiltAddCellRow | dancing_link.py:129-133 | linking the new cell right of the last cell of its row to the left keeps every row ring a ring, now with the cell at its end |
| NodeLayout.RowRingLast | dancing_link.py:86-100 | the nearest column to the left with a 1 in the row holds the last cell of the row so far |
| NodeLayout.RowRingNone | dancing_link.py:86-100 | a row with no 1 in the earlier columns has no cells yet |
| DancingLinks.NodeMap.ColHeader | dancing_link.py:12-16 | walking up from any cell of column j reaches column j's header |
| DancingLinks.NodeMap.FindInColumn | dancing_link.py:95-100 | walking down column c finds the row's cell if column c has a 1 in that row, else the header, and the root for c = -1 |
| DancingLinks.NodeMap.TraverseFindLeftNode | dancing_link.py:86-100 | for a new last cell, the result is the last cell of the row in the earlier columns, or the cell itself when there is none |
| DancingLinks.NodeMap.LinkAbove | dancing_link.py:123-126 | the vertical splice: y goes between the column's bottom node and its header |
| DancingLinks.NodeMap.LinkAfter | dancing_link.py:130-133 | the horizontal splice: y goes between L and the node right of L |
| DancingLinks.NodeMap.AddCellToColumn | dancing_link.py:122-126 | the new cell ends at the bottom of its column; all column rings are right; the cell is still alone in its row |
| DancingLinks.NodeMap.AddCell | dancing_link.py:121-133 | after one 1 of the column is added, the map is the well-built map of the matrix with that 1 |
| DancingLinks.NodeMap.AddCol | dancing_link.py:111-133 | after add_col, the map is the well-built map of the matrix with the new column: all root, column and row rings consistent |
| DancingLinks.NodeMap.constructor | dancing_link.py:105-109 | NodeMap(cols) is the well-built map of the matrix, with an empty solution |
| SearchState.InvStart | dancing_link.py:296-302 | the freshly built map is the search state with no rows chosen |
| SearchState.RootAlone | dancing_link.py:161 | root.right == root exactly when no column is active |
| SearchState.RootRight | dancing_link.py:152-161 | root.right is the header of the leftmost active column, and is the root exactly when none is left |
| SearchState.ColumnNext | dancing_link.py:170-185 | walking down an active column from its header visits the header and then the cells of the live rows in order, back to the header |
| SearchState.ActiveRing | dancing_link.py:170-185 | what is left of an active column is a ring |
| ExactCover.AllCovered | dancing_link.py:161-164 | disjoint chosen rows that leave no column active are an exact cover |
| ExactCover.ChooseAlive | dancing_link.py:173-176 | choosing a live row keeps the chosen rows disjoint |
| ExactCover.ChooseShrinks | dancing_link.py:173-179 | choosing a row of an active column strictly shrinks the set of active columns (why the recursion ends) |
| ExactCover.CoverRow | dancing_link.py:170-185 | any exact cover holding the chosen rows picks a live row of each active column |
| ExactCover.ColumnExhausted | dancing_link.py:170-185 | if no exact cover extends any live row of an active column, none extends the chosen rows |
| ExactCover.ColumnTried | dancing_link.py:170-185 | the same, stated over the present column's cells as the loop visits them |
| CoverPlan.PlanIn | dancing_link.py:39-57 | cover unlinks from the columns exactly the cells of other live rows with a 1 in a covered column, except each such row's cell in the first such column |
| CoverPlan.BlockIn | dancing_link.py:43-52 | a phase unlinks exactly those cells whose row first meets the row being covered in that phase's column |
| CoverPlan.PlanFresh | dancing_link.py:39-57 | cover unlinks no cell twice, and only cells still present |
| CoverSteps.CoverStart | dancing_link.py:39-41 | before the first phase, the cover invariant holds for any phase sequence |
| CoverSteps.PhaseAdvance | dancing_link.py:43-53 | one phase unlinks its column's header from the root ring and its block of cells from the columns, in that order |
| CoverSteps.CoverPost | dancing_link.py:39-57 | after all phases, the links are exactly the search state with the covered row chosen |
| DancingLinks.NodeMap.HideRow | dancing_link.py:46-49 | the walk of a clashing row unlinks all its other cells from their columns, in order, and keeps the clashing cell |
| DancingLinks.NodeMap.CoverNode | dancing_link.py:44-52 | one step of a phase's column walk: unlink the header from the root ring, or the rest of the cell's row from the columns |
| DancingLinks.NodeMap.CoverColumn | dancing_link.py:43-53 | one phase: the header and the phase's block are unlinked, and the cover invariant moves on one phase |
| DancingLinks.NodeMap.Cover | dancing_link.py:39-57 | the links end as the old links with the headers and the planned cells unlinked in cover's order, which is the search state with row R chosen |
| UncoverSteps.PutSafe | dancing_link.py:68-72 | every put of uncover is safe: by then the original neighbours it needs are back in place |
| UncoverSteps.UncoverBegin | dancing_link.py:61-64 | right after cover, uncover's start matches: the covered state with nothing relinked yet |
| UncoverSteps.UncoverDone | dancing_link.py:61-80 | once every header and cell cover removed has been put back, every link equals its value before cover |
| DancingLinks.NodeMap.UnhideRow | dancing_link.py:69-72 | the walk of a row relinks its other cells into their columns, in order |
| DancingLinks.NodeMap.UncoverNode | dancing_link.py:67-75 | one step of uncover's column walk keeps the "already restored" invariant of uncover |
| DancingLinks.NodeMap.UncoverColumn | dancing_link.py:66-76 | one phase of uncover restores the column's header and every cell cover removed in that phase |
| DancingLinks.NodeMap.Uncover | dancing_link.py:61-80 | uncover right after cover on the same cell gives back every left/right/up/down link exactly, walking in cover's order |
| DancingLinks.NodeMap.ChooseColumn | dancing_link.py:135-152 | the result is the header of the leftmost active column, or the root exactly when none is left |
| DancingLinks.NodeMap.DancingLink | dancing_link.py:158-185 | on success the solution lists no row twice and is an exact cover extending the entry solution; on failure no exact cover holds the chosen rows, and links and solution are as on entry |
| DancingLinks.NodeMap.TryRow | dancing_link.py:172-183 | one loop iteration: append, cover, recurse, then pop and uncover; on success an exact cover without repeated rows; on failure there is no exact cover with this row, and state is as on entry |
| DancingLinks.NodeMap.Descend | dancing_link.py:172-179 | append the row, cover it, and recurse; on success an exact cover without repeated rows; on failure the links are exactly what cover left |
| DancingLinks.Solve | dancing_link.py:296-303 | building the map and searching from an empty solution gives an exact cover of the matrix with no row listed twice, or "none" only when the matrix has no exact cover |
| SudokuEncoding.CrTransform | dancing_link.py:192-197 | a list of d⁴ zeros with a single 1 at x·d²+value |
| SudokuEncoding.VTransform | dancing_link.py:212-217 | a list of d⁴ zeros with a single 1 at row·d²+col |
| SudokuEncoding.BoxInRange | dancing_link.py:199-209 | the box number (row div d)·d + (col div d) of a cell is below d² |
| SudokuEncoding.STransform | dancing_link.py:199-210 | a list of d⁴ zeros with a single 1 at box·d²+value, the box read from the nested table |
| SudokuEncoding.RowNumberLess | dancing_link.py:225-227 | row numbers grow with (row, col, value) in lexicographic loop order |
| SudokuEncoding.RowNumberDecodes | dancing_link.py:225-232 | row, col and value are read back from the row number as base-d² digits |
| SudokuEncoding.ConstructSudokuMatrix | dancing_link.py:220-233 | d⁶ rows; row (row·d²+col)·d²+value is the four constraint blocks for (row, col, value) |
| SudokuEncoding.InverseTransform | dancing_link.py:235-241 | the row-block position is row·d²+value with value below d², and the column-block position lies in block col |
| SudokuEncoding.InverseTransformRoundTrip | dancing_link.py:235-241 | inverse_transform(d, row·d²+value, col·d²+value) == (row, col, value) |
| SudokuEncoding.FirstOne | dancing_link.py:257-258 | the first position holding a 1, or None when there is none |
| SudokuEncoding.DecodeRow | dancing_link.py:256-259 | None exactly when the row block or the column block holds no 1; otherwise in-range (row, col, value) where row·d²+value is the FIRST 1 of the row block and the first 1 of the column block lies in block col, as `[..][0]` picks them |
| SudokuEncoding.DecodeConstraintRow | dancing_link.py:256-259 | reading the first 1 of the row block and of the column block of the matrix row for (row, col, value) gives back (row, col, value) |

## Left out

- Reading the puzzle file, argparse, `math.sqrt` for the dimension and printing (`__main__` and the printing in `output_sudoku_solution`): I/O and floating point. Only the index decoding of `output_sudoku_solution` is modelled, as `SudokuEncoding.DecodeRow`.
- The clue filtering, the transpose and the zero-column removal in `__main__` (lines 279-295): list-comprehension setup of the matrix, not part of the engine. `Solve` takes any list of 0/1 columns, including all-zero ones, for which it reports that there is no cover.
- `exit()` after a solution is found: modelled as returning `found` up the recursion with no further state change, as described above.
- The default argument `constraint_matrix=test_matrix` of `NodeMap.__init__` (lines 104-106): the constructor always takes its columns; the built-in test matrix is a fixture, not part of the engine.
- Python's recursion limit: `dancing_link` recurses once per chosen row, so a search deeper than about 1000 levels raises `RecursionError` in the source. The model's recursion has no such limit.
- The commented-out weight heuristic of `choose_column` (lines 138-151): dead code.
- Object identity: nodes are numbers indexing one set of sequences, not separate heap objects. No two numbers can alias. This matches the source, where every node is a distinct object.
- SudokuEncoding.InverseTransform: requires d > 0; the source divides by d² and would fail with a division by zero at d = 0.
