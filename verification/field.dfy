/** The playing field: its dimensions, the collision test and the merge of a
    landed piece (script.js COLS, ROWS, checkCollision and merge). */
module Field {
  import opened Matrix

  /** Columns of the field. */
  const COLS: nat := 10
  /** Rows of the field. */
  const ROWS: nat := 20
  /** Number of piece types; a field cell holds 0 (empty) or a type 1..KINDS. */
  const KINDS: nat := 7

  /** The field, indexed grid[row][column], row 0 at the top. */
  type Grid = seq<seq<int>>

  /** A ROWS by COLS field whose cells are 0 or a piece type. */
  predicate IsField(g: Grid) {
    IsRect(g, COLS, ROWS) && CellsIn(g, 0, KINDS)
  }

  /** `createMatrix(COLS, ROWS)`: the field at the start of a game. */
  function EmptyField(): (g: Grid)
    ensures IsField(g)
    ensures forall r, c :: 0 <= r < ROWS && 0 <= c < COLS ==> g[r][c] == 0
  {
    CreateMatrix(COLS, ROWS)
  }

  /** Two grids with the same number of rows, row by row of the same width. */
  predicate SameShape(a: Grid, b: Grid) {
    |a| == |b| && forall r :: 0 <= r < |a| ==> |a[r]| == |b[r]|
  }

  /** (r, c) names an existing cell: in JavaScript, neither `grid[r]` nor
      `grid[r][c]` is undefined. */
  predicate InField(g: Grid, r: int, c: int) {
    0 <= r < |g| && 0 <= c < |g[r]|
  }

  /** (r, c) is an existing, empty cell. */
  predicate CellFree(g: Grid, r: int, c: int) {
    InField(g, r, c) && g[r][c] == 0
  }

  /** Every occupied cell of `m`, placed with its top-left corner at column x,
      row y, lands on an existing cell of the field. */
  predicate Fits(g: Grid, m: Mat, x: int, y: int) {
    forall i, j :: 0 <= i < |m| && 0 <= j < |m[i]| && m[i][j] != 0 ==> InField(g, y + i, x + j)
  }

  /** The matrix `m`, placed at column x, row y, has an occupied cell in rows
      i.. that is off the field or on an occupied field cell. */
  ghost predicate BlockedFrom(g: Grid, m: Mat, x: int, y: int, i: int) {
    exists i', j :: i <= i' < |m| && 0 <= i' && 0 <= j < |m[i']| && m[i'][j] != 0 && !CellFree(g, y + i', x + j)
  }

  /** `checkCollision(piece, grid, offset)` with the piece's position plus the
      offset already added up into (x, y): true iff some occupied cell of the
      piece matrix falls outside the field or onto an occupied cell. */
  function Collides(g: Grid, m: Mat, x: int, y: int): (r: bool)
    ensures r <==> BlockedFrom(g, m, x, y, 0)
    ensures !r ==> Fits(g, m, x, y)
  {
    ScanRows(g, m, x, y, 0)
  }

  /** The outer loop of checkCollision: rows i.. of the matrix. */
  function ScanRows(g: Grid, m: Mat, x: int, y: int, i: nat): (r: bool)
    requires i <= |m|
    ensures r <==> BlockedFrom(g, m, x, y, i)
    decreases |m| - i
  {
    if i == |m| then false
    else ScanCells(g, m, x, y, i, 0) || ScanRows(g, m, x, y, i + 1)
  }

  /** The inner loop of checkCollision: cells j.. of matrix row i. */
  function ScanCells(g: Grid, m: Mat, x: int, y: int, i: nat, j: nat): (r: bool)
    requires i < |m| && j <= |m[i]|
    ensures r <==> exists k :: j <= k < |m[i]| && m[i][k] != 0 && !CellFree(g, y + i, x + k)
    decreases |m[i]| - j
  {
    if j == |m[i]| then false
    else (m[i][j] != 0 && !CellFree(g, y + i, x + j)) || ScanCells(g, m, x, y, i, j + 1)
  }

  /** On a well-formed field the test reads as the explicit bounds check:
      a collision is an occupied piece cell outside rows 0..ROWS-1, outside
      columns 0..COLS-1, or on a non-zero field cell. */
  lemma CollidesOnField(g: Grid, m: Mat, x: int, y: int)
    requires IsField(g)
    ensures Collides(g, m, x, y) <==>
      exists i, j :: 0 <= i < |m| && 0 <= j < |m[i]| && m[i][j] != 0 &&
        (y + i < 0 || y + i >= ROWS || x + j < 0 || x + j >= COLS || g[y + i][x + j] != 0)
  {
  }

  /** Whether (r, c) is covered by an occupied cell of `m` placed at (x, y). */
  predicate Covers(m: Mat, x: int, y: int, r: int, c: int) {
    0 <= r - y < |m| && 0 <= c - x < |m[r - y]| && m[r - y][c - x] != 0
  }

  lemma SameShapeFits(a: Grid, b: Grid, m: Mat, x: int, y: int)
    requires SameShape(a, b) && Fits(a, m, x, y)
    ensures Fits(b, m, x, y)
  {
  }

  /** `merge(piece, grid)`: every occupied cell of the piece matrix is written
      into the field cell under it; nothing else changes. The field must have
      a cell under every occupied piece cell (JavaScript throws on a missing
      row). */
  function Merge(g: Grid, m: Mat, x: int, y: int): (r: Grid)
    requires Fits(g, m, x, y)
    ensures SameShape(r, g)
    ensures forall i, j :: 0 <= i < |m| && 0 <= j < |m[i]| && m[i][j] != 0 ==> r[y + i][x + j] == m[i][j]
    ensures forall row, c :: 0 <= row < |g| && 0 <= c < |g[row]| && !Covers(m, x, y, row, c) ==> r[row][c] == g[row][c]
  {
    MergeRows(g, m, x, y, 0)
  }

  /** The outer `forEach` of merge: rows i.. of the matrix. */
  function MergeRows(g: Grid, m: Mat, x: int, y: int, i: nat): (r: Grid)
    requires i <= |m| && Fits(g, m, x, y)
    ensures SameShape(r, g)
    ensures forall i', j :: i <= i' < |m| && 0 <= j < |m[i']| && m[i'][j] != 0 ==> r[y + i'][x + j] == m[i'][j]
    ensures forall row, c :: 0 <= row < |g| && 0 <= c < |g[row]| && !(Covers(m, x, y, row, c) && row - y >= i) ==>
      r[row][c] == g[row][c]
    decreases |m| - i
  {
    if i == |m| then g
    else
      var g' := MergeCells(g, m, x, y, i, 0);
      SameShapeFits(g, g', m, x, y);
      MergeRows(g', m, x, y, i + 1)
  }

  /** The inner `forEach` of merge: cells j.. of matrix row i. */
  function MergeCells(g: Grid, m: Mat, x: int, y: int, i: nat, j: nat): (r: Grid)
    requires i < |m| && j <= |m[i]| && Fits(g, m, x, y)
    ensures SameShape(r, g)
    ensures forall k :: j <= k < |m[i]| && m[i][k] != 0 ==> r[y + i][x + k] == m[i][k]
    ensures forall row, c :: 0 <= row < |g| && 0 <= c < |g[row]| && !(row == y + i && j <= c - x < |m[i]| && m[i][c - x] != 0) ==>
      r[row][c] == g[row][c]
    decreases |m[i]| - j
  {
    if j == |m[i]| then g
    else
      var g' := if m[i][j] != 0 then g[y + i := g[y + i][x + j := m[i][j]]] else g;
      SameShapeFits(g, g', m, x, y);
      MergeCells(g', m, x, y, i, j + 1)
  }

  /** A merge onto a field writes only piece values, so a field whose cells
      and a piece whose cells are all in 0..hi keep that range, and the row
      count and width of the field are kept. */
  lemma MergeKeepsField(g: Grid, m: Mat, x: int, y: int, hi: int)
    requires Fits(g, m, x, y) && IsRect(g, COLS, ROWS)
    requires CellsIn(g, 0, hi) && CellsIn(m, 0, hi)
    ensures IsRect(Merge(g, m, x, y), COLS, ROWS)
    ensures CellsIn(Merge(g, m, x, y), 0, hi)
  {
    var r := Merge(g, m, x, y);
    forall row, c | 0 <= row < |r| && 0 <= c < |r[row]|
      ensures 0 <= r[row][c] <= hi
    {
      if Covers(m, x, y, row, c) {
        assert r[row][c] == m[row - y][c - x];
      } else {
        assert r[row][c] == g[row][c];
      }
    }
  }
}
