/** Cell matrices: the grid allocator and the 90-degree rotation of a square
    piece matrix (script.js createMatrix and rotate). */
module Matrix {

  /** A table of cell values, indexed m[row][column]; 0 is an empty cell. */
  type Mat = seq<seq<int>>

  /** `height` rows, each `width` cells wide. */
  predicate IsRect(m: Mat, width: nat, height: nat) {
    |m| == height && forall y :: 0 <= y < |m| ==> |m[y]| == width
  }

  predicate IsSquare(m: Mat) {
    IsRect(m, |m|, |m|)
  }

  /** Every cell holds a value in lo..hi. */
  predicate CellsIn(m: Mat, lo: int, hi: int) {
    forall y, x :: 0 <= y < |m| && 0 <= x < |m[y]| ==> lo <= m[y][x] <= hi
  }

  /** Some cell is occupied. */
  predicate HasBlock(m: Mat) {
    exists y, x :: 0 <= y < |m| && 0 <= x < |m[y]| && m[y][x] != 0
  }

  /** A `height` by `width` matrix of empty cells. */
  function CreateMatrix(width: nat, height: nat): (m: Mat)
    ensures IsRect(m, width, height)
    ensures CellsIn(m, 0, 0) && !HasBlock(m)
  {
    seq(height, _ => seq(width, _ => 0))
  }

  /** The element order of `s` reversed (Array.prototype.reverse). */
  function Reverse<T>(s: seq<T>): (r: seq<T>)
    ensures |r| == |s|
    ensures forall k :: 0 <= k < |s| ==> r[k] == s[|s| - 1 - k]
  {
    if |s| == 0 then [] else Reverse(s[1..]) + [s[0]]
  }

  /** `[matrix[i][j], matrix[j][i]] = [matrix[j][i], matrix[i][j]]`: cells
      (i, j) and (j, i) trade places and every other cell stays. */
  function Swap(m: Mat, i: nat, j: nat): (t: Mat)
    requires IsSquare(m) && i < |m| && j < |m| && i != j
    ensures IsSquare(t) && |t| == |m|
    ensures t[i][j] == m[j][i] && t[j][i] == m[i][j]
    ensures forall a, b :: 0 <= a < |m| && 0 <= b < |m| && !((a == i && b == j) || (a == j && b == i)) ==>
      t[a][b] == m[a][b]
  {
    var mi := m[i][j := m[j][i]];
    var mj := m[j][i := m[i][j]];
    m[i := mi][j := mj]
  }

  /** Cell (a, b) is one of the pairs (y, x'), (x', y) with x <= x' < y that
      the inner swap loop visits from column x on. */
  predicate InRowPass(y: nat, x: nat, a: nat, b: nat) {
    (a == y && x <= b < y) || (b == y && x <= a < y)
  }

  /** The inner loop of the swap in `rotate`, for row y from column x on:
      every pair (y, x'), (x', y) with x <= x' < y trades places, and
      nothing else moves. */
  function SwapRow(m: Mat, y: nat, x: nat): (t: Mat)
    requires IsSquare(m) && y < |m| && x <= y
    ensures IsSquare(t) && |t| == |m|
    ensures forall a, b :: 0 <= a < |m| && 0 <= b < |m| && InRowPass(y, x, a, b) ==> t[a][b] == m[b][a]
    ensures forall a, b :: 0 <= a < |m| && 0 <= b < |m| && !InRowPass(y, x, a, b) ==> t[a][b] == m[a][b]
    decreases y - x
  {
    if x == y then m
    else
      var m1 := Swap(m, x, y);
      var t := SwapRow(m1, y, x + 1);
      SwapRowStep(m, m1, t, y, x);
      t
  }

  /** One pass of the inner loop: swapping (x, y) and then the pairs from
      x + 1 on swaps the pairs from x on. */
  lemma SwapRowStep(m: Mat, m1: Mat, t: Mat, y: nat, x: nat)
    requires IsSquare(m) && |m1| == |m| && |t| == |m| && IsSquare(m1) && IsSquare(t) && x < y < |m|
    requires m1[x][y] == m[y][x] && m1[y][x] == m[x][y]
    requires forall a, b :: 0 <= a < |m| && 0 <= b < |m| && !((a == x && b == y) || (a == y && b == x)) ==>
      m1[a][b] == m[a][b]
    requires forall a, b :: 0 <= a < |m| && 0 <= b < |m| && InRowPass(y, x + 1, a, b) ==> t[a][b] == m1[b][a]
    requires forall a, b :: 0 <= a < |m| && 0 <= b < |m| && !InRowPass(y, x + 1, a, b) ==> t[a][b] == m1[a][b]
    ensures forall a, b :: 0 <= a < |m| && 0 <= b < |m| && InRowPass(y, x, a, b) ==> t[a][b] == m[b][a]
    ensures forall a, b :: 0 <= a < |m| && 0 <= b < |m| && !InRowPass(y, x, a, b) ==> t[a][b] == m[a][b]
  {
    forall a, b | 0 <= a < |m| && 0 <= b < |m|
      ensures t[a][b] == if InRowPass(y, x, a, b) then m[b][a] else m[a][b]
    {
      if InRowPass(y, x + 1, a, b) {
        assert t[a][b] == m1[b][a];
      } else {
        assert t[a][b] == m1[a][b];
      }
    }
  }

  /** The outer loop of the swap in `rotate`, from row y on: afterwards a
      cell (a, b) with a >= y or b >= y holds the old cell (b, a), and the
      cells of rows and columns before y are as they were. */
  function SwapLoop(m: Mat, y: nat): (t: Mat)
    requires IsSquare(m) && y <= |m|
    ensures IsSquare(t) && |t| == |m|
    ensures forall a, b :: 0 <= a < |m| && 0 <= b < |m| && (a >= y || b >= y) ==> t[a][b] == m[b][a]
    ensures forall a, b :: 0 <= a < y && 0 <= b < y ==> t[a][b] == m[a][b]
    decreases |m| - y
  {
    if y == |m| then m
    else
      var m1 := SwapRow(m, y, 0);
      var t := SwapLoop(m1, y + 1);
      SwapLoopStep(m, m1, t, y);
      t
  }

  /** One pass of the outer loop: swapping row y against column y and then
      handling the rows after y handles the rows from y on. */
  lemma SwapLoopStep(m: Mat, m1: Mat, t: Mat, y: nat)
    requires IsSquare(m) && |m1| == |m| && |t| == |m| && IsSquare(m1) && IsSquare(t) && y < |m|
    requires forall a, b :: 0 <= a < |m| && 0 <= b < |m| && InRowPass(y, 0, a, b) ==> m1[a][b] == m[b][a]
    requires forall a, b :: 0 <= a < |m| && 0 <= b < |m| && !InRowPass(y, 0, a, b) ==> m1[a][b] == m[a][b]
    requires forall a, b :: 0 <= a < |m| && 0 <= b < |m| && (a >= y + 1 || b >= y + 1) ==> t[a][b] == m1[b][a]
    requires forall a, b :: 0 <= a < y + 1 && 0 <= b < y + 1 ==> t[a][b] == m1[a][b]
    ensures forall a, b :: 0 <= a < |m| && 0 <= b < |m| && (a >= y || b >= y) ==> t[a][b] == m[b][a]
    ensures forall a, b :: 0 <= a < y && 0 <= b < y ==> t[a][b] == m[a][b]
  {
    forall a, b | 0 <= a < |m| && 0 <= b < |m|
      ensures t[a][b] == if a >= y || b >= y then m[b][a] else m[a][b]
    {
      if a >= y + 1 || b >= y + 1 {
        assert t[a][b] == m1[b][a];
      } else {
        assert t[a][b] == m1[a][b];
      }
    }
  }

  /** The diagonal swap loop of `rotate`, run over every row: cell (y, x)
      ends up holding the old cell (x, y). */
  function Transpose(m: Mat): (t: Mat)
    requires IsSquare(m)
    ensures IsSquare(t) && |t| == |m|
    ensures forall y, x :: 0 <= y < |m| && 0 <= x < |m| ==> t[y][x] == m[x][y]
  {
    SwapLoop(m, 0)
  }

  /** `rotate(matrix, dir)`: transpose, then reverse every row when dir > 0
      (a clockwise quarter turn) or reverse the row order otherwise (a
      counter-clockwise quarter turn). */
  function Rotate(m: Mat, dir: int): (r: Mat)
    requires IsSquare(m)
    ensures IsSquare(r) && |r| == |m|
    ensures dir > 0 ==>
      forall y, x :: 0 <= y < |m| && 0 <= x < |m| ==> r[y][x] == m[|m| - 1 - x][y]
    ensures dir <= 0 ==>
      forall y, x :: 0 <= y < |m| && 0 <= x < |m| ==> r[y][x] == m[x][|m| - 1 - y]
  {
    var t := Transpose(m);
    if dir > 0 then seq(|t|, y requires 0 <= y < |t| => Reverse(t[y])) else Reverse(t)
  }

  /** Two square matrices of one size are equal when they agree cell by cell. */
  lemma SquareExt(a: Mat, b: Mat)
    requires IsSquare(a) && IsSquare(b) && |a| == |b|
    requires forall y, x :: 0 <= y < |a| && 0 <= x < |a| ==> a[y][x] == b[y][x]
    ensures a == b
  {
    forall y | 0 <= y < |a|
      ensures a[y] == b[y]
    {
      assert forall x :: 0 <= x < |a| ==> a[y][x] == b[y][x];
    }
  }

  /** A square matrix moved as a clockwise quarter turn moves it, and the
      result then moved as a counter-clockwise one, is the matrix again. */
  lemma QuarterTurnsCancel(m: Mat, r: Mat, b: Mat)
    requires IsSquare(m) && IsSquare(r) && IsSquare(b) && |r| == |m| && |b| == |m|
    requires forall y, x :: 0 <= y < |m| && 0 <= x < |m| ==> r[y][x] == m[|m| - 1 - x][y]
    requires forall y, x :: 0 <= y < |m| && 0 <= x < |m| ==> b[y][x] == r[x][|m| - 1 - y]
    ensures b == m
  {
    var n := |m|;
    forall y, x | 0 <= y < n && 0 <= x < n
      ensures b[y][x] == m[y][x]
    {
      assert b[y][x] == r[x][n - 1 - y];
    }
    SquareExt(b, m);
  }

  /** The same, with the counter-clockwise turn first. */
  lemma QuarterTurnsCancelBack(m: Mat, r: Mat, b: Mat)
    requires IsSquare(m) && IsSquare(r) && IsSquare(b) && |r| == |m| && |b| == |m|
    requires forall y, x :: 0 <= y < |m| && 0 <= x < |m| ==> r[y][x] == m[x][|m| - 1 - y]
    requires forall y, x :: 0 <= y < |m| && 0 <= x < |m| ==> b[y][x] == r[|m| - 1 - x][y]
    ensures b == m
  {
    var n := |m|;
    forall y, x | 0 <= y < n && 0 <= x < n
      ensures b[y][x] == m[y][x]
    {
      assert b[y][x] == r[n - 1 - x][y];
    }
    SquareExt(b, m);
  }

  /** A clockwise turn is undone by a counter-clockwise one, and vice versa. */
  lemma RotateRoundTrip(m: Mat)
    requires IsSquare(m)
    ensures Rotate(Rotate(m, 1), -1) == m
    ensures Rotate(Rotate(m, -1), 1) == m
  {
    QuarterTurnsCancel(m, Rotate(m, 1), Rotate(Rotate(m, 1), -1));
    QuarterTurnsCancelBack(m, Rotate(m, -1), Rotate(Rotate(m, -1), 1));
  }

  /** Two clockwise turns mirror the matrix through its centre. */
  lemma HalfTurn(m: Mat)
    requires IsSquare(m)
    ensures forall y, x :: 0 <= y < |m| && 0 <= x < |m| ==>
      Rotate(Rotate(m, 1), 1)[y][x] == m[|m| - 1 - y][|m| - 1 - x]
  {
  }

  /** Mirroring a square matrix through its centre twice gives it back. */
  lemma MirrorTwice(m: Mat, h: Mat, f: Mat)
    requires IsSquare(m) && IsSquare(h) && IsSquare(f) && |h| == |m| && |f| == |m|
    requires forall y, x :: 0 <= y < |m| && 0 <= x < |m| ==> h[y][x] == m[|m| - 1 - y][|m| - 1 - x]
    requires forall y, x :: 0 <= y < |m| && 0 <= x < |m| ==> f[y][x] == h[|m| - 1 - y][|m| - 1 - x]
    ensures f == m
  {
    var n := |m|;
    forall y, x | 0 <= y < n && 0 <= x < n
      ensures f[y][x] == m[y][x]
    {
      assert f[y][x] == h[n - 1 - y][n - 1 - x];
    }
    SquareExt(f, m);
  }

  /** Four clockwise turns give back the original matrix. */
  lemma RotateFourTimes(m: Mat)
    requires IsSquare(m)
    ensures Rotate(Rotate(Rotate(Rotate(m, 1), 1), 1), 1) == m
  {
    var h := Rotate(Rotate(m, 1), 1);
    var f := Rotate(Rotate(h, 1), 1);
    HalfTurn(m);
    HalfTurn(h);
    MirrorTwice(m, h, f);
  }

  /** A rotation moves cells without changing them, so the value range of
      the cells survives it. */
  lemma RotateKeepsRange(m: Mat, dir: int, lo: int, hi: int)
    requires IsSquare(m)
    ensures CellsIn(m, lo, hi) ==> CellsIn(Rotate(m, dir), lo, hi)
  {
    var r := Rotate(m, dir);
    var n := |m|;
    forall y, x | 0 <= y < n && 0 <= x < n && CellsIn(m, lo, hi)
      ensures lo <= r[y][x] <= hi
    {
      if dir > 0 {
        assert r[y][x] == m[n - 1 - x][y];
      } else {
        assert r[y][x] == m[x][n - 1 - y];
      }
    }
  }

  /** A square matrix whose cells are those of `m`, moved as a quarter turn
      moves them, has an occupied cell exactly when `m` has. */
  lemma QuarterTurnKeepsBlock(m: Mat, r: Mat, clockwise: bool)
    requires IsSquare(m) && IsSquare(r) && |r| == |m|
    requires clockwise ==> forall y, x :: 0 <= y < |m| && 0 <= x < |m| ==> r[y][x] == m[|m| - 1 - x][y]
    requires !clockwise ==> forall y, x :: 0 <= y < |m| && 0 <= x < |m| ==> r[y][x] == m[x][|m| - 1 - y]
    ensures HasBlock(r) <==> HasBlock(m)
  {
    var n := |m|;
    if HasBlock(m) {
      var y, x :| 0 <= y < n && 0 <= x < |m[y]| && m[y][x] != 0;
      if clockwise {
        assert r[x][n - 1 - y] == m[y][x];
      } else {
        assert r[n - 1 - x][y] == m[y][x];
      }
    }
    if HasBlock(r) {
      var y, x :| 0 <= y < n && 0 <= x < |r[y]| && r[y][x] != 0;
      if clockwise {
        assert r[y][x] == m[n - 1 - x][y];
      } else {
        assert r[y][x] == m[x][n - 1 - y];
      }
    }
  }

  /** A rotated matrix has an occupied cell exactly when the original has. */
  lemma RotateKeepsBlock(m: Mat, dir: int)
    requires IsSquare(m)
    ensures HasBlock(Rotate(m, dir)) <==> HasBlock(m)
  {
    QuarterTurnKeepsBlock(m, Rotate(m, dir), dir > 0);
  }
}
