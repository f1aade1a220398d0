/** The game controller (script.js rotatePiece, movePiece, dropPiece,
    hardDrop, resetPiece, pauseGame, the state reset of startGame, the drop
    counter of update and the ghost projection of drawGrid). Every operation
    is a function from one game state to the next; the type of each freshly
    created piece is a parameter. */
module Engine {
  import opened Matrix
  import opened Field
  import opened Pieces
  import opened Rows
  import opened Scoring

  /** The session: `gameState` plus `currentPiece` and `nextPiece`. The drop
      counter counts whole milliseconds. */
  datatype Game = Game(
    grid: Grid,
    current: Piece,
    next: Piece,
    stats: Stats,
    dropCounter: nat,
    paused: bool,
    gameOver: bool)

  /** Neither over nor paused: the only state in which play changes anything. */
  predicate Running(s: Game) {
    !s.gameOver && !s.paused
  }

  /** What holds in every state reachable from a game start: a well-formed
      field with no full row, two well-formed pieces, the active piece inside
      the field unless the game is over, and level and speed agreeing with
      the cleared-row count. */
  predicate Valid(s: Game) {
    && IsField(s.grid) && NoFullRow(s.grid)
    && ValidPiece(s.current) && ValidPiece(s.next)
    && (!s.gameOver ==> Fits(s.grid, s.current.matrix, s.current.pos.x, s.current.pos.y))
    && Consistent(s.stats)
  }

  /** `checkCollision(piece, grid, {x: dx, y: dy})`. */
  function CheckCollision(g: Grid, p: Piece, dx: int, dy: int): (r: bool)
    ensures r <==> (exists i, j :: 0 <= i < |p.matrix| && 0 <= j < |p.matrix[i]| && p.matrix[i][j] != 0 &&
                                 !CellFree(g, p.pos.y + dy + i, p.pos.x + dx + j))
    ensures !r ==> Fits(g, p.matrix, p.pos.x + dx, p.pos.y + dy)
  {
    Collides(g, p.matrix, p.pos.x + dx, p.pos.y + dy)
  }

  // ---------------------------------------------------------------------
  // Start and pause

  /** The state reset of `startGame`: empty field, zero score and lines,
      level 1, a 1000 ms interval, two fresh pieces, running. */
  function NewGame(first: int, second: int): (s: Game)
    requires 1 <= first <= KINDS && 1 <= second <= KINDS
    ensures Valid(s) && Running(s)
    ensures s.stats.score == 0 && s.stats.lines == 0 && s.stats.level == 1 && s.stats.dropInterval == 1000
    ensures s.dropCounter == 0
    ensures forall r, c :: 0 <= r < ROWS && 0 <= c < COLS ==> s.grid[r][c] == 0
    ensures s.current == CreatePiece(first) && s.next == CreatePiece(second)
    ensures !CheckCollision(s.grid, s.current, 0, 0)
  {
    var g := EmptyField();
    assert forall r :: 0 <= r < |g| ==> g[r][0] == 0;
    Game(g, CreatePiece(first), CreatePiece(second), StartStats(), 0, false, false)
  }

  /** `startGame` (and `restartGame`, which calls it): a paused game that is
      not over is only resumed; in every other state the game starts anew. */
  function StartGame(s: Game, first: int, second: int): (r: Game)
    requires 1 <= first <= KINDS && 1 <= second <= KINDS
    ensures !s.gameOver && s.paused ==> r == s.(paused := false)
    ensures s.gameOver || !s.paused ==> r == NewGame(first, second)
    ensures Valid(s) ==> Valid(r)
    ensures Running(r)
  {
    if !s.gameOver && s.paused then s.(paused := false)
    else NewGame(first, second)
  }

  /** `pauseGame`: flips the paused flag unless the game is over. */
  function PauseGame(s: Game): (r: Game)
    ensures r.paused == (if s.gameOver then s.paused else !s.paused)
    ensures r == s.(paused := r.paused)
    ensures Valid(s) ==> Valid(r)
  {
    if s.gameOver then s else s.(paused := !s.paused)
  }

  /** Pausing twice gives back the original state. */
  lemma PauseTwice(s: Game)
    ensures PauseGame(PauseGame(s)) == s
  {
  }

  // ---------------------------------------------------------------------
  // Move

  /** `movePiece(dir)`: shift the active piece dir columns unless the
      shifted piece would collide. Only the column can change. */
  function MovePiece(s: Game, dir: int): (r: Game)
    ensures !Running(s) ==> r == s
    ensures r == s.(current := r.current)
    ensures r.current == s.current.(pos := Pos(r.current.pos.x, s.current.pos.y))
    ensures r.current.pos.x == s.current.pos.x || r.current.pos.x == s.current.pos.x + dir
    ensures Running(s) && dir != 0 ==>
      (r.current.pos.x == s.current.pos.x + dir <==> !CheckCollision(s.grid, s.current, dir, 0))
    ensures Valid(s) ==> Valid(r)
  {
    if s.gameOver || s.paused then s
    else
      var p := s.current;
      var moved := p.(pos := Pos(p.pos.x + dir, p.pos.y));
      if CheckCollision(s.grid, moved, 0, 0) then s else s.(current := moved)
  }

  // ---------------------------------------------------------------------
  // Rotate with wall kicks

  /** Outcome of the kick search: the column the rotated piece settles in,
      or a revert to the snapshot taken before rotating. */
  datatype Kick = Placed(x: int) | Reverted

  function Abs(n: int): nat {
    if n < 0 then -n else n
  }

  /** The `while` loop of rotatePiece on the rotated matrix m at row y. The
      piece is tested at column x; on a collision it moves by `offset`, the
      offset becomes `-(offset + sign(offset))`, and the search gives up as
      soon as the new offset exceeds the matrix width, before the moved
      piece is tested. */
  function KickSearch(g: Grid, m: Mat, x: int, y: int, offset: int, width: nat): (k: Kick)
    requires offset != 0 && -(width + 2) <= offset <= width + 1
    ensures k.Placed? ==> !Collides(g, m, k.x, y)
    decreases width + 2 - Abs(offset)
  {
    if !Collides(g, m, x, y) then Placed(x)
    else
      var next := -(offset + (if offset > 0 then 1 else -1));
      if next > width then Reverted
      else KickSearch(g, m, x + offset, y, next, width)
  }

  /** How many columns the search tests for a matrix of the given width: the
      least even number that is at least 2 and at least the width. */
  function KickTries(width: nat): (n: nat)
    ensures 2 <= n <= width + 2
  {
    if width <= 2 then 2 else if width % 2 == 0 then width else width + 1
  }

  /** The column shift, relative to the start, of the i-th tested column:
      0, +1, -1, +2, -2, ... */
  function KickShift(i: nat): int {
    if i % 2 == 1 then (i + 1) / 2 else -(i / 2)
  }

  /** The shifts tested for a matrix of the given width, in test order. */
  function KickShifts(width: nat): (shifts: seq<int>)
    ensures |shifts| == KickTries(width)
    ensures forall i :: 0 <= i < |shifts| ==> shifts[i] == KickShift(i)
  {
    seq(KickTries(width), i requires 0 <= i => KickShift(i))
  }

  /** The offset in force when the i-th column is tested. */
  function KickOffset(i: nat): int {
    if i % 2 == 0 then i + 1 else -(i + 1)
  }

  /** `k` is the first fit of matrix m among the columns x0 + shifts[t] for
      t in from.., or a revert when none of them fits. */
  ghost predicate FirstFit(g: Grid, m: Mat, x0: int, y: int, shifts: seq<int>, from: nat, k: Kick) {
    match k
    case Placed(x) =>
      exists t :: from <= t < |shifts| && x == x0 + shifts[t] && !Collides(g, m, x, y) &&
        forall t' :: from <= t' < t ==> Collides(g, m, x0 + shifts[t'], y)
    case Reverted =>
      forall t :: from <= t < |shifts| ==> Collides(g, m, x0 + shifts[t], y)
  }

  /** The bookkeeping of the kick loop: after the i-th test the piece moves
      by KickOffset(i) to the (i+1)-th shift, the offset becomes
      KickOffset(i+1), and that offset exceeds the width exactly when all
      KickTries columns have been tested. */
  lemma KickStep(width: nat, i: nat)
    requires i < KickTries(width)
    ensures KickOffset(i) != 0 && -(width + 2) <= KickOffset(i) <= width + 1
    ensures -(KickOffset(i) + (if KickOffset(i) > 0 then 1 else -1)) == KickOffset(i + 1)
    ensures KickShift(i) + KickOffset(i) == KickShift(i + 1)
    ensures KickOffset(i + 1) > width <==> i + 1 == KickTries(width)
  {
  }

  /** A fit at the from-th shift is the first fit from there on. */
  lemma FirstFitHere(g: Grid, m: Mat, x0: int, y: int, shifts: seq<int>, from: nat)
    requires from < |shifts| && !Collides(g, m, x0 + shifts[from], y)
    ensures FirstFit(g, m, x0, y, shifts, from, Placed(x0 + shifts[from]))
  {
  }

  /** A collision at the from-th shift passes the search on to the next one. */
  lemma FirstFitNext(g: Grid, m: Mat, x0: int, y: int, shifts: seq<int>, from: nat, k: Kick)
    requires from < |shifts| && Collides(g, m, x0 + shifts[from], y)
    requires FirstFit(g, m, x0, y, shifts, from + 1, k)
    ensures FirstFit(g, m, x0, y, shifts, from, k)
  {
    match k
    case Placed(x) =>
      var t :| from + 1 <= t < |shifts| && x == x0 + shifts[t] && !Collides(g, m, x, y) &&
        forall t' :: from + 1 <= t' < t ==> Collides(g, m, x0 + shifts[t'], y);
      assert forall t' :: from <= t' < t ==> Collides(g, m, x0 + shifts[t'], y);
    case Reverted =>
  }

  /** The search stops at a fitting column. */
  lemma KickFitCase(g: Grid, m: Mat, x0: int, y: int, width: nat, i: nat)
    requires i < KickTries(width) && !Collides(g, m, x0 + KickShift(i), y)
    ensures KickOffset(i) != 0 && -(width + 2) <= KickOffset(i) <= width + 1
    ensures FirstFit(g, m, x0, y, KickShifts(width), i, KickSearch(g, m, x0 + KickShift(i), y, KickOffset(i), width))
  {
    KickStep(width, i);
    var shifts := KickShifts(width);
    assert shifts[i] == KickShift(i);
    FirstFitHere(g, m, x0, y, shifts, i);
  }

  /** A collision before the last tested column hands on to the next one. */
  lemma KickNextCase(g: Grid, m: Mat, x0: int, y: int, width: nat, i: nat)
    requires i + 1 < KickTries(width) && Collides(g, m, x0 + KickShift(i), y)
    requires FirstFit(g, m, x0, y, KickShifts(width), i + 1, KickSearch(g, m, x0 + KickShift(i + 1), y, KickOffset(i + 1), width))
    ensures KickOffset(i) != 0 && -(width + 2) <= KickOffset(i) <= width + 1
    ensures FirstFit(g, m, x0, y, KickShifts(width), i, KickSearch(g, m, x0 + KickShift(i), y, KickOffset(i), width))
  {
    KickStep(width, i);
    var shifts := KickShifts(width);
    assert shifts[i] == KickShift(i);
    var k := KickSearch(g, m, x0 + KickShift(i + 1), y, KickOffset(i + 1), width);
    assert KickSearch(g, m, x0 + KickShift(i), y, KickOffset(i), width) == k;
    FirstFitNext(g, m, x0, y, shifts, i, k);
  }

  /** A collision at the last tested column reverts. */
  lemma KickLastCase(g: Grid, m: Mat, x0: int, y: int, width: nat, i: nat)
    requires i + 1 == KickTries(width) && Collides(g, m, x0 + KickShift(i), y)
    ensures KickOffset(i) != 0 && -(width + 2) <= KickOffset(i) <= width + 1
    ensures FirstFit(g, m, x0, y, KickShifts(width), i, KickSearch(g, m, x0 + KickShift(i), y, KickOffset(i), width))
  {
    KickStep(width, i);
    var shifts := KickShifts(width);
    assert shifts[i] == KickShift(i);
    assert KickSearch(g, m, x0 + KickShift(i), y, KickOffset(i), width) == Reverted;
    FirstFitNext(g, m, x0, y, shifts, i, Reverted);
  }

  /** From the i-th test on, the search finds the first column among the
      remaining shifts of KickShifts at which the matrix fits, or reverts
      when there is none. */
  lemma {:induction false} KickSearchFirstFit(g: Grid, m: Mat, x0: int, y: int, width: nat, i: nat)
    requires i < KickTries(width)
    ensures KickOffset(i) != 0 && -(width + 2) <= KickOffset(i) <= width + 1
    ensures FirstFit(g, m, x0, y, KickShifts(width), i, KickSearch(g, m, x0 + KickShift(i), y, KickOffset(i), width))
    decreases width + 2 - i
  {
    if !Collides(g, m, x0 + KickShift(i), y) {
      KickFitCase(g, m, x0, y, width, i);
    } else if i + 1 == KickTries(width) {
      KickLastCase(g, m, x0, y, width, i);
    } else {
      KickSearchFirstFit(g, m, x0, y, width, i + 1);
      KickNextCase(g, m, x0, y, width, i);
    }
  }

  /** When the search gives up, the piece has just been moved to the column
      shift -(KickTries / 2), and that column is never among the tested ones. */
  lemma {:induction false} FinalKickUntested(width: nat)
    ensures KickShift(KickTries(width)) == -(KickTries(width) / 2)
    ensures KickShift(KickTries(width)) !in KickShifts(width)
  {
    var shifts := KickShifts(width);
    var n: int := KickTries(width);
    forall i | 0 <= i < |shifts|
      ensures shifts[i] != -(n / 2)
    {
      assert shifts[i] == KickShift(i);
    }
  }

  /** A first fit is a placement exactly when some shift fits. */
  lemma FirstFitPlaced(g: Grid, m: Mat, x0: int, y: int, shifts: seq<int>, k: Kick)
    requires FirstFit(g, m, x0, y, shifts, 0, k)
    ensures (exists t :: 0 <= t < |shifts| && !Collides(g, m, x0 + shifts[t], y)) <==> k.Placed?
  {
    if k.Placed? {
      var t :| 0 <= t < |shifts| && k.x == x0 + shifts[t] && !Collides(g, m, k.x, y) &&
        forall t' :: 0 <= t' < t ==> Collides(g, m, x0 + shifts[t'], y);
    }
  }

  /** The search as rotatePiece starts it: offset 1 at the piece's column. */
  lemma KickStart(g: Grid, m: Mat, x: int, y: int, width: nat)
    ensures FirstFit(g, m, x, y, KickShifts(width), 0, KickSearch(g, m, x, y, 1, width))
  {
    KickSearchFirstFit(g, m, x, y, width, 0);
    assert x + KickShift(0) == x && KickOffset(0) == 1;
  }

  /** The search started as rotatePiece starts it places the piece at the
      first fitting column of KickShifts when there is one, and reverts
      exactly when there is none. */
  lemma KickOutcome(g: Grid, m: Mat, x: int, y: int, width: nat)
    ensures
      var shifts := KickShifts(width);
      var k := KickSearch(g, m, x, y, 1, width);
      && ((exists t :: 0 <= t < |shifts| && !Collides(g, m, x + shifts[t], y)) <==> k.Placed?)
      && FirstFit(g, m, x, y, shifts, 0, k)
  {
    KickStart(g, m, x, y, width);
    FirstFitPlaced(g, m, x, y, KickShifts(width), KickSearch(g, m, x, y, 1, width));
  }

  /** A rotated valid piece is still valid, at any column. */
  lemma RotatedPieceValid(p: Piece, dir: int, x: int)
    requires ValidPiece(p)
    ensures ValidPiece(p.(matrix := Rotate(p.matrix, dir), pos := Pos(x, p.pos.y)))
  {
    RotateKeepsRange(p.matrix, dir, 0, KINDS);
    RotateKeepsBlock(p.matrix, dir);
  }

  /** `rotatePiece(dir)`: rotate the active matrix, then try the columns
      x, x+1, x-1, x+2, ... of KickShifts and keep the first at which the
      rotated piece fits; if none fits, restore the matrix and position
      taken before. The row, the type, the field and every other part of
      the state are untouched. */
  function RotatePiece(s: Game, dir: int): (r: Game)
    requires IsSquare(s.current.matrix)
    ensures !Running(s) ==> r == s
    ensures r == s.(current := r.current)
    ensures r.current.kind == s.current.kind && r.current.pos.y == s.current.pos.y
    ensures Running(s) ==>
      var p := s.current;
      var rotated := Rotate(p.matrix, dir);
      var shifts := KickShifts(|p.matrix|);
      && ((exists t :: 0 <= t < |shifts| && !Collides(s.grid, rotated, p.pos.x + shifts[t], p.pos.y)) ==>
            r.current.matrix == rotated && FirstFit(s.grid, rotated, p.pos.x, p.pos.y, shifts, 0, Placed(r.current.pos.x)))
      && ((forall t :: 0 <= t < |shifts| ==> Collides(s.grid, rotated, p.pos.x + shifts[t], p.pos.y)) ==>
            r.current == p)
    ensures Valid(s) ==> Valid(r)
  {
    if s.gameOver || s.paused then s
    else
      var p := s.current;
      var rotated := Rotate(p.matrix, dir);
      var width := if |rotated| == 0 then 0 else |rotated[0]|;
      KickOutcome(s.grid, rotated, p.pos.x, p.pos.y, width);
      match KickSearch(s.grid, rotated, p.pos.x, p.pos.y, 1, width)
      case Placed(x) =>
        var q := p.(matrix := rotated, pos := Pos(x, p.pos.y));
        assert ValidPiece(p) ==> ValidPiece(q) by {
          if ValidPiece(p) { RotatedPieceValid(p, dir, x); }
        }
        s.(current := q)
      case Reverted => s
  }

  // ---------------------------------------------------------------------
  // Drop, lock and hard drop

  /** A piece with an occupied cell that does not collide at row y is above
      the bottom of the field. */
  lemma FreeIsAboveBottom(g: Grid, m: Mat, x: int, y: int)
    requires HasBlock(m) && !Collides(g, m, x, y)
    ensures y < |g|
  {
    var i, j :| 0 <= i < |m| && 0 <= j < |m[i]| && m[i][j] != 0;
    assert CellFree(g, y + i, x + j);
  }

  /** Merging a piece of at most four rows into a field with no full row
      leaves at most four full rows, all within the rows the piece spans. */
  lemma LockClearsAtMostFour(g: Grid, m: Mat, x: int, y: int)
    requires IsRect(g, COLS, ROWS) && NoFullRow(g) && Fits(g, m, x, y) && |m| <= 4
    ensures FullCount(Merge(g, m, x, y)) <= 4
  {
    var merged := Merge(g, m, x, y);
    forall r | 0 <= r < |merged| && !(y <= r < y + |m|)
      ensures merged[r] == g[r]
    {
      forall c | 0 <= c < |merged[r]|
        ensures merged[r][c] == g[r][c]
      {
        assert !Covers(m, x, y, r, c);
      }
    }
    FullCountInRange(merged, y, y + |m|);
  }

  /** Locking a piece that lies inside a well-formed field with no full row
      and then removing the full rows gives a well-formed field with no full
      row, of the same shape as the merged field; at most four rows go. */
  lemma LockedField(g: Grid, p: Piece)
    requires IsField(g) && NoFullRow(g) && ValidPiece(p)
    requires Fits(g, p.matrix, p.pos.x, p.pos.y)
    ensures
      var merged := Merge(g, p.matrix, p.pos.x, p.pos.y);
      && Wide(merged) && FullCount(merged) <= 4
      && IsField(Compacted(merged)) && NoFullRow(Compacted(merged))
      && SameShape(merged, Compacted(merged))
  {
    var merged := Merge(g, p.matrix, p.pos.x, p.pos.y);
    MergeKeepsField(g, p.matrix, p.pos.x, p.pos.y, KINDS);
    LockClearsAtMostFour(g, p.matrix, p.pos.x, p.pos.y);
    CompactedShape(merged);
  }

  /** The lock sequence of dropPiece: merge the active piece at its place,
      then `resetPiece` (the next piece becomes active, a new next piece is
      made, and the game is over iff the new active piece collides with the
      merged field, judged BEFORE full rows are removed), then `clearRows`. */
  function Lock(s: Game, nextKind: int): (r: Game)
    requires Valid(s) && !s.gameOver && 1 <= nextKind <= KINDS
    ensures Valid(r)
    ensures
      var p := s.current;
      var merged := Merge(s.grid, p.matrix, p.pos.x, p.pos.y);
      && r.grid == Compacted(merged)
      && r.current == s.next && r.next == CreatePiece(nextKind)
      && r.gameOver == CheckCollision(merged, s.next, 0, 0)
      && FullCount(merged) <= 4
      && r.stats == ApplyClear(s.stats, FullCount(merged))
      && r.paused == s.paused && r.dropCounter == s.dropCounter
  {
    var p := s.current;
    var merged := Merge(s.grid, p.matrix, p.pos.x, p.pos.y);
    LockedField(s.grid, p);
    // resetPiece
    var spawned := s.next;
    var over := s.gameOver || CheckCollision(merged, spawned, 0, 0);
    // clearRows
    var res := ClearRows(merged);
    assert !over ==> Fits(res.0, spawned.matrix, spawned.pos.x, spawned.pos.y) by {
      if !over { SameShapeFits(merged, res.0, spawned.matrix, spawned.pos.x, spawned.pos.y); }
    }
    Game(res.0, spawned, CreatePiece(nextKind), ApplyClear(s.stats, res.1), s.dropCounter, s.paused, over)
  }

  /** When the lock removes no row, the field the game-over test looked at
      is the field play continues on: if the game goes on, the new active
      piece lies on free cells, and the statistics are unchanged. */
  lemma LockWithoutClearFits(s: Game, nextKind: int)
    requires Valid(s) && !s.gameOver && 1 <= nextKind <= KINDS
    ensures FullCount(Merge(s.grid, s.current.matrix, s.current.pos.x, s.current.pos.y)) == 0 ==>
      && (!Lock(s, nextKind).gameOver ==> !CheckCollision(Lock(s, nextKind).grid, Lock(s, nextKind).current, 0, 0))
      && Lock(s, nextKind).stats == s.stats
  {
    var merged := Merge(s.grid, s.current.matrix, s.current.pos.x, s.current.pos.y);
    LockedField(s.grid, s.current);
    FullCountZero(merged);
    CompactedShape(merged);
  }

  /** `dropPiece`: move the active piece one row down if that row is free;
      otherwise lock it where it is. The drop counter restarts either way. */
  function DropPiece(s: Game, nextKind: int): (r: Game)
    requires Valid(s) && 1 <= nextKind <= KINDS
    ensures Valid(r)
    ensures !Running(s) ==> r == s
    ensures Running(s) && !CheckCollision(s.grid, s.current, 0, 1) ==>
      r == s.(current := s.current.(pos := Pos(s.current.pos.x, s.current.pos.y + 1)), dropCounter := 0)
    ensures Running(s) && CheckCollision(s.grid, s.current, 0, 1) ==>
      r == Lock(s, nextKind).(dropCounter := 0)
  {
    if s.gameOver || s.paused then s
    else
      var p := s.current;
      var lowered := p.(pos := Pos(p.pos.x, p.pos.y + 1));
      if !CheckCollision(s.grid, lowered, 0, 0) then s.(current := lowered, dropCounter := 0)
      else Lock(s, nextKind).(dropCounter := 0)
  }

  /** The piece rests at row `landing` when dropped straight down from row y:
      every row below y down to `landing` is free and the row after it is not. */
  ghost predicate LandsAt(g: Grid, m: Mat, x: int, y: int, landing: int) {
    && landing >= y
    && Collides(g, m, x, landing + 1)
    && forall k :: y < k <= landing ==> !Collides(g, m, x, k)
  }

  /** A straight drop has only one resting row. */
  lemma LandingUnique(g: Grid, m: Mat, x: int, y: int, a: int, b: int)
    requires LandsAt(g, m, x, y, a) && LandsAt(g, m, x, y, b)
    ensures a == b
  {
  }

  /** The ghost projection of drawGrid: the row the active piece would come
      to rest in, found by moving a copy down while the next row is free. */
  function GhostY(g: Grid, p: Piece): (landing: int)
    requires HasBlock(p.matrix)
    ensures LandsAt(g, p.matrix, p.pos.x, p.pos.y, landing)
    decreases |g| - p.pos.y
  {
    if !CheckCollision(g, p, 0, 1) then
      FreeIsAboveBottom(g, p.matrix, p.pos.x, p.pos.y + 1);
      GhostY(g, p.(pos := Pos(p.pos.x, p.pos.y + 1)))
    else p.pos.y
  }

  /** The `while` loop of hardDrop: move down while the next row is free,
      one point per row. */
  function Descend(g: Grid, p: Piece, score: nat): (res: (Piece, nat))
    requires HasBlock(p.matrix)
    ensures res.0 == p.(pos := Pos(p.pos.x, res.0.pos.y))
    ensures LandsAt(g, p.matrix, p.pos.x, p.pos.y, res.0.pos.y)
    ensures res.1 == score + (res.0.pos.y - p.pos.y)
    decreases |g| - p.pos.y
  {
    if !CheckCollision(g, p, 0, 1) then
      FreeIsAboveBottom(g, p.matrix, p.pos.x, p.pos.y + 1);
      Descend(g, p.(pos := Pos(p.pos.x, p.pos.y + 1)), score + 1)
    else (p, score)
  }

  /** The state hardDrop hands to dropPiece: the loop has moved the active
      piece straight down to the row the ghost projection shows, one point
      per row fallen, and the piece now rests on something. */
  function Landed(s: Game): (t: Game)
    requires Valid(s) && !s.gameOver
    ensures Valid(t) && !t.gameOver
    ensures t == s.(current := t.current, stats := t.stats)
    ensures t.current == s.current.(pos := Pos(s.current.pos.x, t.current.pos.y))
    ensures t.current.pos.y == GhostY(s.grid, s.current) >= s.current.pos.y
    ensures t.stats == s.stats.(score := s.stats.score + (t.current.pos.y - s.current.pos.y))
    ensures CheckCollision(t.grid, t.current, 0, 1)
  {
    var p := s.current;
    var res := Descend(s.grid, p, s.stats.score);
    var landed := res.0;
    LandingUnique(s.grid, p.matrix, p.pos.x, p.pos.y, landed.pos.y, GhostY(s.grid, p));
    assert landed.pos.y > p.pos.y ==> !Collides(s.grid, p.matrix, p.pos.x, landed.pos.y);
    s.(current := landed, stats := s.stats.(score := res.1))
  }

  /** `hardDrop`: the piece falls to the ghost projection's row, the score
      grows by one point per row fallen, and dropPiece then locks the piece
      there (whose row clearing may add more points). */
  function HardDrop(s: Game, nextKind: int): (r: Game)
    requires Valid(s) && 1 <= nextKind <= KINDS
    ensures Valid(r)
    ensures !Running(s) ==> r == s
    ensures Running(s) ==> r == Lock(Landed(s), nextKind).(dropCounter := 0)
  {
    if s.gameOver || s.paused then s
    else DropPiece(Landed(s), nextKind)
  }

  // ---------------------------------------------------------------------
  // Gravity

  /** A drop does not depend on the drop counter it starts from: it resets
      the counter whatever it was. */
  lemma DropResetsCounter(s: Game, count: nat, nextKind: int)
    requires Valid(s) && Running(s) && 1 <= nextKind <= KINDS
    ensures DropPiece(s.(dropCounter := count), nextKind) == DropPiece(s, nextKind)
    ensures DropPiece(s, nextKind).dropCounter == 0
  {
    var t := s.(dropCounter := count);
    if CheckCollision(s.grid, s.current, 0, 1) {
      assert Lock(t, nextKind) == Lock(s, nextKind).(dropCounter := count);
    }
  }

  /** The drop-counter part of `update`, with the time since the previous
      frame given in whole milliseconds: while running the counter grows, and
      once it exceeds the fall interval one drop happens (which restarts the
      counter). */
  function Tick(s: Game, elapsed: nat, nextKind: int): (r: Game)
    requires Valid(s) && 1 <= nextKind <= KINDS
    ensures Valid(r)
    ensures !Running(s) ==> r == s
    ensures Running(s) && s.dropCounter + elapsed <= s.stats.dropInterval ==>
      r == s.(dropCounter := s.dropCounter + elapsed)
    ensures Running(s) && s.dropCounter + elapsed > s.stats.dropInterval ==>
      r == DropPiece(s, nextKind) && r.dropCounter == 0
  {
    if s.gameOver || s.paused then s
    else
      var counted := s.(dropCounter := s.dropCounter + elapsed);
      if counted.dropCounter > counted.stats.dropInterval then
        DropResetsCounter(s, counted.dropCounter, nextKind);
        DropPiece(counted, nextKind)
      else counted
  }

  /** Once the game is over, every play operation leaves the state as it
      is; only a (re)start leaves that state. */
  lemma GameOverAbsorbs(s: Game, dir: int, elapsed: nat, kind: int, first: int, second: int)
    requires Valid(s) && s.gameOver && 1 <= kind <= KINDS
    requires 1 <= first <= KINDS && 1 <= second <= KINDS
    ensures MovePiece(s, dir) == s && RotatePiece(s, dir) == s
    ensures DropPiece(s, kind) == s && HardDrop(s, kind) == s
    ensures Tick(s, elapsed, kind) == s && PauseGame(s) == s
    ensures !StartGame(s, first, second).gameOver
  {
  }
}
