/** Two concrete games: the hard drop of an O piece on an empty field, and a
    lock after which the game goes on although the new active piece sits on
    a locked cell, because the game-over test of resetPiece runs before
    clearRows shifts the field down. */
module Scenarios {
  import opened Matrix
  import opened Field
  import opened Pieces
  import opened Rows
  import opened Scoring
  import opened Engine

  const O_KIND: int := 4
  const I_KIND: int := 1

  /** The O piece spawns at column 4, row 0; dropped straight down on an
      empty field it comes to rest with its top row at row 18. */
  lemma OLandsAtEighteen(g: Grid)
    requires IsField(g) && forall r, c :: 0 <= r < ROWS && 0 <= c < COLS ==> g[r][c] == 0
    ensures LandsAt(g, SHAPES[O_KIND], 4, 0, 18)
  {
    var m := SHAPES[O_KIND];
    assert m[1][0] != 0 && !CellFree(g, 19 + 1, 4 + 0);
    forall k | 0 < k <= 18
      ensures !Collides(g, m, 4, k)
    {
      forall i, j | 0 <= i < |m| && 0 <= j < |m[i]| && m[i][j] != 0
        ensures CellFree(g, k + i, 4 + j)
      {
      }
    }
  }

  /** The O template is a 2x2 block of its type. */
  lemma OShape()
    ensures IsSquare(SHAPES[O_KIND]) && |SHAPES[O_KIND]| == 2
    ensures forall i, j :: 0 <= i < 2 && 0 <= j < 2 ==> SHAPES[O_KIND][i][j] == O_KIND
  {
  }

  /** The I template occupies exactly the second of its four rows. */
  lemma IShape()
    ensures IsSquare(SHAPES[I_KIND]) && |SHAPES[I_KIND]| == 4
    ensures forall i, j :: 0 <= i < 4 && 0 <= j < 4 ==> (SHAPES[I_KIND][i][j] != 0 <==> i == 1)
  {
  }

  /** An O block merged at column 4, row 18 of an empty field occupies
      rows 18 and 19, columns 4 and 5, and completes no row. */
  lemma MergeOOnEmpty(g: Grid, m: Mat)
    requires IsField(g) && forall r, c :: 0 <= r < ROWS && 0 <= c < COLS ==> g[r][c] == 0
    requires IsSquare(m) && |m| == 2 && forall i, j :: 0 <= i < 2 && 0 <= j < 2 ==> m[i][j] == O_KIND
    requires Fits(g, m, 4, 18)
    ensures forall row, c :: 0 <= row < ROWS && 0 <= c < COLS ==>
      (Merge(g, m, 4, 18)[row][c] != 0 <==> 18 <= row && 4 <= c <= 5)
    ensures NoFullRow(Merge(g, m, 4, 18))
  {
    var merged := Merge(g, m, 4, 18);
    forall row, c | 0 <= row < ROWS && 0 <= c < COLS
      ensures merged[row][c] != 0 <==> 18 <= row && 4 <= c <= 5
    {
      if Covers(m, 4, 18, row, c) {
        assert merged[row][c] == m[row - 18][c - 4];
      } else {
        assert merged[row][c] == g[row][c];
      }
    }
    forall row | 0 <= row < |merged|
      ensures !Full(merged[row])
    {
      assert merged[row][0] == 0;
    }
  }

  /** The hard-drop loop takes the first O piece of a new game down 18
      rows, to row 18, for 18 points. */
  lemma NewGameLanding(second: int)
    requires 1 <= second <= KINDS
    ensures
      var s := NewGame(O_KIND, second);
      var t := Landed(s);
      && t.current.pos == Pos(4, 18) && t.stats.score == 18
  {
    var s := NewGame(O_KIND, second);
    var m := SHAPES[O_KIND];
    assert s.current.matrix == m && s.current.pos == Pos(4, 0);
    OLandsAtEighteen(s.grid);
    LandingUnique(s.grid, m, 4, 0, 18, GhostY(s.grid, s.current));
  }

  /** Locking an O piece at column 4, row 18 of an empty field with the
      start statistics: the O cells are the only occupied ones, no row is
      cleared, and the freshly spawned piece fits. */
  lemma LockOOnEmpty(t: Game, nextKind: int)
    requires Valid(t) && !t.gameOver && 1 <= nextKind <= KINDS
    requires forall r, c :: 0 <= r < ROWS && 0 <= c < COLS ==> t.grid[r][c] == 0
    requires t.current.matrix == SHAPES[O_KIND] && t.current.pos == Pos(4, 18)
    requires t.next == CreatePiece(t.next.kind)
    ensures
      var r := Lock(t, nextKind);
      && r.stats == t.stats && !r.gameOver
      && (forall row, c :: 0 <= row < ROWS && 0 <= c < COLS ==>
            (r.grid[row][c] != 0 <==> 18 <= row && 4 <= c <= 5))
  {
    var m := SHAPES[O_KIND];
    OShape();
    MergeOOnEmpty(t.grid, m);
    var merged := Merge(t.grid, m, 4, 18);
    FullCountZero(merged);
    LockWithoutClearFits(t, nextKind);
    CompactedShape(merged);
    SpawnFits(merged, t.next.matrix);
  }

  /** Hard-dropping the first O piece of a new game: it falls 18 rows and
      earns 18 points, it fills rows 18 and 19 in columns 4 and 5 and
      nothing else, no row is cleared, and the game goes on. */
  lemma HardDropOnEmptyField(second: int, nextKind: int)
    requires 1 <= second <= KINDS && 1 <= nextKind <= KINDS
    ensures
      var r := HardDrop(NewGame(O_KIND, second), nextKind);
      && r.stats.score == 18 && r.stats.lines == 0 && r.stats.level == 1
      && !r.gameOver && |r.grid| == ROWS
      && (forall row, c :: 0 <= row < ROWS && 0 <= c < COLS ==>
            (r.grid[row][c] != 0 <==> 18 <= row && 4 <= c <= 5))
  {
    NewGameLanding(second);
    LockOOnEmpty(Landed(NewGame(O_KIND, second)), nextKind);
  }

  /** The cells OverlapField occupies: row 0, column 3, and row 19,
      columns 0 to 7. */
  predicate OverlapCell(r: int, c: int) {
    (r == 0 && c == 3) || (r == ROWS - 1 && c < 8)
  }

  /** A field with one block at row 0, column 3, and row 19 filled in
      columns 0 to 7. */
  function OverlapField(): (g: Grid)
    ensures IsField(g) && NoFullRow(g)
    ensures forall r, c :: 0 <= r < ROWS && 0 <= c < COLS ==> (g[r][c] != 0 <==> OverlapCell(r, c))
  {
    var g := seq(ROWS, r => seq(COLS, c => if OverlapCell(r, c) then 1 else 0));
    assert forall r :: 0 <= r < ROWS ==> g[r][9] == 0;
    g
  }

  /** The O piece at the right end of the bottom two rows of OverlapField,
      with an I piece next. */
  function OverlapGame(): (s: Game)
    ensures Valid(s) && Running(s)
    ensures s.grid == OverlapField()
    ensures s.current.matrix == SHAPES[O_KIND] && s.current.pos == Pos(8, 18)
    ensures s.next == CreatePiece(I_KIND)
  {
    ShapesWellFormed(O_KIND);
    var o := Piece(SHAPES[O_KIND], Pos(8, 18), O_KIND);
    Game(OverlapField(), o, CreatePiece(I_KIND), StartStats(), 0, false, false)
  }

  /** Merging the O block at column 8, row 18 of OverlapField completes row
      19 and no other row; rows 0 and 1 are left as they were. */
  lemma MergeOverlap(g: Grid, m: Mat)
    requires IsField(g) && forall r, c :: 0 <= r < ROWS && 0 <= c < COLS ==> (g[r][c] != 0 <==> OverlapCell(r, c))
    requires IsSquare(m) && |m| == 2 && forall i, j :: 0 <= i < 2 && 0 <= j < 2 ==> m[i][j] == O_KIND
    requires Fits(g, m, 8, 18)
    ensures var merged := Merge(g, m, 8, 18);
      && IsRect(merged, COLS, ROWS)
      && Full(merged[19])
      && (forall r :: 0 <= r < |merged| && r != 19 ==> !Full(merged[r]))
      && merged[0] == g[0] && merged[1] == g[1]
  {
    var merged := Merge(g, m, 8, 18);
    forall c | 0 <= c < COLS
      ensures merged[19][c] != 0
    {
      if c < 8 {
        assert !Covers(m, 8, 18, 19, c);
      } else {
        assert merged[19][c] == m[1][c - 8];
      }
    }
    forall r, c | 0 <= r < 18 && 0 <= c < COLS
      ensures merged[r][c] == g[r][c]
    {
      assert !Covers(m, 8, 18, r, c);
    }
    forall r | 0 <= r < |merged| && r != 19
      ensures !Full(merged[r])
    {
      assert !Covers(m, 8, 18, r, 0);
      assert merged[r][0] == 0;
    }
  }

  /** Exactly one row is full when row 19 is the only full one. */
  lemma OneFullRow(g: Grid)
    requires |g| == ROWS && Full(g[19])
    requires forall r :: 0 <= r < |g| && r != 19 ==> !Full(g[r])
    ensures FullCount(g) == 1
  {
    FullCountPositive(g, 19);
    FullCountInRange(g, 19, 20);
  }

  /** After one row is removed, the old row 0 is row 1. */
  lemma ClearedShiftsDown(g: Grid)
    requires Wide(g) && |g| > 0 && FullCount(g) == 1 && !Full(g[0])
    ensures Compacted(g)[1] == g[0]
  {
    assert Survivors(g)[0] == g[0];
  }

  /** The spawned I piece, at column 3, row 0, occupies row 1, columns 3 to
      6: it collides with a field exactly when one of those is occupied. */
  lemma ISpawnCells(g: Grid)
    requires IsRect(g, COLS, ROWS)
    ensures Collides(g, SHAPES[I_KIND], 3, 0) <==> exists c :: 3 <= c <= 6 && g[1][c] != 0
  {
    var im := SHAPES[I_KIND];
    IShape();
    if exists c :: 3 <= c <= 6 && g[1][c] != 0 {
      var c :| 3 <= c <= 6 && g[1][c] != 0;
      assert im[1][c - 3] != 0 && !CellFree(g, 0 + 1, 3 + (c - 3));
    } else {
      forall i, j | 0 <= i < |im| && 0 <= j < |im[i]| && im[i][j] != 0
        ensures CellFree(g, 0 + i, 3 + j)
      {
      }
    }
  }

  /** The I piece spawns at column 3, row 0. */
  lemma ISpawn()
    ensures CreatePiece(I_KIND).matrix == SHAPES[I_KIND] && CreatePiece(I_KIND).pos == Pos(3, 0)
  {
    IShape();
  }

  /** In OverlapGame the row under the O piece does not exist, so a drop
      locks the piece. */
  lemma OverlapLocks(nextKind: int)
    requires 1 <= nextKind <= KINDS
    ensures DropPiece(OverlapGame(), nextKind) == Lock(OverlapGame(), nextKind).(dropCounter := 0)
  {
    var s := OverlapGame();
    var m := SHAPES[O_KIND];
    OShape();
    assert m[1][0] != 0 && !CellFree(s.grid, 18 + 1 + 1, 8 + 0);
  }

  /** Merging the O block into OverlapField completes one row and leaves
      the cells of the spawned I piece free. */
  lemma OverlapMerge(g: Grid, m: Mat)
    requires IsField(g) && forall r, c :: 0 <= r < ROWS && 0 <= c < COLS ==> (g[r][c] != 0 <==> OverlapCell(r, c))
    requires m == SHAPES[O_KIND] && Fits(g, m, 8, 18)
    ensures var merged := Merge(g, m, 8, 18);
      && Wide(merged) && |merged| == ROWS
      && FullCount(merged) == 1
      && !Collides(merged, SHAPES[I_KIND], 3, 0)
      && !Full(merged[0]) && merged[0][3] != 0
  {
    OShape();
    MergeOverlap(g, m);
    var merged := Merge(g, m, 8, 18);
    OneFullRow(merged);
    ISpawnCells(merged);
  }

  /** Once the one full row is removed, the block of row 0 lies under the
      spawned I piece. */
  lemma OverlapCleared(merged: Grid)
    requires Wide(merged) && |merged| == ROWS && FullCount(merged) == 1
    requires !Full(merged[0]) && merged[0][3] != 0
    ensures Collides(Compacted(merged), SHAPES[I_KIND], 3, 0)
  {
    ClearedShiftsDown(merged);
    CompactedShape(merged);
    ISpawnCells(Compacted(merged));
    assert Compacted(merged)[1][3] != 0;
  }

  /** Merging the O block into OverlapField and clearing: one row goes,
      the spawned I piece fits the merged field but not the cleared one. */
  lemma OverlapClear(g: Grid, m: Mat)
    requires IsField(g) && forall r, c :: 0 <= r < ROWS && 0 <= c < COLS ==> (g[r][c] != 0 <==> OverlapCell(r, c))
    requires m == SHAPES[O_KIND] && Fits(g, m, 8, 18)
    ensures var merged := Merge(g, m, 8, 18);
      && FullCount(merged) == 1
      && !Collides(merged, SHAPES[I_KIND], 3, 0)
      && Collides(Compacted(merged), SHAPES[I_KIND], 3, 0)
  {
    OverlapMerge(g, m);
    OverlapCleared(Merge(g, m, 8, 18));
  }

  /** The lock of OverlapGame, stated for any state with its field, pieces
      and statistics. */
  lemma LockOverlap(s: Game, nextKind: int)
    requires Valid(s) && !s.gameOver && 1 <= nextKind <= KINDS
    requires forall r, c :: 0 <= r < ROWS && 0 <= c < COLS ==> (s.grid[r][c] != 0 <==> OverlapCell(r, c))
    requires s.current.matrix == SHAPES[O_KIND] && s.current.pos == Pos(8, 18)
    requires s.next.matrix == SHAPES[I_KIND] && s.next.pos == Pos(3, 0)
    requires s.stats == StartStats()
    ensures
      var r := Lock(s, nextKind);
      && !r.gameOver && r.stats.lines == 1 && r.stats.score == 100
      && CheckCollision(r.grid, r.current, 0, 0)
  {
    OverlapClear(s.grid, s.current.matrix);
    FirstClearScore();
  }

  /** One row cleared at the start of a game: 100 points, still level 1. */
  lemma FirstClearScore()
    ensures ApplyClear(StartStats(), 1) == Stats(100, 1, 1, 1000)
  {
    assert StartStats() == Stats(0, 1, 0, 1000);
    assert POINTS[1] == 100 && LevelFor(1) == 1 && IntervalFor(1) == 1000;
  }

  /** Dropping the O piece of OverlapGame locks it and completes row 19.
      The spawned I piece occupies row 1, columns 3 to 6, which are free in
      the merged field, so the game is not over; clearRows then moves the
      block at row 0 down into row 1, under the I piece. The active piece of
      a running game can therefore overlap a locked cell. */
  lemma SpawnOverlapsAfterClear(nextKind: int)
    requires 1 <= nextKind <= KINDS
    ensures
      var r := DropPiece(OverlapGame(), nextKind);
      && Valid(r) && Running(r)
      && r.stats.lines == 1 && r.stats.score == 100
      && CheckCollision(r.grid, r.current, 0, 0)
  {
    OverlapLocks(nextKind);
    ISpawn();
    LockOverlap(OverlapGame(), nextKind);
  }
}
