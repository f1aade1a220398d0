/** Piece templates and the piece factory (script.js SHAPES and createPiece).
    The type of a new piece is a parameter: the random choice is made by the
    caller. */
module Pieces {
  import opened Matrix
  import opened Field

  /** A field position: column x, row y. */
  datatype Pos = Pos(x: int, y: int)

  /** A piece: its matrix in the current orientation, the field position of
      the matrix's top-left cell, and its type 1..KINDS. */
  datatype Piece = Piece(matrix: Mat, pos: Pos, kind: int)

  /** The seven templates, indexed by type; index 0 is unused. The I piece is
      stored as a 4x4 square so that every template can be rotated. */
  const SHAPES: seq<Mat> := [
    [],
    // I
    [[0, 0, 0, 0],
     [1, 1, 1, 1],
     [0, 0, 0, 0],
     [0, 0, 0, 0]],
    // J
    [[2, 0, 0],
     [2, 2, 2],
     [0, 0, 0]],
    // L
    [[0, 0, 3],
     [3, 3, 3],
     [0, 0, 0]],
    // O
    [[4, 4],
     [4, 4]],
    // S
    [[0, 5, 5],
     [5, 5, 0],
     [0, 0, 0]],
    // T
    [[0, 6, 0],
     [6, 6, 6],
     [0, 0, 0]],
    // Z
    [[7, 7, 0],
     [0, 7, 7],
     [0, 0, 0]]
  ]

  /** A piece the engine can hold: a known type, a square matrix of at most
      four rows whose cells are 0 or a type, with at least one occupied cell. */
  predicate ValidPiece(p: Piece) {
    && 1 <= p.kind <= KINDS
    && IsSquare(p.matrix) && 1 <= |p.matrix| <= 4
    && CellsIn(p.matrix, 0, KINDS)
    && HasBlock(p.matrix)
  }

  /** Every template is a square of two to four rows whose occupied cells
      all carry the template's own type. */
  lemma ShapesWellFormed(kind: int)
    requires 1 <= kind <= KINDS
    ensures IsSquare(SHAPES[kind]) && 2 <= |SHAPES[kind]| <= 4
    ensures HasBlock(SHAPES[kind])
    ensures forall i, j :: 0 <= i < |SHAPES[kind]| && 0 <= j < |SHAPES[kind]| ==>
      SHAPES[kind][i][j] == 0 || SHAPES[kind][i][j] == kind
  {
    assert SHAPES[kind][1][1] != 0;
  }

  /** The spawn column `Math.floor(COLS / 2) - Math.floor(width / 2)`: the
      matrix centred on the field, and when the width is odd, half a cell to
      the right of centre. It is the one column with that property. */
  function SpawnX(width: nat): (x: int)
    ensures 0 <= 2 * x + width - COLS <= 1
    ensures forall x' :: 0 <= 2 * x' + width - COLS <= 1 ==> x' == x
  {
    COLS / 2 - width / 2
  }

  /** A square matrix of at most four rows placed at the spawn position
      does not collide with a field whose top four rows are empty. */
  lemma SpawnFits(g: Grid, m: Mat)
    requires IsRect(g, COLS, ROWS) && IsSquare(m) && |m| <= 4
    requires forall r, c :: 0 <= r < 4 && 0 <= c < COLS ==> g[r][c] == 0
    ensures !Collides(g, m, SpawnX(|m|), 0)
  {
    var x := SpawnX(|m|);
    forall i, j | 0 <= i < |m| && 0 <= j < |m[i]| && m[i][j] != 0
      ensures CellFree(g, i, x + j)
    {
    }
  }

  /** `createPiece()` with its type given: a fresh piece holding the type's
      template, top row at field row 0, horizontally centred (half a cell to
      the right for an odd width), and not colliding with an empty field. */
  function CreatePiece(kind: int): (p: Piece)
    requires 1 <= kind <= KINDS
    ensures ValidPiece(p) && p.kind == kind && p.matrix == SHAPES[kind]
    ensures p.pos.y == 0
    ensures 0 <= 2 * p.pos.x + |p.matrix| - COLS <= 1
    ensures !Collides(EmptyField(), p.matrix, p.pos.x, p.pos.y)
  {
    var m := SHAPES[kind];
    ShapesWellFormed(kind);
    SpawnFits(EmptyField(), m);
    Piece(m, Pos(SpawnX(|m[0]|), 0), kind)
  }
}
