/**
 * Tetromino shapes: occupancy matrices, the catalog of the seven kinds and the
 * quarter-turn rotation used by the rotate command (src/components/TetrisGame.tsx).
 */
module TetrisPieces {

  /** An occupancy matrix; a cell is occupied when it is non-zero (JavaScript truthiness of 0/1). */
  type Shape = seq<seq<int>>

  /** A falling piece: its shape matrix and the colour tag written into the board when it locks. */
  datatype Piece = Piece(shape: Shape, color: string)

  /** The seven kinds of the catalog, in the order of their keys. */
  datatype Kind = I | O | T | L | J | S | Z

  /** Cell (i, j) of the matrix exists and is occupied. */
  predicate Occupied(s: Shape, i: int, j: int)
  {
    0 <= i < |s| && 0 <= j < |s[i]| && s[i][j] != 0
  }

  /** A non-empty rectangular matrix: every shape of the catalog is one, and rotation keeps it one. */
  predicate WellFormedShape(s: Shape)
  {
    |s| > 0 && |s[0]| > 0 && forall i :: 0 <= i < |s| ==> |s[i]| == |s[0]|
  }

  /** The catalog entry of each kind: base shape and colour tag. */
  function Tetromino(k: Kind): (p: Piece)
    ensures WellFormedShape(p.shape) && p.color != ""
    ensures |p.shape| <= 3 && |p.shape[0]| <= 4
  {
    match k
    case I => Piece([[1, 1, 1, 1]], "bg-cyan-500")
    case O => Piece([[1, 1], [1, 1]], "bg-yellow-500")
    case T => Piece([[0, 1, 0], [1, 1, 1]], "bg-purple-500")
    case L => Piece([[1, 0], [1, 0], [1, 1]], "bg-orange-500")
    case J => Piece([[0, 1], [0, 1], [1, 1]], "bg-blue-500")
    case S => Piece([[0, 1, 1], [1, 1, 0]], "bg-green-500")
    case Z => Piece([[1, 1, 0], [0, 1, 1]], "bg-red-500")
  }

  /**
   * The rotation of rotatePiece: new row i collects, from every original row
   * top to bottom, the element at column C-1-i. An R x C matrix becomes C x R.
   */
  function Rotate(s: Shape): (r: Shape)
    requires WellFormedShape(s)
    ensures WellFormedShape(r) && |r| == |s[0]| && |r[0]| == |s|
    ensures forall i, j :: 0 <= i < |r| && 0 <= j < |r[i]| ==> r[i][j] == s[j][|s[0]| - 1 - i]
  {
    seq(|s[0]|, i requires 0 <= i < |s[0]| =>
      seq(|s|, j requires 0 <= j < |s| => s[j][|s[0]| - 1 - i]))
  }

  /** Two quarter turns are a half turn: cell (i, j) comes from (R-1-i, C-1-j). */
  lemma HalfTurn(s: Shape)
    requires WellFormedShape(s)
    ensures var h := Rotate(Rotate(s));
      WellFormedShape(h) && |h| == |s| && |h[0]| == |s[0]| &&
      forall i, j :: 0 <= i < |h| && 0 <= j < |h[i]| ==> h[i][j] == s[|s| - 1 - i][|s[0]| - 1 - j]
  {
  }

  /** Four quarter turns give back the original matrix, for every well-formed shape. */
  lemma RotateFourTimes(s: Shape)
    requires WellFormedShape(s)
    ensures Rotate(Rotate(Rotate(Rotate(s)))) == s
  {
    var h := Rotate(Rotate(s));
    HalfTurn(s);
    HalfTurn(h);
    var f := Rotate(Rotate(h));
    assert |f| == |s|;
    forall i | 0 <= i < |s|
      ensures f[i] == s[i]
    {
      assert |f[i]| == |s[i]|;
    }
  }

  /** The occupied cells of a shape, as (row, column) pairs. */
  function Cells(s: Shape): set<(int, int)>
  {
    set i, j | 0 <= i < |s| && 0 <= j < |s[i]| && s[i][j] != 0 :: (i, j)
  }

  /** Where an occupied cell of a shape with `cols` columns lands after one quarter turn. */
  function TurnCell(p: (int, int), cols: int): (int, int)
  {
    (cols - 1 - p.1, p.0)
  }

  /** Turning cells is injective, so a set of cells and its image have the same size. */
  lemma {:induction false} TurnedCellsSize(cells: set<(int, int)>, cols: int)
    ensures |set p | p in cells :: TurnCell(p, cols)| == |cells|
    decreases cells
  {
    if cells != {} {
      var p :| p in cells;
      var rest := cells - {p};
      TurnedCellsSize(rest, cols);
      var image := set q | q in rest :: TurnCell(q, cols);
      assert (set q | q in cells :: TurnCell(q, cols)) == image + {TurnCell(p, cols)};
      assert TurnCell(p, cols) !in image;
    }
  }

  /** Rotation moves every occupied cell and keeps their number. */
  lemma RotateKeepsCellCount(s: Shape)
    requires WellFormedShape(s)
    ensures Cells(Rotate(s)) == set p | p in Cells(s) :: TurnCell(p, |s[0]|)
    ensures |Cells(Rotate(s))| == |Cells(s)|
  {
    var r := Rotate(s);
    var image := set p | p in Cells(s) :: TurnCell(p, |s[0]|);
    forall q | q in Cells(r)
      ensures q in image
    {
      var p := (q.1, |s[0]| - 1 - q.0);
      assert p in Cells(s);
      assert TurnCell(p, |s[0]|) == q;
    }
    forall q | q in image
      ensures q in Cells(r)
    {
      var p :| p in Cells(s) && TurnCell(p, |s[0]|) == q;
      assert r[q.0][q.1] == s[p.0][p.1];
    }
    assert Cells(r) == image;
    TurnedCellsSize(Cells(s), |s[0]|);
  }
}
