/**
 * The 10 x 20 playfield of src/components/TetrisGame.tsx: the collision test of
 * checkCollision and the merge of a landed piece into a copy of the board.
 */
module TetrisBoard {
  import opened TetrisPieces

  const BoardWidth: int := 10
  const BoardHeight: int := 20

  /** A cell holds a colour tag; the empty string is the empty cell (it is falsy). */
  type Row = seq<string>
  type Board = seq<Row>

  /** Board coordinates of a shape's top-left corner. */
  datatype Pos = Pos(x: int, y: int)

  function EmptyRow(): Row
  {
    seq(BoardWidth, _ => "")
  }

  function EmptyBoard(): Board
  {
    seq(BoardHeight, _ => EmptyRow())
  }

  /** Exactly BoardHeight rows of BoardWidth cells each. */
  predicate WellFormedBoard(b: Board)
  {
    |b| == BoardHeight && forall r :: 0 <= r < |b| ==> |b[r]| == BoardWidth
  }

  /**
   * The test checkCollision applies to one occupied cell at absolute (col, row):
   * below the floor, beyond a wall, or on a non-empty board cell. A row above the
   * top has no board row, so it is never tested for occupancy.
   */
  predicate Blocked(b: Board, col: int, row: int)
    ensures row < 0 && 0 <= col < BoardWidth ==> !Blocked(b, col, row)
    ensures row >= BoardHeight ==> Blocked(b, col, row)
  {
    row >= BoardHeight || col < 0 || col >= BoardWidth ||
    (0 <= row < |b| && col < |b[row]| && b[row][col] != "")
  }

  /** Scan of row `dy` of the shape from column `x` on (the inner loop). */
  function RowCollides(b: Board, s: Shape, pos: Pos, dy: nat, x: nat): (r: bool)
    requires dy < |s| && x <= |s[dy]|
    ensures r <==> exists j :: x <= j && Occupied(s, dy, j) && Blocked(b, pos.x + j, pos.y + dy)
    decreases |s[dy]| - x
  {
    if x == |s[dy]| then false
    else if s[dy][x] != 0 && Blocked(b, pos.x + x, pos.y + dy) then
      assert Occupied(s, dy, x);
      true
    else RowCollides(b, s, pos, dy, x + 1)
  }

  /** Scan of the shape from row `y` on (the outer loop). */
  function CollidesFrom(b: Board, s: Shape, pos: Pos, y: nat): (r: bool)
    requires y <= |s|
    ensures r <==> exists i, j :: y <= i && Occupied(s, i, j) && Blocked(b, pos.x + j, pos.y + i)
    decreases |s| - y
  {
    if y == |s| then false
    else if RowCollides(b, s, pos, y, 0) then true
    else CollidesFrom(b, s, pos, y + 1)
  }

  /** checkCollision: some occupied cell of the shape placed at `pos` is blocked. */
  function Collides(b: Board, s: Shape, pos: Pos): (r: bool)
    ensures r <==> exists i, j :: Occupied(s, i, j) && Blocked(b, pos.x + j, pos.y + i)
  {
    CollidesFrom(b, s, pos, 0)
  }

  /** On a well-formed board, a cell inside the grid is blocked exactly when it is not empty. */
  lemma BlockedInside(b: Board, col: int, row: int)
    requires WellFormedBoard(b) && 0 <= row < BoardHeight && 0 <= col < BoardWidth
    ensures Blocked(b, col, row) <==> b[row][col] != ""
  {
  }

  /** Every occupied cell of the shape placed at `pos` lies inside the grid. */
  ghost predicate InBounds(s: Shape, pos: Pos)
  {
    forall i, j :: Occupied(s, i, j) ==> 0 <= pos.y + i < BoardHeight && 0 <= pos.x + j < BoardWidth
  }

  /**
   * A placement that does not collide, with its top row at or below the top of
   * the board, lies inside the grid: the bottom and the walls are tested, and no
   * occupied cell can be above the top.
   */
  lemma NonCollidingIsInBounds(b: Board, s: Shape, pos: Pos)
    requires 0 <= pos.y && !Collides(b, s, pos)
    ensures InBounds(s, pos)
  {
  }

  /** A shape that fits in the box from `pos` to the grid's edges is in bounds, whatever its cells. */
  lemma BoxInBounds(s: Shape, pos: Pos)
    requires WellFormedShape(s)
    requires 0 <= pos.x && pos.x + |s[0]| <= BoardWidth
    requires 0 <= pos.y && pos.y + |s| <= BoardHeight
    ensures InBounds(s, pos)
  {
  }

  /** The board cell (row, col) lies under an occupied cell of the shape placed at `pos`. */
  predicate Covers(s: Shape, pos: Pos, row: int, col: int)
  {
    Occupied(s, row - pos.y, col - pos.x)
  }

  /** The merged board: the piece's colour under its occupied cells, the old cell elsewhere. */
  function Merge(b: Board, p: Piece, pos: Pos): (r: Board)
    ensures |r| == |b| && forall row :: 0 <= row < |b| ==> |r[row]| == |b[row]|
    ensures p.color != "" ==>
      forall row, col :: 0 <= row < |b| && 0 <= col < |b[row]| && b[row][col] != "" ==> r[row][col] != ""
  {
    seq(|b|, row requires 0 <= row < |b| =>
      seq(|b[row]|, col requires 0 <= col < |b[row]| =>
        if Covers(p.shape, pos, row, col) then p.color else b[row][col]))
  }

  /**
   * The merged board keeps the board's dimensions, holds the piece's colour in
   * exactly the cells under its occupied shape cells, and the old cell elsewhere.
   */
  lemma MergeCells(b: Board, p: Piece, pos: Pos)
    requires WellFormedBoard(b)
    ensures WellFormedBoard(Merge(b, p, pos))
    ensures forall row, col :: 0 <= row < BoardHeight && 0 <= col < BoardWidth ==>
      Merge(b, p, pos)[row][col] == if Covers(p.shape, pos, row, col) then p.color else b[row][col]
  {
  }

  /**
   * The merge step of moveDown: copy the board, then write the piece's colour at
   * (pos.y + y, pos.x + x) for every occupied shape cell, row by row.
   */
  method MergePiece(b: Board, p: Piece, pos: Pos) returns (nb: Board)
    requires WellFormedBoard(b) && InBounds(p.shape, pos)
    ensures nb == Merge(b, p, pos)
  {
    nb := b;
    for y := 0 to |p.shape|
      invariant WellFormedBoard(nb)
      invariant forall row, col :: 0 <= row < BoardHeight && 0 <= col < BoardWidth ==>
        nb[row][col] == if Covers(p.shape, pos, row, col) && row - pos.y < y then p.color else b[row][col]
    {
      for x := 0 to |p.shape[y]|
        invariant WellFormedBoard(nb)
        invariant forall row, col :: 0 <= row < BoardHeight && 0 <= col < BoardWidth ==>
          nb[row][col] ==
            if Covers(p.shape, pos, row, col) && (row - pos.y < y || (row - pos.y == y && col - pos.x < x))
            then p.color else b[row][col]
      {
        if p.shape[y][x] != 0 {
          assert Occupied(p.shape, y, x);
          var row, col := pos.y + y, pos.x + x;
          nb := nb[row := nb[row][col := p.color]];
        }
      }
    }
    var m := Merge(b, p, pos);
    assert |nb| == |m|;
    forall row | 0 <= row < |nb|
      ensures nb[row] == m[row]
    {
      assert |nb[row]| == |m[row]|;
    }
  }
}
