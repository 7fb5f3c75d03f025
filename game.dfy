/**
 * The game engine of src/components/TetrisGame.tsx: the state the component
 * keeps (board, current piece, position, score, speed, game over), the effect
 * of each command on it as a function of the state before, and the `Game`
 * class whose methods update the fields in place.
 */
module TetrisGame {
  import opened Wrappers
  import opened TetrisPieces
  import opened TetrisBoard
  import opened TetrisLineClear

  const InitialSpeed: int := 1000
  const MinSpeed: int := 200
  const SpeedStep: int := 50
  const ScorePerLine: int := 100

  /** Math.floor(BOARD_WIDTH / 2) - 1, row 0: where every new piece appears. */
  const SpawnPos: Pos := Pos(BoardWidth / 2 - 1, 0)

  /** A snapshot of the engine: what the renderer reads. */
  datatype State = State(
    board: Board,
    piece: Option<Piece>,
    pos: Pos,
    score: int,
    speed: int,
    gameOver: bool)

  function Max(a: int, b: int): int
  {
    if a >= b then a else b
  }

  /** The initial values of the component's state hooks. */
  function Initial(): State
  {
    State(EmptyBoard(), None, Pos(0, 0), 0, InitialSpeed, false)
  }

  /**
   * What every reachable state satisfies: a 10 x 20 board; a current piece that
   * is a non-empty rectangle whose occupied cells all lie inside the grid (so
   * every merge write is in range); a speed between 200 and 1000 ms; a score
   * that is a non-negative multiple of 100; and a piece present once over.
   */
  ghost predicate Inv(s: State)
  {
    && WellFormedBoard(s.board)
    && 0 <= s.pos.y
    && (s.piece.Some? ==> WellFormedShape(s.piece.value.shape) && InBounds(s.piece.value.shape, s.pos))
    && (s.gameOver ==> s.piece.Some?)
    && MinSpeed <= s.speed <= InitialSpeed
    && 0 <= s.score && s.score % ScorePerLine == 0
  }

  lemma InitialInv()
    ensures Inv(Initial())
  {
  }

  /** Every base shape of the catalog fits inside the grid at the spawn position (4, 0). */
  lemma SpawnFits(k: Kind)
    ensures SpawnPos == Pos(4, 0)
    ensures InBounds(Tetromino(k).shape, SpawnPos)
  {
    BoxInBounds(Tetromino(k).shape, SpawnPos);
  }

  /** The initial spawn of the effect: a piece of kind `k` at the spawn position when there is none. */
  function SpawnStep(s: State, k: Kind): (t: State)
    ensures t.board == s.board && t.score == s.score && t.speed == s.speed && t.gameOver == s.gameOver
    ensures s.piece.None? ==> t.piece == Some(Tetromino(k)) && t.pos == SpawnPos
    ensures s.piece.Some? ==> t == s
  {
    if s.piece.None? then s.(piece := Some(Tetromino(k)), pos := SpawnPos) else s
  }

  /**
   * rotatePiece: the rotated shape replaces the current one when it does not
   * collide at the current position. Only a missing piece stops it: the game
   * being over does not.
   */
  function RotateStep(s: State): (t: State)
    requires s.piece.Some? ==> WellFormedShape(s.piece.value.shape)
    ensures t.board == s.board && t.pos == s.pos && t.score == s.score && t.speed == s.speed
    ensures t.gameOver == s.gameOver && t.piece.Some? == s.piece.Some?
    ensures t != s ==>
      s.piece.Some? && !Collides(s.board, Rotate(s.piece.value.shape), s.pos) &&
      t.piece == Some(s.piece.value.(shape := Rotate(s.piece.value.shape)))
    ensures s.piece.Some? && !Collides(s.board, Rotate(s.piece.value.shape), s.pos) ==>
      t.piece == Some(s.piece.value.(shape := Rotate(s.piece.value.shape)))
  {
    if s.piece.None? then s
    else
      var rotated := Rotate(s.piece.value.shape);
      if !Collides(s.board, rotated, s.pos) then s.(piece := Some(s.piece.value.(shape := rotated))) else s
  }

  /** moveHorizontal: the position moves `dir` columns when the game runs and the piece does not collide there. */
  function MoveHorizontalStep(s: State, dir: int): (t: State)
    ensures t.board == s.board && t.piece == s.piece && t.score == s.score && t.speed == s.speed
    ensures t.gameOver == s.gameOver && t.pos.y == s.pos.y
    ensures t != s ==>
      !s.gameOver && s.piece.Some? && !Collides(s.board, s.piece.value.shape, t.pos) &&
      t.pos == Pos(s.pos.x + dir, s.pos.y)
    ensures s.gameOver || s.piece.None? ==> t == s
    ensures !s.gameOver && s.piece.Some? && !Collides(s.board, s.piece.value.shape, Pos(s.pos.x + dir, s.pos.y)) ==>
      t.pos == Pos(s.pos.x + dir, s.pos.y)
  {
    if s.piece.None? || s.gameOver then s
    else
      var newPos := Pos(s.pos.x + dir, s.pos.y);
      if !Collides(s.board, s.piece.value.shape, newPos) then s.(pos := newPos) else s
  }

  function Below(pos: Pos): Pos
  {
    Pos(pos.x, pos.y + 1)
  }

  /** moveDown takes its lock branch: the game runs and the piece collides one row lower. */
  predicate Lands(s: State)
  {
    s.piece.Some? && !s.gameOver && Collides(s.board, s.piece.value.shape, Below(s.pos))
  }

  /**
   * The lock branch of moveDown. The merged and cleared board, the new piece of
   * kind `next` at the spawn position, score and speed as the lines cleared say;
   * the game-over test uses the board and the shape from before the lock.
   */
  function LockStep(s: State, next: Kind): (t: State)
    requires s.piece.Some?
    ensures |t.board| == |s.board|
    ensures t.score == s.score + ClearedCount(Merge(s.board, s.piece.value, s.pos)) * ScorePerLine
    ensures MinSpeed <= s.speed ==> MinSpeed <= t.speed <= s.speed
    ensures t.piece == Some(Tetromino(next)) && t.pos == SpawnPos
  {
    var p := s.piece.value;
    var merged := Merge(s.board, p, s.pos);
    var lines := ClearedCount(merged);
    State(
      Cleared(merged),
      Some(Tetromino(next)),
      SpawnPos,
      if lines > 0 then s.score + lines * ScorePerLine else s.score,
      if lines > 0 then Max(MinSpeed, s.speed - SpeedStep) else s.speed,
      Collides(s.board, p.shape, SpawnPos))
  }

  /** moveDown: a no-op once over or without a piece; else fall one row if free, otherwise lock. */
  function MoveDownStep(s: State, next: Kind): (t: State)
    ensures s.gameOver || s.piece.None? ==> t == s
    ensures s.piece.Some? && !s.gameOver && !Lands(s) ==>
      t == s.(pos := Below(s.pos))
  {
    if s.piece.None? || s.gameOver then s
    else if !Collides(s.board, s.piece.value.shape, Below(s.pos)) then s.(pos := Below(s.pos))
    else LockStep(s, next)
  }

  /** The value moveDown passes to onGameOver, if it calls it: the score from before this lock. */
  function GameOverReport(s: State): (r: Option<int>)
    ensures r.Some? <==> Lands(s) && Collides(s.board, s.piece.value.shape, SpawnPos)
    ensures r.Some? ==> r.value == s.score
  {
    if Lands(s) && Collides(s.board, s.piece.value.shape, SpawnPos) then Some(s.score) else None
  }

  /**
   * Scoring of a lock: with n lines cleared, n > 0 adds exactly n * 100 and sets
   * the speed to max(200, speed - 50); n == 0 leaves both. n never exceeds the
   * number of full rows of the merged board.
   */
  lemma LockScoring(s: State, next: Kind)
    requires Lands(s)
    ensures var merged := Merge(s.board, s.piece.value, s.pos);
      var n := ClearedCount(merged);
      var t := MoveDownStep(s, next);
      && n <= FullCount(merged)
      && t.score == s.score + n * ScorePerLine
      && (n > 0 ==> t.speed == Max(MinSpeed, s.speed - SpeedStep))
      && (n == 0 ==> t.speed == s.speed)
      && t.board == Cleared(merged)
      && t.piece == Some(Tetromino(next)) && t.pos == SpawnPos
  {
    ClearedCountBound(Merge(s.board, s.piece.value, s.pos));
  }

  /**
   * The game-over test after a lock ignores the new piece: it tests the previous
   * shape at the spawn position against the board as it was before the merge.
   */
  lemma GameOverTestIsStale(s: State, next1: Kind, next2: Kind)
    requires Lands(s)
    ensures MoveDownStep(s, next1).gameOver == MoveDownStep(s, next2).gameOver
    ensures MoveDownStep(s, next1).gameOver == Collides(s.board, s.piece.value.shape, SpawnPos)
  {
  }

  lemma SpawnStepInv(s: State, k: Kind)
    requires Inv(s)
    ensures Inv(SpawnStep(s, k))
  {
    SpawnFits(k);
  }

  lemma RotateStepInv(s: State)
    requires Inv(s)
    ensures Inv(RotateStep(s))
  {
    if s.piece.Some? {
      var rotated := Rotate(s.piece.value.shape);
      if !Collides(s.board, rotated, s.pos) {
        NonCollidingIsInBounds(s.board, rotated, s.pos);
      }
    }
  }

  lemma MoveHorizontalStepInv(s: State, dir: int)
    requires Inv(s)
    ensures Inv(MoveHorizontalStep(s, dir))
  {
    if s.piece.Some? && !s.gameOver {
      var newPos := Pos(s.pos.x + dir, s.pos.y);
      if !Collides(s.board, s.piece.value.shape, newPos) {
        NonCollidingIsInBounds(s.board, s.piece.value.shape, newPos);
      }
    }
  }

  /** A multiple of 100 stays one when whole lines' worth of points are added. */
  lemma AddLinesKeepsMultiple(score: int, n: nat)
    requires score % ScorePerLine == 0
    ensures (score + n * ScorePerLine) % ScorePerLine == 0
  {
    assert score + n * ScorePerLine == (score / ScorePerLine + n) * ScorePerLine;
  }

  lemma LockStepInv(s: State, next: Kind)
    requires Inv(s) && s.piece.Some?
    ensures Inv(LockStep(s, next))
  {
    var t := LockStep(s, next);
    var merged := Merge(s.board, s.piece.value, s.pos);
    MergeCells(s.board, s.piece.value, s.pos);
    ClearedWellFormed(merged);
    assert WellFormedBoard(t.board);
    SpawnFits(next);
    AddLinesKeepsMultiple(s.score, ClearedCount(merged));
  }

  lemma MoveDownStepInv(s: State, next: Kind)
    requires Inv(s)
    ensures Inv(MoveDownStep(s, next))
  {
    if s.piece.Some? && !s.gameOver {
      var shape := s.piece.value.shape;
      if !Collides(s.board, shape, Below(s.pos)) {
        NonCollidingIsInBounds(s.board, shape, Below(s.pos));
      } else {
        LockStepInv(s, next);
      }
    }
  }

  /**
   * The calls that reach the engine: the effect's initial spawn, the on-screen
   * buttons (which, unlike the key handler, do not check gameOver first) and the
   * timer tick. A key press is one of these or nothing.
   */
  datatype Command = NewPiece(kind: Kind) | RotateKey | HorizontalKey(dir: int) | DownTick(next: Kind)

  function Apply(s: State, c: Command): (t: State)
    requires Inv(s)
    ensures Inv(t)
  {
    match c
    case NewPiece(k) => SpawnStepInv(s, k); SpawnStep(s, k)
    case RotateKey => RotateStepInv(s); RotateStep(s)
    case HorizontalKey(dir) => MoveHorizontalStepInv(s, dir); MoveHorizontalStep(s, dir)
    case DownTick(next) => MoveDownStepInv(s, next); MoveDownStep(s, next)
  }

  /** The onGameOver call a command makes, if any. */
  function Report(s: State, c: Command): Option<int>
  {
    if c.DownTick? then GameOverReport(s) else None
  }

  /** A sequence of commands from `s`: the final state and the scores reported to onGameOver, in order. */
  function Run(s: State, cmds: seq<Command>): (r: (State, seq<int>))
    requires Inv(s)
    ensures Inv(r.0)
    decreases |cmds|
  {
    if cmds == [] then (s, [])
    else
      var rest := Run(Apply(s, cmds[0]), cmds[1..]);
      var reported := Report(s, cmds[0]);
      (rest.0, (if reported.Some? then [reported.value] else []) + rest.1)
  }

  /** One command reports exactly when it ends a running game. */
  lemma ReportEndsGame(s: State, c: Command)
    requires Inv(s)
    ensures Report(s, c).Some? ==> !s.gameOver && Apply(s, c).gameOver
    ensures Report(s, c).None? ==> Apply(s, c).gameOver == s.gameOver
  {
  }

  /**
   * onGameOver fires at most once in any run, never after the game is over,
   * and the game ends in a run exactly when it fires.
   */
  lemma {:induction false} ReportedAtMostOnce(s: State, cmds: seq<Command>)
    requires Inv(s)
    ensures |Run(s, cmds).1| <= 1
    ensures s.gameOver ==> Run(s, cmds).1 == []
    ensures Run(s, cmds).0.gameOver <==> s.gameOver || |Run(s, cmds).1| == 1
    decreases |cmds|
  {
    if cmds != [] {
      ReportEndsGame(s, cmds[0]);
      ReportedAtMostOnce(Apply(s, cmds[0]), cmds[1..]);
    }
  }

  /**
   * Once over, no command changes the board, the position, the score, the speed
   * or the game-over flag; only a rotation can still change the piece's shape.
   */
  lemma {:induction false} GameOverIsFinal(s: State, cmds: seq<Command>)
    requires Inv(s) && s.gameOver
    ensures var t := Run(s, cmds).0;
      t.board == s.board && t.pos == s.pos && t.score == s.score && t.speed == s.speed && t.gameOver
    decreases |cmds|
  {
    if cmds != [] {
      GameOverIsFinal(Apply(s, cmds[0]), cmds[1..]);
    }
  }

  /**
   * rotatePiece ignores gameOver: after the game is over the rotate button
   * still turns the last piece whenever the turned shape fits in place.
   */
  lemma RotatesAfterGameOver(s: State)
    requires Inv(s) && s.gameOver
    requires !Collides(s.board, Rotate(s.piece.value.shape), s.pos)
    ensures Apply(s, RotateKey).piece == Some(s.piece.value.(shape := Rotate(s.piece.value.shape)))
    ensures Apply(s, RotateKey).gameOver
  {
  }

  /**
   * The values a lock sets, computed by the merge and line-clear loops: it ties
   * MergePiece and ClearLines to LockStep away from the object's fields, so
   * that Game.Lock only has to store the result.
   */
  method LockValues(s: State, next: Kind) returns (t: State)
    requires s.piece.Some? && WellFormedBoard(s.board) && InBounds(s.piece.value.shape, s.pos)
    ensures t == LockStep(s, next)
  {
    var current := s.piece.value;
    var merged := MergePiece(s.board, current, s.pos);
    MergeCells(s.board, current, s.pos);
    var cleared, linesCleared := ClearLines(merged);
    var newScore := if linesCleared > 0 then s.score + linesCleared * ScorePerLine else s.score;
    var newSpeed := if linesCleared > 0 then Max(MinSpeed, s.speed - SpeedStep) else s.speed;
    var over := Collides(s.board, current.shape, SpawnPos);
    t := State(cleared, Some(Tetromino(next)), SpawnPos, newScore, newSpeed, over);
  }

  /** The engine as the component holds it: one field per state hook, updated in place. */
  class Game {
    var board: Board
    var piece: Option<Piece>
    var pos: Pos
    var score: int
    var speed: int
    var gameOver: bool

    function Snapshot(): State
      reads this
    {
      State(board, piece, pos, score, speed, gameOver)
    }

    ghost predicate Valid()
      reads this
    {
      Inv(Snapshot())
    }

    constructor ()
      ensures Valid() && Snapshot() == Initial()
    {
      board := EmptyBoard();
      piece := None;
      pos := Pos(0, 0);
      score := 0;
      speed := InitialSpeed;
      gameOver := false;
    }

    /** The effect's spawn when there is no current piece; `k` stands for the random choice. */
    method Spawn(k: Kind)
      requires Valid()
      modifies this
      ensures Valid() && Snapshot() == SpawnStep(old(Snapshot()), k)
    {
      SpawnStepInv(Snapshot(), k);
      if piece.None? {
        piece := Some(Tetromino(k));
        pos := SpawnPos;
      }
    }

    method RotatePiece()
      requires Valid()
      modifies this
      ensures Valid() && Snapshot() == RotateStep(old(Snapshot()))
    {
      RotateStepInv(Snapshot());
      if piece.None? {
        return;
      }
      var rotated := Rotate(piece.value.shape);
      if !Collides(board, rotated, pos) {
        piece := Some(piece.value.(shape := rotated));
      }
    }

    method MoveHorizontal(dir: int)
      requires Valid()
      modifies this
      ensures Valid() && Snapshot() == MoveHorizontalStep(old(Snapshot()), dir)
    {
      MoveHorizontalStepInv(Snapshot(), dir);
      if piece.None? || gameOver {
        return;
      }
      var newPos := Pos(pos.x + dir, pos.y);
      if !Collides(board, piece.value.shape, newPos) {
        pos := newPos;
      }
    }

    /**
     * moveDown; `next` stands for the random kind of the new piece, and
     * `reported` is the value passed to onGameOver when it is called.
     */
    method MoveDown(next: Kind) returns (reported: Option<int>)
      requires Valid()
      modifies this
      ensures Valid() && Snapshot() == MoveDownStep(old(Snapshot()), next)
      ensures reported == GameOverReport(old(Snapshot()))
    {
      MoveDownStepInv(Snapshot(), next);
      reported := None;
      if piece.None? || gameOver {
        return;
      }
      var newPos := Below(pos);
      if !Collides(board, piece.value.shape, newPos) {
        pos := newPos;
        return;
      }
      reported := Lock(next);
    }

    /** The lock branch of moveDown: merge, clear lines, score, respawn, game-over test. */
    method Lock(next: Kind) returns (reported: Option<int>)
      requires piece.Some? && !gameOver && WellFormedBoard(board) && InBounds(piece.value.shape, pos)
      modifies this
      ensures Snapshot() == LockStep(old(Snapshot()), next)
      ensures reported == if Collides(old(board), old(piece).value.shape, SpawnPos) then Some(old(score)) else None
    {
      // The handler's closure holds the board and score of the render it was
      // made in; the state setters below do not change them.
      var closureScore := score;
      var t := LockValues(Snapshot(), next);
      board, piece, pos, score, speed := t.board, t.piece, t.pos, t.score, t.speed;
      reported := None;
      if t.gameOver {
        gameOver := true;
        reported := Some(closureScore);
      }
    }
  }
}
