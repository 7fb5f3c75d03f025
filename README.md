# Falling-block game engine and high-score table

This project is a Dafny model of the game core of a small React application. It
covers two files:

- `src/components/TetrisGame.tsx`: a falling-block game on a 10 x 20 board.
- `src/App.tsx`: the two handlers that start a game and record a finished game
  in the high-score table.

The model follows the code as written, including the behaviour a player would
not expect:

- The line-clear loop decrements its row index right after it splices out a full
  row. So when two full rows sit on top of each other, the upper one is never
  examined in that pass and stays on the board.
- The game-over test after a lock checks the shape of the piece that has just
  locked. It checks it at the spawn position (4, 0), against the board as it was
  before the merge. The board it uses is the one the handler's closure holds.
- `onGameOver` receives the score from before that lock's increment.
- `rotatePiece` checks only that a piece exists, not that the game is still
  running. The on-screen rotate button calls it directly, so a finished game's
  last piece can still be turned.

Modules:

- `TetrisPieces` (`pieces.dfy`): the seven-piece catalog and the quarter-turn
  rotation.
- `TetrisBoard` (`board.dfy`): the board, `checkCollision`, and the in-place merge
  of a landed piece.
- `TetrisLineClear` (`line_clear.dfy`): the bottom-up splice/unshift pass. It is
  proved equal to a reference definition, `Compact`, that is stated on the
  original board.
- `TetrisGame` (`game.dfy`):
  - the state of the component as a value, with one step function per handler;
  - the invariant that every step keeps;
  - command traces, which show that `onGameOver` fires at most once;
  - the class `Game`, whose fields are the component's state hooks. Its methods
    update them in place and are proved to agree with the step functions.
- `Leaderboard` (`leaderboard.dfy`): append the new entry, stable-sort by
  descending score, keep the first ten.
- `App` (`app.dfy`): the `name.trim()` guard of `handleStartGame` and the
  `highScores` update of `handleGameOver`, as the class `App`.

The random choice of the next piece, and the onGameOver callback, appear as a
parameter and a result:

- The methods that spawn a piece take its kind as an argument (`k` or `next`).
- `MoveDown` returns the value passed to `onGameOver`, if that callback is
  called.

## Model

| member | source | states |
|---|---|---|
| `TetrisPieces.Tetromino` | src/components/TetrisGame.tsx:12-20 | every catalog piece is a non-empty rectangular matrix of at most 3 rows and 4 columns, with a non-empty colour tag |
| `TetrisPieces.Rotate` | src/components/TetrisGame.tsx:61-63 | an R x C shape becomes a well-formed C x R shape whose cell (i, j) is the original cell (j, C-1-i) |
| `TetrisPieces.HalfTurn` | src/components/TetrisGame.tsx:61-63 | two rotations map cell (i, j) to (R-1-i, C-1-j) and keep the dimensions |
| `TetrisPieces.RotateFourTimes` | src/components/TetrisGame.tsx:61-63 | four rotations give back the original matrix |
| `TetrisPieces.RotateKeepsCellCount` | src/components/TetrisGame.tsx:61-63 | the occupied cells of the rotated shape are exactly the turned occupied cells of the original, and there are as many of them |
| `TetrisBoard.RowCollides` | src/components/TetrisGame.tsx:41-53 | the inner scan answers true exactly when some occupied cell of that shape row, from the given column on, is blocked |
| `TetrisBoard.CollidesFrom` | src/components/TetrisGame.tsx:40-56 | the outer scan answers true exactly when some occupied cell, from the given shape row down, is blocked |
| `TetrisBoard.Collides` | src/components/TetrisGame.tsx:39-57 | checkCollision is true exactly when some occupied cell lies below the floor, beyond a wall, or on a non-empty board cell; rows above the top are never occupied |
| `TetrisBoard.Blocked` | src/components/TetrisGame.tsx:45-50 | a cell in a row above the top, between the walls, never blocks (there is no board row to test); every cell at or below the floor blocks |
| `TetrisBoard.BlockedInside` | src/components/TetrisGame.tsx:45-50 | inside the grid, a cell blocks exactly when it is not the empty string |
| `TetrisBoard.NonCollidingIsInBounds` | src/components/TetrisGame.tsx:45-50 | a placement at or below the top that does not collide has every occupied cell inside the grid, so the merge writes stay in range |
| `TetrisBoard.BoxInBounds` | src/components/TetrisGame.tsx:113 | a shape whose bounding box fits between the spawn corner and the grid's edges lies inside the grid |
| `TetrisBoard.Merge` | src/components/TetrisGame.tsx:86-93 | the merged board has the dimensions of the board, and with a non-empty colour no filled cell becomes empty |
| `TetrisBoard.MergeCells` | src/components/TetrisGame.tsx:86-93 | the merged board keeps 20 rows of 10 cells, holds the piece colour in exactly the cells under occupied shape cells, and keeps every other cell |
| `TetrisBoard.MergePiece` | src/components/TetrisGame.tsx:86-93 | the copy-and-write loops produce exactly the merged board |
| `TetrisLineClear.Full` | src/components/TetrisGame.tsx:98 | `every(cell => cell)` on a row of colour tags: the row holds no empty string |
| `TetrisLineClear.ClearLines` | src/components/TetrisGame.tsx:96-103 | the splice/unshift loop counts exactly the rows the reference pass removes, and leaves that many empty rows on top of the kept rows in order |
| `TetrisLineClear.CompactKeepsRows` | src/components/TetrisGame.tsx:97-102 | a pass only removes rows: what it keeps is a sub-multiset of the board, and every removed row is full |
| `TetrisLineClear.ClearedCountBound` | src/components/TetrisGame.tsx:97-102 | a pass clears at most the full rows, and clears all of them exactly when no two full rows are adjacent |
| `TetrisLineClear.ClearsEveryFullRow` | src/components/TetrisGame.tsx:96-103 | without adjacent full rows, the result is one empty row per full row on top of the rows that are not full, in their order |
| `TetrisLineClear.AdjacentFullRowSurvives` | src/components/TetrisGame.tsx:97-102 | when the two bottom rows are full, the upper one is skipped and ends up, still full, as the bottom row |
| `TetrisLineClear.ClearedWellFormed` | src/components/TetrisGame.tsx:99-100 | a pass keeps the board at 20 rows of 10 cells |
| `TetrisGame.InitialInv` | src/components/TetrisGame.tsx:23-28 | the initial state hooks satisfy the state invariant |
| `TetrisGame.SpawnFits` | src/components/TetrisGame.tsx:113 | the spawn position is (4, 0), and every catalog piece placed there lies inside the grid |
| `TetrisGame.SpawnStep` | src/components/TetrisGame.tsx:122-126 | without a current piece, the effect sets a catalog piece at (4, 0); with one, nothing changes; board, score, speed and the game-over flag never change |
| `TetrisGame.RotateStep` | src/components/TetrisGame.tsx:59-67 | only the shape can change; when there is a piece and its rotation does not collide in place, the shape becomes the rotation, whether or not the game is over; otherwise nothing changes |
| `TetrisGame.MoveHorizontalStep` | src/components/TetrisGame.tsx:69-75 | when the game is over or there is no piece, nothing changes; otherwise x moves by `dir` exactly when the piece does not collide there, and nothing else changes |
| `TetrisGame.MoveDownStep` | src/components/TetrisGame.tsx:77-120 | when the game is over or there is no piece, nothing changes; when the piece does not collide one row lower, only y grows by one |
| `TetrisGame.LockStep` | src/components/TetrisGame.tsx:85-119 | a lock keeps the number of rows, adds 100 points per cleared line, never raises the speed above its old value nor lowers it below 200, and puts the new piece at (4, 0) |
| `TetrisGame.GameOverReport` | src/components/TetrisGame.tsx:115-119 | onGameOver is called exactly when the piece lands and its shape collides at the spawn position on the pre-merge board, and it receives the score from before the lock |
| `TetrisGame.LockScoring` | src/components/TetrisGame.tsx:105-113 | a lock clearing n lines adds exactly n * 100 (n never exceeds the full rows), sets speed to max(200, speed - 50) when n > 0 and keeps it otherwise, stores the cleared board, and spawns the new piece at (4, 0) |
| `TetrisGame.GameOverTestIsStale` | src/components/TetrisGame.tsx:112-116 | whether a lock ends the game does not depend on the new piece: it is the old shape tested at the spawn position on the pre-merge board |
| `TetrisGame.SpawnStepInv` | src/components/TetrisGame.tsx:122-126 | the spawn keeps the state invariant |
| `TetrisGame.RotateStepInv` | src/components/TetrisGame.tsx:59-67 | rotation keeps the state invariant, so a rotated piece stays inside the grid |
| `TetrisGame.MoveHorizontalStepInv` | src/components/TetrisGame.tsx:69-75 | a horizontal move keeps the state invariant |
| `TetrisGame.AddLinesKeepsMultiple` | src/components/TetrisGame.tsx:107 | adding a whole number of 100-point lines keeps the score a multiple of 100 |
| `TetrisGame.LockStepInv` | src/components/TetrisGame.tsx:85-119 | a lock keeps the state invariant: a 10 x 20 board, the new piece inside the grid, speed within [200, 1000], score a non-negative multiple of 100 |
| `TetrisGame.MoveDownStepInv` | src/components/TetrisGame.tsx:77-120 | moveDown keeps the state invariant |
| `TetrisGame.Apply` | src/components/TetrisGame.tsx:122-153 | every call that reaches the engine maps a state satisfying the invariant to another |
| `TetrisGame.Run` | src/components/TetrisGame.tsx:122-153 | a sequence of calls keeps the invariant |
| `TetrisGame.ReportEndsGame` | src/components/TetrisGame.tsx:115-119 | a call reports to onGameOver exactly when it turns a running game into a finished one; otherwise it leaves the game-over flag as it was |
| `TetrisGame.ReportedAtMostOnce` | src/components/TetrisGame.tsx:70-119 | in any sequence of calls, onGameOver fires at most once and never after the game is over, and the game ends in the sequence exactly when it fires |
| `TetrisGame.GameOverIsFinal` | src/components/TetrisGame.tsx:70-78 | once over, no sequence of calls changes the board, the position, the score, the speed or the game-over flag |
| `TetrisGame.RotatesAfterGameOver` | src/components/TetrisGame.tsx:59-67 | once the game is over, a rotation that fits is still applied and the game stays over |
| `TetrisGame.LockValues` | src/components/TetrisGame.tsx:85-116 | merging, clearing, scoring and the game-over test compute exactly the state of the lock step |
| `TetrisGame.Game.constructor` | src/components/TetrisGame.tsx:23-28 | the fields start as the state hooks' initial values: an empty board, no piece, (0, 0), score 0, speed 1000, not over |
| `TetrisGame.Game.Spawn` | src/components/TetrisGame.tsx:122-126 | the fields become the spawn step of the old state, and the invariant is kept |
| `TetrisGame.Game.RotatePiece` | src/components/TetrisGame.tsx:59-67 | the fields become the rotation step of the old state, and the invariant is kept |
| `TetrisGame.Game.MoveHorizontal` | src/components/TetrisGame.tsx:69-75 | the fields become the horizontal step of the old state, and the invariant is kept |
| `TetrisGame.Game.MoveDown` | src/components/TetrisGame.tsx:77-120 | the fields become the moveDown step of the old state, the invariant is kept, and the result is the value given to onGameOver, if it is called |
| `TetrisGame.Game.Lock` | src/components/TetrisGame.tsx:85-119 | the fields become the lock step of the old state; the game-over flag is set, and the old score reported, exactly when the old shape collides at the spawn position on the old board |
| `Leaderboard.InsertByScore` | src/App.tsx:23 | inserting adds exactly the new entry to the multiset of entries |
| `Leaderboard.InsertKeepsSorted` | src/App.tsx:23 | inserting into a table ordered by descending score keeps it ordered |
| `Leaderboard.SortByScore` | src/App.tsx:23 | the sorted table is a permutation of the input, ordered by descending score |
| `Leaderboard.InsertPosition` | src/App.tsx:23 | in a sorted table, the new entry goes right after every entry scoring at least as much, so equal scores keep their order (a stable sort) |
| `Leaderboard.SortKeepsSorted` | src/App.tsx:23 | sorting a table that is already ordered leaves it unchanged |
| `Leaderboard.SortAppended` | src/App.tsx:23 | sorting a sorted table with the new entry appended puts the entry after all entries scoring at least as much, and leaves the rest in order |
| `Leaderboard.TopScores` | src/App.tsx:23 | the new table has at most ten entries, is ordered by descending score, and draws only on the previous entries and the new one |
| `Leaderboard.TopScoresIsPrefix` | src/App.tsx:23 | the new table is the first min(n, 10) entries of the n sorted entries |
| `Leaderboard.ShortTableKeepsAll` | src/App.tsx:23 | with fewer than ten previous entries nothing is dropped, and the new entry is in the table |
| `Leaderboard.DroppedScoreNoMore` | src/App.tsx:23 | every dropped entry scores no more than every kept entry |
| `Leaderboard.NewEntryPlacement` | src/App.tsx:23 | on a sorted table, the new entry enters at index k when only k < 10 entries score at least as much; otherwise the table becomes the first ten previous entries |
| `App.IsTrimmable` | src/App.tsx:15 | the characters `trim()` removes; letters and digits are never among them |
| `App.TrimStart` | src/App.tsx:15 | the result is a suffix of the input that does not start with a trimmable character, and everything removed is trimmable |
| `App.TrimEnd` | src/App.tsx:15 | the result is a prefix of the input that does not end with a trimmable character, and everything removed is trimmable |
| `App.Trim` | src/App.tsx:15 | `name.trim()` is a slice of the name that neither starts nor ends with a trimmable character, beginning where the leading trimmable run ends |
| `App.TrimEmptyIffBlank` | src/App.tsx:15 | `name.trim()` is empty exactly when every character of the name is JavaScript white space or a line terminator |
| `App.App.constructor` | src/App.tsx:9-12 | an empty name, no game started, an empty table |
| `App.App.HandleStartGame` | src/App.tsx:14-19 | a name with a non-blank character is stored and the game starts; a blank name changes nothing; the table is untouched |
| `App.App.HandleGameOver` | src/App.tsx:21-24 | the table becomes the top ten of the old table plus {playerName, score}; it stays ordered and at most ten long; name and game flag are untouched |

## Left out

- Rendering is not modelled: the JSX, `BLOCK_SIZE`, the CSS classes, the icons,
  the header and the rain and typewriter components.
- The leaderboard modal (`src/components/LeaderboardModal.tsx`) is not part of
  this model. Neither are the `showLeaderboard` flag and the name input's
  `onChange`.
- `Math.random` is not modelled. The kind of each new piece is a parameter of
  the methods that spawn one.
- Timer and keyboard wiring are not modelled: `setInterval`, `addEventListener`
  and their cleanup. Each call is modelled as one `Command`, applied in the order
  the calls arrive. The key handler's own `gameOver` check only turns a command
  into no command at all.
- React's scheduling is not modelled. Each handler is modelled as running to
  completion on the state of the render it was created in. Its state setters
  take effect together when it returns. The handler's closure is why the
  game-over test and `onGameOver` see the pre-lock board and score.
- Aliased rows are not modelled. The initial board fills all 20 rows with one
  shared array. The model has value rows. This makes no difference, because
  `moveDown` copies every row before writing to it.
- Numbers are JavaScript doubles in the source and unbounded integers in the
  model. Scores and positions stay far below 2^53, where doubles stop
  representing every integer exactly.
- `TetrisPieces.Rotate`: requires a rectangular shape. Every shape the game can
  hold is rectangular. JavaScript's behaviour on a ragged matrix is not
  modelled.
- Only the state changes of `handleStartGame` and `handleGameOver` are
  modelled. The rest of `App` is presentation.
