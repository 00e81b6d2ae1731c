# Tic-tac-toe engine: a verified model

This project models the game engine of the React tic-tac-toe component in
`src/TicTac.Toe.jsx`. The engine has three parts:

- **Win detection (`checkWinner`).** It scans a fixed table of eight lines
  (three rows, three columns, two diagonals) and returns the mark that holds
  the first complete line in table order, or `null`.
- **The one-ply opponent (`getAIMove`).** It scans cells 0 to 8 in
  ascending order. At each empty cell it tries O and then X in a copy of the
  board, and returns the first cell where O would win or X would win. If no
  cell qualifies, it returns `indexOf(null)`: the lowest empty cell, or -1 on
  a full board.
- **The session.** Its state is the board, `isXNext`, `winner` and
  `gameMode`. The handlers are a click on a cell, `makeMove`, the effect that
  records the outcome after a board change, the opponent's turn in AI mode,
  `resetGame` and `toggleGameMode`.

The Dafny project has three modules:

- `Rules` (`rules.dfy`) holds the cells, the line table, `checkWinner`, the
  board outcome and `indexOf(null)`. Each function is stated once as a
  specification function. `checkWinner` is also written as the component's
  loop (`CheckWinner`), proved equal to that function.
- `Ai` (`ai.dfy`) holds `getAIMove`: a specification function `AIMove` and
  the component's loop over a board copy (`GetAIMove`), proved equal to it.
  Lemmas state which cell it chooses.
- `Game` (`game.dfy`) holds the session as a class whose fields the handlers
  update. The click, the opponent's turn, reset and the mode switch keep an
  invariant: the recorded outcome is the one the board determines, the turn
  matches the parity of the moves made since the last reset, the two marks'
  counts balance, and the two marks never both hold a line. `MakeMove`, like
  the component's `makeMove`, writes whatever cell it is given; it is proved to keep
  the invariant when it writes an empty cell of an undecided session
  (`Game.AcceptedMoveKeepsConsistent`), which is how the click and the
  opponent's turn call it.

Value mapping:

- A `null` cell becomes `Empty`, and `'X'`/`'O'` become `Taken(X)`/`Taken(O)`.
- The result of `checkWinner` is an `Option<Mark>`.
- The `winner` state is `Undecided` (`null`), `Win(m)` or `Tie`.
- `gameMode` is `TwoPlayer` (`'2P'`) or `VsAI` (`'AI'`).

The outcome effect runs automatically in the component after each board
change. Here it runs synchronously at the end of `MakeMove`. The opponent's
turn is `makeMove(getAIMove(board), false)`, guarded by the condition on
line 28.

`getAIMove` tries the win and the block cell by cell, so a block at a lower
cell beats a win at a higher one: on `[X, X, _, O, O, _, _, _, _]` it
returns 2, not 5 (`Ai.AIMoveBlockBeforeLaterWin`).

`Game.TopRowScenario` is a client of the session with no contract of its own:
X completes the top row, and later clicks are ignored until reset.

## Model

| member | source | states |
|---|---|---|
| Rules.CompleteIffOwned | src/TicTac.Toe.jsx:86-87 | The line test succeeds exactly when all three cells of the line hold X, or all three hold O. |
| Rules.WinnerFromSpec | src/TicTac.Toe.jsx:85-92 | From any position in the table, the scan returns the mark of the first complete line at or after that position. It returns None exactly when no later line is complete. |
| Rules.WinnerSpec | src/TicTac.Toe.jsx:73-93 | `checkWinner` returns the mark of the first complete line in table order, and `null` exactly when no line is complete. |
| Rules.CheckWinner | src/TicTac.Toe.jsx:73-93 | The component's loop with early return computes the same result as the specification of `checkWinner`. |
| Rules.WinnerIsFirstLine | src/TicTac.Toe.jsx:85-89 | If m holds line k and no earlier line is complete, the winner is m, even when later lines are complete too. |
| Rules.WinnerIffLine | src/TicTac.Toe.jsx:73-93 | When the two marks do not both hold a line, the result is m exactly when m holds some line, and `null` exactly when neither mark holds one. |
| Rules.NoLineWithOneMark | src/TicTac.Toe.jsx:85-92 | A board with at most one occupied cell has no winner. |
| Rules.NoWinnerNoLine | src/TicTac.Toe.jsx:85-92 | When `checkWinner` returns `null`, neither mark holds any line. |
| Rules.NoLineByCases | src/TicTac.Toe.jsx:85-92 | If each of the eight lines fails the test, the winner is `null`. |
| Rules.EmptyBoardUndecided | src/TicTac.Toe.jsx:5 | The initial all-empty board has no winner, no line for either mark, and an undecided outcome. |
| Rules.PlaceKeepsOtherLineless | src/TicTac.Toe.jsx:46-47 | Writing one mark into a cell cannot create a line for the other mark: if the other mark holds no line before, it holds none after. |
| Rules.EvaluateMeaning | src/TicTac.Toe.jsx:17-24 | When the two marks do not both hold a line, the outcome a board determines is a win for m exactly when m holds a line. It is a tie exactly when the board is full and neither mark holds a line. It is undecided exactly when neither holds a line and some cell is empty. |
| Rules.PlaceOnOpenBoard | src/TicTac.Toe.jsx:45-50 | After a mark is written into an empty cell of an undecided board, the two marks still do not both hold a line, one empty cell is gone, the mark written gains one cell and the other mark none. |
| Rules.FullBoardWithoutLineIsTie | src/TicTac.Toe.jsx:21-22 | The full board [X, O, X, X, O, O, O, X, X] holds no line, so its outcome is a tie. |
| Rules.FirstEmptyFrom | src/TicTac.Toe.jsx:69 | Searching from position i for `null` returns the first empty cell at or after i, or -1 exactly when there is none. |
| Rules.FirstEmpty | src/TicTac.Toe.jsx:69 | `indexOf(null)` returns the lowest empty cell, or -1 exactly when the board is full. |
| Ai.FirstWhereChoice | src/TicTac.Toe.jsx:53-66 | The ascending scan returns the smallest cell where the test holds, or the fallback when no cell passes. |
| Ai.WinsForIffLine | src/TicTac.Toe.jsx:56-63 | On a board where neither mark holds a line, `checkWinner` of the copy with m written at cell i yields m exactly when that completes a line for m. |
| Ai.DecisiveIffLine | src/TicTac.Toe.jsx:54-65 | On a board where neither mark holds a line, the opponent's test succeeds at a cell exactly when the cell is empty and writing O or X there completes a line for that mark. |
| Ai.AIMove | src/TicTac.Toe.jsx:52-70 | `getAIMove` returns -1 exactly when the board is full. Otherwise it returns a cell index whose cell is empty. |
| Ai.AIMoveChoice | src/TicTac.Toe.jsx:53-69 | `getAIMove` returns the smallest empty cell where O would win or X would win. When there is no such cell, it returns the lowest empty cell. |
| Ai.GetAIMove | src/TicTac.Toe.jsx:52-70 | The component's loop over a board copy (O tried first, then X, per cell) computes the same result as the specification of `getAIMove`. The input board is a value and is never written. |
| Ai.AIMoveAtFirstDecisive | src/TicTac.Toe.jsx:53-66 | The first cell where either mark would win is the one chosen. |
| Ai.AIMoveTakesWin | src/TicTac.Toe.jsx:57-59 | An empty cell where O wins is chosen when no lower cell lets either mark win. |
| Ai.AIMoveTakesBlock | src/TicTac.Toe.jsx:62-64 | An empty cell where X would win is chosen (blocked) when no lower cell lets either mark win. |
| Ai.AIMoveBlockBeforeLaterWin | src/TicTac.Toe.jsx:53-66 | On [X, X, _, O, O, _, _, _, _], O would win at 5 and would not win at 2, yet `getAIMove` returns 2: the win and the block are tried per cell, not in two passes. |
| Ai.AIMoveBlocksRow | src/TicTac.Toe.jsx:62-64 | On [X, X, _, _, O, _, _, _, _], `getAIMove` returns 2, blocking the top row. |
| Ai.NothingDecisiveOnEmptyBoard | src/TicTac.Toe.jsx:54-65 | On the empty board no cell lets either mark win. |
| Ai.AIMoveOnEmptyBoard | src/TicTac.Toe.jsx:69 | With nothing to win or block, the fallback applies: on the empty board `getAIMove` returns 0. |
| Game.AcceptedMoveKeepsConsistent | src/TicTac.Toe.jsx:41-50 | An accepted move on an undecided session keeps the invariant. In that move the player to move fills an empty cell, the turn passes, and the outcome is recorded. |
| Game.ResetStateConsistent | src/TicTac.Toe.jsx:96-100 | The reset state satisfies the invariant: empty board, X to move, no winner, no moves made. |
| Game.Session.constructor | src/TicTac.Toe.jsx:5-8 | A new session has an empty board, X to move, no winner and two-player mode, and satisfies the invariant. |
| Game.Session.RecordOutcome | src/TicTac.Toe.jsx:17-24 | `winner` becomes the winner of the board if there is one, else 'Tie' when no cell is empty, else stays as it was. |
| Game.Session.MakeMove | src/TicTac.Toe.jsx:45-50 | Exactly cell `index` is set to X when `isXTurn`, else to O. The other cells are unchanged, `isXNext` becomes `!isXTurn`, the outcome is recorded, and the mode is unchanged. |
| Game.Session.HandleClick | src/TicTac.Toe.jsx:40-43 | A click is accepted exactly when the cell is empty, no outcome is recorded and it is not O's turn in AI mode. If accepted, the player to move places a mark there. Otherwise nothing changes. The invariant is kept, so after n moves since reset, X is to move exactly when n is even. |
| Game.Session.AITurn | src/TicTac.Toe.jsx:27-38 | The opponent moves exactly when the mode is AI, it is O's turn and no outcome is recorded. It then places O on the cell `getAIMove` picks, which is always an empty cell, and X is to move. Otherwise nothing changes. The invariant is kept. |
| Game.Session.ResetGame | src/TicTac.Toe.jsx:96-100 | Whatever the history, the board becomes empty, X is to move and no winner is recorded. The mode is kept. |
| Game.Session.ToggleGameMode | src/TicTac.Toe.jsx:103-106 | '2P' becomes 'AI' and 'AI' becomes '2P', and the game is reset. |

## Left out

- Rendering, Chakra/Tailwind styling and the colour-mode hooks and toggle (lines 10-14 and 108-158) are presentation only.
- The 500 ms `setTimeout` and its `clearTimeout` cleanup (lines 29-36) are timer scheduling. `AITurn` models the trigger condition and the move the callback makes. It does not model cancelling a stale callback.
- React's asynchronous state updates are not modelled. The state in which the board already shows a win but `winner` is still `null` never appears, because the outcome is recorded inside the move step.
- Game.Session.AITurn: omits the `aiMove !== null` test on line 31. `getAIMove` never returns `null`, and under the invariant an undecided board is never full, so the move is always a cell index.
- Out-of-range indices and `makeMove(-1, …)` are not modelled. Cells are indices 0 to 8, and -1 appears only as the full-board result of `getAIMove`.
- Game.Session.HandleClick and Game.Session.AITurn: return whether a move was made. The component's handlers return nothing. The flag only reports which branch was taken.
