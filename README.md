# Tic-tac-toe bot: board evaluator and minimax search

This project models the game logic of a browser tic-tac-toe game in which a
human plays against a bot. The logic lives in two functions of `src/App.jsx`:

- `checkWinner` evaluates a nine-cell board. It scans the eight winning lines
  in a fixed order (rows, then columns, then diagonals) and reports the mark on
  the first complete line. With no complete line, it reports a tie when the
  board is full and no result otherwise.
- `minimax` is exhaustive game-tree search for the bot. A terminal board
  scores +1 when the bot has won, -1 when the player has won and 0 when the
  board is full. On any other board it tries every empty cell in ascending
  order on a copy of the board and recurses with the turn flipped. It keeps a
  running best move, which only a strictly better score replaces (greater
  when maximizing, smaller when minimizing).

The model is split into five modules:

- `Wrappers` (`Wrappers.dfy`) holds the generic `Option` type.
- `Board` (`Board.dfy`) defines cells, boards, the list of empty cells and
  the placing of one mark on a copy of a board.
- `Evaluator` (`Evaluator.dfy`) models `checkWinner`.
- `Search` (`Search.dfy`) models `minimax` in two layers. The function
  `Minimax` and its fold `SearchFrom` are the specification.
  The method `BestMove` has the source's loop with a running best move.
  It copies the board into a fresh array for each child and recurses on the
  copy. It is proved to return exactly what `Minimax` returns. It has no
  `modifies` clause, so the verifier also checks that it never writes the
  board it is given.
- `Scenarios` (`Scenarios.dfy`) checks concrete boards, with the bot playing
  "X" against "O".

What is proved about the search:

- the score is always -1, 0 or 1;
- a board yields no cell exactly when it is terminal;
- on a non-terminal board, the chosen cell is empty;
- the score is the maximum (or minimum) over the children's scores;
- ties go to the lowest empty index;
- exchanging the two marks and the turn flag negates the score and keeps the
  cell;
- every child has one empty cell fewer, which is the termination measure.

## Model

| member | source | states |
|---|---|---|
| `Board.EmptyCellsSpec` | src/App.jsx:10-12 | The empty-cell list `EmptyCells` (built by `EmptyFrom`) holds every empty cell and nothing else, in strictly ascending order; it is empty exactly when every cell is filled. |
| `Board.EmptyFromMembers` | src/App.jsx:10-12 | The cells listed from index `k` on are exactly the empty cells at or after `k`. |
| `Board.EmptyFromIncreasing` | src/App.jsx:10-12 | The cells listed from index `k` on are at least `k` and strictly ascending, so iteration visits them in index order. |
| `Board.EmptyFromPlay` | src/App.jsx:16-17 | Marking an empty cell shortens the list of empty cells at or after `k` by one when the marked cell is at or after `k`, and leaves its length unchanged otherwise. |
| `Board.Play` | src/App.jsx:16-17 | A child board has the chosen empty cell set to the mover's mark and every other cell as before, and it has one empty cell fewer than its parent. |
| `Evaluator.FirstWinningLine` | src/App.jsx:39-43 | The result is the first complete line at or after position `k` of the scan order, with no complete line before it; when there is none, no line from `k` on is complete. |
| `Evaluator.CheckWinner` | src/App.jsx:32-50 | A winner is reported exactly when some line is complete, and it is the mark of the first complete line in scan order. A tie is reported exactly when no line is complete and the board is full. No result is reported exactly when no line is complete and some cell is empty, so a full board is never "no result". |
| `Evaluator.WinReported` | src/App.jsx:39-43 | When some line is complete and every complete line carries mark `s`, the evaluator reports `s`. |
| `Search.Minimax` | src/App.jsx:4-29 | The score is always -1, 0 or 1, and any cell the search names is an empty cell of the input board. |
| `Search.ChildResult` | src/App.jsx:16-19 | The search below a child (the mover's mark on one empty cell, turn flipped) scores -1, 0 or 1. |
| `Search.SearchFrom` | src/App.jsx:14-28 | The loop's result is either the running best it started from or a move to one of the visited cells with a score in -1..1. Started from the sentinel over at least one cell, it always yields a cell. |
| `Search.IndexIffNotTerminal` | src/App.jsx:5-28 | The search returns no cell exactly when the board is terminal (`Terminal`: won by the bot, won by the player, or full). |
| `Search.TerminalScores` | src/App.jsx:5-8 | A board won by the bot gives score 1 and no cell. A board won by the player (a distinct mark) gives -1. A full board won by neither gives 0. |
| `Search.Update` | src/App.jsx:21-25 | One loop step returns either the running best or the move to the visited cell. Neither the child's score nor the old best is better for the mover than the result. The running best is replaced only when the child's score is strictly better. |
| `Search.SearchFromDominates` | src/App.jsx:15-26 | The loop's result is at least as good for the mover as its starting best and as the child of every visited cell. |
| `Search.SearchFromFirstAttains` | src/App.jsx:15-26 | Unless the loop keeps its starting best, it returns the move to the first visited cell whose child attains the result. That result strictly improves on the starting best, and every earlier child is strictly worse. |
| `Search.MinimaxPicksBestChild` | src/App.jsx:10-26 | On a non-terminal board the chosen cell is empty and its child attains the returned score. No empty cell's child does better, so the score is the maximum over the children when maximizing and the minimum when minimizing. Every empty cell below the chosen one does strictly worse, so ties go to the lowest index. |
| `Search.BestPossibleChildChosen` | src/App.jsx:21-25 | When the child of empty cell `i` reaches the mover's best possible score and no lower empty cell's child does, the search returns cell `i` with that score. |
| `Search.MinimaxSwap` | src/App.jsx:5-25 | With distinct marks, exchanging the bot's and the player's marks and flipping the turn flag negates the score and keeps the chosen cell. |
| `Search.ChildSwap` | src/App.jsx:16-19 | The same exchange applied to one child negates its score and keeps its cell. |
| `Search.SearchFromSwap` | src/App.jsx:14-26 | The same exchange applied to the loop, with the running best negated, negates the loop's result. |
| `Search.CopyAndPlay` | src/App.jsx:16-17 | The child board is a freshly allocated nine-cell array holding the parent's cells with the chosen empty cell marked. |
| `Search.BestMove` | src/App.jsx:4-29 | The loop-based search returns exactly the move and score that `Minimax` specifies, and it does not write its input array. |
| `Search.ImmediateWinScoresOne` | src/App.jsx:15-22 | On a non-terminal board where the bot can complete a line at once, the bot's search scores 1. |
| `Search.AllChildrenAgree` | src/App.jsx:15-25 | When every child of a non-terminal board has the same score, the board has that score. |
| `Scenarios.TieBoard` | src/App.jsx:45-47 | The full board X O X / O X O / O X O is a tie. |
| `Scenarios.TopRowBoard` | src/App.jsx:39-43 | The board X X X / O O _ / _ _ _ is won by "X". |
| `Scenarios.WinningMoveBoard` | src/App.jsx:4-29 | On X X _ / _ O O / _ _ _ with "X" to move, the search returns cell 2 with score 1. |
| `Scenarios.BlockedBoardScoresOne` | src/App.jsx:4-29 | On O O X / _ X X / _ _ _ with "O" to move, every reply loses, so the score is 1. |
| `Scenarios.BlockingMoveBoard` | src/App.jsx:4-29 | On O O _ / _ X X / _ _ _ with "X" to move, the search returns cell 2 with score 1. |

## Left out

- The React component `App` (src/App.jsx:52-188) is UI glue and is not modelled. This covers its state hooks, the effect that triggers the bot's move, name entry, symbol buttons, rendering and the restart button.
- The turn guards in the click handler and in the bot's move are not modelled. They depend on asynchronous React state updates and effect scheduling.
- `Search.Minimax`: the unused `depth` argument of `minimax` is dropped. It is incremented on each recursive call but never read, so no result depends on it.
- `Search.SearchFrom`: the running best starts at -2 (maximizing) or +2 (minimizing) instead of `-Infinity`/`Infinity`. Child scores are proved to lie in -1..1, so the first child always replaces the sentinel, as it does in the source. A full board is caught before the loop, so the sentinel is never returned.
- Cells are a datatype (`Empty` or `Mark(s)` with a non-empty string `s`) instead of untyped JavaScript strings. The truthiness test on a cell becomes `!= Empty`.
- The evaluator's result is a datatype (`Win(s)`, `Tie`, `NoResult`) instead of a string or `null`. The source returns the string "Tie", which a mark spelled "Tie" would be confused with. The app only uses "X" and "O", so this does not change its behaviour.
- `Search.MinimaxSwap`: it requires the two marks to be distinct. The game guarantees this when a symbol is chosen. `Minimax` itself has no such requirement and, like the source, tests the bot's mark first.
- The search from the empty board is not proved. The full game tree is far too large for the verifier to unfold, so the move chosen there and its score (a draw under perfect play) are not established here.
- Determinism is not stated separately. Every member is a function of its inputs.

On the board O O _ / _ X X / _ _ _ with "X" to move, the search returns cell 2 with score 1, a win rather than a draw (`Scenarios.BlockingMoveBoard`). Marking cell 2 blocks "O" and also threatens both the middle row (cell 3) and the anti-diagonal (cell 6). "O" cannot cover both, so every reply loses. The model follows the code.

The mark of the first complete line in scan order is reported (`Evaluator.CheckWinner`). `Evaluator.WinReported` gives a sufficient condition: every complete line carries the same mark.
