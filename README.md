# Tic-tac-toe game engine

A Dafny model of the game logic inside the React tic-tac-toe app in
`src/App.tsx`. The app is one component tree, and the model keeps its parts:

- **The win evaluator** (`calculateWinner`). It scans the eight lines of the
  3x3 board in a fixed order: rows, then columns, then diagonals. It returns the
  first line whose three squares hold the same marker, or nothing.
- **The board component's click handler and status line** (`handleClick`, the
  `status` selection). A click on a taken square, or on a board that is already
  won, is ignored. Any other click copies the board, writes X or O on the
  clicked square by the parity of the current move, and passes the copy on.
  The status line shows the winner if there is one, else "game drawn" when the
  move count is nine, else the next player.
- **The game component** (`Game`). It holds three pieces of state:
  - the history of boards;
  - the index of the board shown (`currentMove`);
  - the order of the move list.

  `handlePlay` cuts the history after the board shown, appends the new board
  and shows it. `jumpTo` only moves the index. `toggleAscendingOrder` only
  flips the order flag.
- **The move list**. `getDifferentElementIndex` and `getSquareClickedHistory`
  find the 1-based (row, column) of the square each move took. `history.map`
  labels one entry per board, and `moves.reverse()` reverses the list in place
  when the order is descending.

Files and modules:

- `wrappers.dfy` (`Wrappers`): `Option`, which stands for `null` and
  `undefined`.
- `squares.dfy` (`Squares`): cells, boards, the table of lines and the win
  evaluator. The evaluator appears twice: the function `Winner` specifies it,
  and the method `CalculateWinner` is its loop. The module also has a reference
  definition of "three in a row" written over rows and columns.
- `turn.dfy` (`Turn`): the click handler as the function `Play`, the
  "legal move" relation `IsMove`, and the status line. The status line appears
  as the function `StatusOf` and as the method `BoardStatus`, which calls the
  evaluator.
- `history.dfy` (`History`): the invariant of a history built by play,
  `IsPlayedHistory`, and its consequences. The module also has the coordinates
  of squares and the diff helpers, each as a function and as its loop.
- `movelist.dfy` (`MoveList`): the labelled entries, reversal and the in-place
  reverse.
- `session.dfy` (`Session`): the class `Game` with the fields `history`,
  `currentMove` and `ascendingOrder`. Its handlers are methods. The module also
  has lemmas about what a played game shows.

The class keeps two invariants. `Valid()` says the index of the board shown
lies in the history; every handler keeps it. `Played()` says each board is the
previous one plus one legal move, with X on even indices and O on odd ones.
`HandleClick` keeps `Played()`. `HandlePlay` on its own accepts any board, so
it keeps only `Valid()`.

Three behaviours of the code are worth stating on their own:

- The draw test compares the history length minus one with nine
  (`src/App.tsx:32`, `src/App.tsx:126`). It does not use the index of the board
  shown. `Session.DrawnWhileSquaresFree` proves the consequence. After nine
  moves, jumping back to an earlier board shows "game drawn", yet a click on
  that board is still accepted.
- The bold "you are at" entry of the move list is the last board of the
  history (`src/App.tsx:105`, `src/App.tsx:113`), not the board shown.
  `MoveList.MoveEntries` states this.
- The diff helper returns `undefined` when the two boards are equal
  (`src/App.tsx:80-86`). The model returns `None` in that case, and
  `History.DiffCoord` states when that happens.

## Model

| member | source | states |
|---|---|---|
| `Squares.FirstLine` | src/App.tsx:150-157 | The position of the first line, from a given position on, whose three squares hold one non-empty marker. No earlier line is completed. The result is None exactly when no remaining line is completed. |
| `Squares.Winner` | src/App.tsx:138-159 | The result is None exactly when none of the eight lines is filled with one non-empty marker. Otherwise the winner is non-empty, all three reported squares hold it, and the reported line is the first completed one in the order rows, columns, diagonals. |
| `Squares.CalculateWinner` | src/App.tsx:150-158 | The loop over the lines, with its early return, computes exactly `Winner`. |
| `Squares.WinningSquares` | src/App.tsx:17-22 | The highlighted squares are empty when nobody won. Otherwise they are exactly the three squares of the line the evaluator reports, and each holds the winner's marker. |
| `Squares.WinnerHasThreeInARow` | src/App.tsx:139-156 | The marker the evaluator reports has three in a row by the row/column/diagonal reference definition. |
| `Squares.ThreeInARowIsWon` | src/App.tsx:139-158 | If any marker has three in a row by the reference definition, the evaluator reports a result. |
| `Squares.WinnerIffThreeInARow` | src/App.tsx:138-159 | The evaluator reports a result if and only if some marker has three in a row. |
| `Turn.Play` | src/App.tsx:39-50 | A click is ignored exactly when the square is taken or the board is won. Otherwise the new board differs from the old one only at the clicked square, which becomes X when X is next and O otherwise. That is a legal move (`IsMove`). |
| `Turn.StatusOf` | src/App.tsx:28-37 | Priority: "winner" exactly when the evaluator reports a result, and the winner has three in a row. "Game drawn" exactly when nobody won and the move count is nine. Otherwise the next player, and no marker has three in a row. |
| `Turn.BoardStatus` | src/App.tsx:14-37 | The status selection, which runs the evaluator and then the if/else chain, computes exactly `StatusOf`. |
| `History.PlayedHistoryExtend` | src/App.tsx:66-70 | Keeping the boards up to the current one and appending a legal move of the player to move gives a played history again. |
| `History.FilledAtMove` | src/App.tsx:42-47 | The board at index k of a played history has exactly k filled squares. |
| `History.PlayedHistoryBounded` | src/App.tsx:39-49 | A played history never holds more than ten boards. |
| `History.NoWinBeforeEnd` | src/App.tsx:40-41 | Every board of a played history except the last is unwon, because clicks on a won board are ignored. |
| `History.ToCoord` | src/App.tsx:83 | The coordinate of a square has row and column in 1..3 and maps back to the square by (row-1)*3 + (col-1). |
| `History.CoordRoundTrip` | src/App.tsx:83 | Every coordinate with row and column in 1..3 is the coordinate of the square it names. |
| `History.DiffCoord` | src/App.tsx:80-86 | The result is None exactly when the boards are equal. Otherwise it names a square, in range, where the boards differ, and they agree on every earlier square. |
| `History.GetDifferentElementIndex` | src/App.tsx:80-86 | The scanning loop with its early return computes exactly `DiffCoord`. The loop builds the pair by floor division and remainder, and the proof shows that pair equals `ToCoord` of the same index. |
| `History.DiffCoordOfMark` | src/App.tsx:80-86 | Marking one empty square makes the diff report exactly that square. |
| `History.GetSquareClickedHistory` | src/App.tsx:88-96 | The loop yields one entry per pair of consecutive boards, in order. Each entry is the diff of that pair. |
| `History.ClickedSquaresOfPlayed` | src/App.tsx:88-98 | In a played history, entry k names the square move k+1 took. That square is empty before the move, and the next board is the previous one with the mover's marker written there. |
| `MoveList.Describe` | src/App.tsx:101-113 | The entry of a move carries that move. It is bold exactly when the move is the last of the history. It reads "go to game start" exactly for move 0. Every later entry carries its move number and the square that move took, and it reads "you are at" exactly when it is bold. |
| `MoveList.MoveEntries` | src/App.tsx:100-117 | One entry per board, in history order, and each entry carries its own move index. Entry 0 is "go to game start". Every later entry carries its move number and the square its move took. The only bold "you are at" entry is the last one. |
| `MoveList.Reversed` | src/App.tsx:119-121 | Reversal keeps the length, puts element k at position length-1-k, and is a permutation. |
| `MoveList.ReversedTwice` | src/App.tsx:119-121 | Reversing twice gives the sequence back. |
| `MoveList.ReverseInPlace` | src/App.tsx:120 | The in-place reverse leaves the array holding the reversal of its old contents. |
| `MoveList.RenderMoves` | src/App.tsx:100-121 | The list is built into a new array, reversed in place when descending, and then holds exactly the displayed list. |
| `MoveList.DisplayKeepsMoveIndex` | src/App.tsx:100-121 | Display position p shows move p when ascending and move n-1-p when descending, and both orders hold the same entries. |
| `MoveList.ToggleTwiceRestores` | src/App.tsx:76-78 | Each order shows the reverse of the other, so flipping the order twice shows the list as it was. |
| `Session.Game.constructor` | src/App.tsx:59-61 | A new game holds one empty board, shows it, and lists moves ascending. Both invariants hold. |
| `Session.Game.CurrentSquares` | src/App.tsx:63 | In a played game, the board shown has as many filled squares as its index in the history. |
| `Session.Game.XIsNext` | src/App.tsx:64 | In a played game, X is next exactly when the board shown has an even number of filled squares. |
| `Session.Game.HandlePlay` | src/App.tsx:66-70 | The new history is the old one up to the board shown, plus the new board. The new board is shown, its index is the last one and one more than before, and the order flag is unchanged. |
| `Session.Game.JumpTo` | src/App.tsx:72-74 | Only the index of the board shown changes. |
| `Session.Game.ToggleAscendingOrder` | src/App.tsx:76-78 | Only the order flag changes, to its negation. |
| `Session.Game.HandleClick` | src/App.tsx:39-50 | A click on a taken square or a won board changes nothing. Otherwise the history is cut after the board shown and the board with the mover's marker on the square is appended. Both invariants are kept. |
| `Session.Game.View` | src/App.tsx:98-126 | The status is that of the board shown, with the history length minus one as the move count. The move list is a new array holding the displayed list for the current order. |
| `Session.FullBoardIsDrawn` | src/App.tsx:28-34 | In a played game, a full board that nobody won is reported as "game drawn". |
| `Session.DrawnWhileSquaresFree` | src/App.tsx:32 | After nine moves, any earlier board shown is reported as "game drawn", yet it still has a square where a click is accepted. |
| `Session.ColumnWinExample` | src/App.tsx:138-159 | X on 0, 3 and 6 against O on 1 and 4 is a win for X on the left column. The status says so and squares 0, 3 and 6 are highlighted. |
| `Session.DrawExample` | src/App.tsx:28-34 | The full board X X O / O O X / X O X has no winner, and its status reads "game drawn". |

## Left out

- Rendering is not modelled. That covers the `Square` component, the JSX markup,
  CSS class names and React keys (`src/App.tsx:3-11`, `src/App.tsx:52-55`,
  `src/App.tsx:111-135`). Only the kind of each move-list entry is kept:
  bold or button, the description, and the move it jumps to.
- React's `useState` and re-rendering are not modelled. Each handler is one
  atomic method on the fields of `Game`. `View` recomputes what a render
  derives.
- The text of labels and of the status line is not modelled: no template
  strings or string concatenation. Descriptions and statuses are datatype
  values carrying the move number, the coordinate or the marker.
- `getSquareClickedHistory` tests `history[i] !== history[i + 1]` by object
  identity. The model always pushes, because every accepted click stores a
  fresh copy of the board, so the test is always true.
- JavaScript truthiness and `null` are not modelled. Squares are the `Cell`
  datatype, and absent results are `Option`.
- `Turn.Play` and `Session.Game.HandleClick` take only square indices 0..8.
  The grid never produces another value.
- `Session.Game.JumpTo` takes only indices inside the history. The move list
  only produces those.
- `Session.Game.HandlePlay` requires the index of the board shown to lie in
  the history. Every state reachable from the constructor satisfies this.
- `MoveList.MoveEntries` derives the history length from the list of clicked
  squares (one shorter than the history). The code reads both separately, and
  they always agree.
