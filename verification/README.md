# Tres en Raya: a verified model of the game engine

This project models the engine of a tic-tac-toe web game ("Tres en Raya")
written in TypeScript/React. The engine has three parts, all in `App.tsx`:

- the **outcome evaluator** `calculateWinner`, which scans the eight fixed
  `WINNING_LINES` in order and reports the first complete line and its mark,
  or whether a full board is a draw (`outcome.dfy`, module `Outcome`);
- the **heuristic move selector** `getComputerMove` with its helper
  `findCriticalMove`: win for 'O', else block 'X', else the centre, else a
  random empty corner, else a random empty side, else -1
  (`heuristic.dfy`, module `Heuristic`);
- the **move-history manager**, the component state `history` /
  `currentMove` / `gameMode` with `handlePlay`, `jumpTo` and `resetGame`;
  whose turn it is comes from the parity of `currentMove`
  (`history.dfy`, class `History.Game`).

`types.dfy` (module `Types`) holds the cell type `Player` ('X', 'O' or
empty), the nine-cell `Board`, the `WinResult` record and a `Count` that
plays the part of `filter(...).length`. `scenarios.dfy` states five example games about the model: the block at 2, the win that
beats the block, the full-board draw, the repeated play, and the jump back
that drops the redo tail.

The evaluator and the selector are pure functions of the board. Their
loops with early return become functions that recurse on the loop index
(`ScanLines`, `ScanCritical`). "First match in table order" is stated by
lemmas that quantify over the index of the first complete or critical line.
The single `Math.random()` draw is a parameter `rand` with
`0.0 <= rand < 1.0`, and the list index is `Math.floor(rand * n)`, written as
`(rand * n).Floor`. The history manager is a class whose methods change
`history` and `currentMove` in place. `HandlePlay` copies the shown board
into a fresh array, writes the one cell and appends the copy. The class
invariant `Valid` keeps the cursor inside the history and the history
`WellFormed`, which says three things:

- snapshot 0 is empty;
- each later snapshot is its predecessor with one empty cell filled by the
  mark the parity of its index gives;
- no snapshot but the last has a complete line.

One move can complete two lines at once: a move at cell 4 can finish a row
and a diagonal together. `WinnerIsLastMover` proves that every complete line
of a snapshot in the history holds the mark of the player who moved last,
and so does the winner the evaluator reports. `calculateWinner` reports the
first of those lines in table order (`FirstCompleteLineWins`).

The corner and side picks are uniform: `RandomIndexInterval` shows that
index j of a list of length n is drawn exactly when the random source falls
in [j/n, (j+1)/n). The filtered corner and side lists hold no cell twice
(`EmptyAmongIncreasing`). So each empty corner, and under the side rule each
empty side, has an interval of length 1/n (`CornerPickIsUniform`,
`SidePickIsUniform`).

## Model

| member | source | states |
|---|---|---|
| `Types.IsFull` | App.tsx:25 | defines the draw test `squares.every(square => square !== null)`: every cell is occupied, i.e. no cell is empty |
| `Types.Count` | App.tsx:36-37 | the number of entries equal to a value is at most the length, zero exactly when the value is absent, and the full length exactly when every entry equals it |
| `Outcome.WinningLinesTable` | App.tsx:5-14 | every entry of `WINNING_LINES` is a row, a column or a diagonal, and every row, column and diagonal is an entry |
| `Outcome.WinningLinesOrder` | App.tsx:5-14 | the table has eight entries: the three rows top to bottom, then the three columns left to right, then the two diagonals |
| `Outcome.LineComplete` | App.tsx:20 | defines the test of the loop: the line's first cell is non-empty and the other two equal it |
| `Outcome.ScanLines` | App.tsx:18-26 | scanning lines from index i: a winner is reported exactly when a line is returned; that line comes from the table at or after i, is complete and carries the winner; with no line, no line from i on is complete and the draw flag is exactly "board full" |
| `Outcome.CalculateWinner` | App.tsx:17-27 | a winner is reported exactly when some winning line is complete; the returned line is one of `WINNING_LINES` with all three cells equal to the winner; a draw is reported exactly when no line is complete and every cell is occupied; winner and draw are never reported together |
| `Outcome.ScanLinesFirst` | App.tsx:18-22 | the scan from i stops at the first complete line at or after i and returns its mark and that line |
| `Outcome.FirstCompleteLineWins` | App.tsx:17-22 | when several lines are complete, the first one in `WINNING_LINES` order is reported, with its mark |
| `Outcome.PlacingWinsOnlyForMover` | App.tsx:17-22 | on a board with no complete line, filling one empty cell can only produce a winner equal to the mark placed |
| `Heuristic.LineValues` | App.tsx:35 | defines `lineValues`: the line's three cell values in a, b, c order |
| `Heuristic.Critical` | App.tsx:35-39 | defines the test of `findCriticalMove`: among the line's three values, two equal the player and one is empty |
| `Heuristic.FirstEmptyCell` | App.tsx:40-42 | the result is a cell of the line; on a line with an empty cell it is empty and every cell before it in a, b, c order is occupied |
| `Heuristic.CriticalIff` | App.tsx:35-43 | the filter-count test (two of the player's marks and one empty) holds exactly when the first empty cell in a, b, c order is the cell that completes the line for that player |
| `Heuristic.ScanCritical` | App.tsx:33-45 | scanning lines from i: no result exactly when no line from i on passes the test; a result is an empty cell that, with the player's two marks, completes a line at or after i |
| `Heuristic.FindCriticalMove` | App.tsx:32-46 | `findCriticalMove(player)` is null exactly when no winning line holds two of the player's marks and one empty cell; otherwise it is an empty cell that completes such a line |
| `Heuristic.ScanCriticalFirst` | App.tsx:33-43 | the scan returns the first empty cell (a, b, c order) of the first critical line at or after i |
| `Heuristic.EmptyAmong` | App.tsx:60 | the filtered list holds exactly the listed cells that are empty, is no longer than the list, and is empty exactly when every listed cell is occupied |
| `Heuristic.RandomIndex` | App.tsx:62 | `Math.floor(Math.random() * n)` is an index below n |
| `Heuristic.RandomIndexInterval` | App.tsx:62 | `Math.floor(rand * n)` equals j exactly when rand lies in [j/n, (j+1)/n), an interval of length 1/n for each index |
| `Heuristic.EmptyAmongIncreasing` | App.tsx:60 | the filter keeps the order of the cells it keeps: from an increasing list it gives an increasing list, so no cell appears twice |
| `Heuristic.PickIsUniform` | App.tsx:61-62 | picking from a list without repeats yields element k exactly when the random source lies in [k/n, (k+1)/n) |
| `Heuristic.RandomElement` | App.tsx:61-63 | the randomly picked element belongs to the non-empty list |
| `Heuristic.RandomIndexReaches` | App.tsx:62 | every index below n is produced by some value of the random source in [0, 1) |
| `Heuristic.PositionalMove` | App.tsx:56-71 | the centre / corner / side fallback returns -1 exactly when the board is full, and otherwise an empty cell |
| `Heuristic.ComputerMove` | App.tsx:30-72 | `getComputerMove` returns -1 exactly when all nine cells are occupied, and otherwise an index in 0..8 whose cell is empty |
| `Heuristic.WinTakesPriority` | App.tsx:48-50 | when 'O' has two in a line with the third empty, the move is the first empty cell of the first such line in table order, and playing 'O' there completes that line |
| `Heuristic.WinningMoveWins` | App.tsx:48-50 | whenever a win for 'O' exists, playing the chosen move makes the evaluator report a winner, and that winner is 'O' if the board had no complete line before |
| `Heuristic.BlockWhenNoWin` | App.tsx:52-54 | when 'O' has no win and 'X' has two in a line with the third empty, the move is the first empty cell of the first such line, the cell 'X' needs to complete it |
| `Heuristic.FallbackOrder` | App.tsx:56-69 | with no win and no block: the centre if it is empty; else a corner when an empty corner exists; else a side when the board is not full |
| `Heuristic.RandomOnlyBreaksTies` | App.tsx:48-62 | when a win, a block or the centre is available, or the board is full, every value of the random source gives the same move |
| `Heuristic.EveryEmptyCornerReachable` | App.tsx:59-63 | when the corner rule applies, each empty corner is chosen for some value of the random source |
| `Heuristic.EveryEmptySideReachable` | App.tsx:65-69 | when the side rule applies, each empty side is chosen for some value of the random source |
| `Heuristic.SideRuleMove` | App.tsx:56-69 | with no win, no block, the centre and every corner taken, and some side empty, the move is the random pick among the empty sides |
| `Heuristic.CornerPickIsUniform` | App.tsx:59-63 | when the corner rule applies, the k-th of the n empty corners is chosen exactly when the random source lies in [k/n, (k+1)/n) |
| `Heuristic.SidePickIsUniform` | App.tsx:65-69 | when the side rule applies, the k-th of the n empty sides is chosen exactly when the random source lies in [k/n, (k+1)/n) |
| `History.MarkFor` | App.tsx:94 | the mark move number k places: 'X' for even k and 'O' for odd k, never empty |
| `History.PlayPreservesWellFormed` | App.tsx:89-98 | cutting the history after the cursor and appending the cursor's board with an empty cell set to the mover's mark keeps the history invariant, provided the board has no complete line |
| `History.MarkCounts` | App.tsx:82-98 | snapshot k of a well-formed history holds ceil(k/2) 'X', floor(k/2) 'O' and 9 - k empty cells, so `xIsNext` holds exactly when both marks are equally many |
| `History.StepCounts` | App.tsx:93-96 | each appended snapshot has one more mark of the mover ('X' after an even cursor, 'O' after an odd one) and one empty cell fewer than its predecessor |
| `History.HistoryAtMostTen` | App.tsx:77-98 | a well-formed history never holds more than ten snapshots |
| `History.SnapshotsDifferInOneCell` | App.tsx:93-96 | consecutive snapshots differ in exactly one cell, which goes from empty to the mover's mark |
| `History.WinnerIsLastMover` | App.tsx:89-94 | every complete line of a snapshot in a well-formed history holds the mark of the player who made the move into it, and so does any winner the evaluator reports |
| `History.MachineMoveIsPlayable` | App.tsx:103-108 | when 'O' is to move and the shown board is neither won nor drawn, the machine's move is an empty cell, so the play it triggers is accepted; the turn's mark is 'O', and the cursor is below 9 with 9 - c empty cells left |
| `History.Game.constructor` | App.tsx:77-79 | the initial state is one empty snapshot, cursor 0, machine mode |
| `History.Game.CurrentSquares` | App.tsx:83 | defines `currentSquares`: the snapshot at the cursor, which `HandlePlay`'s contract is stated about; `MarkCounts` gives its mark counts |
| `History.Game.XIsNext` | App.tsx:82 | `xIsNext` holds exactly when the mark of the move at the cursor is 'X', so it agrees with the mark `HandlePlay`'s contract uses |
| `History.Game.HandlePlay` | App.tsx:86-99 | a no-op when the shown board has a winner or cell i is taken; otherwise the history becomes the prefix up to the cursor followed by the shown board with cell i set to 'X' on an even cursor and 'O' on an odd one, and the cursor moves to the new last snapshot; the invariant and the mode are kept |
| `History.Game.JumpTo` | App.tsx:116-119 | only the cursor changes, to the given index |
| `History.Game.ResetGame` | App.tsx:121-126 | the history becomes one empty snapshot and the cursor 0; the mode changes only when a new one is given |
| `Scenarios.BlockAtTwo` | App.tsx:52-54 | with 'X' on cells 0 and 1 and no threat from 'O', the machine plays 2 |
| `Scenarios.WinBeforeBlock` | App.tsx:48-54 | with 'O' on 0 and 1 and 'X' on 3 and 4, the machine plays 2 (win) rather than 5 (block) |
| `Scenarios.FullBoardDraw` | App.tsx:25-71 | a full board with no complete line is reported as a draw with no winner, and the machine returns -1 |

## Left out

- The machine-turn scheduling: the `useEffect` and `setTimeout` pair, its 600 ms delay and its cleanup (App.tsx:102-114). These are timer and UI concurrency. `History.MachineMoveIsPlayable` states what the effect's body relies on.
- The `isComputerThinking` flag (App.tsx:80, 104, 110, 118, 124). It only disables the history buttons in the view.
- `getStatusMessage` (App.tsx:128-135). It only builds user-facing text.
- The rendering: the JSX of `App` from App.tsx:137, components/Board.tsx and components/Square.tsx. This includes the `disabled` guard on the squares.
- The mode buttons (App.tsx:152, 165). They call `resetGame` with the other mode, which `History.Game.ResetGame` models.
- `SquareState` and `GameState` (types.ts:3-10). Nothing uses them.
- `Math.random()`: modelled as an exact real in [0, 1). Floating-point rounding of `rand * n` is not modelled.
- `History.Game.HandlePlay` requires a cell index 0..8. Its callers are the nine squares and the machine move when it is not -1.
- `History.Game.JumpTo` requires an index inside the history. Its only caller is the history list, which passes such indices.
- Snapshots are values (`seq`), so sharing of the JavaScript arrays between snapshots is not modelled. The source never writes to a snapshot after appending it.
