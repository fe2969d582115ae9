# Connect Four game logic, modelled in Dafny

This project models the game logic of a browser Connect-Four game (`js/main.js`).
The board is 7 columns by 6 rows. It is stored column by column, and row 0 is
the bottom of each column. A cell is `null` or holds the `turn` value of the
player who dropped there (1 or -1).

The game keeps three state variables: `board`, `turn` and `winner`.
- `init` resets all three.
- `handleDrop` writes `turn` at the first `null` of the clicked column, computes
  `winner`, then negates `turn`.
- `getWinner` ORs four directional checks together. Each check counts, with
  `countNumAdjacent`, how many of the mover's markers lie next to the new piece
  in one direction.

Modules:
- `Board` (board.dfy): cells, the 7×6 grid, `indexOf`, the cell write, and the
  stacked-column invariant.
- `WinCheck` (win_check.dfy): the counting walk, the four checks and `getWinner`.
  Each check is proved equal to a description that does not use the walk
  ("four in a line through the new piece").
- `Game` (game.dfy): the state, `init`, `handleDrop`, and sequences of clicks.
- `AsWritten` (as_written.dfy): the win detector exactly as the file has it.
  `countNumAdjacent` there is a stub that yields `undefined`, so no check ever
  fires (see Findings).
- `Wrappers` (wrappers.dfy): `Option`, which stands in for `null`.

The rest of the model uses the corrected detector:
- `countNumAdjacent` is the walk its comment describes (js/main.js:93-94).
- `getWinner` gets the position just written.

Where the code departs from the usual rules of Connect Four, the model follows the code:
- a drop into a full column still negates `turn` and recomputes `winner`;
- that recomputation starts from the off-board cell (column, -1), and a
  diagonal check can fire from there, so a click on a full column can make
  the mover the winner although no piece was placed (Game.FullColumnDiagonalWin);
- a winning drop also negates `turn`;
- `handleDrop` itself has no guard against drops after a win;
- the vertical check needs exactly three markers below, not at least three;
- a tie is never computed.

The page hides the marker of every full column and, once `winner` is set,
every marker (js/main.js:114-117). A click on a hidden marker lands on the
`#markers` container, `indexOf` gives -1 and the click is ignored. So a click
on a full column, and a drop after a win, reach `handleDrop` only when it is
called directly. `Game.Play` over arbitrary clicks covers more games than the
page allows.

## Model

| member | source | states |
|---|---|---|
| Board.EmptyGrid | js/main.js:30-38 | the initial board has 7 columns of 6 cells, all `null` |
| Board.IndexOf | js/main.js:53 | `indexOf(null)` is -1 exactly when the column has no `null`; otherwise it is the lowest index holding `null` |
| Board.Write | js/main.js:55 | the write sets the one cell (column, row) and keeps every other cell; with row -1 no cell changes |
| Board.FirstEmptyIsHeight | js/main.js:53 | in a stacked column the first `null` is at the number of pieces already there, and the column is full exactly when every cell is filled |
| WinCheck.CountIsMaximalRun | js/main.js:93-100 | the walk's count n is the length of the maximal run: steps 1..n land on board cells that hold `turn`, and step n+1 does not |
| WinCheck.CountAtLeast | js/main.js:93-100 | the count is at least n exactly when the first n cells along the direction hold `turn` |
| WinCheck.PairCheckIffFourInLine | js/main.js:70-91 | a two-sided check (horizontal, `/`, `\`) fires exactly when four consecutive positions on that line through the new piece have their other three cells held by the mover |
| WinCheck.CheckBackSlash | js/main.js:70-74 | the `\` check yields `null` or `turn`; when it fires is stated by WinCheck.PairCheckIffFourInLine with offsets (-1, 1) |
| WinCheck.CheckForwardSlash | js/main.js:76-80 | the `/` check yields `null` or `turn`; when it fires is stated by WinCheck.PairCheckIffFourInLine with offsets (1, 1) |
| WinCheck.CheckVertical | js/main.js:82-85 | the vertical check yields `null` or `turn`; when it fires is stated by WinCheck.VerticalIff |
| WinCheck.CheckHorizontal | js/main.js:87-91 | the horizontal check yields `null` or `turn`; when it fires is stated by WinCheck.PairCheckIffFourInLine with offsets (-1, 0) |
| WinCheck.VerticalIff | js/main.js:82-85 | the vertical check fires exactly when the three cells below hold `turn` and the fourth below does not |
| WinCheck.OrAssoc | js/main.js:62-67 | the JavaScript OR operator is associative, so grouping a chain of ORs differently does not change its value |
| WinCheck.OrFiresIff | js/main.js:62-67 | on `null` or a non-zero `turn`, the OR of two operands is non-null exactly when one of them is, and it is then `turn` |
| WinCheck.GetWinnerAsParsed | js/main.js:61-68 | the chain of four checks has the same value as the left-grouped chain JavaScript parses: ((vertical OR horizontal) OR forward slash) OR back slash |
| WinCheck.GetWinnerIff | js/main.js:61-68 | for a non-zero `turn`, `getWinner` is non-null exactly when one of the four checks is, and it is then `turn` |
| WinCheck.GetWinnerMeansLine | js/main.js:61-91 | `getWinner` reports the mover exactly when there are three of the mover's markers straight below (not four), or a line of four through the new piece horizontally or on either diagonal |
| Game.Init | js/main.js:26-42 | `init` gives 7 columns of exactly 6 empty cells, `turn = 1` and `winner = null`, and this state is valid |
| Game.HandleDrop | js/main.js:45-59 | a drop keeps the board's shape; the new `winner` is the old one (after a miss), `null`, or the mover's `turn` |
| Game.MissedClick | js/main.js:47-49 | a missed click (column -1) leaves board, turn and winner unchanged |
| Game.DropIntoOpenColumn | js/main.js:51-56 | a drop into a column with room writes `turn` at the lowest empty row and changes no other cell; the winner is computed at that cell |
| Game.DropLandsOnTop | js/main.js:53-55 | in a stacked column the piece lands at the row equal to the column's number of pieces |
| Game.DropIntoFullColumn | js/main.js:53-57 | a drop into a full column changes no cell but negates `turn`; the winner is computed from the off-board row -1, where the vertical and horizontal checks cannot fire (the diagonal checks can: Game.FullColumnDiagonalWin) |
| Game.FullColumnDiagonalWin | js/main.js:51-57 | a click on a full column leaves every cell as it was, yet reports the mover as winner when the mover holds the three cells diagonally up-right of the off-board cell (column, -1) |
| Game.DropKeepsStacked | js/main.js:53-55 | a drop preserves bottom-up contiguity in every column |
| Game.DropAlternatesTurn | js/main.js:57 | a click that hits a column negates `turn`, a miss keeps it, and validity (`turn` in {1, -1}, stacked columns) is preserved |
| Game.WinnerIsMover | js/main.js:56-57 | after a drop, `winner` is non-null exactly when one of the four checks fires at the written cell, and it is then the mover's `turn`, the negation of the new `turn` |
| Game.WinnerDoesNotBlock | js/main.js:45-59 | a previous `winner` has no effect on a drop: there is no guard after a win |
| Game.PlayIgnoresWinner | js/main.js:45-59 | the boards and turns reached by a sequence of clicks do not depend on `winner` |
| Game.PlayKeepsValid | js/main.js:45-59 | every state reached by clicks from a valid state is valid |
| Game.PlayAlternates | js/main.js:45-59 | after an even number of clicks that hit a column `turn` is the starting value, after an odd number its negation |
| Game.GamesFromInit | js/main.js:26-59 | every game from `init` keeps its columns stacked, and player 1 moves after an even number of clicks that hit a column |
| Game.DropColumn | js/main.js:51-57 | a drop into a column with room replaces exactly that column's lowest empty cell by the mover's marker |
| Game.FourthInColumnWins | js/main.js:82-85 | dropping on three of one's own markers at the bottom of a column reports the mover as winner |
| Game.VerticalScenario | js/main.js:45-85 | from empty columns 0 and 1, clicks 0,1,0,1,0,1,0 make the first mover the winner |
| AsWritten.GetWinner | js/main.js:61-68 | with the stub `countNumAdjacent`, `getWinner` is always `null` |
| AsWritten.NeverWins | js/main.js:70-100 | every count is `undefined` and `undefined + undefined` is `NaN`, so each of the four stub checks is `null` for every argument: `undefined === 3` and `NaN >= 3` are false |
| AsWritten.HandleDrop | js/main.js:45-59 | the code as written updates board and turn as the corrected model does, but sets `winner` to `null` on every click that hits a column |
| AsWritten.PlayAgrees | js/main.js:45-59 | the code as written passes through the same boards and turns as the corrected model, with `winner` null once any click has hit a column |
| AsWritten.MissedVerticalWin | js/main.js:96-100 | clicks 0,1,0,1,0,1,0 from `init` give winner 1 under the corrected detector, but `null` under the code as written |

## Left out

- DOM lookups, event listeners and `render`/`renderControls`/`renderMessage`/`renderBoard` with the `COLORS` table (js/main.js:2-20, 103-143). Apart from `renderControls`, they are presentation and browser I/O only. `renderControls` hides the markers of full columns and, after a win, all markers (js/main.js:114-117), which keeps such clicks from reaching `handleDrop`; the model does not include this gate, so `Game.Play` allows every click sequence.
- The mapping of a click to a column through `markerEls.indexOf(evt.target)` (js/main.js:47). The column index is an input, restricted to -1..6, which is what that `indexOf` over seven markers can yield.
- Ties. `'Tie'` is only compared against in rendering (js/main.js:125) and is never assigned.
- The assignment to the array property `-1` on a full column (js/main.js:55). Only its effect on the 42 cells is modelled, which is none.
- WinCheck.CountAdjacent: requires a non-zero offset pair. With offsets (0, 0) the walk its comment describes would never end. The source only uses unit offsets.
- AsWritten.CountNumAdjacent: the `NaN` indices produced when `getWinner()` passes `undefined` arguments are computed but never observable, because the stub returns `undefined` regardless.

## Findings

| source | as written | input that shows it | evidently intended | confidence | as-written member | corrected member |
|---|---|---|---|---|---|---|
| js/main.js:96-100 | `countNumAdjacent` shifts its index copies once and returns `undefined`, and `handleDrop` calls `getWinner()` without the new cell (js/main.js:56). Every check compares `undefined === 3` or `NaN >= 3`, so `winner` is always `null` | clicks on columns 0,1,0,1,0,1,0 after `init`: player 1 has four in column 0 | count the run of `turn` markers from the just-filled cell and report player 1 as winner | high; not executed | AsWritten.MissedVerticalWin | Game.VerticalScenario |
