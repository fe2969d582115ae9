/** The state variables of js/main.js (`board`, `turn`, `winner`) and the
    two operations that change them: `init` and `handleDrop`. The column
    index that `handleDrop` reads from the clicked element is an input. */
module Game {
  import opened Wrappers
  import opened Board
  import opened WinCheck

  /** `winner` is `null` (None) or the marker of the player who won. */
  datatype State = State(board: Grid, turn: int, winner: Option<int>)

  /** What holds of every state the game reaches. */
  predicate Valid(g: State) {
    WellFormed(g.board) && AllStacked(g.board) && (g.turn == 1 || g.turn == -1)
  }

  /** What `markerEls.indexOf(evt.target)` can yield: a column, or -1 for a
      click that misses every marker. */
  predicate IsClick(colIdx: int) {
    -1 <= colIdx < Cols
  }

  /** `init`: seven columns of six empty cells, player 1 to move, no winner. */
  function Init(): (g: State)
    ensures Valid(g)
    ensures |g.board| == 7 && forall c :: 0 <= c < 7 ==> |g.board[c]| == 6
    ensures forall c, r :: InBounds(c, r) ==> g.board[c][r] == Empty
    ensures g.turn == 1 && g.winner == None
  {
    State(EmptyGrid(), 1, None)
  }

  /** `handleDrop`: ignore a miss; otherwise write `turn` at the first empty
      row of the column (no cell at all when the column is full), compute
      the winner seeded at the written position, and negate `turn`. */
  function HandleDrop(g: State, colIdx: int): (g': State)
    requires WellFormed(g.board)
    requires IsClick(colIdx)
    ensures WellFormed(g'.board)
    ensures g'.winner == g.winner || g'.winner == None || g'.winner == Some(g.turn)
  {
    if colIdx == -1 then g
    else
      var rowIdx := IndexOf(g.board[colIdx], Empty);
      var b := Write(g.board, colIdx, rowIdx, P(g.turn));
      State(b, -g.turn, GetWinner(b, colIdx, rowIdx, g.turn))
  }

  /** A click that misses every marker changes nothing. */
  lemma MissedClick(g: State)
    requires WellFormed(g.board)
    ensures HandleDrop(g, -1) == g
  {
  }

  /** A drop into a column with room writes the mover's marker at the lowest
      empty row `i` of that column and leaves every other cell alone; the
      winner is computed at (colIdx, i). */
  lemma DropIntoOpenColumn(g: State, colIdx: int) returns (i: int)
    requires WellFormed(g.board)
    requires 0 <= colIdx < Cols
    requires Empty in g.board[colIdx]
    ensures 0 <= i < Rows && g.board[colIdx][i] == Empty
    ensures forall k :: 0 <= k < i ==> g.board[colIdx][k] != Empty
    ensures HandleDrop(g, colIdx).board[colIdx][i] == P(g.turn)
    ensures forall c, r :: InBounds(c, r) && (c, r) != (colIdx, i) ==>
              HandleDrop(g, colIdx).board[c][r] == g.board[c][r]
    ensures HandleDrop(g, colIdx).winner == GetWinner(HandleDrop(g, colIdx).board, colIdx, i, g.turn)
  {
    i := IndexOf(g.board[colIdx], Empty);
  }

  /** In a stacked column the row written is the number of pieces already
      there. */
  lemma DropLandsOnTop(g: State, colIdx: int)
    requires Valid(g)
    requires 0 <= colIdx < Cols
    requires Empty in g.board[colIdx]
    ensures Filled(g.board[colIdx]) < Rows
    ensures HandleDrop(g, colIdx).board[colIdx][Filled(g.board[colIdx])] == P(g.turn)
  {
    FirstEmptyIsHeight(g.board[colIdx]);
  }

  /** A drop into a full column changes no cell (the write goes to index -1)
      but still negates `turn`; the winner is computed from the off-board
      position (colIdx, -1), where the vertical and horizontal walks find
      nothing. */
  lemma DropIntoFullColumn(g: State, colIdx: int)
    requires WellFormed(g.board)
    requires 0 <= colIdx < Cols
    requires Empty !in g.board[colIdx]
    ensures HandleDrop(g, colIdx).board == g.board
    ensures HandleDrop(g, colIdx).turn == -g.turn
    ensures HandleDrop(g, colIdx).winner == GetWinner(g.board, colIdx, -1, g.turn)
    ensures CheckVertical(g.board, colIdx, -1, g.turn) == None
    ensures CheckHorizontal(g.board, colIdx, -1, g.turn) == None
  {
  }

  /** The win check of a click on a full column starts from the off-board
      cell (colIdx, -1), and the `/` walk from there reaches real cells:
      with column 0 full and the mover holding (1, 0), (2, 1) and (3, 2),
      the mover is reported as winner although no piece was placed. */
  lemma FullColumnDiagonalWin(g: State)
    requires WellFormed(g.board)
    requires g.turn != 0
    requires Empty !in g.board[0]
    requires g.board[1][0] == P(g.turn) && g.board[2][1] == P(g.turn) && g.board[3][2] == P(g.turn)
    ensures HandleDrop(g, 0).board == g.board
    ensures HandleDrop(g, 0).winner == Some(g.turn)
  {
    var b, t := g.board, g.turn;
    DropIntoFullColumn(g, 0);
    assert Run(b, 0, -1, 1, 1, t, 3) by {
      assert OnRay(b, 0, -1, 1, 1, t, 1);
      assert OnRay(b, 0, -1, 1, 1, t, 2);
      assert OnRay(b, 0, -1, 1, 1, t, 3);
    }
    CountAtLeast(b, 0, -1, 1, 1, t, 3);
    assert CheckForwardSlash(b, 0, -1, t) == Some(t);
  }

  /** A drop keeps every column stacked from the bottom. */
  lemma DropKeepsStacked(g: State, colIdx: int)
    requires WellFormed(g.board) && AllStacked(g.board)
    requires IsClick(colIdx)
    ensures AllStacked(HandleDrop(g, colIdx).board)
  {
    // Below the written row every cell was filled, above it every cell
    // was and stays empty, so the column stays stacked.
  }

  /** A click that hits a column (full or not) negates `turn`, so it stays
      in {1, -1} and the other player moves next; a miss keeps it. */
  lemma DropAlternatesTurn(g: State, colIdx: int)
    requires Valid(g)
    requires IsClick(colIdx)
    ensures colIdx != -1 ==> HandleDrop(g, colIdx).turn == -g.turn
    ensures colIdx == -1 ==> HandleDrop(g, colIdx).turn == g.turn
    ensures Valid(HandleDrop(g, colIdx))
  {
    DropKeepsStacked(g, colIdx);
  }

  /** The winner a drop reports is non-null exactly when one of the four
      checks fires, and it is the player who moved: the opposite of the
      new `turn`. */
  lemma WinnerIsMover(g: State, colIdx: int)
    requires Valid(g)
    requires 0 <= colIdx < Cols
    ensures var g' := HandleDrop(g, colIdx);
            var i := IndexOf(g.board[colIdx], Empty);
            g'.winner.Some? <==>
              CheckVertical(g'.board, colIdx, i, g.turn).Some? ||
              CheckHorizontal(g'.board, colIdx, i, g.turn).Some? ||
              CheckForwardSlash(g'.board, colIdx, i, g.turn).Some? ||
              CheckBackSlash(g'.board, colIdx, i, g.turn).Some?
    ensures HandleDrop(g, colIdx).winner.Some? ==>
              HandleDrop(g, colIdx).winner == Some(g.turn) &&
              HandleDrop(g, colIdx).winner.value == -HandleDrop(g, colIdx).turn
  {
    var i := IndexOf(g.board[colIdx], Empty);
    GetWinnerIff(HandleDrop(g, colIdx).board, colIdx, i, g.turn);
  }

  /** `handleDrop` has no guard against moving after a win: the previous
      `winner` has no influence on the next drop, which overwrites it. */
  lemma WinnerDoesNotBlock(g: State, colIdx: int, w: Option<int>)
    requires WellFormed(g.board)
    requires 0 <= colIdx < Cols
    ensures HandleDrop(g.(winner := w), colIdx) == HandleDrop(g, colIdx)
  {
  }

  /** A sequence of clicks applied one after another. */
  function Play(g: State, clicks: seq<int>): (g': State)
    requires WellFormed(g.board)
    requires forall k :: 0 <= k < |clicks| ==> IsClick(clicks[k])
    ensures WellFormed(g'.board)
    decreases |clicks|
  {
    if clicks == [] then g
    else Play(HandleDrop(g, clicks[0]), clicks[1..])
  }

  /** One click of a sequence, then the rest. */
  lemma PlayStep(g: State, clicks: seq<int>)
    requires WellFormed(g.board)
    requires forall k :: 0 <= k < |clicks| ==> IsClick(clicks[k])
    requires clicks != []
    ensures Play(g, clicks) == Play(HandleDrop(g, clicks[0]), clicks[1..])
  {
  }

  /** `winner` is output only: the board and turn a sequence of clicks
      leads to do not depend on it. */
  lemma {:induction false} PlayIgnoresWinner(g: State, w: Option<int>, clicks: seq<int>)
    requires WellFormed(g.board)
    requires forall k :: 0 <= k < |clicks| ==> IsClick(clicks[k])
    ensures Play(g.(winner := w), clicks).board == Play(g, clicks).board
    ensures Play(g.(winner := w), clicks).turn == Play(g, clicks).turn
    decreases |clicks|
  {
    if clicks != [] {
      PlayStep(g, clicks);
      PlayStep(g.(winner := w), clicks);
      if clicks[0] == -1 {
        PlayIgnoresWinner(g, w, clicks[1..]);
      } else {
        WinnerDoesNotBlock(g, clicks[0], w);
      }
    }
  }

  /** The number of clicks that hit a column. */
  function Drops(clicks: seq<int>): (n: nat)
    ensures n <= |clicks|
  {
    if clicks == [] then 0
    else (if clicks[0] == -1 then 0 else 1) + Drops(clicks[1..])
  }

  /** Every game reached from a valid state stays valid: the board keeps
      its shape, every column stays stacked and `turn` stays in {1, -1}. */
  lemma {:induction false} PlayKeepsValid(g: State, clicks: seq<int>)
    requires Valid(g)
    requires forall k :: 0 <= k < |clicks| ==> IsClick(clicks[k])
    ensures Valid(Play(g, clicks))
    decreases |clicks|
  {
    if clicks != [] {
      var h := HandleDrop(g, clicks[0]);
      DropAlternatesTurn(g, clicks[0]);
      PlayKeepsValid(h, clicks[1..]);
    }
  }

  /** Each click that hits a column negates `turn`: after an even number of
      them `turn` is the starting value, after an odd number its negation. */
  lemma {:induction false} PlayAlternates(g: State, clicks: seq<int>)
    requires WellFormed(g.board)
    requires forall k :: 0 <= k < |clicks| ==> IsClick(clicks[k])
    ensures Play(g, clicks).turn == (if Drops(clicks) % 2 == 0 then g.turn else -g.turn)
    decreases |clicks|
  {
    if clicks != [] {
      var c, rest := clicks[0], clicks[1..];
      var h := HandleDrop(g, c);
      var n := Drops(rest);
      assert h.turn == (if c == -1 then g.turn else -g.turn) by {
        TurnStep(g, c);
      }
      assert Drops(clicks) == (if c == -1 then n else n + 1);
      PlayStep(g, clicks);
      PlayAlternates(h, rest);
    }
  }

  /** One click's effect on `turn`. */
  lemma TurnStep(g: State, colIdx: int)
    requires WellFormed(g.board)
    requires IsClick(colIdx)
    ensures HandleDrop(g, colIdx).turn == (if colIdx == -1 then g.turn else -g.turn)
  {
  }

  /** Every game reached from `init` keeps its columns stacked, and player 1
      is to move after an even number of drops, player -1 after an odd one. */
  lemma GamesFromInit(clicks: seq<int>)
    requires forall k :: 0 <= k < |clicks| ==> IsClick(clicks[k])
    ensures Valid(Play(Init(), clicks))
    ensures Play(Init(), clicks).turn == (if Drops(clicks) % 2 == 0 then 1 else -1)
  {
    PlayKeepsValid(Init(), clicks);
    PlayAlternates(Init(), clicks);
  }

  /** Dropping onto three of the mover's own markers at the bottom of a
      column wins vertically. */
  lemma FourthInColumnWins(g: State, colIdx: int)
    requires WellFormed(g.board)
    requires 0 <= colIdx < Cols
    requires g.turn != 0
    requires forall r :: 0 <= r < 3 ==> g.board[colIdx][r] == P(g.turn)
    requires g.board[colIdx][3] == Empty
    ensures HandleDrop(g, colIdx).winner == Some(g.turn)
  {
    var b := HandleDrop(g, colIdx).board;
    assert IndexOf(g.board[colIdx], Empty) == 3;
    assert Run(b, colIdx, 3, 0, -1, g.turn, 3) by {
      assert OnRay(b, colIdx, 3, 0, -1, g.turn, 1);
      assert OnRay(b, colIdx, 3, 0, -1, g.turn, 2);
      assert OnRay(b, colIdx, 3, 0, -1, g.turn, 3);
    }
    VerticalIff(b, colIdx, 3, g.turn);
  }

  /** A drop into a column with room stacks the mover's marker on top of it
      and leaves the other columns as they were. */
  lemma DropColumn(g: State, colIdx: int)
    requires WellFormed(g.board)
    requires 0 <= colIdx < Cols
    requires Empty in g.board[colIdx]
    ensures var i := IndexOf(g.board[colIdx], Empty);
            HandleDrop(g, colIdx).board == g.board[colIdx := g.board[colIdx][i := P(g.turn)]]
    ensures HandleDrop(g, colIdx).turn == -g.turn
  {
  }

  /** The position after the first j clicks of 0, 1, 0, 1, ... starting from
      empty columns 0 and 1 with player t to move: column 0 holds t's
      markers in its lowest (j + 1) / 2 rows, column 1 holds the opponent's
      in its lowest j / 2 rows. */
  predicate Race(g: State, j: nat, t: int) {
    && WellFormed(g.board)
    && (forall r :: 0 <= r < Rows ==> g.board[0][r] == (if r < (j + 1) / 2 then P(t) else Empty))
    && (forall r :: 0 <= r < Rows ==> g.board[1][r] == (if r < j / 2 then P(-t) else Empty))
    && g.turn == (if j % 2 == 0 then t else -t)
  }

  /** The j-th click of the race, into column j % 2, leads to its next
      position. */
  lemma RaceStep(g: State, j: nat, t: int)
    requires j < 6
    requires t == 1 || t == -1
    requires Race(g, j, t)
    ensures Race(HandleDrop(g, j % 2), j + 1, t)
  {
    var c := j % 2;
    var k := if c == 0 then (j + 1) / 2 else j / 2;
    var col := g.board[c];
    assert col[k] == Empty;
    assert forall m :: 0 <= m < k ==> col[m] != Empty;
    assert IndexOf(col, Empty) == k;
    DropColumn(g, c);
    var h := HandleDrop(g, c);
    assert h.board[c] == col[k := P(g.turn)];
    assert h.board[1 - c] == g.board[1 - c];
  }

  /** The clicks of the race from its j-th position on: 0, 1, 0, ... up to
      the seventh click. */
  function RaceClicks(j: nat): (clicks: seq<int>)
    ensures |clicks| == if j <= 7 then 7 - j else 0
    ensures forall k :: 0 <= k < |clicks| ==> clicks[k] == (j + k) % 2
    decreases 7 - j
  {
    if j >= 7 then [] else [j % 2] + RaceClicks(j + 1)
  }

  /** The race's last click: the mover's fourth marker in column 0. */
  lemma RaceFinal(g: State, t: int)
    requires t == 1 || t == -1
    requires Race(g, 6, t)
    ensures RaceClicks(6) == [0]
    ensures Play(g, [0]).winner == Some(t)
  {
    assert RaceClicks(7) == [];
    FourthInColumnWins(g, 0);
    PlayStep(g, [0]);
  }

  /** Continuing the race from its j-th position, the seventh drop, the
      mover's fourth in column 0, wins for the mover. */
  lemma {:induction false} RaceWins(g: State, j: nat, t: int)
    requires j <= 6
    requires t == 1 || t == -1
    requires Race(g, j, t)
    ensures forall k :: 0 <= k < |RaceClicks(j)| ==> IsClick(RaceClicks(j)[k])
    ensures Play(g, RaceClicks(j)).winner == Some(t)
    decreases 6 - j
  {
    PlayStep(g, RaceClicks(j));
    if j == 6 {
      assert Play(g, RaceClicks(6)).winner == Some(t) by {
        RaceFinal(g, t);
      }
    } else {
      var h := HandleDrop(g, j % 2);
      assert Race(h, j + 1, t) by {
        RaceStep(g, j, t);
      }
      RaceWins(h, j + 1, t);
    }
  }

  /** From any position where columns 0 and 1 are empty, the clicks
      0, 1, 0, 1, 0, 1, 0 stack four of the mover's markers in column 0 and
      the seventh drop wins for the mover. */
  lemma VerticalScenario(g: State, clicks: seq<int>)
    requires WellFormed(g.board)
    requires g.turn == 1 || g.turn == -1
    requires forall r :: 0 <= r < Rows ==> g.board[0][r] == Empty && g.board[1][r] == Empty
    requires clicks == [0, 1, 0, 1, 0, 1, 0]
    ensures forall k :: 0 <= k < |clicks| ==> IsClick(clicks[k])
    ensures Play(g, clicks).winner == Some(g.turn)
  {
    assert clicks == RaceClicks(0);
    RaceWins(g, 0, g.turn);
  }
}
