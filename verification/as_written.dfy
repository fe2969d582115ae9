/** The win detector of js/main.js exactly as it stands. `countNumAdjacent`
    only shifts its copies of the indices and falls off its end, so it
    yields `undefined`; and `handleDrop` calls `getWinner()` without
    arguments. This module models those JavaScript values, shows that no
    check can then fire, and exhibits a game in which the corrected
    detector of module WinCheck reports a win that this one misses. */
module AsWritten {
  import opened Wrappers
  import opened Board
  import opened WinCheck
  import opened Game

  /** The JavaScript values the stub code computes with. */
  datatype JsValue = Undefined | NaN | Num(v: int)

  /** `a + b`: numbers add; `undefined` on either side gives `NaN`. */
  function Plus(a: JsValue, b: JsValue): (s: JsValue)
    ensures s.Num? <==> a.Num? && b.Num?
    ensures s.Num? ==> s.v == a.v + b.v
    ensures !(a.Num? && b.Num?) ==> s == NaN
  {
    if a.Num? && b.Num? then Num(a.v + b.v) else NaN
  }

  /** `a >= n`: false for `NaN` and `undefined`. */
  predicate AtLeast(a: JsValue, n: int) {
    a.Num? && a.v >= n
  }

  /** `a === n`: only the number n itself. */
  predicate StrictEquals(a: JsValue, n: int) {
    a == Num(n)
  }

  /** `countNumAdjacent` as written: it shifts its copies of the indices
      once and returns nothing, i.e. `undefined`. */
  function CountNumAdjacent(colIdx: JsValue, rowIdx: JsValue, dc: int, dr: int): (count: JsValue) {
    var c := Plus(colIdx, Num(dc));
    var r := Plus(rowIdx, Num(dr));
    Undefined
  }

  function CheckBackSlash(colIdx: JsValue, rowIdx: JsValue, t: int): (w: Option<int>) {
    var upLeft := CountNumAdjacent(colIdx, rowIdx, -1, 1);
    var downRight := CountNumAdjacent(colIdx, rowIdx, 1, -1);
    if AtLeast(Plus(upLeft, downRight), 3) then Some(t) else None
  }

  function CheckForwardSlash(colIdx: JsValue, rowIdx: JsValue, t: int): (w: Option<int>) {
    var upRight := CountNumAdjacent(colIdx, rowIdx, 1, 1);
    var downLeft := CountNumAdjacent(colIdx, rowIdx, -1, -1);
    if AtLeast(Plus(upRight, downLeft), 3) then Some(t) else None
  }

  function CheckVertical(colIdx: JsValue, rowIdx: JsValue, t: int): (w: Option<int>) {
    var below := CountNumAdjacent(colIdx, rowIdx, 0, -1);
    if StrictEquals(below, 3) then Some(t) else None
  }

  function CheckHorizontal(colIdx: JsValue, rowIdx: JsValue, t: int): (w: Option<int>) {
    var left := CountNumAdjacent(colIdx, rowIdx, -1, 0);
    var right := CountNumAdjacent(colIdx, rowIdx, 1, 0);
    if AtLeast(Plus(left, right), 3) then Some(t) else None
  }

  /** `getWinner(colIdx, rowIdx)` over the stub checks. */
  function GetWinner(colIdx: JsValue, rowIdx: JsValue, t: int): (w: Option<int>)
    ensures w == None
  {
    Or(CheckVertical(colIdx, rowIdx, t),
       Or(CheckHorizontal(colIdx, rowIdx, t),
          Or(CheckForwardSlash(colIdx, rowIdx, t), CheckBackSlash(colIdx, rowIdx, t))))
  }

  /** `handleDrop` as written: the board and `turn` are updated as in the
      corrected model, but `winner` comes from `getWinner()` called with no
      arguments. */
  function HandleDrop(g: State, colIdx: int): (g': State)
    requires WellFormed(g.board)
    requires IsClick(colIdx)
    ensures colIdx != -1 ==> g'.winner == None
    ensures g'.board == Game.HandleDrop(g, colIdx).board
    ensures g'.turn == Game.HandleDrop(g, colIdx).turn
  {
    if colIdx == -1 then g
    else
      var rowIdx := IndexOf(g.board[colIdx], Empty);
      var b := Write(g.board, colIdx, rowIdx, P(g.turn));
      State(b, -g.turn, GetWinner(Undefined, Undefined, g.turn))
  }

  /** `handleDrop` as written applied to a sequence of clicks. */
  function Play(g: State, clicks: seq<int>): (g': State)
    requires WellFormed(g.board)
    requires forall k :: 0 <= k < |clicks| ==> IsClick(clicks[k])
    decreases |clicks|
  {
    if clicks == [] then g
    else Play(HandleDrop(g, clicks[0]), clicks[1..])
  }

  /** Played as written, a game goes through the same boards and turns as
      the corrected model, but once any click has hit a column `winner` is null. */
  lemma {:induction false} PlayAgrees(g: State, clicks: seq<int>)
    requires WellFormed(g.board)
    requires forall k :: 0 <= k < |clicks| ==> IsClick(clicks[k])
    ensures Play(g, clicks).board == Game.Play(g, clicks).board
    ensures Play(g, clicks).turn == Game.Play(g, clicks).turn
    ensures Play(g, clicks).winner == (if Drops(clicks) > 0 then None else g.winner)
    decreases |clicks|
  {
    if clicks != [] {
      var c := clicks[0];
      var rest := clicks[1..];
      var h := HandleDrop(g, c);
      assert Play(g, clicks) == Play(h, rest);
      PlayStep(g, clicks);
      PlayAgrees(h, rest);
      if c != -1 {
        var h' := Game.HandleDrop(g, c);
        assert h == h'.(winner := None);
        PlayIgnoresWinner(h', None, rest);
      }
    }
  }

  /** Whatever the board, the code as written never reports a winner: each
      count is `undefined`, `undefined === 3` is false and `NaN >= 3` is
      false. */
  lemma NeverWins(colIdx: JsValue, rowIdx: JsValue, t: int)
    ensures forall dc, dr :: CountNumAdjacent(colIdx, rowIdx, dc, dr) == Undefined
    ensures Plus(Undefined, Undefined) == NaN
    ensures CheckVertical(colIdx, rowIdx, t) == None
    ensures CheckHorizontal(colIdx, rowIdx, t) == None
    ensures CheckForwardSlash(colIdx, rowIdx, t) == None
    ensures CheckBackSlash(colIdx, rowIdx, t) == None
  {
  }

  /** Player 1 stacks four markers in column 0 while player -1 plays column
      1: the corrected detector reports player 1 on the seventh drop, the
      code as written reports no winner. */
  lemma MissedVerticalWin(clicks: seq<int>)
    requires clicks == [0, 1, 0, 1, 0, 1, 0]
    ensures forall k :: 0 <= k < |clicks| ==> IsClick(clicks[k])
    ensures Game.Play(Init(), clicks).winner == Some(1)
    ensures Play(Init(), clicks).winner == None
  {
    VerticalScenario(Init(), clicks);
    PlayAgrees(Init(), clicks);
    assert clicks[0] != -1;
  }
}
