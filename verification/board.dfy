/** The Connect-Four board of js/main.js: seven columns of six cells each,
    stored column-major with row 0 at the bottom of each column. A cell is
    `null` (empty) or holds the number of the player who dropped there. */
module Board {

  /** `null` in the source, or a player's marker (the value of `turn`). */
  datatype Cell = Empty | P(player: int)

  const Cols: int := 7
  const Rows: int := 6

  /** `board[colIdx][rowIdx]`: a sequence of columns. */
  type Grid = seq<seq<Cell>>

  /** The shape `init` gives the board and nothing ever changes. */
  predicate WellFormed(b: Grid) {
    |b| == Cols && forall c :: 0 <= c < Cols ==> |b[c]| == Rows
  }

  predicate InBounds(c: int, r: int) {
    0 <= c < Cols && 0 <= r < Rows
  }

  /** The board literal of `init`: every cell of every column is `null`. */
  function EmptyGrid(): (b: Grid)
    ensures WellFormed(b)
    ensures forall c, r :: InBounds(c, r) ==> b[c][r] == Empty
  {
    seq(Cols, _ => seq(Rows, _ => Empty))
  }

  /** `Array.prototype.indexOf`: the first index holding `x`, or -1. */
  function IndexOf<T(==)>(s: seq<T>, x: T): (i: int)
    ensures i == -1 <==> x !in s
    ensures i != -1 ==> 0 <= i < |s| && s[i] == x
    ensures forall k :: 0 <= k < i ==> s[k] != x
  {
    IndexFrom(s, x, 0)
  }

  /** The scan of `indexOf` from position `from` onwards. */
  function IndexFrom<T(==)>(s: seq<T>, x: T, from: nat): (i: int)
    requires from <= |s|
    ensures i == -1 ==> forall k :: from <= k < |s| ==> s[k] != x
    ensures i != -1 ==> from <= i < |s| && s[i] == x
    ensures forall k :: from <= k < i ==> s[k] != x
    decreases |s| - from
  {
    if from == |s| then -1
    else if s[from] == x then from
    else IndexFrom(s, x, from + 1)
  }

  /** Assignment `colArr[rowIdx] = v` on column `c`. An index outside the
      column (the -1 of a full column) names no cell, so the cells are kept. */
  function Write(b: Grid, c: int, r: int, v: Cell): (b': Grid)
    requires WellFormed(b)
    requires 0 <= c < Cols
    ensures WellFormed(b')
    ensures 0 <= r < Rows ==> b'[c][r] == v
    ensures forall c', r' :: InBounds(c', r') && (c', r') != (c, r) ==> b'[c'][r'] == b[c'][r']
    ensures !(0 <= r < Rows) ==> b' == b
  {
    if 0 <= r < |b[c]| then b[c := b[c][r := v]] else b
  }

  /** Pieces stack from the bottom: no filled cell sits above an empty one. */
  predicate Stacked(col: seq<Cell>) {
    forall i, j :: 0 <= i < j < |col| && col[i] == Empty ==> col[j] == Empty
  }

  predicate AllStacked(b: Grid) {
    forall c :: 0 <= c < |b| ==> Stacked(b[c])
  }

  /** Number of filled cells in a column. */
  function Filled(col: seq<Cell>): (n: nat)
    ensures n <= |col|
  {
    if col == [] then 0
    else (if col[|col| - 1] == Empty then 0 else 1) + Filled(col[..|col| - 1])
  }

  /** In a stacked column the first empty row is the number of pieces
      already in it, and a column is full exactly when every cell is filled. */
  lemma {:induction false} FirstEmptyIsHeight(col: seq<Cell>)
    requires Stacked(col)
    ensures IndexOf(col, Empty) == -1 <==> Filled(col) == |col|
    ensures IndexOf(col, Empty) != -1 ==> IndexOf(col, Empty) == Filled(col)
  {
    if col != [] {
      var init := col[..|col| - 1];
      assert Stacked(init);
      FirstEmptyIsHeight(init);
      if Empty in init {
        assert col[|col| - 1] == Empty;
        assert IndexOf(col, Empty) == IndexOf(init, Empty);
      } else {
        assert forall k :: 0 <= k < |init| ==> col[k] != Empty;
      }
    }
  }
}
