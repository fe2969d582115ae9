/** The win detector of js/main.js: four directional checks, each built on
    `countNumAdjacent`, the walk away from the just-filled cell that counts
    how many consecutive cells hold the mover's marker. */
module WinCheck {
  import opened Wrappers
  import opened Board

  /** (c, r) is on the board and holds player t's marker. */
  predicate Holds(b: Grid, c: int, r: int, t: int)
    requires WellFormed(b)
  {
    InBounds(c, r) && b[c][r] == P(t)
  }

  /** The k-th cell from (c, r) along (dc, dr) holds t; a negative k looks
      the opposite way. */
  predicate OnRay(b: Grid, c: int, r: int, dc: int, dr: int, t: int, k: int)
    requires WellFormed(b)
  {
    Holds(b, c + k * dc, r + k * dr, t)
  }

  /** The cells 1..n along (dc, dr) all hold t. */
  predicate Run(b: Grid, c: int, r: int, dc: int, dr: int, t: int, n: int)
    requires WellFormed(b)
  {
    forall k :: 1 <= k <= n ==> OnRay(b, c, r, dc, dr, t, k)
  }

  /** An offset pair that moves at all; a zero offset would walk forever. */
  predicate IsStep(dc: int, dr: int) {
    dc != 0 || dr != 0
  }

  /** How many more steps the walk can take before it leaves the board. */
  function Room(c: int, r: int, dc: int, dr: int): (room: int) {
    if dc > 0 then Cols - c
    else if dc < 0 then c + 1
    else if dr > 0 then Rows - r
    else r + 1
  }

  /** `countNumAdjacent(colIdx, rowIdx, colOffset, rowOffset)` as its comment
      describes it: step by the offsets while the position is on the board
      and holds `turn`, and return the number of steps. */
  function CountAdjacent(b: Grid, c: int, r: int, dc: int, dr: int, t: int): (n: nat)
    requires WellFormed(b)
    requires IsStep(dc, dr)
    decreases Room(c, r, dc, dr)
  {
    if Holds(b, c + dc, r + dr, t) then 1 + CountAdjacent(b, c + dc, r + dr, dc, dr, t)
    else 0
  }

  /** The count is the length of the maximal run of t's markers next to
      (c, r): the first n cells along the ray hold t and the next does not. */
  lemma {:induction false} CountIsMaximalRun(b: Grid, c: int, r: int, dc: int, dr: int, t: int)
    requires WellFormed(b)
    requires IsStep(dc, dr)
    ensures Run(b, c, r, dc, dr, t, CountAdjacent(b, c, r, dc, dr, t))
    ensures !OnRay(b, c, r, dc, dr, t, CountAdjacent(b, c, r, dc, dr, t) + 1)
    decreases Room(c, r, dc, dr)
  {
    if Holds(b, c + dc, r + dr, t) {
      var m := CountAdjacent(b, c + dc, r + dr, dc, dr, t);
      CountIsMaximalRun(b, c + dc, r + dr, dc, dr, t);
      ShiftRun(b, c, r, dc, dr, t, m);
      ShiftOne(b, c, r, dc, dr, t, m + 1);
    } else {
      ShiftOne(b, c, r, dc, dr, t, 0);
    }
  }

  /** Seen from the next cell along the ray, the ray is one shorter. */
  lemma ShiftOne(b: Grid, c: int, r: int, dc: int, dr: int, t: int, k: int)
    requires WellFormed(b)
    ensures OnRay(b, c + dc, r + dr, dc, dr, t, k) == OnRay(b, c, r, dc, dr, t, k + 1)
  {
    assert (k + 1) * dc == k * dc + dc;
    assert (k + 1) * dr == k * dr + dr;
  }

  /** A run of m from the next cell, with that cell itself, is a run of m + 1. */
  lemma ShiftRun(b: Grid, c: int, r: int, dc: int, dr: int, t: int, m: int)
    requires WellFormed(b)
    requires Holds(b, c + dc, r + dr, t)
    requires Run(b, c + dc, r + dr, dc, dr, t, m)
    ensures Run(b, c, r, dc, dr, t, m + 1)
  {
    forall k | 1 <= k <= m + 1
      ensures OnRay(b, c, r, dc, dr, t, k)
    {
      if k > 1 {
        ShiftOne(b, c, r, dc, dr, t, k - 1);
      }
    }
  }

  /** Walking the reversed offsets visits the negative half of the ray. */
  lemma ReverseOne(b: Grid, c: int, r: int, dc: int, dr: int, t: int, k: int)
    requires WellFormed(b)
    ensures OnRay(b, c, r, -dc, -dr, t, k) == OnRay(b, c, r, dc, dr, t, -k)
  {
    assert k * -dc == (-k) * dc;
    assert k * -dr == (-k) * dr;
  }

  /** The count reaches n exactly when the first n cells of the ray hold t. */
  lemma CountAtLeast(b: Grid, c: int, r: int, dc: int, dr: int, t: int, n: nat)
    requires WellFormed(b)
    requires IsStep(dc, dr)
    ensures CountAdjacent(b, c, r, dc, dr, t) >= n <==> Run(b, c, r, dc, dr, t, n)
  {
    var m := CountAdjacent(b, c, r, dc, dr, t);
    CountIsMaximalRun(b, c, r, dc, dr, t);
    if m < n {
      assert !OnRay(b, c, r, dc, dr, t, m + 1);
    }
  }

  /** Four consecutive positions on the line through (c, r) along (dc, dr),
      (c, r) among them, whose other three cells all hold t. With the
      just-dropped piece at (c, r) this is a line of four. */
  ghost predicate FourInLine(b: Grid, c: int, r: int, dc: int, dr: int, t: int)
    requires WellFormed(b)
  {
    exists s :: -3 <= s <= 0 && Window(b, c, r, dc, dr, t, s)
  }

  /** Every cell at offsets s..s+3 along the line, except offset 0, holds t. */
  ghost predicate Window(b: Grid, c: int, r: int, dc: int, dr: int, t: int, s: int)
    requires WellFormed(b)
  {
    forall k :: s <= k <= s + 3 && k != 0 ==> OnRay(b, c, r, dc, dr, t, k)
  }

  /** The test shared by `checkHorizontal`, `checkForwardSlash` and
      `checkBackSlash`: the counts in the two opposite directions add up to
      at least 3. */
  function PairCheck(b: Grid, c: int, r: int, dc: int, dr: int, t: int): (w: Option<int>)
    requires WellFormed(b)
    requires IsStep(dc, dr)
    ensures w == None || w == Some(t)
  {
    if CountAdjacent(b, c, r, dc, dr, t) + CountAdjacent(b, c, r, -dc, -dr, t) >= 3
    then Some(t) else None
  }

  /** A two-sided check fires exactly when the line through (c, r) has a
      window of four with the three other cells held by the mover. */
  lemma {:induction false} PairCheckIffFourInLine(b: Grid, c: int, r: int, dc: int, dr: int, t: int)
    requires WellFormed(b)
    requires IsStep(dc, dr)
    ensures PairCheck(b, c, r, dc, dr, t) == Some(t) <==> FourInLine(b, c, r, dc, dr, t)
  {
    var fwd := CountAdjacent(b, c, r, dc, dr, t);
    var back := CountAdjacent(b, c, r, -dc, -dr, t);
    if fwd + back >= 3 {
      CountIsMaximalRun(b, c, r, dc, dr, t);
      CountIsMaximalRun(b, c, r, -dc, -dr, t);
      var s := if back >= 3 then -3 else -(back as int);
      forall k | s <= k <= s + 3 && k != 0
        ensures OnRay(b, c, r, dc, dr, t, k)
      {
        if k < 0 {
          ReverseOne(b, c, r, dc, dr, t, -k);
        }
      }
      assert Window(b, c, r, dc, dr, t, s);
    }
    if FourInLine(b, c, r, dc, dr, t) {
      var s :| -3 <= s <= 0 && Window(b, c, r, dc, dr, t, s);
      assert Run(b, c, r, dc, dr, t, s + 3);
      CountAtLeast(b, c, r, dc, dr, t, s + 3);
      var bc, br := -dc, -dr;
      forall k | 1 <= k <= -s
        ensures OnRay(b, c, r, bc, br, t, k)
      {
        ReverseOne(b, c, r, dc, dr, t, k);
      }
      CountAtLeast(b, c, r, bc, br, t, -s);
    }
  }

  /** `checkBackSlash`: up-left (-1, +1) plus down-right (+1, -1). */
  function CheckBackSlash(b: Grid, c: int, r: int, t: int): (w: Option<int>)
    requires WellFormed(b)
    ensures w == None || w == Some(t)
  {
    PairCheck(b, c, r, -1, 1, t)
  }

  /** `checkForwardSlash`: up-right (+1, +1) plus down-left (-1, -1). */
  function CheckForwardSlash(b: Grid, c: int, r: int, t: int): (w: Option<int>)
    requires WellFormed(b)
    ensures w == None || w == Some(t)
  {
    PairCheck(b, c, r, 1, 1, t)
  }

  /** `checkHorizontal`: left (-1, 0) plus right (+1, 0). */
  function CheckHorizontal(b: Grid, c: int, r: int, t: int): (w: Option<int>)
    requires WellFormed(b)
    ensures w == None || w == Some(t)
  {
    PairCheck(b, c, r, -1, 0, t)
  }

  /** `checkVertical`: only downwards, and the count must be exactly 3. */
  function CheckVertical(b: Grid, c: int, r: int, t: int): (w: Option<int>)
    requires WellFormed(b)
    ensures w == None || w == Some(t)
  {
    if CountAdjacent(b, c, r, 0, -1, t) == 3 then Some(t) else None
  }

  /** The vertical check fires exactly when the three cells below hold t and
      the fourth below does not: a fifth marker on top of four is no win. */
  lemma VerticalIff(b: Grid, c: int, r: int, t: int)
    requires WellFormed(b)
    ensures CheckVertical(b, c, r, t) == Some(t) <==>
              Run(b, c, r, 0, -1, t, 3) && !OnRay(b, c, r, 0, -1, t, 4)
  {
    CountAtLeast(b, c, r, 0, -1, t, 3);
    CountAtLeast(b, c, r, 0, -1, t, 4);
  }

  /** JavaScript's `a || b` on `null` or a number: `a` when it is truthy
      (present and non-zero), `b` otherwise. */
  function Or(a: Option<int>, b: Option<int>): (w: Option<int>)
    ensures a.Some? && a.value != 0 ==> w == a
    ensures !(a.Some? && a.value != 0) ==> w == b
  {
    if a.Some? && a.value != 0 then a else b
  }

  /** `||` is associative, so the way a chain of `||` is grouped does not
      change its value. */
  lemma OrAssoc(a: Option<int>, b: Option<int>, c: Option<int>)
    ensures Or(Or(a, b), c) == Or(a, Or(b, c))
  {
  }

  /** On the values a check yields (`null` or a non-zero `turn`), `a || b`
      is non-null exactly when one of its operands is, and it is then `turn`. */
  lemma OrFiresIff(a: Option<int>, b: Option<int>, t: int)
    requires t != 0
    requires a == None || a == Some(t)
    requires b == None || b == Some(t)
    ensures Or(a, b).Some? <==> a.Some? || b.Some?
    ensures Or(a, b) == None || Or(a, b) == Some(t)
  {
  }

  /** `getWinner(colIdx, rowIdx)`: the four checks chained with `||`. */
  function GetWinner(b: Grid, c: int, r: int, t: int): (w: Option<int>)
    requires WellFormed(b)
  {
    Or(CheckVertical(b, c, r, t),
       Or(CheckHorizontal(b, c, r, t),
          Or(CheckForwardSlash(b, c, r, t), CheckBackSlash(b, c, r, t))))
  }

  /** JavaScript groups `v || h || f || s` to the left; the right-nested
      chain of GetWinner has the same value. */
  lemma GetWinnerAsParsed(b: Grid, c: int, r: int, t: int)
    requires WellFormed(b)
    ensures GetWinner(b, c, r, t) ==
              Or(Or(Or(CheckVertical(b, c, r, t), CheckHorizontal(b, c, r, t)),
                    CheckForwardSlash(b, c, r, t)),
                 CheckBackSlash(b, c, r, t))
  {
    var v, h := CheckVertical(b, c, r, t), CheckHorizontal(b, c, r, t);
    var f, s := CheckForwardSlash(b, c, r, t), CheckBackSlash(b, c, r, t);
    OrAssoc(Or(v, h), f, s);
    OrAssoc(v, h, Or(f, s));
  }

  /** For a non-zero turn the winner is non-null exactly when one of the four
      checks is, and it is then the mover's `turn`. */
  lemma GetWinnerIff(b: Grid, c: int, r: int, t: int)
    requires WellFormed(b)
    requires t != 0
    ensures GetWinner(b, c, r, t).Some? <==>
              CheckVertical(b, c, r, t).Some? || CheckHorizontal(b, c, r, t).Some? ||
              CheckForwardSlash(b, c, r, t).Some? || CheckBackSlash(b, c, r, t).Some?
    ensures GetWinner(b, c, r, t) == None || GetWinner(b, c, r, t) == Some(t)
  {
  }

  /** The winner stated without the counting walk: a line of four through
      (c, r) in one of the two diagonals or the row, or exactly three of t's
      markers straight below. */
  lemma {:induction false} GetWinnerMeansLine(b: Grid, c: int, r: int, t: int)
    requires WellFormed(b)
    requires t != 0
    ensures GetWinner(b, c, r, t) == Some(t) <==>
              (Run(b, c, r, 0, -1, t, 3) && !OnRay(b, c, r, 0, -1, t, 4))
              || FourInLine(b, c, r, -1, 0, t)
              || FourInLine(b, c, r, 1, 1, t)
              || FourInLine(b, c, r, -1, 1, t)
  {
    VerticalIff(b, c, r, t);
    PairCheckIffFourInLine(b, c, r, -1, 0, t);
    PairCheckIffFourInLine(b, c, r, 1, 1, t);
    PairCheckIffFourInLine(b, c, r, -1, 1, t);
  }
}
