/**
 * The 3x3 board and the win evaluator (`calculateWinner`).
 *
 * A board is the row-major array of nine squares; a square is empty or holds
 * the marker of one of the two players.
 */
module Squares {
  import opened Wrappers

  datatype Cell = Empty | X | O

  /** A square index, 0..8, row-major. */
  type Index = i: nat | i < 9

  type Board = s: seq<Cell> | |s| == 9
    witness [Empty, Empty, Empty, Empty, Empty, Empty, Empty, Empty, Empty]

  /** The board a game starts from: nine empty squares. */
  const EMPTY_BOARD: Board := [Empty, Empty, Empty, Empty, Empty, Empty, Empty, Empty, Empty]

  /** The square in row `row` and column `col`, both 0-based. */
  function At(squares: Board, row: nat, col: nat): Cell
    requires row < 3 && col < 3
  {
    squares[3 * row + col]
  }

  /** Three square indices that win when they hold the same marker. */
  datatype Line = Line(a: Index, b: Index, c: Index)

  /** The eight lines, in the order they are tried: rows, columns, diagonals. */
  const LINES: seq<Line> := [
    Line(0, 1, 2), Line(3, 4, 5), Line(6, 7, 8),
    Line(0, 3, 6), Line(1, 4, 7), Line(2, 5, 8),
    Line(0, 4, 8), Line(2, 4, 6)
  ]

  /** The result of a won board: the winning marker and the line it fills. */
  datatype WinResult = WinResult(winner: Cell, winningSquares: Line)

  /** The line is filled with one non-empty marker. */
  predicate Completes(squares: Board, line: Line) {
    squares[line.a] != Empty && squares[line.a] == squares[line.b] && squares[line.a] == squares[line.c]
  }

  /** The position in LINES, from `k` on, of the first line the board completes. */
  function FirstLine(squares: Board, k: nat): (r: Option<nat>)
    ensures r.Some? ==> k <= r.value < |LINES| && Completes(squares, LINES[r.value])
    ensures r.Some? ==> forall j :: k <= j < r.value ==> !Completes(squares, LINES[j])
    ensures r.None? <==> forall j :: k <= j < |LINES| ==> !Completes(squares, LINES[j])
    decreases |LINES| - k
  {
    if k >= |LINES| then None
    else if Completes(squares, LINES[k]) then Some(k)
    else FirstLine(squares, k + 1)
  }

  /**
   * The win evaluator: the first completed line, in the order of LINES, with
   * its marker; None when no line is completed.
   */
  function Winner(squares: Board): (r: Option<WinResult>)
    ensures r.None? <==> forall k :: 0 <= k < |LINES| ==> !Completes(squares, LINES[k])
    ensures r.Some? ==>
      var w := r.value.winningSquares;
      && r.value.winner != Empty
      && squares[w.a] == r.value.winner && squares[w.b] == r.value.winner && squares[w.c] == r.value.winner
    ensures r.Some? ==> FirstLine(squares, 0).Some? && r.value.winningSquares == LINES[FirstLine(squares, 0).value]
  {
    match FirstLine(squares, 0)
    case None => None
    case Some(k) => Some(WinResult(squares[LINES[k].a], LINES[k]))
  }

  /** `calculateWinner`: scans LINES in order and returns at the first completed one. */
  method CalculateWinner(squares: Board) returns (r: Option<WinResult>)
    ensures r == Winner(squares)
  {
    for i := 0 to |LINES|
      invariant forall j :: 0 <= j < i ==> !Completes(squares, LINES[j])
    {
      var line := LINES[i];
      if squares[line.a] != Empty && squares[line.a] == squares[line.b] && squares[line.a] == squares[line.c] {
        return Some(WinResult(squares[line.a], line));
      }
    }
    return None;
  }

  /** Squares a won board highlights: the three squares of the reported line. */
  function WinningSquares(squares: Board): (s: set<Index>)
    ensures Winner(squares).None? ==> s == {}
    ensures Winner(squares).Some? ==> |s| == 3 && forall i :: i in s ==> squares[i] == Winner(squares).value.winner
    ensures Winner(squares).Some? ==> var w := Winner(squares).value.winningSquares; s == {w.a, w.b, w.c}
  {
    match Winner(squares)
    case None => {}
    case Some(w) => {w.winningSquares.a, w.winningSquares.b, w.winningSquares.c}
  }

  /**
   * A reference statement of "marker `m` has three in a row", written over
   * rows and columns rather than over the table LINES.
   */
  predicate ThreeInARow(squares: Board, m: Cell) {
    && m != Empty
    && (|| (exists row :: 0 <= row < 3 && At(squares, row, 0) == m && At(squares, row, 1) == m && At(squares, row, 2) == m)
        || (exists col :: 0 <= col < 3 && At(squares, 0, col) == m && At(squares, 1, col) == m && At(squares, 2, col) == m)
        || (At(squares, 0, 0) == m && At(squares, 1, 1) == m && At(squares, 2, 2) == m)
        || (At(squares, 0, 2) == m && At(squares, 1, 1) == m && At(squares, 2, 0) == m))
  }

  /** The marker the win evaluator names has three in a row. */
  lemma WinnerHasThreeInARow(squares: Board)
    requires Winner(squares).Some?
    ensures ThreeInARow(squares, Winner(squares).value.winner)
  {
    var k := FirstLine(squares, 0).value;
    var m := Winner(squares).value.winner;
    if k < 3 {
      assert At(squares, k, 0) == m && At(squares, k, 1) == m && At(squares, k, 2) == m;
    } else if k < 6 {
      assert At(squares, 0, k - 3) == m && At(squares, 1, k - 3) == m && At(squares, 2, k - 3) == m;
    }
  }

  /** A marker with three in a row makes the win evaluator report a result. */
  lemma ThreeInARowIsWon(squares: Board, m: Cell)
    requires ThreeInARow(squares, m)
    ensures Winner(squares).Some?
  {
    if row :| 0 <= row < 3 && At(squares, row, 0) == m && At(squares, row, 1) == m && At(squares, row, 2) == m {
      assert Completes(squares, LINES[row]);
    } else if col :| 0 <= col < 3 && At(squares, 0, col) == m && At(squares, 1, col) == m && At(squares, 2, col) == m {
      assert Completes(squares, LINES[3 + col]);
    } else if At(squares, 0, 0) == m && At(squares, 1, 1) == m && At(squares, 2, 2) == m {
      assert Completes(squares, LINES[6]);
    } else {
      assert Completes(squares, LINES[7]);
    }
  }

  /** The win evaluator reports a result exactly when some marker has three in a row, and names such a marker. */
  lemma WinnerIffThreeInARow(squares: Board)
    ensures Winner(squares).Some? ==> ThreeInARow(squares, Winner(squares).value.winner)
    ensures (exists m :: ThreeInARow(squares, m)) ==> Winner(squares).Some?
  {
    if Winner(squares).Some? {
      WinnerHasThreeInARow(squares);
    }
    if m :| ThreeInARow(squares, m) {
      ThreeInARowIsWon(squares, m);
    }
  }

  /** The number of non-empty squares. */
  function CountFilled(s: seq<Cell>): (n: nat)
    ensures n <= |s|
    ensures n == 0 <==> forall i :: 0 <= i < |s| ==> s[i] == Empty
  {
    if s == [] then 0 else (if s[0] == Empty then 0 else 1) + CountFilled(s[1..])
  }

  /** Writing a marker on an empty square fills exactly one more square. */
  lemma {:induction false} CountFilledMark(s: seq<Cell>, i: nat, m: Cell)
    requires i < |s| && s[i] == Empty && m != Empty
    ensures CountFilled(s[i := m]) == CountFilled(s) + 1
  {
    if i > 0 {
      CountFilledMark(s[1..], i - 1, m);
      assert s[i := m][1..] == s[1..][i - 1 := m];
    }
  }

  /** A board with fewer than nine filled squares has an empty square. */
  lemma {:induction false} NotFullHasEmpty(s: seq<Cell>) returns (i: nat)
    requires CountFilled(s) < |s|
    ensures i < |s| && s[i] == Empty
  {
    if s[0] == Empty {
      i := 0;
    } else {
      var j := NotFullHasEmpty(s[1..]);
      i := j + 1;
    }
  }
}
