/**
 * One turn on the board: the click handler of the board component
 * (`handleClick`) and the status line it shows above the grid.
 */
module Turn {
  import opened Wrappers
  import opened Squares

  /** The marker the next player writes: X when `xIsNext`, O otherwise. */
  function Mark(xIsNext: bool): (m: Cell)
    ensures m != Empty
  {
    if xIsNext then X else O
  }

  /** `after` is `before` with one empty square of a board nobody has won set to `m`. */
  ghost predicate IsMove(before: Board, after: Board, m: Cell) {
    && Winner(before).None?
    && exists i: Index :: before[i] == Empty && after == before[i := m]
  }

  /**
   * `handleClick(i)`: None when the click is ignored (the square is taken or
   * the board is already won), otherwise the copy of the board with square
   * `i` set to the marker of the player to move.
   */
  function Play(squares: Board, i: Index, xIsNext: bool): (r: Option<Board>)
    ensures r.None? <==> squares[i] != Empty || Winner(squares).Some?
    ensures r.Some? ==> IsMove(squares, r.value, Mark(xIsNext))
    ensures r.Some? ==> r.value[i] == Mark(xIsNext) && forall j :: 0 <= j < 9 && j != i ==> r.value[j] == squares[j]
  {
    if squares[i] != Empty || Winner(squares).Some? then None
    else Some(squares[i := Mark(xIsNext)])
  }

  /** What the status line says. */
  datatype Status = WinnerIs(winner: Cell) | GameDrawn | NextPlayer(player: Cell)

  /**
   * The status line of the board component, given the board shown, whose
   * turn it is and the number of moves the board was told were played.
   */
  function StatusOf(squares: Board, xIsNext: bool, numMoves: int): (s: Status)
    ensures s.WinnerIs? <==> Winner(squares).Some?
    ensures s.WinnerIs? ==> ThreeInARow(squares, s.winner) && s.winner == Winner(squares).value.winner
    ensures s.GameDrawn? <==> Winner(squares).None? && numMoves == 9
    ensures s.NextPlayer? ==> s.player == Mark(xIsNext) && !(exists m :: ThreeInARow(squares, m))
  {
    WinnerIffThreeInARow(squares);
    match Winner(squares)
    case Some(w) => WinnerIs(w.winner)
    case None => if numMoves == 9 then GameDrawn else NextPlayer(Mark(xIsNext))
  }

  /**
   * The board component's status selection: it runs the win evaluator on
   * the board shown, then checks the move count, then names the next player.
   */
  method BoardStatus(squares: Board, xIsNext: bool, numMoves: int) returns (status: Status)
    ensures status == StatusOf(squares, xIsNext, numMoves)
  {
    var result := CalculateWinner(squares);
    if result.Some? {
      status := WinnerIs(result.value.winner);
    } else if numMoves == 9 {
      status := GameDrawn;
    } else {
      status := NextPlayer(if xIsNext then X else O);
    }
  }
}
