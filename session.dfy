/**
 * The game component (`Game`): it owns the history of boards, the index of
 * the board shown, and the order of the move list, and it changes them in
 * response to one click at a time.
 */
module Session {
  import opened Wrappers
  import opened Squares
  import opened Turn
  import opened History
  import opened MoveList

  class Game {
    var history: seq<Board>
    var currentMove: nat
    var ascendingOrder: bool

    /** The index of the board shown lies inside the history. */
    ghost predicate Valid()
      reads this
    {
      currentMove < |history|
    }

    /** Every board of the history came from the previous one by a legal move. */
    ghost predicate Played()
      reads this
    {
      IsPlayedHistory(history)
    }

    /** A new game: one empty board, shown, with the move list ascending. */
    constructor ()
      ensures Valid() && Played()
      ensures history == [EMPTY_BOARD] && currentMove == 0 && ascendingOrder
    {
      history := [EMPTY_BOARD];
      currentMove := 0;
      ascendingOrder := true;
    }

    /**
     * The board shown (`currentSquares`). In a played game it has as many
     * filled squares as its index in the history.
     */
    function CurrentSquares(): (b: Board)
      reads this
      requires Valid()
      ensures Played() ==> CountFilled(b) == currentMove
    {
      FilledAtMoveShown(history, currentMove);
      history[currentMove]
    }

    /**
     * X moves when the index of the board shown is even (`xIsNext`). In a
     * played game that is exactly when the board shown has an even number of
     * filled squares.
     */
    function XIsNext(): (x: bool)
      reads this
      ensures Valid() && Played() ==> (x <==> CountFilled(history[currentMove]) % 2 == 0)
    {
      FilledAtMoveShown(history, currentMove);
      currentMove % 2 == 0
    }

    /**
     * `handlePlay`: drops the boards after the one shown, appends the new
     * board and shows it.
     */
    method HandlePlay(nextSquares: Board)
      requires Valid()
      modifies this
      ensures Valid()
      ensures history == old(history)[..old(currentMove) + 1] + [nextSquares]
      ensures currentMove == old(currentMove) + 1 == |history| - 1
      ensures ascendingOrder == old(ascendingOrder)
    {
      var nextHistory := history[..currentMove + 1] + [nextSquares];
      history := nextHistory;
      currentMove := |nextHistory| - 1;
    }

    /** `jumpTo`: shows another board of the history and changes nothing else. */
    method JumpTo(nextMove: nat)
      requires Valid() && nextMove < |history|
      modifies this`currentMove
      ensures Valid()
      ensures currentMove == nextMove
      ensures history == old(history) && ascendingOrder == old(ascendingOrder)
    {
      currentMove := nextMove;
    }

    /** `toggleAscendingOrder`: flips the order of the move list and changes nothing else. */
    method ToggleAscendingOrder()
      modifies this`ascendingOrder
      ensures ascendingOrder == !old(ascendingOrder)
      ensures history == old(history) && currentMove == old(currentMove)
    {
      ascendingOrder := !ascendingOrder;
    }

    /**
     * A click on square `i` of the board shown (`handleClick` passing
     * `handlePlay` as `onPlay`). A click on a taken square or on a won board
     * changes nothing; any other click writes the marker of the player to
     * move on that square, drops the boards after the one shown and shows the
     * new board. Either way the history stays a played history.
     */
    method HandleClick(i: Index)
      requires Valid() && Played()
      modifies this
      ensures Valid() && Played()
      ensures ascendingOrder == old(ascendingOrder)
      ensures old(CurrentSquares()[i] != Empty || Winner(CurrentSquares()).Some?) ==>
        history == old(history) && currentMove == old(currentMove)
      ensures old(CurrentSquares()[i] == Empty && Winner(CurrentSquares()).None?) ==>
        && history == old(history[..currentMove + 1]) + [old(CurrentSquares()[i := Mark(XIsNext())])]
        && currentMove == old(currentMove) + 1
    {
      match Play(history[currentMove], i, XIsNext())
      case None =>
      case Some(nextSquares) =>
        PlayedHistoryExtend(history, currentMove, nextSquares);
        HandlePlay(nextSquares);
    }

    /**
     * What the game shows: the status line of the board shown, with the
     * history length minus one as the move count, and the move list in the
     * chosen order.
     */
    method View() returns (status: Status, moves: array<MoveEntry>)
      requires Valid()
      ensures fresh(moves)
      ensures status == StatusOf(CurrentSquares(), XIsNext(), |history| - 1)
      ensures moves[..] == Displayed(ClickedSquares(history), ascendingOrder)
    {
      var clicked := GetSquareClickedHistory(history);
      moves := RenderMoves(clicked, ascendingOrder);
      status := BoardStatus(history[currentMove], XIsNext(), moves.Length - 1);
    }
  }

  /** FilledAtMove, stated for any index and history. */
  lemma FilledAtMoveShown(h: seq<Board>, k: nat)
    ensures IsPlayedHistory(h) && k < |h| ==> CountFilled(h[k]) == k
  {
    if IsPlayedHistory(h) && k < |h| {
      FilledAtMove(h, k);
    }
  }

  /**
   * A full board nobody won is reported as a draw: in a played history a
   * full board can only be the tenth, so the move count is nine.
   */
  lemma FullBoardIsDrawn(h: seq<Board>, currentMove: nat)
    requires IsPlayedHistory(h) && currentMove < |h|
    requires CountFilled(h[currentMove]) == 9 && Winner(h[currentMove]).None?
    ensures StatusOf(h[currentMove], currentMove % 2 == 0, |h| - 1) == GameDrawn
  {
    FilledAtMove(h, currentMove);
    PlayedHistoryBounded(h);
  }

  /**
   * The draw test looks at the length of the history, not at the board
   * shown: after nine moves, jumping back to an earlier board shows
   * "game drawn" although that board still has an empty square that a click
   * would fill.
   */
  lemma DrawnWhileSquaresFree(h: seq<Board>, currentMove: nat) returns (i: Index)
    requires IsPlayedHistory(h) && |h| == 10 && currentMove < 9
    ensures StatusOf(h[currentMove], currentMove % 2 == 0, |h| - 1) == GameDrawn
    ensures Play(h[currentMove], i, currentMove % 2 == 0).Some?
  {
    NoWinBeforeEnd(h);
    FilledAtMove(h, currentMove);
    var j := NotFullHasEmpty(h[currentMove]);
    i := j;
  }

  /**
   * X takes 0, 3 and 6 while O takes 1 and 4: X wins on the left column,
   * which the status line reports and the board highlights.
   */
  lemma ColumnWinExample()
    ensures
      var board := [X, O, Empty, X, O, Empty, X, Empty, Empty];
      && Winner(board) == Some(WinResult(X, Line(0, 3, 6)))
      && StatusOf(board, false, 5) == WinnerIs(X)
      && WinningSquares(board) == {0, 3, 6}
  {
    var board := [X, O, Empty, X, O, Empty, X, Empty, Empty];
    assert Completes(board, LINES[3]);
  }

  /**
   * X takes 0, 1, 5, 6 and 8 while O takes 2, 3, 4 and 7: the board is full,
   * nobody has three in a row, and the status line reads "game drawn".
   */
  lemma DrawExample()
    ensures
      var board := [X, X, O, O, O, X, X, O, X];
      && Winner(board) == None
      && StatusOf(board, false, 9) == GameDrawn
  {
  }
}
