/**
 * The list of boards the game keeps (`history`), the invariant that legal
 * play gives it, and the helpers that recover which square each move took
 * (`getDifferentElementIndex`, `getSquareClickedHistory`).
 */
module History {
  import opened Wrappers
  import opened Squares
  import opened Turn

  /**
   * A history produced by play: it starts from the empty board and every
   * board is the previous one after a legal move of the player whose turn
   * the previous board's index gives (X on even indices).
   */
  ghost predicate IsPlayedHistory(h: seq<Board>) {
    && |h| >= 1
    && h[0] == EMPTY_BOARD
    && forall k :: 0 <= k < |h| - 1 ==> IsMove(h[k], h[k + 1], Mark(k % 2 == 0))
  }

  /**
   * `handlePlay` after an accepted click: keeping the boards up to the
   * current one and appending the board the player to move produced gives
   * again a played history, one board longer than the kept prefix.
   */
  lemma PlayedHistoryExtend(h: seq<Board>, currentMove: nat, next: Board)
    requires IsPlayedHistory(h) && currentMove < |h|
    requires IsMove(h[currentMove], next, Mark(currentMove % 2 == 0))
    ensures IsPlayedHistory(h[..currentMove + 1] + [next])
  {
    var h' := h[..currentMove + 1] + [next];
    forall k | 0 <= k < |h'| - 1
      ensures IsMove(h'[k], h'[k + 1], Mark(k % 2 == 0))
    {
      if k < currentMove {
        assert h'[k] == h[k] && h'[k + 1] == h[k + 1];
      }
    }
  }

  /** The board at index `k` of a played history has exactly `k` filled squares. */
  lemma {:induction false} FilledAtMove(h: seq<Board>, k: nat)
    requires IsPlayedHistory(h) && k < |h|
    ensures CountFilled(h[k]) == k
  {
    if k > 0 {
      FilledAtMove(h, k - 1);
      assert IsMove(h[k - 1], h[k], Mark((k - 1) % 2 == 0));
      var i: Index :| h[k - 1][i] == Empty && h[k] == h[k - 1][i := Mark((k - 1) % 2 == 0)];
      CountFilledMark(h[k - 1], i, Mark((k - 1) % 2 == 0));
    }
  }

  /** A played history holds at most ten boards: nine moves fill the board. */
  lemma PlayedHistoryBounded(h: seq<Board>)
    requires IsPlayedHistory(h)
    ensures |h| <= 10
  {
    FilledAtMove(h, |h| - 1);
  }

  /** Every board of a played history but the last is unwon: play stops at a win. */
  lemma NoWinBeforeEnd(h: seq<Board>)
    requires IsPlayedHistory(h)
    ensures forall k :: 0 <= k < |h| - 1 ==> Winner(h[k]).None?
  {
    forall k | 0 <= k < |h| - 1
      ensures Winner(h[k]).None?
    {
      assert IsMove(h[k], h[k + 1], Mark(k % 2 == 0));
    }
  }

  /** The 1-based (row, column) pair the move list shows for a square. */
  datatype Coord = Coord(row: int, col: int)

  /** The square index a coordinate names. */
  function ToIndex(c: Coord): int {
    (c.row - 1) * 3 + (c.col - 1)
  }

  /**
   * The coordinate of a square index, by the row it lies in: row and column
   * are in 1..3, and the coordinate names that square back.
   */
  function ToCoord(i: Index): (c: Coord)
    ensures 1 <= c.row <= 3 && 1 <= c.col <= 3
    ensures ToIndex(c) == i
  {
    var row := if i < 3 then 0 else if i < 6 then 1 else 2;
    Coord(row + 1, i - 3 * row + 1)
  }

  /** Every coordinate with row and column in 1..3 is the coordinate of the square it names. */
  lemma CoordRoundTrip(c: Coord)
    requires 1 <= c.row <= 3 && 1 <= c.col <= 3
    ensures 0 <= ToIndex(c) < 9 && ToCoord(ToIndex(c)) == c
  {
  }

  /** The first index, from `k` on, where the two boards differ. */
  function FirstDiff(a: Board, b: Board, k: nat): (r: Option<Index>)
    ensures r.Some? ==> k <= r.value && a[r.value] != b[r.value]
    ensures r.Some? ==> forall j :: k <= j < r.value ==> a[j] == b[j]
    ensures r.None? <==> forall j :: k <= j < 9 ==> a[j] == b[j]
    decreases 9 - k
  {
    if k >= 9 then None
    else if a[k] != b[k] then Some(k)
    else FirstDiff(a, b, k + 1)
  }

  /** The coordinate of the first square where the boards differ; None when they are equal. */
  function DiffCoord(a: Board, b: Board): (r: Option<Coord>)
    ensures r.None? <==> a == b
    ensures r.Some? ==> 1 <= r.value.row <= 3 && 1 <= r.value.col <= 3
    ensures r.Some? ==>
      var i := ToIndex(r.value);
      0 <= i < 9 && a[i] != b[i] && forall j :: 0 <= j < i ==> a[j] == b[j]
  {
    match FirstDiff(a, b, 0)
    case None => None
    case Some(i) => Some(ToCoord(i))
  }

  /** `getDifferentElementIndex`: scans both boards and returns at the first differing square. */
  method GetDifferentElementIndex(arr1: Board, arr2: Board) returns (r: Option<Coord>)
    ensures r == DiffCoord(arr1, arr2)
  {
    for i := 0 to |arr1|
      invariant forall j :: 0 <= j < i ==> arr1[j] == arr2[j]
    {
      if arr1[i] != arr2[i] {
        assert FirstDiff(arr1, arr2, 0) == Some(i);
        assert Coord(i / 3 + 1, i % 3 + 1) == ToCoord(i);
        return Some(Coord(i / 3 + 1, i % 3 + 1));
      }
    }
    return None;
  }

  /** Marking one empty square makes that square the one the diff reports. */
  lemma DiffCoordOfMark(a: Board, i: Index, m: Cell)
    requires a[i] == Empty && m != Empty
    ensures DiffCoord(a, a[i := m]) == Some(ToCoord(i))
  {
    var d := FirstDiff(a, a[i := m], 0);
    assert a[i] != a[i := m][i];
    assert d == Some(i);
  }

  /** For each pair of consecutive boards, the coordinate of the square that differs. */
  function ClickedSquares(h: seq<Board>): (r: seq<Option<Coord>>)
    ensures |r| == if |h| == 0 then 0 else |h| - 1
  {
    seq(if |h| == 0 then 0 else |h| - 1, k requires 0 <= k < |h| - 1 => DiffCoord(h[k], h[k + 1]))
  }

  /** `getSquareClickedHistory`: one entry per consecutive pair of boards, in order. */
  method GetSquareClickedHistory(history: seq<Board>) returns (clicked: seq<Option<Coord>>)
    ensures clicked == ClickedSquares(history)
  {
    clicked := [];
    var n := if |history| == 0 then 0 else |history| - 1;
    var i := 0;
    while i < n
      invariant 0 <= i <= n
      invariant |clicked| == i
      invariant forall k :: 0 <= k < i ==> clicked[k] == DiffCoord(history[k], history[k + 1])
    {
      var square := GetDifferentElementIndex(history[i], history[i + 1]);
      clicked := clicked + [square];
      i := i + 1;
    }
    assert |clicked| == |ClickedSquares(history)|;
    assert forall k :: 0 <= k < n ==> clicked[k] == ClickedSquares(history)[k];
  }

  /**
   * In a played history, entry `k` of the clicked squares names the square
   * move `k + 1` took: empty before it, the mover's marker after it, and the
   * only square that changed.
   */
  lemma ClickedSquaresOfPlayed(h: seq<Board>, k: nat)
    requires IsPlayedHistory(h) && k < |h| - 1
    ensures ClickedSquares(h)[k].Some?
    ensures
      var i := ToIndex(ClickedSquares(h)[k].value);
      && 0 <= i < 9
      && h[k][i] == Empty
      && h[k + 1] == h[k][i := Mark(k % 2 == 0)]
  {
    var before, after, m := h[k], h[k + 1], Mark(k % 2 == 0);
    assert IsMove(before, after, m);
    var i: Index :| before[i] == Empty && after == before[i := m];
    DiffCoordOfMark(before, i, m);
    assert ClickedSquares(h)[k] == Some(ToCoord(i));
  }
}
