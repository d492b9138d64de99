/**
 * The move list beside the board: one entry per board of the history,
 * labelled with the move number and the square it took, listed in history
 * order or reversed in place when the order is descending.
 */
module MoveList {
  import opened Wrappers
  import opened History

  /** The text of an entry, without its formatting. */
  datatype Description =
    | GoToGameStart
    | YouAreAtMove(move: nat, square: Option<Coord>)
    | GoToMove(move: nat, square: Option<Coord>)

  /**
   * An entry: the move it stands for (its key, and what clicking it jumps
   * to), its text, and whether it is shown as bold text instead of a button.
   */
  datatype MoveEntry = MoveEntry(move: nat, description: Description, bold: bool)

  /**
   * The entry of move `move` in a history of `|clicked| + 1` boards, where
   * `clicked[k]` is the square move `k + 1` took. The last entry of the
   * history is the bold one, whatever board is shown.
   */
  function Describe(move: nat, clicked: seq<Option<Coord>>): (e: MoveEntry)
    requires move <= |clicked|
    ensures e.move == move
    ensures e.bold <==> move == |clicked|
    ensures e.description.GoToGameStart? <==> move == 0
    ensures move > 0 ==> e.description.move == move && e.description.square == clicked[move - 1]
    ensures move > 0 ==> (e.description.YouAreAtMove? <==> e.bold)
  {
    var last := |clicked|;
    var description :=
      if move == 0 then GoToGameStart
      else if move == last then YouAreAtMove(move, clicked[move - 1])
      else GoToMove(move, clicked[move - 1]);
    MoveEntry(move, description, move == last)
  }

  /** `history.map(...)`: the entries in history order. */
  function MoveEntries(clicked: seq<Option<Coord>>): (r: seq<MoveEntry>)
    ensures |r| == |clicked| + 1
    ensures forall move :: 0 <= move < |r| ==> r[move].move == move
    ensures forall move :: 0 <= move < |r| ==> (r[move].bold <==> move == |clicked|)
    ensures r[0].description == GoToGameStart
    ensures forall move :: 0 < move < |r| ==>
      && !r[move].description.GoToGameStart?
      && r[move].description.move == move
      && r[move].description.square == clicked[move - 1]
      && (r[move].description.YouAreAtMove? <==> r[move].bold)
  {
    seq(|clicked| + 1, move requires 0 <= move <= |clicked| => Describe(move, clicked))
  }

  /** The sequence read back to front. */
  function Reversed<T>(s: seq<T>): (r: seq<T>)
    ensures |r| == |s|
    ensures forall k :: 0 <= k < |s| ==> r[k] == s[|s| - 1 - k]
    ensures multiset(r) == multiset(s)
  {
    if s == [] then []
    else
      var init := s[..|s| - 1];
      assert s == init + [s[|s| - 1]];
      [s[|s| - 1]] + Reversed(init)
  }

  /** Reading a sequence back to front twice gives it back. */
  lemma ReversedTwice<T>(s: seq<T>)
    ensures Reversed(Reversed(s)) == s
  {
    var r := Reversed(Reversed(s));
    assert forall k :: 0 <= k < |s| ==> r[k] == s[k];
  }

  /** `moves.reverse()`: reverses the array in place. */
  method ReverseInPlace<T>(a: array<T>)
    modifies a
    ensures a[..] == Reversed(old(a[..]))
  {
    var lo, hi := 0, a.Length - 1;
    while lo < hi
      invariant 0 <= lo <= hi + 1 && lo + hi == a.Length - 1
      invariant forall k :: 0 <= k < lo ==> a[k] == old(a[a.Length - 1 - k])
      invariant forall k :: hi < k < a.Length ==> a[k] == old(a[a.Length - 1 - k])
      invariant forall k :: lo <= k <= hi ==> a[k] == old(a[k])
    {
      a[lo], a[hi] := a[hi], a[lo];
      lo, hi := lo + 1, hi - 1;
    }
    assert forall k :: 0 <= k < a.Length ==> a[..][k] == Reversed(old(a[..]))[k];
  }

  /** The list as displayed: history order when ascending, reversed otherwise. */
  function Displayed(clicked: seq<Option<Coord>>, ascending: bool): seq<MoveEntry> {
    if ascending then MoveEntries(clicked) else Reversed(MoveEntries(clicked))
  }

  /**
   * Builds the entries in history order into a new array and reverses it in
   * place when the order is descending.
   */
  method RenderMoves(clicked: seq<Option<Coord>>, ascending: bool) returns (moves: array<MoveEntry>)
    ensures fresh(moves)
    ensures moves[..] == Displayed(clicked, ascending)
  {
    var entries := MoveEntries(clicked);
    moves := new MoveEntry[|entries|](k requires 0 <= k < |entries| => entries[k]);
    assert moves[..] == entries;
    if !ascending {
      ReverseInPlace(moves);
    }
  }

  /**
   * Reversal is only presentation: the entry at display position `p` stands
   * for move `p` in ascending order and for move `|clicked| - p` in
   * descending order, and both orders list the same entries.
   */
  lemma DisplayKeepsMoveIndex(clicked: seq<Option<Coord>>, ascending: bool, p: nat)
    requires p <= |clicked|
    ensures |Displayed(clicked, ascending)| == |clicked| + 1
    ensures Displayed(clicked, ascending)[p].move == if ascending then p else |clicked| - p
    ensures multiset(Displayed(clicked, ascending)) == multiset(MoveEntries(clicked))
  {
  }

  /** Switching the order twice shows the list as it was. */
  lemma ToggleTwiceRestores(clicked: seq<Option<Coord>>, ascending: bool)
    ensures Displayed(clicked, ascending) == Reversed(Displayed(clicked, !ascending))
    ensures Displayed(clicked, !ascending) == Reversed(Displayed(clicked, ascending))
  {
    ReversedTwice(MoveEntries(clicked));
  }
}
