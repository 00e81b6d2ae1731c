/**
  The component's one-ply opponent (`getAIMove`). Cells are scanned in
  ascending order; at each empty cell the win for O and the block of X are
  tried one after the other, so the first cell where either succeeds is
  chosen. When no cell qualifies the lowest empty cell is taken, or -1 on a
  full board.
*/
module Ai {
  import opened Rules

  /** With m written into cell i, `checkWinner` yields m. */
  predicate WinsFor(b: Board, i: Index, m: Mark) {
    Winner(Place(b, i, m)) == Some(m)
  }

  /**
    On a board where neither mark holds a line, `checkWinner` yields m after
    m is written into cell i exactly when that completes a line for m.
  */
  lemma WinsForIffLine(b: Board, i: Index, m: Mark)
    requires !HasLine(b, X) && !HasLine(b, O)
    ensures WinsFor(b, i, m) <==> HasLine(Place(b, i, m), m)
  {
    assert m == X || m == O;
    PlaceKeepsOtherLineless(b, i, m);
    WinnerIffLine(Place(b, i, m), m);
  }

  /** Cell i is empty and O placed there wins, or X placed there would win. */
  predicate Decisive(b: Board, i: Index) {
    b[i] == Empty && (WinsFor(b, i, O) || WinsFor(b, i, X))
  }

  /** Decisive as a predicate on cell numbers, false outside the board. */
  function DecisiveAt(b: Board): int -> bool {
    j => 0 <= j < 9 && Decisive(b, j)
  }

  /**
    The ascending scan of `getAIMove` from cell i on: the first cell at or
    after i where p holds, or the fallback when there is none.
  */
  function FirstWhere(p: int -> bool, i: nat, fallback: int): int
    requires i <= 9
    decreases 9 - i
  {
    if i == 9 then fallback
    else if p(i) then i
    else FirstWhere(p, i + 1, fallback)
  }

  /**
    The scan from cell i picks the smallest cell at or after i where p holds
    when there is one, and the fallback otherwise.
  */
  lemma {:induction false} FirstWhereChoice(p: int -> bool, i: nat, fallback: int)
    requires i <= 9
    ensures (exists j :: i <= j < 9 && p(j)) ==>
              var r := FirstWhere(p, i, fallback);
              i <= r < 9 && p(r) && forall j :: i <= j < r ==> !p(j)
    ensures (forall j :: i <= j < 9 ==> !p(j)) ==> FirstWhere(p, i, fallback) == fallback
    decreases 9 - i
  {
    if i < 9 && !p(i) {
      FirstWhereChoice(p, i + 1, fallback);
    }
  }

  /**
    `getAIMove`: a cell index, or -1 exactly when the board is full; any index
    it yields is an empty cell. Which cell is chosen is stated by AIMoveChoice.
  */
  function AIMove(b: Board): (r: int)
    ensures -1 <= r < 9
    ensures r == -1 <==> Full(b)
    ensures r != -1 ==> b[r] == Empty
  {
    FirstWhereChoice(DecisiveAt(b), 0, FirstEmpty(b));
    FirstWhere(DecisiveAt(b), 0, FirstEmpty(b))
  }

  /**
    `getAIMove` yields the smallest empty cell where O wins or X would win;
    failing that, the lowest empty cell.
  */
  lemma AIMoveChoice(b: Board)
    ensures (exists j :: 0 <= j < 9 && Decisive(b, j)) ==>
              0 <= AIMove(b) && Decisive(b, AIMove(b)) && forall j :: 0 <= j < AIMove(b) ==> !Decisive(b, j)
    ensures (forall j :: 0 <= j < 9 ==> !Decisive(b, j)) ==> AIMove(b) == FirstEmpty(b)
  {
    var p := DecisiveAt(b);
    FirstWhereChoice(p, 0, FirstEmpty(b));
    assert forall j :: 0 <= j < 9 ==> (p(j) <==> Decisive(b, j));
  }

  /** `getAIMove` as the component writes it: a loop that tries O, then X, in a copy of the board. */
  method GetAIMove(current: Board) returns (move: int)
    ensures move == AIMove(current)
  {
    for i := 0 to 9
      invariant FirstWhere(DecisiveAt(current), i, FirstEmpty(current)) == AIMove(current)
    {
      if current[i] == Empty {
        var boardCopy := current;
        boardCopy := boardCopy[i := Taken(O)];
        var w := CheckWinner(boardCopy);
        if w == Some(O) {
          assert Decisive(current, i);
          return i;
        }
        boardCopy := boardCopy[i := Taken(X)];
        w := CheckWinner(boardCopy);
        if w == Some(X) {
          assert boardCopy == Place(current, i, X);
          assert Decisive(current, i);
          return i;
        }
        assert boardCopy == Place(current, i, X);
      }
      assert !Decisive(current, i);
    }
    move := FirstEmpty(current);
  }

  /**
    On a board without a line, a cell is decisive exactly when it is empty
    and writing O or X into it completes a line for that mark.
  */
  lemma DecisiveIffLine(b: Board, i: Index)
    requires !HasLine(b, X) && !HasLine(b, O)
    ensures Decisive(b, i) <==>
      b[i] == Empty && (HasLine(Place(b, i, O), O) || HasLine(Place(b, i, X), X))
  {
    WinsForIffLine(b, i, O);
    WinsForIffLine(b, i, X);
  }

  /** The first decisive cell is the one chosen. */
  lemma AIMoveAtFirstDecisive(b: Board, i: Index)
    requires Decisive(b, i)
    requires forall j :: 0 <= j < i ==> !Decisive(b, j)
    ensures AIMove(b) == i
  {
    AIMoveChoice(b);
  }

  /** An empty cell where O wins is taken when no lower cell is decisive. */
  lemma AIMoveTakesWin(b: Board, i: Index)
    requires b[i] == Empty && WinsFor(b, i, O)
    requires forall j :: 0 <= j < i ==> !Decisive(b, j)
    ensures AIMove(b) == i
  {
    AIMoveAtFirstDecisive(b, i);
  }

  /** A cell where X would win is blocked whenever no lower cell is decisive. */
  lemma AIMoveTakesBlock(b: Board, i: Index)
    requires b[i] == Empty && WinsFor(b, i, X)
    requires forall j :: 0 <= j < i ==> !Decisive(b, j)
    ensures AIMove(b) == i
  {
    AIMoveAtFirstDecisive(b, i);
  }

  /**
    Win and block are tried per cell, not in two passes: on
    [X, X, _, O, O, _, _, _, _] O could win at 5, yet cell 2, where X would
    win and O would not, is chosen.
  */
  lemma AIMoveBlockBeforeLaterWin()
    ensures var b: Board := [Taken(X), Taken(X), Empty, Taken(O), Taken(O), Empty, Empty, Empty, Empty];
      WinsFor(b, 5, O) && !WinsFor(b, 2, O) && AIMove(b) == 2
  {
    var b: Board := [Taken(X), Taken(X), Empty, Taken(O), Taken(O), Empty, Empty, Empty, Empty];
    WinnerIsFirstLine(Place(b, 5, O), 1, O);
    WinnerIsFirstLine(Place(b, 2, X), 0, X);
    var b2 := Place(b, 2, O);
    forall k | 0 <= k < |Lines|
      ensures !Complete(b2, k)
    {
      LineCases(k);
    }
    AIMoveTakesBlock(b, 2);
  }

  /** On [X, X, _, _, O, _, _, _, _] the open row of X is blocked at cell 2. */
  lemma AIMoveBlocksRow()
    ensures AIMove([Taken(X), Taken(X), Empty, Empty, Taken(O), Empty, Empty, Empty, Empty]) == 2
  {
    var b: Board := [Taken(X), Taken(X), Empty, Empty, Taken(O), Empty, Empty, Empty, Empty];
    WinnerIsFirstLine(Place(b, 2, X), 0, X);
    AIMoveTakesBlock(b, 2);
  }

  /** On the empty board no cell is decisive: one mark completes no line. */
  lemma NothingDecisiveOnEmptyBoard(j: Index)
    ensures !Decisive(EmptyBoard, j)
  {
    NoLineWithOneMark(Place(EmptyBoard, j, O), j);
    NoLineWithOneMark(Place(EmptyBoard, j, X), j);
  }

  /** With nothing to win or block, the opponent takes the lowest empty cell: 0 on the empty board. */
  lemma AIMoveOnEmptyBoard()
    ensures AIMove(EmptyBoard) == 0
  {
    forall j | 0 <= j < 9
      ensures !Decisive(EmptyBoard, j)
    {
      NothingDecisiveOnEmptyBoard(j);
    }
    AIMoveChoice(EmptyBoard);
    assert EmptyBoard[0] == Empty;
  }
}
