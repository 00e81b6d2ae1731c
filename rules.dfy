/**
  The board of the tic-tac-toe component and its win detection
  (`checkWinner`), together with the small facts about boards that the AI
  and the session need: the first empty cell (`indexOf(null)`), fullness
  (`!board.includes(null)`) and the outcome a board determines.
*/
module Rules {

  datatype Option<T> = None | Some(value: T)

  /** The two players' marks, 'X' and 'O'. */
  datatype Mark = X | O

  /** A cell of the board: `null` in the component, or a player's mark. */
  datatype Cell = Empty | Taken(mark: Mark)

  /** The component's `winner` state: `null`, 'X' or 'O', or 'Tie'. */
  datatype Outcome = Undecided | Win(mark: Mark) | Tie

  /** A cell position, row-major over the 3x3 grid. */
  type Index = i: int | 0 <= i < 9

  /** Nine cells, as the component's `board` array always has. */
  type Board = b: seq<Cell> | |b| == 9
    witness [Empty, Empty, Empty, Empty, Empty, Empty, Empty, Empty, Empty]

  const EmptyBoard: Board := [Empty, Empty, Empty, Empty, Empty, Empty, Empty, Empty, Empty]

  function Other(m: Mark): Mark {
    if m == X then O else X
  }

  /** The mark placed by a player whose turn flag (`isXTurn`) is given. */
  function MarkFor(isXTurn: bool): Mark {
    if isXTurn then X else O
  }

  /** The board with mark m written into cell i. */
  function Place(b: Board, i: Index, m: Mark): Board {
    b[i := Taken(m)]
  }

  predicate Full(b: Board) {
    Empty !in b
  }

  /** The eight winning lines (rows, columns, diagonals), in the order they are examined. */
  const Lines: seq<(Index, Index, Index)> :=
    [(0, 1, 2), (3, 4, 5), (6, 7, 8), (0, 3, 6), (1, 4, 7), (2, 5, 8), (0, 4, 8), (2, 4, 6)]

  /** The component's test of line k: its first cell is occupied and equal to the other two. */
  predicate Complete(b: Board, k: nat)
    requires k < |Lines|
  {
    var line := Lines[k];
    b[line.0] != Empty && b[line.0] == b[line.1] && b[line.0] == b[line.2]
  }

  /** Line k is held entirely by mark m. */
  predicate Completes(b: Board, k: nat, m: Mark)
    requires k < |Lines|
  {
    var line := Lines[k];
    b[line.0] == Taken(m) && b[line.1] == Taken(m) && b[line.2] == Taken(m)
  }

  /** Some line of the table is held entirely by m. */
  predicate HasLine(b: Board, m: Mark) {
    exists k :: 0 <= k < |Lines| && Completes(b, k, m)
  }

  /** No line with position in [lo, hi) of the table is complete. */
  predicate NoneCompleteBetween(b: Board, lo: nat, hi: nat)
    requires lo <= hi <= |Lines|
  {
    forall j :: lo <= j < hi ==> !Complete(b, j)
  }

  /** The line with position k is one of the eight listed cell triples. */
  lemma LineCases(k: nat)
    requires k < |Lines|
    ensures Lines[k] in {(0, 1, 2), (3, 4, 5), (6, 7, 8), (0, 3, 6), (1, 4, 7), (2, 5, 8), (0, 4, 8), (2, 4, 6)}
  {
    assert k == 0 || k == 1 || k == 2 || k == 3 || k == 4 || k == 5 || k == 6 || k == 7;
  }

  /** Every line consists of three distinct cells. */
  lemma LineCellsDistinct(k: nat)
    requires k < |Lines|
    ensures Lines[k].0 != Lines[k].1 && Lines[k].0 != Lines[k].2 && Lines[k].1 != Lines[k].2
  {
    LineCases(k);
  }

  /** The component's test of a line succeeds exactly when one mark holds all of it. */
  lemma CompleteIffOwned(b: Board, k: nat)
    requires k < |Lines|
    ensures Complete(b, k) <==> Completes(b, k, X) || Completes(b, k, O)
  {
    var line := Lines[k];
    if Complete(b, k) {
      match b[line.0].mark
      case X => assert Completes(b, k, X);
      case O => assert Completes(b, k, O);
    }
  }

  /**
    The scan of `checkWinner` from line position k on: the mark of the first
    complete line at or after k, or None when there is none.
  */
  function WinnerFrom(b: Board, k: nat): Option<Mark>
    requires k <= |Lines|
    decreases |Lines| - k
  {
    if k == |Lines| then None
    else if Complete(b, k) then Some(b[Lines[k].0].mark)
    else WinnerFrom(b, k + 1)
  }

  /** `checkWinner`: the scan of the whole line table. */
  function Winner(b: Board): Option<Mark> {
    WinnerFrom(b, 0)
  }

  /**
    The scan from position k yields the mark holding the first complete line
    at or after k, and None exactly when no line from k on is complete.
  */
  lemma {:induction false} WinnerFromSpec(b: Board, k: nat)
    requires k <= |Lines|
    ensures var r := WinnerFrom(b, k);
      r.Some? ==> exists j :: k <= j < |Lines| && Completes(b, j, r.value) && NoneCompleteBetween(b, k, j)
    ensures WinnerFrom(b, k).None? <==> NoneCompleteBetween(b, k, |Lines|)
    decreases |Lines| - k
  {
    if k < |Lines| {
      if Complete(b, k) {
        CompleteIffOwned(b, k);
        assert Completes(b, k, b[Lines[k].0].mark) && NoneCompleteBetween(b, k, k);
      } else {
        WinnerFromSpec(b, k + 1);
      }
    }
  }

  /**
    `checkWinner` yields the mark of the first line, in table order, whose
    three cells are occupied and equal, and None (`null`) exactly when no line
    is complete.
  */
  lemma WinnerSpec(b: Board)
    ensures Winner(b).Some? ==>
      exists j :: 0 <= j < |Lines| && Completes(b, j, Winner(b).value) && NoneCompleteBetween(b, 0, j)
    ensures Winner(b).None? <==> NoneCompleteBetween(b, 0, |Lines|)
  {
    WinnerFromSpec(b, 0);
  }

  /** `checkWinner` as the component writes it: a loop over the table with an early return. */
  method CheckWinner(b: Board) returns (r: Option<Mark>)
    ensures r == Winner(b)
  {
    for k := 0 to |Lines|
      invariant WinnerFrom(b, k) == Winner(b)
    {
      var (p, q, s) := Lines[k];
      if b[p] != Empty && b[p] == b[q] && b[p] == b[s] {
        return Some(b[p].mark);
      }
    }
    return None;
  }

  /** If m holds the first complete line of the table, the winner is m. */
  lemma WinnerIsFirstLine(b: Board, k: nat, m: Mark)
    requires k < |Lines| && Completes(b, k, m) && NoneCompleteBetween(b, 0, k)
    ensures Winner(b) == Some(m)
  {
    WinnerSpec(b);
    CompleteIffOwned(b, k);
    var r := Winner(b);
    assert !NoneCompleteBetween(b, 0, |Lines|);
    var j :| 0 <= j < |Lines| && Completes(b, j, r.value) && NoneCompleteBetween(b, 0, j);
    CompleteIffOwned(b, j);
    assert j == k;
  }

  /**
    When the two marks do not both hold a line, the winner is m exactly when
    some line is held entirely by m, and there is no winner exactly when no
    line is held by either mark.
  */
  lemma WinnerIffLine(b: Board, m: Mark)
    requires !(HasLine(b, X) && HasLine(b, O))
    ensures Winner(b) == Some(m) <==> HasLine(b, m)
    ensures Winner(b) == None <==> !HasLine(b, X) && !HasLine(b, O)
  {
    WinnerSpec(b);
    if HasLine(b, m) {
      var k :| 0 <= k < |Lines| && Completes(b, k, m);
      CompleteIffOwned(b, k);
      var j :| 0 <= j < |Lines| && Completes(b, j, Winner(b).value) && NoneCompleteBetween(b, 0, j);
      assert HasLine(b, Winner(b).value);
    }
    if Winner(b).Some? {
      var w := Winner(b).value;
      var j :| 0 <= j < |Lines| && Completes(b, j, w) && NoneCompleteBetween(b, 0, j);
      assert HasLine(b, w);
      assert m != w ==> m == Other(w);
    } else {
      forall k | 0 <= k < |Lines|
        ensures !Completes(b, k, X) && !Completes(b, k, O)
      {
        CompleteIffOwned(b, k);
      }
    }
  }

  /** A board with at most one occupied cell has no complete line. */
  lemma NoLineWithOneMark(b: Board, i: Index)
    requires forall j :: 0 <= j < 9 && j != i ==> b[j] == Empty
    ensures Winner(b) == None
  {
    forall k | 0 <= k < |Lines|
      ensures !Complete(b, k)
    {
      LineCellsDistinct(k);
    }
    WinnerSpec(b);
  }

  /** Without a winner, neither mark holds any line. */
  lemma NoWinnerNoLine(b: Board)
    requires Winner(b) == None
    ensures !HasLine(b, X) && !HasLine(b, O)
  {
    WinnerSpec(b);
    forall k | 0 <= k < |Lines|
      ensures !Completes(b, k, X) && !Completes(b, k, O)
    {
      CompleteIffOwned(b, k);
    }
  }

  /** The empty board holds no line, is not full, and so is undecided. */
  lemma EmptyBoardUndecided()
    ensures Winner(EmptyBoard) == None
    ensures !HasLine(EmptyBoard, X) && !HasLine(EmptyBoard, O)
    ensures Evaluate(EmptyBoard) == Undecided
  {
    NoLineWithOneMark(EmptyBoard, 0);
    NoWinnerNoLine(EmptyBoard);
    assert EmptyBoard[0] == Empty;
  }

  /** When no line of the table is complete the board has no winner (checked line by line). */
  lemma NoLineByCases(b: Board)
    requires !Complete(b, 0) && !Complete(b, 1) && !Complete(b, 2) && !Complete(b, 3)
    requires !Complete(b, 4) && !Complete(b, 5) && !Complete(b, 6) && !Complete(b, 7)
    ensures Winner(b) == None
  {
    forall k | 0 <= k < |Lines|
      ensures !Complete(b, k)
    {
      assert k == 0 || k == 1 || k == 2 || k == 3 || k == 4 || k == 5 || k == 6 || k == 7;
    }
    WinnerSpec(b);
  }

  /**
    Writing m into an empty cell cannot complete a line for the other mark:
    a board on which the other mark holds no line still has none afterwards.
  */
  lemma PlaceKeepsOtherLineless(b: Board, i: Index, m: Mark)
    requires !HasLine(b, Other(m))
    ensures !HasLine(Place(b, i, m), Other(m))
  {
    var b' := Place(b, i, m);
    forall k | 0 <= k < |Lines|
      ensures !Completes(b', k, Other(m))
    {
      if Completes(b', k, Other(m)) {
        assert Completes(b, k, Other(m));
      }
    }
  }

  /**
    The outcome a board determines: what the effect records on it starting
    from no outcome, that is the mark of `checkWinner` if any, 'Tie' once no
    cell is empty, and undecided otherwise.
  */
  function Evaluate(b: Board): Outcome {
    Recorded(Undecided, b)
  }

  /**
    On a board where the two marks do not both hold a line, the outcome is a
    win for m exactly when m holds a line, a tie exactly when neither does and
    the board is full, and undecided exactly when neither does and some cell is
    empty.
  */
  lemma EvaluateMeaning(b: Board, m: Mark)
    requires !(HasLine(b, X) && HasLine(b, O))
    ensures Evaluate(b) == Win(m) <==> HasLine(b, m)
    ensures Evaluate(b) == Tie <==> !HasLine(b, X) && !HasLine(b, O) && Full(b)
    ensures Evaluate(b) == Undecided <==> !HasLine(b, X) && !HasLine(b, O) && !Full(b)
  {
    WinnerIffLine(b, m);
    WinnerIffLine(b, Other(m));
  }

  /**
    The `winner` state after the board changed to b (the effect that watches
    the board): the winner of b if any, else 'Tie' when b is full, else the
    previous state unchanged.
  */
  function Recorded(previous: Outcome, b: Board): Outcome {
    match Winner(b)
    case Some(m) => Win(m)
    case None => if Full(b) then Tie else previous
  }

  /**
    A mark written into an empty cell of an undecided board: the two marks
    still do not both hold a line, one empty cell is gone and the mark
    written has one cell more, the other mark none.
  */
  lemma PlaceOnOpenBoard(b: Board, i: Index, m: Mark)
    requires b[i] == Empty && Evaluate(b) == Undecided
    ensures !(HasLine(Place(b, i, m), X) && HasLine(Place(b, i, m), O))
    ensures Count(Place(b, i, m), Empty) == Count(b, Empty) - 1
    ensures Count(Place(b, i, m), Taken(m)) == Count(b, Taken(m)) + 1
    ensures Count(Place(b, i, m), Taken(Other(m))) == Count(b, Taken(Other(m)))
  {
    NoWinnerNoLine(b);
    PlaceKeepsOtherLineless(b, i, m);
    assert m == X || m == O;
    CountUpdate(b, i, Taken(m), Empty);
    CountUpdate(b, i, Taken(m), Taken(m));
    CountUpdate(b, i, Taken(m), Taken(Other(m)));
  }

  /** `indexOf(null)` from position i on: the first empty cell at or after i, or -1. */
  function FirstEmptyFrom(b: Board, i: nat): (r: int)
    requires i <= 9
    ensures r == -1 || i <= r < 9
    ensures r == -1 <==> forall j :: i <= j < 9 ==> b[j] != Empty
    ensures r != -1 ==> b[r] == Empty && forall j :: i <= j < r ==> b[j] != Empty
    decreases 9 - i
  {
    if i == 9 then -1
    else if b[i] == Empty then i
    else FirstEmptyFrom(b, i + 1)
  }

  /** `indexOf(null)`: the lowest empty index, or -1 exactly when the board is full. */
  function FirstEmpty(b: Board): (r: int)
    ensures -1 <= r < 9
    ensures r == -1 <==> Full(b)
    ensures r != -1 ==> b[r] == Empty && forall j :: 0 <= j < r ==> b[j] != Empty
  {
    FirstEmptyFrom(b, 0)
  }

  /** The number of cells equal to c at position i or later. */
  function CountFrom(s: seq<Cell>, i: nat, c: Cell): nat
    requires i <= |s|
    decreases |s| - i
  {
    if i == |s| then 0 else (if s[i] == c then 1 else 0) + CountFrom(s, i + 1, c)
  }

  /** The number of cells equal to c. */
  function Count(s: seq<Cell>, c: Cell): nat {
    CountFrom(s, 0, c)
  }

  /** Overwriting cell k changes each count by what left and what arrived. */
  lemma {:induction false} CountFromUpdate(s: seq<Cell>, i: nat, k: nat, d: Cell, c: Cell)
    requires i <= k < |s|
    ensures CountFrom(s[k := d], i, c) == CountFrom(s, i, c) - (if s[k] == c then 1 else 0) + (if d == c then 1 else 0)
    decreases |s| - i
  {
    if i < k {
      CountFromUpdate(s, i + 1, k, d, c);
    } else {
      CountFromUnchanged(s, s[k := d], i + 1, c);
    }
  }

  /** Counts from position i on depend only on the cells from i on. */
  lemma {:induction false} CountFromUnchanged(s: seq<Cell>, t: seq<Cell>, i: nat, c: Cell)
    requires i <= |s| == |t|
    requires forall j :: i <= j < |s| ==> s[j] == t[j]
    ensures CountFrom(s, i, c) == CountFrom(t, i, c)
    decreases |s| - i
  {
    if i < |s| {
      CountFromUnchanged(s, t, i + 1, c);
    }
  }

  /** Overwriting one cell changes each count by what left and what arrived. */
  lemma CountUpdate(s: seq<Cell>, k: nat, d: Cell, c: Cell)
    requires k < |s|
    ensures Count(s[k := d], c) == Count(s, c) - (if s[k] == c then 1 else 0) + (if d == c then 1 else 0)
  {
    CountFromUpdate(s, 0, k, d, c);
  }

  /** A sequence all of whose cells are c counts c at every position, and nothing else. */
  lemma {:induction false} CountFromUniform(s: seq<Cell>, i: nat, c: Cell, d: Cell)
    requires i <= |s|
    requires forall j :: i <= j < |s| ==> s[j] == c
    ensures CountFrom(s, i, c) == |s| - i
    ensures d != c ==> CountFrom(s, i, d) == 0
    decreases |s| - i
  {
    if i < |s| {
      CountFromUniform(s, i + 1, c, d);
    }
  }

  /** A sequence all of whose cells are c counts c at every position, and nothing else. */
  lemma CountUniform(s: seq<Cell>, c: Cell, d: Cell)
    requires forall j :: 0 <= j < |s| ==> s[j] == c
    ensures Count(s, c) == |s|
    ensures d != c ==> Count(s, d) == 0
  {
    CountFromUniform(s, 0, c, d);
  }

  /**
    The full board [X, O, X, X, O, O, O, X, X] completes no line: its outcome
    is a tie.
  */
  lemma FullBoardWithoutLineIsTie()
    ensures Evaluate([Taken(X), Taken(O), Taken(X), Taken(X), Taken(O), Taken(O), Taken(O), Taken(X), Taken(X)]) == Tie
  {
    NoLineByCases([Taken(X), Taken(O), Taken(X), Taken(X), Taken(O), Taken(O), Taken(O), Taken(X), Taken(X)]);
  }
}
