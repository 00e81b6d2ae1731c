/**
  The state of one tic-tac-toe session and the handlers that change it:
  a click on a cell, the opponent's turn in AI mode, reset and the mode
  switch. The outcome that the component recomputes after every board
  change is recomputed here at the end of each move.
*/
module Game {
  import opened Rules
  import opened Ai

  /** `gameMode`: '2P' or 'AI'. */
  datatype Mode = TwoPlayer | VsAI

  /**
    The invariant of every state the handlers reach, on the session's values:
    the recorded outcome is the one the board determines; every accepted move
    filled one cell, and X is to move exactly after an even number of them; X
    has one mark more than O exactly when O is to move; and the two marks
    never both hold a line.
  */
  ghost predicate Consistent(board: Board, isXNext: bool, winner: Outcome, moves: nat) {
    && winner == Evaluate(board)
    && moves + Count(board, Empty) == 9
    && (isXNext <==> moves % 2 == 0)
    && Count(board, Taken(X)) == Count(board, Taken(O)) + (if isXNext then 0 else 1)
    && !(HasLine(board, X) && HasLine(board, O))
  }

  /**
    A move accepted on an undecided session (the player to move writes an
    empty cell, the turn passes, the outcome is recorded) keeps the invariant.
  */
  lemma AcceptedMoveKeepsConsistent(b: Board, isXNext: bool, moves: nat, i: Index)
    requires Consistent(b, isXNext, Undecided, moves) && b[i] == Empty
    ensures var b' := Place(b, i, MarkFor(isXNext));
      Consistent(b', !isXNext, Recorded(Undecided, b'), moves + 1)
  {
    PlaceOnOpenBoard(b, i, MarkFor(isXNext));
  }

  /** The reset state satisfies the invariant. */
  lemma ResetStateConsistent()
    ensures Consistent(EmptyBoard, true, Undecided, 0)
  {
    EmptyBoardUndecided();
    CountUniform(EmptyBoard, Empty, Taken(X));
    CountUniform(EmptyBoard, Empty, Taken(O));
  }

  class Session {
    var board: Board
    var isXNext: bool
    var winner: Outcome
    var mode: Mode

    /** The number of moves accepted since the last reset. */
    ghost var moves: nat

    ghost predicate Valid()
      reads this
    {
      Consistent(board, isXNext, winner, moves)
    }

    /** A new session: empty board, X to move, no winner, two-player mode. */
    constructor ()
      ensures Valid()
      ensures board == EmptyBoard && isXNext && winner == Undecided && mode == TwoPlayer && moves == 0
    {
      board := EmptyBoard;
      isXNext := true;
      winner := Undecided;
      mode := TwoPlayer;
      moves := 0;
      new;
      ResetStateConsistent();
    }

    /**
      The effect run after each board change: a winner of the board is
      recorded, else 'Tie' when no cell is empty, else `winner` is left as it was.
    */
    method RecordOutcome()
      modifies this`winner
      ensures winner == Recorded(old(winner), board)
    {
      var w := CheckWinner(board);
      if w.Some? {
        winner := Win(w.value);
      } else if Empty !in board {
        winner := Tie;
      }
    }

    /**
      `makeMove`: a copy of the board with cell `index` set to the mark of
      `isXTurn`, the turn passed to the other player, and the outcome recorded.
    */
    method MakeMove(index: Index, isXTurn: bool)
      modifies this
      ensures board == Place(old(board), index, MarkFor(isXTurn))
      ensures isXNext == !isXTurn
      ensures winner == Recorded(old(winner), board)
      ensures mode == old(mode) && moves == old(moves) + 1
    {
      var newBoard := board;
      newBoard := newBoard[index := Taken(if isXTurn then X else O)];
      board := newBoard;
      isXNext := !isXTurn;
      moves := moves + 1;
      RecordOutcome();
    }

    /**
      `handleClick`: ignored when the cell is occupied, an outcome is recorded
      (a win or a tie), or it is O's turn in AI mode; otherwise the player to
      move places a mark there.
    */
    method HandleClick(index: Index) returns (accepted: bool)
      requires Valid()
      modifies this
      ensures Valid()
      ensures accepted <==> old(board[index] == Empty && winner == Undecided && !(mode == VsAI && !isXNext))
      ensures accepted ==> board == Place(old(board), index, MarkFor(old(isXNext)))
                           && isXNext == !old(isXNext) && moves == old(moves) + 1
      ensures !accepted ==> board == old(board) && isXNext == old(isXNext)
                            && winner == old(winner) && moves == old(moves)
      ensures mode == old(mode)
    {
      if board[index] != Empty || winner != Undecided || (mode == VsAI && !isXNext) {
        return false;
      }
      AcceptedMoveKeepsConsistent(board, isXNext, moves, index);
      MakeMove(index, isXNext);
      return true;
    }

    /** The condition under which the component schedules the opponent's move. */
    predicate AIToMove()
      reads this
    {
      mode == VsAI && !isXNext && winner == Undecided
    }

    /**
      The opponent's turn: when it is due, O is placed on the cell
      `getAIMove` picks, which is then always an empty cell; otherwise nothing
      changes.
    */
    method AITurn() returns (moved: bool)
      requires Valid()
      modifies this
      ensures Valid()
      ensures moved == old(AIToMove())
      ensures moved ==> var i := AIMove(old(board));
                        0 <= i && old(board)[i] == Empty && board == Place(old(board), i, O)
                        && isXNext && moves == old(moves) + 1
      ensures !moved ==> board == old(board) && isXNext == old(isXNext)
                         && winner == old(winner) && moves == old(moves)
      ensures mode == old(mode)
    {
      if !AIToMove() {
        return false;
      }
      var move := GetAIMove(board);
      // An undecided board is never full, so `getAIMove` yields an empty cell.
      ghost var before, played := board, moves;
      AcceptedMoveKeepsConsistent(before, false, played, move);
      MakeMove(move, false);
      assert board == Place(before, move, MarkFor(false)) && winner == Recorded(Undecided, board);
      assert Consistent(board, true, winner, played + 1);
      return true;
    }

    /** `resetGame`: empty board, X to move, no winner, whatever happened before. */
    method ResetGame()
      modifies this
      ensures Valid()
      ensures board == EmptyBoard && isXNext && winner == Undecided && moves == 0
      ensures mode == old(mode)
    {
      board := EmptyBoard;
      isXNext := true;
      winner := Undecided;
      moves := 0;
      ResetStateConsistent();
    }

    /** `toggleGameMode`: '2P' becomes 'AI' and back, and the game is reset. */
    method ToggleGameMode()
      modifies this
      ensures Valid()
      ensures mode == (if old(mode) == TwoPlayer then VsAI else TwoPlayer)
      ensures board == EmptyBoard && isXNext && winner == Undecided && moves == 0
    {
      mode := if mode == TwoPlayer then VsAI else TwoPlayer;
      ResetGame();
    }
  }

  /**
    A client of the session in two-player mode: X plays 0, 1, 2 while O plays
    4 and 8, so X completes the top row; further clicks are ignored until the
    game is reset.
  */
  method TopRowScenario() {
    var s := new Session();
    var ok := s.HandleClick(0);
    NoLineByCases(s.board);
    ok := s.HandleClick(4);
    NoLineByCases(s.board);
    ok := s.HandleClick(1);
    NoLineByCases(s.board);
    ok := s.HandleClick(8);
    NoLineByCases(s.board);
    ok := s.HandleClick(2);
    assert ok;
    WinnerIsFirstLine(s.board, 0, X);
    assert s.winner == Win(X);
    ok := s.HandleClick(5);
    assert !ok && s.winner == Win(X);
    s.ResetGame();
    ok := s.HandleClick(5);
    assert ok;
  }
}
