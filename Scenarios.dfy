/** Concrete boards from the game, with the bot playing "X" against "O". */
module Scenarios {

  import opened Wrappers
  import opened Board
  import opened Evaluator
  import opened Search

  const X: Cell := Mark("X")
  const O: Cell := Mark("O")
  const E: Cell := Empty

  /** A full board with no complete line is a tie. */
  lemma TieBoard()
    ensures CheckWinner([X, O, X, O, X, O, O, X, O]) == Tie
  {
  }

  /** The top row is found first. */
  lemma TopRowBoard()
    ensures CheckWinner([X, X, X, O, O, E, E, E, E]) == Win("X")
  {
  }

  /** "X" to move completes the top row at cell 2. */
  lemma WinningMoveBoard(b: Board)
    requires b == [X, X, E, E, O, O, E, E, E]
    ensures Minimax(b, true, "X", "O") == Move(Some(2), 1)
  {
    assert CheckWinner(b) == NoResult;
    assert Play(b, 2, "X") == [X, X, X, E, O, O, E, E, E];
    assert CheckWinner(Play(b, 2, "X")) == Win("X");
    BestPossibleChildChosen(b, true, "X", "O", 2);
  }

  /** After "X" blocks at cell 2, the empty cells are 3, 6, 7 and 8. */
  lemma EmptyAfterBlock(c: Board)
    requires c == [O, O, X, E, X, X, E, E, E]
    ensures forall i: Index :: c[i] == Empty ==> i == 3 || i == 6 || i == 7 || i == 8
  {
    EmptyCellsSpec(c);
    assert EmptyCells(c) == [3, 6, 7, 8];
  }

  /** After "X" blocks at cell 2, "O" taking cell 3 lets "X" complete the
      anti-diagonal at cell 6. */
  lemma ReplyAtThreeLoses(c: Board)
    requires c == [O, O, X, E, X, X, E, E, E]
    ensures c[3] == Empty && ChildResult(c, 3, false, "X", "O").score == 1
  {
    var g := Play(c, 3, "O");
    assert g == [O, O, X, O, X, X, E, E, E];
    assert CheckWinner(g) == NoResult;
    assert CheckWinner(Play(g, 6, "X")) == Win("X");
    ImmediateWinScoresOne(g, "X", "O", 6);
  }

  /** After "X" blocks at cell 2, "O" taking cell 6, 7 or 8 lets "X" complete
      the middle row at cell 3. */
  lemma ReplyElsewhereLoses(c: Board, i: Index)
    requires c == [O, O, X, E, X, X, E, E, E]
    requires i == 6 || i == 7 || i == 8
    ensures c[i] == Empty && ChildResult(c, i, false, "X", "O").score == 1
  {
    var g := Play(c, i, "O");
    assert CheckWinner(g) == NoResult;
    assert CheckWinner(Play(g, 3, "X")) == Win("X");
    ImmediateWinScoresOne(g, "X", "O", 3);
  }

  /** After "X" blocks at cell 2 it is "O" to move, and every reply loses. */
  lemma BlockedBoardScoresOne(c: Board)
    requires c == [O, O, X, E, X, X, E, E, E]
    ensures Minimax(c, false, "X", "O").score == 1
  {
    assert CheckWinner(c) == NoResult;
    EmptyAfterBlock(c);
    ReplyAtThreeLoses(c);
    ReplyElsewhereLoses(c, 6);
    ReplyElsewhereLoses(c, 7);
    ReplyElsewhereLoses(c, 8);
    AllChildrenAgree(c, false, "X", "O", 1);
  }

  /** "X" to move, facing "O" on cells 0 and 1: blocking at cell 2 also
      forks the middle row and the anti-diagonal, so the first cell already
      scores +1 and is chosen; the score is a win, not a draw. */
  lemma BlockingMoveBoard(b: Board)
    requires b == [O, O, E, E, X, X, E, E, E]
    ensures Minimax(b, true, "X", "O") == Move(Some(2), 1)
  {
    assert CheckWinner(b) == NoResult;
    assert Play(b, 2, "X") == [O, O, X, E, X, X, E, E, E];
    BlockedBoardScoresOne(Play(b, 2, "X"));
    BestPossibleChildChosen(b, true, "X", "O", 2);
  }
}
