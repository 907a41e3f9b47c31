/** Concrete games and boards, proved about the rules engine. */
module RulesExamples {
  import opened Wrappers
  import opened Rules
  import opened RulesInvariants

  /** A completed row wins a micro board; a full board with no line is drawn; otherwise it is undecided. */
  lemma MicroBoardExamples()
    ensures CheckWinnerMicro([Some(X), Some(X), Some(X), None, None, None, None, None, None]) == Won(X)
    ensures CheckWinnerMicro([Some(X), Some(O), Some(X), Some(X), Some(O), Some(O), Some(O), Some(X), Some(X)]) == Drawn
    ensures CheckWinnerMicro([Some(X), Some(O), None, None, None, None, None, None, None]) == Undecided
  {
    var full := [Some(X), Some(O), Some(X), Some(X), Some(O), Some(O), Some(O), Some(X), Some(X)];
    assert forall j :: 0 <= j < 8 ==> !LineComplete(full, j);
    var open := [Some(X), Some(O), None, None, None, None, None, None, None];
    assert open[2] == None;
    assert forall j :: 0 <= j < 8 ==> !LineComplete(open, j);
  }

  /** A drawn micro board does not complete a line of the big board. */
  lemma BigBoardIgnoresDraw()
    ensures CheckWinnerBig([Won(X), Drawn, Won(X), Undecided, Won(X), Undecided, Undecided, Undecided, Undecided]) == Undecided
    ensures CheckWinnerBig([Won(X), Won(O), Won(X), Won(O), Won(X), Won(O), Won(O), Won(X), Drawn]) == Drawn
  {
    var w := [Won(X), Drawn, Won(X), Undecided, Won(X), Undecided, Undecided, Undecided, Undecided];
    assert w[3] == Undecided;
    assert forall j :: 0 <= j < 8 ==> !BigLineWon(w, j);
    var d := [Won(X), Won(O), Won(X), Won(O), Won(X), Won(O), Won(O), Won(X), Drawn];
    assert forall j :: 0 <= j < 8 ==> !BigLineWon(d, j);
  }

  /** The first move of a game: X in the centre cell of board 0 sends O to board 4. */
  lemma FirstMoveExample()
    ensures var s1 := MakeMove(CreateInitialState(), 0, 4, X);
      && s1.bigBoard[0][4] == Some(X) && s1.currentPlayer == O && s1.nextMicroIndex == Some(4)
      && |s1.moveHistory| == 1
  {
    var init := CreateInitialState();
    assert IsValidMove(init, 0, 4);
    var s1 := MakeMove(init, 0, 4, X);
    assert s1.microWinners[4] == Undecided;
    assert s1.microWinners[1] == Undecided && s1.microWinners[3] == Undecided;
    assert forall j :: 0 <= j < 8 ==> !BigLineWon(s1.microWinners, j);
    assert s1.winner == Undecided;
  }

  /**
   * After that move, the occupied cell and a board other than the forced one
   * are refused, and undo after O's reply restores the state after X's move.
   */
  lemma SecondMoveExample()
    ensures var s1 := MakeMove(CreateInitialState(), 0, 4, X);
      && MakeMove(s1, 0, 4, O) == s1
      && MakeMove(s1, 0, 0, O) == s1
      && UndoLastMove(MakeMove(s1, 4, 0, O)) == s1
  {
    var init := CreateInitialState();
    var s1 := MakeMove(init, 0, 4, X);
    FirstMoveExample();
    assert Reachable(init);
    MoveKeepsReachable(init, 0, 4, X);
    assert s1.bigBoard[4][0] == None;
    assert IsValidMove(s1, 4, 0);
    UndoAfterMove(s1, 4, 0, O);
  }

  /** A board with a single mark is undecided. */
  lemma LoneMarkUndecided()
    ensures CheckWinnerMicro([Some(X), None, None, None, None, None, None, None, None]) == Undecided
  {
    var b := [Some(X), None, None, None, None, None, None, None, None];
    assert b[1] == None;
    assert forall j :: 0 <= j < 8 ==> !LineComplete(b, j);
  }

  /** X in cell 0 of board 0 sends O back to board 0, whose cell 1 is still empty. */
  lemma CornerMoveExample()
    ensures var s1 := MakeMove(CreateInitialState(), 0, 0, X);
      && s1.bigBoard[0][0] == Some(X) && s1.bigBoard[0][1] == None
      && s1.winner == Undecided && s1.nextMicroIndex == Some(0)
  {
    var init := CreateInitialState();
    assert IsValidMove(init, 0, 0);
    var s1 := MakeMove(init, 0, 0, X);
    assert s1.bigBoard[0] == [Some(X), None, None, None, None, None, None, None, None];
    LoneMarkUndecided();
    assert s1.microWinners[0] == Undecided;
    assert s1.microWinners[1] == Undecided && s1.microWinners[3] == Undecided;
    assert forall j :: 0 <= j < 8 ==> !BigLineWon(s1.microWinners, j);
  }

  /**
   * After X in cell 0 of board 0, O is sent to board 0, where cell 0 is taken:
   * O's move there is refused for that reason alone.
   */
  lemma OccupiedCellExample()
    ensures var s1 := MakeMove(CreateInitialState(), 0, 0, X);
      && !IsValidMove(s1, 0, 0) && IsValidMove(s1, 0, 1)
      && MakeMove(s1, 0, 0, O) == s1
  {
    CornerMoveExample();
    var s1 := MakeMove(CreateInitialState(), 0, 0, X);
    assert s1.microWinners[0] == Undecided;
  }

  /**
   * With board 4 already won by X, a move at cell 4 of board 0 leaves no
   * forced board.
   */
  lemma WonTargetFreesChoice()
    ensures var init := CreateInitialState();
      var s := init.(bigBoard := init.bigBoard[4 := [Some(X), Some(X), Some(X), None, None, None, None, None, None]],
                     microWinners := init.microWinners[4 := Won(X)]);
      MakeMove(s, 0, 4, X).nextMicroIndex == None
  {
    var init := CreateInitialState();
    var s := init.(bigBoard := init.bigBoard[4 := [Some(X), Some(X), Some(X), None, None, None, None, None, None]],
                   microWinners := init.microWinners[4 := Won(X)]);
    assert s.bigBoard[0][4] == None;
    assert IsValidMove(s, 0, 4);
  }
}
