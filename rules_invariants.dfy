/**
 * What holds of every state the rules engine can reach from the initial
 * state, and how undo and move undo each other.
 *
 * A state is reachable when replaying its own history from the initial state
 * rebuilds it; every state obtained by replaying any list of moves (legal or
 * not) from the initial state is reachable, and `MakeMove` keeps states
 * reachable.
 */
module RulesInvariants {
  import opened Wrappers
  import opened Rules

  /** The number of marks on one micro board. */
  function Filled(board: seq<Cell>): nat {
    if board == [] then 0 else (if board[0].Some? then 1 else 0) + Filled(board[1..])
  }

  /** The number of marks on all micro boards. */
  function FilledTotal(boards: seq<seq<Cell>>): nat {
    if boards == [] then 0 else Filled(boards[0]) + FilledTotal(boards[1..])
  }

  /**
   * The game invariant: the history has one entry per mark on the board, each
   * micro board result is the scan of that board, the game result is the scan
   * of the micro board results, the player to move is X at the start and the
   * opponent of the last mover afterwards, and a forced board is undecided
   * and only exists while the game goes on.
   */
  predicate Inv(s: GameState) {
    && Shaped(s)
    && |s.moveHistory| == FilledTotal(s.bigBoard)
    && (forall i :: 0 <= i < 9 ==> s.microWinners[i] == CheckWinnerMicro(s.bigBoard[i]))
    && s.winner == CheckWinnerBig(s.microWinners)
    && s.currentPlayer == (if s.moveHistory == [] then X
                           else Opponent(s.moveHistory[|s.moveHistory| - 1].player))
    && (s.nextMicroIndex.Some? ==>
          && 0 <= s.nextMicroIndex.value < 9
          && s.microWinners[s.nextMicroIndex.value] == Undecided
          && s.winner == Undecided)
  }

  /** Replaying the state's own history from the initial state rebuilds it. */
  predicate Reachable(s: GameState) {
    Replay(CreateInitialState(), s.moveHistory) == s
  }

  lemma {:induction false} FilledNone(board: seq<Cell>)
    requires forall i :: 0 <= i < |board| ==> board[i] == None
    ensures Filled(board) == 0
  {
    if board != [] {
      FilledNone(board[1..]);
    }
  }

  lemma {:induction false} FilledTotalNone(boards: seq<seq<Cell>>)
    requires forall i, j :: 0 <= i < |boards| && 0 <= j < |boards[i]| ==> boards[i][j] == None
    ensures FilledTotal(boards) == 0
  {
    if boards != [] {
      FilledNone(boards[0]);
      FilledTotalNone(boards[1..]);
    }
  }

  /** Marking an empty cell adds one to the board's count. */
  lemma {:induction false} FilledPlace(board: seq<Cell>, c: int, p: Player)
    requires 0 <= c < |board| && board[c] == None
    ensures Filled(board[c := Some(p)]) == Filled(board) + 1
  {
    if c == 0 {
      assert board[c := Some(p)][1..] == board[1..];
    } else {
      assert board[c := Some(p)][1..] == board[1..][c - 1 := Some(p)];
      FilledPlace(board[1..], c - 1, p);
    }
  }

  /** Replacing one board changes the total by the difference of the two boards' counts. */
  lemma {:induction false} FilledTotalReplace(boards: seq<seq<Cell>>, m: int, b: seq<Cell>)
    requires 0 <= m < |boards|
    ensures FilledTotal(boards[m := b]) + Filled(boards[m]) == FilledTotal(boards) + Filled(b)
  {
    if m == 0 {
      assert boards[m := b][1..] == boards[1..];
    } else {
      assert boards[m := b][1..] == boards[1..][m - 1 := b];
      FilledTotalReplace(boards[1..], m - 1, b);
    }
  }

  /** The initial state satisfies the game invariant. */
  lemma InitialInv()
    ensures Inv(CreateInitialState())
  {
    var s := CreateInitialState();
    forall i | 0 <= i < 9
      ensures s.microWinners[i] == CheckWinnerMicro(s.bigBoard[i])
    {
      var b := s.bigBoard[i];
      assert b[0] == None;
      assert forall j :: 0 <= j < 8 ==> !LineComplete(b, j);
    }
    assert s.microWinners[0] == Undecided;
    assert forall j :: 0 <= j < 8 ==> !BigLineWon(s.microWinners, j);
    FilledTotalNone(s.bigBoard);
  }

  /** A move (legal or not) keeps the game invariant. */
  lemma MoveKeepsInv(s: GameState, m: int, c: int, p: Player)
    requires Inv(s)
    ensures Inv(MakeMove(s, m, c, p))
  {
    var r := MakeMove(s, m, c, p);
    if IsValidMove(s, m, c) {
      var b := s.bigBoard[m][c := Some(p)];
      assert r.bigBoard[m] == b;
      assert r.bigBoard == s.bigBoard[m := b];
      FilledPlace(s.bigBoard[m], c, p);
      FilledTotalReplace(s.bigBoard, m, b);
      forall i | 0 <= i < 9
        ensures r.microWinners[i] == CheckWinnerMicro(r.bigBoard[i])
      {
        if i != m {
          assert r.bigBoard[i] == s.bigBoard[i];
        }
      }
    }
  }

  lemma {:induction false} ReplayKeepsInv(s: GameState, moves: seq<Move>)
    requires Inv(s)
    ensures Inv(Replay(s, moves))
    decreases |moves|
  {
    if moves != [] {
      var mv := moves[0];
      MoveKeepsInv(s, mv.microIndex, mv.cellIndex, mv.player);
      ReplayKeepsInv(MakeMove(s, mv.microIndex, mv.cellIndex, mv.player), moves[1..]);
    }
  }

  /** Replaying one more move is one more `MakeMove` on the replayed state. */
  lemma {:induction false} ReplayAppend(s: GameState, moves: seq<Move>, mv: Move)
    requires Shaped(s)
    ensures Replay(s, moves + [mv]) == MakeMove(Replay(s, moves), mv.microIndex, mv.cellIndex, mv.player)
    decreases |moves|
  {
    if moves == [] {
      assert moves + [mv] == [mv];
    } else {
      var first := moves[0];
      assert (moves + [mv])[0] == first;
      assert (moves + [mv])[1..] == moves[1..] + [mv];
      ReplayAppend(MakeMove(s, first.microIndex, first.cellIndex, first.player), moves[1..], mv);
    }
  }

  /** A move (legal or not) from a reachable state leads to a reachable state. */
  lemma MoveKeepsReachable(s: GameState, m: int, c: int, p: Player)
    requires Reachable(s)
    ensures Reachable(MakeMove(s, m, c, p))
  {
    if IsValidMove(s, m, c) {
      ReplayAppend(CreateInitialState(), s.moveHistory, Move(m, c, p));
    }
  }

  /** Every state obtained by replaying any moves from the initial state is reachable. */
  lemma {:induction false} ReplayReachable(moves: seq<Move>)
    ensures Reachable(Replay(CreateInitialState(), moves))
    decreases |moves|
  {
    if moves != [] {
      var init, front, last := CreateInitialState(), moves[..|moves| - 1], moves[|moves| - 1];
      assert moves == front + [last];
      ReplayReachable(front);
      ReplayAppend(init, front, last);
      MoveKeepsReachable(Replay(init, front), last.microIndex, last.cellIndex, last.player);
    }
  }

  /** Every reachable state satisfies the game invariant; in particular its history length is its mark count. */
  lemma ReachableInv(s: GameState)
    requires Reachable(s)
    ensures Inv(s)
    ensures |s.moveHistory| == FilledTotal(s.bigBoard)
  {
    InitialInv();
    ReplayKeepsInv(CreateInitialState(), s.moveHistory);
  }

  /** Undo after a legal move gives back the state before the move. */
  lemma UndoAfterMove(s: GameState, m: int, c: int, p: Player)
    requires Reachable(s) && IsValidMove(s, m, c)
    ensures UndoLastMove(MakeMove(s, m, c, p)) == s
  {
    var h := MakeMove(s, m, c, p).moveHistory;
    assert h[..|h| - 1] == s.moveHistory;
  }

  lemma SplitLast<T>(h: seq<T>)
    requires h != []
    ensures h == h[..|h| - 1] + [h[|h| - 1]]
  {
  }

  /** On a reachable state, undo is the replay of the history without its last move. */
  lemma UndoThenLastMove(s: GameState)
    requires Reachable(s) && s.moveHistory != []
    ensures var u, last := UndoLastMove(s), s.moveHistory[|s.moveHistory| - 1];
      Reachable(u) && MakeMove(u, last.microIndex, last.cellIndex, last.player) == s
  {
    var init, n := CreateInitialState(), |s.moveHistory|;
    var front, last := s.moveHistory[..n - 1], s.moveHistory[n - 1];
    SplitLast(s.moveHistory);
    ReplayAppend(init, front, last);
    ReplayReachable(front);
  }

  /**
   * Undo on a reachable state with a history gives a reachable state whose
   * history is the old one without its last move, and that move is legal
   * there and leads back to the original state.
   */
  lemma RedoAfterUndo(s: GameState)
    requires Reachable(s) && s.moveHistory != []
    ensures var u, last := UndoLastMove(s), s.moveHistory[|s.moveHistory| - 1];
      && Reachable(u)
      && u.moveHistory == s.moveHistory[..|s.moveHistory| - 1]
      && IsValidMove(u, last.microIndex, last.cellIndex)
      && MakeMove(u, last.microIndex, last.cellIndex, last.player) == s
  {
    var n := |s.moveHistory|;
    var u, last := UndoLastMove(s), s.moveHistory[n - 1];
    UndoThenLastMove(s);
    ValidIffChanges(u, last.microIndex, last.cellIndex, last.player);
    assert |u.moveHistory| < n;
    assert s.moveHistory == u.moveHistory + [last];
    assert u.moveHistory == s.moveHistory[..n - 1];
  }

  /** Legality is exactly "the move changes the state". */
  lemma ValidIffChanges(s: GameState, m: int, c: int, p: Player)
    requires Shaped(s)
    ensures IsValidMove(s, m, c) <==> MakeMove(s, m, c, p) != s
  {
    if IsValidMove(s, m, c) {
      assert |MakeMove(s, m, c, p).moveHistory| == |s.moveHistory| + 1;
    }
  }

  /**
   * The four refusals of the legality check, with the target board looked up
   * in the list of available boards: a finished game, a board that is not
   * available (decided, or out of range), a cell that is out of range or
   * taken, and a board other than the forced one.
   */
  lemma ValidMoveConditions(s: GameState, m: int, c: int)
    requires Shaped(s)
    ensures IsValidMove(s, m, c) <==>
      && s.winner == Undecided
      && m in GetAvailableMicroBoards(s.microWinners)
      && 0 <= c < 9 && s.bigBoard[m][c] == None
      && (s.nextMicroIndex == None || s.nextMicroIndex == Some(m))
  {
  }

  /**
   * In a state satisfying the invariant, a board is available exactly when
   * no line of it is complete and it still has an empty cell.
   */
  lemma AvailableIffOpen(s: GameState, i: int)
    requires Inv(s)
    ensures IsMicroBoardAvailable(s.microWinners, i) <==>
      && 0 <= i < 9
      && (forall j :: 0 <= j < 8 ==> !LineComplete(s.bigBoard[i], j))
      && (exists k :: 0 <= k < 9 && s.bigBoard[i][k] == None)
  {
    if 0 <= i < 9 {
      assert s.microWinners[i] == CheckWinnerMicro(s.bigBoard[i]);
    }
  }

  /**
   * After a legal move at cell `c`, the opponent is sent to board
   * `NextMicroIndexFrom(c)`: while that board is undecided and the game goes
   * on, every legal reply is in it; once that board is decided, any empty
   * cell of any available board is a legal reply.
   */
  lemma ForcedBoardFromCell(s: GameState, m: int, c: int, p: Player)
    requires Shaped(s) && IsValidMove(s, m, c)
    ensures var r, target := MakeMove(s, m, c, p), NextMicroIndexFrom(c);
      && (r.microWinners[target] == Undecided && r.winner == Undecided ==>
            && r.nextMicroIndex == Some(target)
            && forall m', c' :: IsValidMove(r, m', c') ==> m' == target)
      && (r.microWinners[target] != Undecided ==>
            && r.nextMicroIndex == None
            && forall m', c' ::
                 (r.winner == Undecided && IsMicroBoardAvailable(r.microWinners, m')
                  && 0 <= c' < 9 && r.bigBoard[m'][c'] == None) ==> IsValidMove(r, m', c'))
  {
  }

  /** A move never touches a decided micro board, and never erases or changes a mark. */
  lemma DecidedBoardsFrozen(s: GameState, m: int, c: int, p: Player)
    requires Shaped(s)
    ensures var r := MakeMove(s, m, c, p);
      && (forall i :: 0 <= i < 9 && s.microWinners[i] != Undecided ==>
            r.bigBoard[i] == s.bigBoard[i] && r.microWinners[i] == s.microWinners[i])
      && (forall i, j :: 0 <= i < 9 && 0 <= j < 9 && s.bigBoard[i][j].Some? ==>
            r.bigBoard[i][j] == s.bigBoard[i][j])
  {
    var r := MakeMove(s, m, c, p);
    forall i | 0 <= i < 9 && s.microWinners[i] != Undecided
      ensures r.bigBoard[i] == s.bigBoard[i]
    {
      if IsValidMove(s, m, c) {
        assert i != m;
        assert forall j :: 0 <= j < 9 ==> r.bigBoard[i][j] == s.bigBoard[i][j];
      }
    }
  }

  /**
   * No deadlock: in a state satisfying the invariant whose game is undecided
   * there is a legal move, in the forced board when there is one.
   */
  lemma SomeMoveAvailable(s: GameState) returns (m: int, c: int)
    requires Inv(s) && s.winner == Undecided
    ensures IsValidMove(s, m, c)
    ensures s.nextMicroIndex.Some? ==> m == s.nextMicroIndex.value
  {
    if s.nextMicroIndex.Some? {
      m := s.nextMicroIndex.value;
    } else {
      m :| 0 <= m < 9 && s.microWinners[m] == Undecided;
    }
    assert CheckWinnerMicro(s.bigBoard[m]) == Undecided;
    c :| 0 <= c < 9 && s.bigBoard[m][c] == None;
  }
}
