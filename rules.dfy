/**
 * The nested tic-tac-toe rules engine (src/lib/rules.ts).
 *
 * A game is nine 3×3 micro boards. A move places a mark in one cell of one
 * micro board; the cell index then names the micro board the opponent must
 * play in next. A micro board is decided when a line of three is completed or
 * when it is full; the game is decided by the same eight-line scan over the
 * micro board results, where a drawn micro board never counts as a mark.
 *
 * Every operation is a pure function on `GameState` values: an illegal move
 * returns its input unchanged, and undo rebuilds the state from the initial
 * state by replaying the history without its last entry.
 */
module Rules {
  import opened Wrappers

  datatype Player = X | O

  /** A cell is empty (`None`, JavaScript's `null`) or holds a player's mark. */
  type Cell = Option<Player>

  /** The result of one micro board, or of the whole game: `null` is `Undecided`. */
  datatype Verdict = Won(player: Player) | Drawn | Undecided

  /** One entry of the move history. */
  datatype Move = Move(microIndex: int, cellIndex: int, player: Player)

  datatype GameState = GameState(
    bigBoard: seq<seq<Cell>>,
    microWinners: seq<Verdict>,
    currentPlayer: Player,
    nextMicroIndex: Option<int>,
    moveHistory: seq<Move>,
    winner: Verdict)

  /** The shape every state built by this module has: nine boards of nine cells, nine results. */
  predicate Shaped(s: GameState) {
    && |s.bigBoard| == 9
    && |s.microWinners| == 9
    && forall i :: 0 <= i < 9 ==> |s.bigBoard[i]| == 9
  }

  function Opponent(p: Player): Player {
    if p == X then O else X
  }

  /** The eight lines of a 3×3 grid, in the order they are scanned: rows, columns, diagonals. */
  function LineAt(j: int): (t: (int, int, int))
    requires 0 <= j < 8
    ensures 0 <= t.0 < 9 && 0 <= t.1 < 9 && 0 <= t.2 < 9
  {
    if j == 0 then (0, 1, 2)
    else if j == 1 then (3, 4, 5)
    else if j == 2 then (6, 7, 8)
    else if j == 3 then (0, 3, 6)
    else if j == 4 then (1, 4, 7)
    else if j == 5 then (2, 5, 8)
    else if j == 6 then (0, 4, 8)
    else (2, 4, 6)
  }

  /** Line `j` of a board holds three marks of player `p`. */
  predicate LineOwnedBy(cells: seq<Cell>, j: int, p: Player)
    requires |cells| == 9 && 0 <= j < 8
  {
    var t := LineAt(j);
    cells[t.0] == Some(p) && cells[t.1] == Some(p) && cells[t.2] == Some(p)
  }

  predicate LineComplete(cells: seq<Cell>, j: int)
    requires |cells| == 9 && 0 <= j < 8
  {
    LineOwnedBy(cells, j, X) || LineOwnedBy(cells, j, O)
  }

  /** The early-return scan over the lines from `k` on: the first complete one, if any. */
  function FirstCompleteLine(cells: seq<Cell>, k: int): (r: Option<int>)
    requires |cells| == 9 && 0 <= k <= 8
    decreases 8 - k
    ensures r.Some? ==> k <= r.value < 8 && LineComplete(cells, r.value)
    ensures forall j :: k <= j < 8 && (r.None? || j < r.value) ==> !LineComplete(cells, j)
  {
    if k == 8 then None
    else
      var t := LineAt(k);
      if cells[t.0].Some? && cells[t.0] == cells[t.1] && cells[t.0] == cells[t.2] then
        var p := cells[t.0].value;
        assert LineOwnedBy(cells, k, p);
        assert p == X || p == O;
        Some(k)
      else FirstCompleteLine(cells, k + 1)
  }

  /** The result of a micro board: the owner of the first complete line, else a draw when full. */
  function CheckWinnerMicro(board: seq<Cell>): (r: Verdict)
    requires |board| == 9
    ensures r.Won? ==> exists j :: 0 <= j < 8 && LineOwnedBy(board, j, r.player)
                                   && forall j' :: 0 <= j' < j ==> !LineComplete(board, j')
    ensures r.Won? <==> exists j :: 0 <= j < 8 && LineComplete(board, j)
    ensures r == Drawn <==> (forall j :: 0 <= j < 8 ==> !LineComplete(board, j))
                            && forall i :: 0 <= i < 9 ==> board[i].Some?
    ensures r == Undecided <==> (forall j :: 0 <= j < 8 ==> !LineComplete(board, j))
                                && exists i :: 0 <= i < 9 && board[i] == None
  {
    match FirstCompleteLine(board, 0)
    case Some(j) =>
      assert LineOwnedBy(board, j, board[LineAt(j).0].value);
      Won(board[LineAt(j).0].value)
    case None =>
      if forall i :: 0 <= i < 9 ==> board[i].Some? then Drawn else Undecided
  }

  /** The micro board results seen as cells: only a won board carries a mark. */
  function Owners(winners: seq<Verdict>): (cells: seq<Cell>)
    ensures |cells| == |winners|
  {
    seq(|winners|, i requires 0 <= i < |winners| =>
      if winners[i].Won? then Some(winners[i].player) else None)
  }

  /** Line `j` of the big board consists of three micro boards all won by `p`. */
  predicate BigLineWonBy(winners: seq<Verdict>, j: int, p: Player)
    requires |winners| == 9 && 0 <= j < 8
  {
    var t := LineAt(j);
    winners[t.0] == Won(p) && winners[t.1] == Won(p) && winners[t.2] == Won(p)
  }

  predicate BigLineWon(winners: seq<Verdict>, j: int)
    requires |winners| == 9 && 0 <= j < 8
  {
    BigLineWonBy(winners, j, X) || BigLineWonBy(winners, j, O)
  }

  /**
   * The game result: the owner of the first line of three micro boards won by
   * the same player (a drawn micro board never completes a line), else a draw
   * when no micro board is undecided.
   */
  function CheckWinnerBig(winners: seq<Verdict>): (r: Verdict)
    requires |winners| == 9
    ensures r.Won? ==> exists j :: 0 <= j < 8 && BigLineWonBy(winners, j, r.player)
                                   && forall j' :: 0 <= j' < j ==> !BigLineWon(winners, j')
    ensures r.Won? <==> exists j :: 0 <= j < 8 && BigLineWon(winners, j)
    ensures r == Drawn <==> (forall j :: 0 <= j < 8 ==> !BigLineWon(winners, j))
                            && forall i :: 0 <= i < 9 ==> winners[i] != Undecided
    ensures r == Undecided <==> (forall j :: 0 <= j < 8 ==> !BigLineWon(winners, j))
                                && exists i :: 0 <= i < 9 && winners[i] == Undecided
  {
    var cells := Owners(winners);
    assert forall j, p :: 0 <= j < 8 ==> (LineOwnedBy(cells, j, p) <==> BigLineWonBy(winners, j, p));
    match FirstCompleteLine(cells, 0)
    case Some(j) =>
      assert BigLineWonBy(winners, j, cells[LineAt(j).0].value);
      assert BigLineWon(winners, j);
      Won(cells[LineAt(j).0].value)
    case None =>
      if forall i :: 0 <= i < 9 ==> winners[i] != Undecided then Drawn else Undecided
  }

  /** The forced board after a move is the board at the position of the cell played. */
  function NextMicroIndexFrom(cellIndex: int): int {
    cellIndex
  }

  /** Board `i` can still be played: an index with no result (out of range reads `undefined`). */
  predicate IsMicroBoardAvailable(winners: seq<Verdict>, i: int) {
    0 <= i < |winners| && winners[i] == Undecided
  }

  /** The available boards from index `k` on, in ascending order. */
  function AvailableFrom(winners: seq<Verdict>, k: int): (r: seq<int>)
    requires 0 <= k <= |winners|
    decreases |winners| - k
    ensures forall n :: 0 <= n < |r| ==> k <= r[n] && IsMicroBoardAvailable(winners, r[n])
    ensures forall i :: k <= i && IsMicroBoardAvailable(winners, i) ==> i in r
    ensures forall n, n' :: 0 <= n < n' < |r| ==> r[n] < r[n']
  {
    if k == |winners| then []
    else (if winners[k] == Undecided then [k] else []) + AvailableFrom(winners, k + 1)
  }

  /** Exactly the boards with no result, each once, in ascending order. */
  function GetAvailableMicroBoards(winners: seq<Verdict>): (r: seq<int>)
    ensures forall i :: i in r <==> IsMicroBoardAvailable(winners, i)
    ensures forall n, n' :: 0 <= n < n' < |r| ==> r[n] < r[n']
  {
    AvailableFrom(winners, 0)
  }

  /**
   * The legality predicate: the game is undecided, the target board is
   * undecided, the target cell exists and is empty, and the target board is
   * the forced one when a board is forced.
   */
  predicate IsValidMove(s: GameState, microIndex: int, cellIndex: int)
    requires Shaped(s)
  {
    && s.winner == Undecided
    && IsMicroBoardAvailable(s.microWinners, microIndex)
    && 0 <= cellIndex < 9 && s.bigBoard[microIndex][cellIndex] == None
    && (s.nextMicroIndex == None || s.nextMicroIndex == Some(microIndex))
  }

  /** Nine empty boards, no results, X to move, no forced board, no history. */
  function CreateInitialState(): (s: GameState)
    ensures Shaped(s)
    ensures forall i, j :: 0 <= i < 9 && 0 <= j < 9 ==> s.bigBoard[i][j] == None
    ensures forall i :: 0 <= i < 9 ==> s.microWinners[i] == Undecided
    ensures s.currentPlayer == X && s.nextMicroIndex == None && s.moveHistory == [] && s.winner == Undecided
  {
    GameState(seq(9, _ => seq(9, _ => None)), seq(9, _ => Undecided), X, None, [], Undecided)
  }

  /**
   * Plays `player` at cell `cellIndex` of board `microIndex`. An illegal move
   * returns the state unchanged. Otherwise only that cell and that board's
   * result change, the game result is rescanned, the other player is to move,
   * the move is appended to the history, and the forced board is the one at
   * the position of the cell played when that board is still undecided and the
   * game goes on.
   */
  function MakeMove(s: GameState, microIndex: int, cellIndex: int, player: Player): (r: GameState)
    requires Shaped(s)
    ensures Shaped(r)
    ensures !IsValidMove(s, microIndex, cellIndex) ==> r == s
    ensures IsValidMove(s, microIndex, cellIndex) ==>
      && r.bigBoard[microIndex][cellIndex] == Some(player)
      && (forall i, j :: 0 <= i < 9 && 0 <= j < 9 && (i, j) != (microIndex, cellIndex) ==>
            r.bigBoard[i][j] == s.bigBoard[i][j])
      && r.microWinners[microIndex] == CheckWinnerMicro(r.bigBoard[microIndex])
      && (forall i :: 0 <= i < 9 && i != microIndex ==> r.microWinners[i] == s.microWinners[i])
      && r.winner == CheckWinnerBig(r.microWinners)
      && r.currentPlayer == Opponent(player)
      && r.moveHistory == s.moveHistory + [Move(microIndex, cellIndex, player)]
      && r.nextMicroIndex ==
           (if r.microWinners[cellIndex] == Undecided && r.winner == Undecided then Some(cellIndex) else None)
  {
    if !IsValidMove(s, microIndex, cellIndex) then s
    else
      var board := s.bigBoard[microIndex := s.bigBoard[microIndex][cellIndex := Some(player)]];
      var winners := s.microWinners[microIndex := CheckWinnerMicro(board[microIndex])];
      var winner := CheckWinnerBig(winners);
      var target := NextMicroIndexFrom(cellIndex);
      var next := if IsMicroBoardAvailable(winners, target) then Some(target) else None;
      GameState(board, winners, Opponent(player), if winner != Undecided then None else next,
                s.moveHistory + [Move(microIndex, cellIndex, player)], winner)
  }

  /** Applies the moves in order with `MakeMove`, starting from `s`. */
  function Replay(s: GameState, moves: seq<Move>): (r: GameState)
    requires Shaped(s)
    decreases |moves|
    ensures Shaped(r)
    ensures s.moveHistory <= r.moveHistory
    ensures |r.moveHistory| <= |s.moveHistory| + |moves|
  {
    if moves == [] then s
    else
      var m := moves[0];
      Replay(MakeMove(s, m.microIndex, m.cellIndex, m.player), moves[1..])
  }

  /**
   * With an empty history the state itself; otherwise the state rebuilt from
   * the initial state by replaying every move but the last.
   */
  function UndoLastMove(s: GameState): (r: GameState)
    ensures s.moveHistory == [] ==> r == s
    ensures s.moveHistory != [] ==> Shaped(r) && |r.moveHistory| < |s.moveHistory|
  {
    if |s.moveHistory| == 0 then s
    else Replay(CreateInitialState(), s.moveHistory[..|s.moveHistory| - 1])
  }
}
