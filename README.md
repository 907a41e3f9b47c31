# XOver core in Dafny

This project models two pieces of XOver, a two-player nested tic-tac-toe game played locally or peer to peer:

- **The rules engine** of `src/lib/rules.ts`. A game is nine 3×3 micro boards. The cell you play decides which micro board your opponent must play in next. A micro board is decided by a line of three or by being full. The game is decided by the same eight-line scan over the micro board results, where a drawn micro board never counts toward a line.
- **The signalling session store** of `src/features/signaling.ts`. This is an in-memory table from six-character session codes to WebRTC negotiation records: an offer, an answer, and the host's and the joiner's ICE candidates. Each record has a five-minute time-to-live.

## Files and modules

- `wrappers.dfy`, module `Wrappers`: `Option`, used for JavaScript's `null` and for omitted fields.
- `rules.dfy`, module `Rules`: the rules engine as pure functions on `GameState` values.
  - The module contains `CreateInitialState`, `CheckWinnerMicro`, `CheckWinnerBig`, `NextMicroIndexFrom`, `IsMicroBoardAvailable`, `GetAvailableMicroBoards`, `IsValidMove`, `MakeMove` and `UndoLastMove`.
  - `UndoLastMove` uses `Replay`, the left fold of `MakeMove` over a list of moves.
  - `FirstCompleteLine` is the early-return scan over the eight lines that both winner checks share. The big board is scanned through `Owners`, which sees only won micro boards as marks.
  - `IsValidMove`, `IsMicroBoardAvailable` and `NextMicroIndexFrom` are plain definitions. What they mean is stated by the lemmas and contracts that use them: `ValidIffChanges`, `SomeMoveAvailable`, `GetAvailableMicroBoards` and `MakeMove`.
- `rules_invariants.dfy`, module `RulesInvariants`: the invariant of reachable states, and how undo and move invert each other.
  - A state is `Reachable` when replaying its own history from the initial state rebuilds it.
  - Every replay of any list of moves from the initial state is reachable (`ReplayReachable`).
- `rules_examples.dfy`, module `RulesExamples`: boards and openings taken from `tests/rules.test.ts`, proved about the model.
- `signaling.dfy`, module `Signaling`: the store as a class `SessionStore` whose `sessions` map field the methods update.
  - The clock is the `now` parameter of each operation, in milliseconds.
  - `Live(sessions, now)` is the set of records a reader can see at `now`.
  - Lazy expiry in `GetSession` and the sweep in `CleanupOldSessions` both leave `Live` unchanged.
  - `GenerateSessionCode` builds the code in a loop from a given sequence of drawn indices.

## Model

| member | source | states |
|---|---|---|
| `Rules.CreateInitialState` | src/lib/rules.ts:16-27 | nine boards of nine empty cells, every micro result undecided, X to move, no forced board, empty history, game undecided |
| `Rules.FirstCompleteLine` | src/lib/rules.ts:41-49 | the result is the first line, in the order rows, columns, diagonals, whose three cells hold the same mark; when there is none, no line from the start index on is complete |
| `Rules.CheckWinnerMicro` | src/lib/rules.ts:29-56 | the result is `Won(p)` exactly when some line is complete, and then `p` owns the first complete line; `Drawn` exactly when no line is complete and all 9 cells are marked; `Undecided` exactly when no line is complete and some cell is empty |
| `Rules.CheckWinnerBig` | src/lib/rules.ts:58-88 | a line counts only when its three micro boards are all won by the same player, so a drawn board never completes a line; the result is `Won(p)` for the first such line, `Drawn` exactly when no line counts and no micro board is undecided, `Undecided` exactly when no line counts and some micro board is undecided |
| `Rules.AvailableFrom` | src/lib/rules.ts:101-105 | from index k on: only undecided boards, every undecided board, strictly ascending |
| `Rules.GetAvailableMicroBoards` | src/lib/rules.ts:94-105 | i is in the result iff `IsMicroBoardAvailable(winners, i)`, meaning board i exists and is undecided; the result is strictly ascending |
| `Rules.MakeMove` | src/lib/rules.ts:125-160 | an illegal move returns the input state; a legal move marks only cell [m][c] with the given player, recomputes only `microWinners[m]`, sets the winner to the big-board scan, hands the turn to the opponent of the given player (not of `currentPlayer`), appends exactly `{m, c, player}` to the history, and forces board c only when it is undecided and the game goes on (otherwise no forced board) |
| `Rules.Replay` | src/lib/rules.ts:166-170 | replaying moves keeps the 9×9 shape; the starting history is a prefix of the result's history; the history grows by at most one entry per move |
| `Rules.UndoLastMove` | src/lib/rules.ts:162-173 | empty history: the state itself; otherwise a well-shaped state with a strictly shorter history |
| `RulesInvariants.InitialInv` | src/lib/rules.ts:16-27 | the initial state satisfies the game invariant `Inv`: the history length equals the number of marked cells; each micro result is the scan of its board; the winner is the scan of the results; X moves first and afterwards the opponent of the last mover; a forced board is undecided and exists only while the game goes on |
| `RulesInvariants.MoveKeepsInv` | src/lib/rules.ts:125-160 | any call of `MakeMove`, legal or not, keeps `Inv` |
| `RulesInvariants.ReplayKeepsInv` | src/lib/rules.ts:166-170 | replaying any moves keeps `Inv` |
| `RulesInvariants.ReplayAppend` | src/lib/rules.ts:166-170 | replaying one more move equals one more `MakeMove` on the replayed state |
| `RulesInvariants.MoveKeepsReachable` | src/lib/rules.ts:125-160 | any move from a reachable state leads to a reachable state |
| `RulesInvariants.ReplayReachable` | src/lib/rules.ts:162-173 | every state obtained by replaying any moves from the initial state is reachable |
| `RulesInvariants.ReachableInv` | src/lib/rules.ts:125-173 | every reachable state satisfies `Inv`; in particular its history length equals its number of marked cells |
| `RulesInvariants.UndoAfterMove` | src/lib/rules.ts:162-173 | undoing a legal move from a reachable state gives back exactly that state |
| `RulesInvariants.UndoThenLastMove` | src/lib/rules.ts:162-173 | on a reachable state with a history, undo gives a reachable state, and replaying the last move on it rebuilds the state |
| `RulesInvariants.RedoAfterUndo` | src/lib/rules.ts:162-173 | on a reachable state with a history, the undone state's history is the old one without its last entry, and that last move is legal there |
| `RulesInvariants.ValidIffChanges` | src/lib/rules.ts:107-133 | `IsValidMove(s, m, c)` holds exactly when `MakeMove(s, m, c, p)` differs from `s` |
| `RulesInvariants.ValidMoveConditions` | src/lib/rules.ts:107-123 | a move is legal exactly when the game is undecided, the target board is in `GetAvailableMicroBoards` (so it exists and is undecided), the cell index is within 0–8 and the cell is empty (the bound stands for the source's read of `undefined`, which is not `null`), and no board is forced or the target is the forced board |
| `RulesInvariants.AvailableIffOpen` | src/lib/rules.ts:94-99 | in a state satisfying `Inv`, `IsMicroBoardAvailable` holds exactly for an index within 0–8 whose board has no complete line and still has an empty cell; an index out of range is never available |
| `RulesInvariants.ForcedBoardFromCell` | src/lib/rules.ts:146-156 | after a legal move at cell c, the target board is `NextMicroIndexFrom(c)` (the function at src/lib/rules.ts:90-92): while it is undecided and the game goes on, it is forced and every legal reply lies in it; once it is decided, no board is forced and every empty cell of every available board is a legal reply while the game goes on |
| `RulesInvariants.DecidedBoardsFrozen` | src/lib/rules.ts:135-142 | a move never changes a decided micro board or its result, and never changes or erases a mark |
| `RulesInvariants.SomeMoveAvailable` | src/lib/rules.ts:107-123 | in a state satisfying `Inv` whose game is undecided, some move is legal, inside the forced board when there is one |
| `RulesExamples.MicroBoardExamples` | tests/rules.test.ts:16-95 | a completed top row wins; the full board X O X / X O O / O X X is drawn; a board with empty cells and no line is undecided |
| `RulesExamples.BigBoardIgnoresDraw` | tests/rules.test.ts:144-172 | X, drawn, X on the top row does not win the game; a big board with every micro board decided and no line is drawn |
| `RulesExamples.FirstMoveExample` | tests/rules.test.ts:280-294 | X at cell 4 of board 0 marks that cell, gives the turn to O, forces board 4 and records one move |
| `RulesExamples.SecondMoveExample` | tests/rules.test.ts:351-372 | after that move, O is refused at cell 4 of board 0 (taken, and not the forced board) and at the empty cell 0 of board 0 (not the forced board); undo after O's reply restores the state after X's move |
| `RulesExamples.CornerMoveExample` | tests/rules.test.ts:343-349 | X at cell 0 of board 0 leaves the game undecided, forces board 0 and leaves its cell 1 empty |
| `RulesExamples.OccupiedCellExample` | tests/rules.test.ts:343-349 | after X at cell 0 of board 0, O in that taken cell is refused and the state is returned unchanged, while cell 1 of the same forced board is legal, so the taken cell alone is the reason |
| `RulesExamples.WonTargetFreesChoice` | tests/rules.test.ts:296-305 | with board 4 already won, a move at cell 4 of board 0 leaves no forced board |
| `Signaling.FreshSessionLifetime` | src/features/signaling.ts:38-48 | a record created at t0 is expired at `now` iff `now > t0 + 300000`: still readable at t0+TTL−1 and at t0+TTL, gone at t0+TTL+1 |
| `Signaling.MergeLaws` | src/features/signaling.ts:50-59 | a patch that supplies no field leaves a record unchanged; applying the same patch twice equals applying it once |
| `Signaling.SweepsCompose` | src/features/signaling.ts:79-86 | a sweep at t1 followed by a sweep at a later t2 leaves exactly what one sweep at t2 leaves |
| `Signaling.SweepIdempotent` | src/features/signaling.ts:79-86 | a second sweep at the same time changes nothing |
| `Signaling.LiveAfterRemovingExpired` | src/features/signaling.ts:42-45 | deleting an expired record does not change what readers see |
| `Signaling.LiveAfterStore` | src/features/signaling.ts:30-36 | storing an unexpired record under a code makes exactly that record visible under it and changes nothing else that readers see |
| `Signaling.PicksOfCode` | src/features/signaling.ts:21-28 | the drawn indices can be read back from the generated code, so different draws give different codes |
| `Signaling.CodeOfPicks` | src/features/signaling.ts:21-28 | every 6-character code over `A-Z0-9` is the code of a valid draw |
| `Signaling.GenerateSessionCode` | src/features/signaling.ts:21-28 | the code has length 6; every character is in the 36-symbol alphabet; character i is the alphabet symbol at draw i |
| `Signaling.SessionStore.constructor` | src/features/signaling.ts:18 | the table starts empty |
| `Signaling.SessionStore.CreateSession` | src/features/signaling.ts:30-36 | installs a record with no offer, no answer, empty candidate lists and `createdAt = now` under the code, overwriting any record there; other codes are untouched; readers now see that record under the code |
| `Signaling.SessionStore.GetSession` | src/features/signaling.ts:38-48 | unknown code: `None`, table unchanged; expired record: deleted, `None`; otherwise the stored record, table unchanged; other codes are untouched; what readers see is unchanged in all cases |
| `Signaling.SessionStore.UpdateSession` | src/features/signaling.ts:50-59 | succeeds iff the code has a live record; on success that record gets every supplied field and keeps the others; on failure only an expired record under the code is removed; other codes are untouched |
| `Signaling.SessionStore.AddIceCandidate` | src/features/signaling.ts:61-77 | succeeds iff the code has a live record; on success it appends exactly the candidate to the host list (`isHost`) or to the joiner list, and the other list and the other fields are unchanged; on failure only an expired record under the code is removed; other codes are untouched |
| `Signaling.SessionStore.CleanupOldSessions` | src/features/signaling.ts:79-86 | removes exactly the records with `now - createdAt > TTL` and keeps every other record unchanged |

Notes on the source:
- At src/lib/rules.ts:147-150, when the board at the played cell is decided, the code computes the list of available boards and then picks `null` whichever way the test goes (`available.length > 0 ? null : null`). That list has no effect, and the model leaves the computation out: the forced board is simply cleared.
- `makeMove` does not check that `player` is `currentPlayer`. The local click handler (src/features/game.tsx:236-240) passes `currentPlayer`, but the handler for a move received from the peer (src/features/game.tsx:114-121) checks only `isValidMove` and passes the peer's `message.player` unchecked, so a peer can play the same mark twice in a row. The model keeps this behaviour: the next player is the opponent of the player argument, and the invariant `Inv` says only that the player to move is the opponent of the last mover, not that marks alternate.

## Left out

- States whose arrays are not nine boards of nine cells with nine results are excluded by the `Shaped` precondition. Every state built by `createInitialState`, `makeMove` and `undoLastMove` has this shape. On other shapes JavaScript would read `undefined` or throw.
- Move indices are integers. An index outside 0–8 reads `undefined` in the source, and the model treats it as an illegal move, as the source does. Non-integer JavaScript numbers are not modelled.
- `SignalingClient` (src/features/signaling.ts:90-165) is left out: it is HTTP `fetch` calls and JSON parsing.
- The `setInterval` timer that runs the sweep every 60 seconds is left out, and so is `Date.now()`. Every store operation takes the time as `now` instead.
- `Math.random()` in `generateSessionCode` is replaced by a given sequence of six indices below 36.
- The store keeps records as values. In the source, `getSession` returns the stored object itself, and `addIceCandidate` pushes onto its arrays in place, so earlier readers of that object see the change. This aliasing is not modelled.
- A `Partial<SessionData>` field that is explicitly set to `undefined` clears the stored field in the source. The model has no such patch: `None` in a `SessionPatch` means the field is not supplied.
- ICE candidates (`RTCIceCandidateInit`) and SDP bodies are modelled as strings.
- The signalling HTTP route (`src/pages/api/signaling/[session].ts`), which infers the candidate role from the presence of an answer, is not part of this model.
- The React game component (`src/features/game.tsx`), the pages and the UI components are not part of this model. Their move handling only calls `isValidMove` and `makeMove`.
- The WebRTC connection, data channels, polling and candidate deduplication are not part of this model.
