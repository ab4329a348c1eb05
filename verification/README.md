# Checkers rules engine — Dafny model

This project models the rules engine of a two-player checkers game on an 8×8 board. A human plays RED and a simple computer opponent plays BLACK. The engine lives in the Swing panel `CheckersPanel` and uses two helper classes, `Move` and `Piece`. The model covers:

- board setup;
- move legality for regular pieces and queens;
- move application, with captures and promotion;
- move enumeration;
- game-end detection;
- the computer's capture-first move choice;
- the click-driven turn state machine.

The model is functional. The board is an immutable 8×8 `seq<seq<Option<Piece>>>`, and every operation is a pure function. Each loop of the rules is a recursive function; the setup loops of `initializeBoard` become a sequence comprehension, and its clearing loop disappears because the new board does not depend on the old one. The Java `(newRow, newCol)` loop variables become a step count `k` along a diagonal ray: the cell visited is `from + k·dir` (`Boards.Shift`). `Moves.TranslateMoveDirection` proves that `|rowDiff|` steps reach the target and that no fewer steps do. That makes the two forms equivalent.

Files and modules:

| file | module | models |
|---|---|---|
| `options.dfy` | `Options` | `null` as `None` |
| `pieces.dfy` | `Pieces` | `PieceType.java`, `Piece.java` |
| `board.dfy` | `Boards` | the `board` field, positions and diagonal rays |
| `moves.dfy` | `Moves` | `Move.java` |
| `rules.dfy` | `Rules` | `isValidMove` and `movePiece`, plus the queen-capture clearing done by their callers |
| `generation.dfy` | `Generation` | `getPossibleMovesForPiece`, `getAllPossibleMoves` |
| `game_end.dfy` | `GameEnd` | `checkGameEnd` |
| `setup.dfy` | `Setup` | `initializeBoard` |
| `session.dfy` | `Session` | `handleMouseClick`, `handleAIMove`, `restart` and the constructor's state |

In several places the code differs from the usual rules of checkers. The model keeps what the code does:

- **Queen captures.** A queen may pass at most one enemy. The caller then clears only the cell `to − dir`, just before the landing cell. A human queen that lands several cells past the enemy it passed leaves that enemy on the board (`Rules.QueenPassedEnemySurvivesUnlessAdjacent`). Every generated queen capture lands right after the enemy, so the computer's queen captures always remove it (`Generation.GeneratedQueenCaptureClearsJumped`).
- **Enumeration.** The code lists a queen's capture only one cell past the first occupied cell. So the capture-only list is exactly the listed moves that pass an enemy, and some legal captures are missing from it. Even so, the full list is empty exactly when no legal move exists (`Generation.NoMovesIff`).
- **Game end.** The game-end check looks for pieces and legal moves of both colours, RED first and BLACK second, whoever moves next. If the player's own move ends the game, `isPlayerTurn` stays true and the selection is kept. Only the computer's reply hands the turn back, and only while the game goes on.
- **Capture rule.** The human is never forced to capture. The computer always captures when it can. Its capture list misses long queen landings but is non-empty whenever BLACK has any legal capture (`Generation.CaptureListNonEmptyIff`), so `Session.ChooseAIMove` then picks a move that passes an enemy.
- **Exceptions as preconditions.** Three Java exceptions become preconditions:
  - a `NullPointerException` from an empty origin;
  - a `NullPointerException` from a queen aimed at a non-diagonal square, through the `null` of `translateMoveDirection`;
  - an index error from a click off the board with nothing selected.

  The preconditions are `Rules.IsValidMovePre` and `Session.ClickPre`. The empty-origin case can arise in play. After the player's own move ends the game, the selection stays on the now empty origin (`Session.HandleMouseClick`). Closing the game-over dialog with the window button only hides it. The next click on an empty square then reads the empty origin in `isValidMove` and throws. That state lies outside `Session.ClickPre`.
- **Random choice.** `Math.random()` becomes a parameter `rand`, a real number with `0 ≤ rand < 1`. The picked index is `⌊rand·n⌋`, computed exactly. The source rounds the double product `Math.random() * n` before it truncates, and that rounding is not modelled. The set of indices that can be picked is the same: `Session.PickIndexCovers` shows that every index can be picked.

## Model

| member | source | states |
|---|---|---|
| `Pieces.NewPiece` | src/java/Piece.java:13-16 | a new piece has the given colour and is not a queen |
| `Pieces.SetQueen` | src/java/Piece.java:41-43 | the queen flag becomes exactly the argument; the colour is unchanged |
| `Moves.TranslateMoveDirection` | src/java/Move.java:34-55 | `null` exactly when the row and column differences have different magnitudes; otherwise each component is ±1 and is +1 exactly when its difference is positive; `|rowDiff|` steps along it reach the target and no fewer do, so the walking loops terminate |
| `Moves.EnemyWalk` | src/java/Move.java:77-85 | the loop returns true exactly when some remaining cell of the path holds a piece of the other colour |
| `Moves.HasPassedThroughEnemy` | src/java/Move.java:67-86 | true exactly when a cell strictly between origin and target holds a piece of the other colour; friendly pieces are ignored; false for adjacent cells |
| `Rules.QueenWalk` | src/CheckersPanel.java:160-175 | the queen loop accepts exactly when the rest of the path holds no friendly piece and at most one piece overall, and no piece at all once one has been passed |
| `Rules.IsValidMove` | src/CheckersPanel.java:122-179 | an off-board or occupied target is illegal; every legal move is a diagonal of at least one step; a regular piece may make one forward diagonal step or a forward two-step jump over an enemy, and nothing else; a queen may move any distance in any diagonal direction when the path has no friendly piece and at most one piece |
| `Rules.MovePiece` | src/CheckersPanel.java:189-206 | the target receives the moving piece with the same colour; it is a queen exactly when it already was or lands on its colour's far row (RED row 7, BLACK row 0); the origin is emptied; a two-row move empties the cell in between; no other cell changes |
| `Rules.ClearQueenCapture` | src/CheckersPanel.java:94-98 | for a queen whose path passed an enemy, exactly the cell `to − dir` is emptied; the origin and every other cell keep their content |
| `Rules.PlayMove` | src/CheckersPanel.java:94-100 | the queen clearing followed by `movePiece`: origin emptied; target holds the promoted-if-due piece; only the jumped cell and the `to − dir` cell can also change, and they are emptied |
| `Rules.PlayLegalMove` | src/CheckersPanel.java:93-100 | a legal move removes at most one piece, and that piece is an enemy: the jumped piece of a regular jump, or the piece right before a queen's target; every other cell is unchanged |
| `Rules.QueenPassedEnemySurvivesUnlessAdjacent` | src/CheckersPanel.java:94-98 | an enemy a queen passes is removed exactly when it stands right before the landing cell |
| `Rules.PlayLegalMoveKeepsDark` | src/CheckersPanel.java:148-152 | legal moves are diagonal, so pieces that all stand on dark squares still do after the move |
| `Generation.RayMoves` | src/CheckersPanel.java:287-310 | started on a direction the piece may take, the walk along it emits exactly the legal targets in that direction whose path is free except possibly the cell just before the target; with `captureOnly`, only targets where that cell is occupied |
| `Generation.MovesAlong` | src/CheckersPanel.java:286-311 | over a list of directions the piece may take, the moves are exactly the generable moves heading in one of them |
| `Generation.PossibleMovesForPiece` | src/CheckersPanel.java:270-314 | the moves of one piece are exactly its generable moves: a regular piece's legal forward steps and jumps; a queen's free cells up to the first piece on each diagonal, plus the free cell just past an enemy |
| `Generation.CollectMoves` | src/CheckersPanel.java:252-258 | the row-major scan collects exactly the generable moves of the pieces of the colour at or after the current cell |
| `Generation.AllPossibleMoves` | src/CheckersPanel.java:250-260 | the list holds exactly the generable moves of the pieces of the requested colour |
| `Generation.GeneratedMoveIsLegal` | src/CheckersPanel.java:250-311 | every listed move starts on a piece of the requested colour, lands on the board, passes `isValidMove` and is a diagonal; a regular piece's moves go one or two rows in its forward direction |
| `Generation.GenerableCaptureIff` | src/CheckersPanel.java:295-300 | a generable move is a capture exactly when it passes an enemy, and that enemy stands at `to − dir` |
| `Generation.CaptureOnlyIff` | src/CheckersPanel.java:291-301 | the capture-only list holds exactly the full list's moves that pass an enemy, so it is a subset of the full list |
| `Generation.GeneratedQueenCaptureClearsJumped` | src/CheckersPanel.java:227-231 | for every generated queen capture, the cell `to − dir` is the jumped enemy, and after the move the path is free |
| `Generation.CaptureTarget` | src/CheckersPanel.java:295-300 | every legal capture has a listed capture in the same direction: the move itself, or the landing right past the first piece on its path |
| `Generation.CaptureListNonEmptyIff` | src/CheckersPanel.java:250-311 | the capture-only list is non-empty exactly when some piece of the colour has a legal move that passes an enemy |
| `Generation.GenerableTarget` | src/CheckersPanel.java:295-299 | any piece with a legal move has a generable move in the same direction |
| `Generation.NoMovesIff` | src/CheckersPanel.java:346-349 | the full list is empty exactly when no piece of the colour has a legal move |
| `GameEnd.ColoursFrom` | src/CheckersPanel.java:326-336 | the scan's flags are true exactly when a RED (resp. BLACK) piece stands at or after the current cell |
| `GameEnd.CheckGameEnd` | src/CheckersPanel.java:321-355 | reports the first of these that holds: RED has no pieces (Black wins); BLACK has no pieces (Red wins); RED has no legal move (Black wins, no moves); BLACK has no legal move (Red wins, no moves); otherwise the game goes on |
| `Setup.InitializeBoard` | src/CheckersPanel.java:55-74 | RED stands exactly on the dark squares of rows 0-2 and BLACK exactly on those of rows 5-7; rows 3-4 are empty; every piece is on a dark square and none is a queen |
| `Setup.InitialBoardOngoing` | src/CheckersPanel.java:55-74 | the starting position is not a finished game |
| `Session.NewGame` | src/CheckersPanel.java:24-39 | a fresh game holds the starting board of `initializeBoard`, has the player to move and nothing selected, every piece on a dark square, and is not over |
| `Session.Restart` | src/CheckersPanel.java:437-443 | from any state, gives back the starting board with the player to move and nothing selected |
| `Session.PickIndex` | src/CheckersPanel.java:217 | `(int)(Math.random() * n)`, with the product taken exactly, is a valid index below `n` |
| `Session.PickIndexCovers` | src/CheckersPanel.java:222 | every index can be picked by some draw |
| `Session.ChooseAIMove` | src/CheckersPanel.java:211-224 | whenever BLACK has any legal move that passes an enemy, the chosen move passes an enemy, and it comes from the capture-only list whenever that list is non-empty; every chosen move is a listed BLACK move; no move is chosen exactly when BLACK has no legal move |
| `Session.ChooseAIMoveCovers` | src/CheckersPanel.java:216-223 | every move of the list the policy draws from can be the one chosen |
| `Session.AIReply` | src/CheckersPanel.java:211-234 | the computer's reply changes the board exactly when BLACK has a legal move; a changed board is the result of playing a listed BLACK move, a capture whenever one is listed |
| `Session.HandleAIMove` | src/CheckersPanel.java:211-241 | plays the chosen move; the reported outcome is the game-end check of the new board; the turn returns to the player exactly when the game goes on; the selection is untouched |
| `Session.HandleMouseClick` | src/CheckersPanel.java:82-111 | clicks are ignored while it is not the player's turn; with nothing selected, a click selects a RED piece and changes nothing else; an illegal destination leaves board and turn alone and clears the selection; a legal move that ends the game is reported, with the player's turn and selection kept; otherwise the computer replies in the same call, the turn returns to the player exactly when the game goes on, and the selection is cleared |
| `Session.AIReplyKeepsDark` | src/CheckersPanel.java:226-234 | the computer's move keeps every piece on a dark square |
| `Session.ClickKeepsDark` | src/CheckersPanel.java:82-111 | every click keeps every piece on a dark square |

## Left out

- Rendering is left out: `paintComponent`, `drawBoard`, `drawPieces` and `drawSelection`. It is presentation with no rules in it.
- Loading the crown image is left out (I/O).
- The mouse listener's pixel-to-cell division is left out. The model starts from the `(row, col)` it passes to `handleMouseClick`.
- The game-over dialog is not modelled. `checkGameEnd` returns the outcome the dialog would announce. The dialog's Restart button corresponds to `Session.Restart`, and its Exit button ends the process.
- The window, menu and theme set-up are left out: `Checkers`, `Game` and `Controller`. So is the older 10×10 integer-coded prototype, `PlayField` and `PlayFieldPanel`. None of them holds rules.
- `Math.random()` is replaced by the explicit draw `rand` in `[0, 1)`, a real number.
- `Session.PickIndex` does not model the rounding of the double product `Math.random() * n`. For some draws just below a multiple of `1/n`, Java rounds the product up and picks the next index, while the model picks `⌊rand·n⌋`. Both pick only from `0 … n − 1`, and every one of those indices can be picked.
- Java exceptions are not modelled. The model states, as preconditions, the conditions under which none is thrown.
- `Move` getters and final fields need no proof. The datatype's fields are the getters, and a datatype value cannot change.
- `translateMoveDirection` and `hasPassedThroughEnemy` leave the board alone. Both are pure functions here, so this holds by construction.
- Queen-status monotonicity is stated per move in `Rules.MovePiece`: the moved piece is a queen when it already was. The model has no piece identity across moves. It therefore states no separate lemma over whole sequences of moves.
- `Moves.HasPassedThroughEnemy` requires an occupied origin in every case. The source reads the origin's colour only once it meets a piece on the path. Every caller passes an occupied origin.
