/** The turn state machine of `CheckersPanel`: the fields `isPlayerTurn`,
    `selectedRow`, `selectedCol` and `board`, driven by `handleMouseClick`,
    `handleAIMove` and `restart`. The human plays RED, the computer BLACK. */
module Session {
  import opened Options
  import opened Pieces
  import opened Boards
  import opened Moves
  import opened Rules
  import opened Generation
  import opened GameEnd
  import opened Setup

  /** The panel's game state; a selected row of -1 means nothing is selected. */
  datatype Game = Game(board: Board, isPlayerTurn: bool, selectedRow: int, selectedCol: int)

  /** The state after handling an event, and the game-over dialog the source
      would have opened (`Ongoing`: none). */
  datatype Step = Step(game: Game, report: Outcome)

  /** The state the constructor leaves: a fresh board, the player to move,
      nothing selected. */
  function NewGame(): (g: Game)
    ensures g.board == InitializeBoard()
    ensures g.isPlayerTurn && g.selectedRow == -1 && g.selectedCol == -1
    ensures CheckGameEnd(g.board) == Ongoing
    ensures PiecesOnDark(g.board)
  {
    InitialBoardOngoing();
    Game(InitializeBoard(), true, -1, -1)
  }

  /** `restart`: whatever the state, back to the starting one. */
  function Restart(g: Game): (r: Game)
    ensures r.isPlayerTurn && r.selectedRow == -1 && r.selectedCol == -1
    ensures r.board == NewGame().board
  {
    Game(InitializeBoard(), true, -1, -1)
  }

  // ---------------------------------------------------------------------
  // The computer's move

  /** `(int) (Math.random() * n)` for a draw `rand` in `[0, 1)`, with the
      product taken exactly rather than rounded to a double. */
  function PickIndex(rand: real, n: nat): (i: nat)
    requires 0.0 <= rand < 1.0 && n > 0
    ensures i < n
  {
    assert rand * (n as real) < n as real by {
      assert (1.0 - rand) * (n as real) > 0.0;
    }
    (rand * (n as real)).Floor
  }

  /** Every index can be drawn: the draw `i / n` picks index `i`. */
  lemma PickIndexCovers(n: nat, i: nat) returns (rand: real)
    requires i < n
    ensures 0.0 <= rand < 1.0 && PickIndex(rand, n) == i
  {
    rand := (i as real) / (n as real);
    assert rand * (n as real) == i as real;
  }

  /** The move `handleAIMove` selects: a random capture when BLACK has one,
      otherwise a random move, otherwise none. */
  function ChooseAIMove(b: Board, rand: real): (r: Option<Move>)
    requires 0.0 <= rand < 1.0
    // capture first
    ensures AllPossibleMoves(b, Black, true) != [] ==> r.Some? && r.value in AllPossibleMoves(b, Black, true)
    ensures CanCapture(b, Black) ==> r.Some? && PassesEnemy(b, From(r.value), To(r.value))
    ensures r.Some? ==> r.value in AllPossibleMoves(b, Black, false)
    // no move only when BLACK cannot move at all
    ensures r.None? <==> !CanMove(b, Black)
  {
    var captures := AllPossibleMoves(b, Black, true);
    var simple := AllPossibleMoves(b, Black, false);
    NoMovesIff(b, Black);
    CaptureListNonEmptyIff(b, Black);
    if |captures| > 0 then
      var m := captures[PickIndex(rand, |captures|)];
      CaptureOnlyIff(b, Black, m);
      assert simple != [] by {
        assert m in simple;
      }
      Some(m)
    else if |simple| > 0 then Some(simple[PickIndex(rand, |simple|)])
    else None
  }

  /** Any move of the list the policy draws from can be the one chosen. */
  lemma ChooseAIMoveCovers(b: Board, m: Move) returns (rand: real)
    requires (if AllPossibleMoves(b, Black, true) != [] then m in AllPossibleMoves(b, Black, true)
              else m in AllPossibleMoves(b, Black, false))
    ensures 0.0 <= rand < 1.0 && ChooseAIMove(b, rand) == Some(m)
  {
    var list := if AllPossibleMoves(b, Black, true) != [] then AllPossibleMoves(b, Black, true)
                else AllPossibleMoves(b, Black, false);
    var i :| 0 <= i < |list| && list[i] == m;
    rand := PickIndexCovers(|list|, i);
  }

  /** `r` is the board after BLACK plays `m`, a listed move that is a
      capture whenever a capture is listed. */
  ghost predicate ReplyBy(b: Board, m: Move, r: Board) {
    && m in AllPossibleMoves(b, Black, false)
    && (AllPossibleMoves(b, Black, true) != [] ==> m in AllPossibleMoves(b, Black, true))
    && OnBoard(From(m)) && OnBoard(To(m)) && From(m) != To(m) && Occupied(b, From(m))
    && (Get(b, From(m)).value.isQueen ==> Abs(m.toRow - m.fromRow) == Abs(m.toCol - m.fromCol))
    && r == PlayMove(b, From(m), To(m))
  }

  /** The board after the computer plays its chosen move (unchanged when it
      has none). */
  function AIReply(b: Board, rand: real): (r: Board)
    requires 0.0 <= rand < 1.0
    // the board changes exactly when BLACK has a legal move
    ensures r == b <==> !CanMove(b, Black)
    // a changed board is the result of a listed BLACK move, a capture when one is listed
    ensures r != b ==> exists m :: ReplyBy(b, m, r)
  {
    match ChooseAIMove(b, rand)
    case None => b
    case Some(m) =>
      ListedMoveChangesBoard(b, m);
      var r := PlayMove(b, From(m), To(m));
      assert ReplyBy(b, m, r);
      r
  }

  /** A listed BLACK move can be played and always changes the board: its
      target was empty and receives the piece. */
  lemma ListedMoveChangesBoard(b: Board, m: Move)
    requires m in AllPossibleMoves(b, Black, false)
    ensures OnBoard(From(m)) && OnBoard(To(m)) && From(m) != To(m) && Occupied(b, From(m))
    ensures Get(b, From(m)).value.isQueen ==> Abs(m.toRow - m.fromRow) == Abs(m.toCol - m.fromCol)
    ensures PlayMove(b, From(m), To(m)) != b
  {
    GeneratedMoveIsLegal(b, Black, false, m);
    assert Get(PlayMove(b, From(m), To(m)), To(m)) != Get(b, To(m));
  }

  /** `handleAIMove`: play the chosen move, then give the turn back to the
      player unless the game is over. */
  function HandleAIMove(g: Game, rand: real): (r: Step)
    requires 0.0 <= rand < 1.0
    ensures r.game.board == AIReply(g.board, rand)
    ensures r.report == CheckGameEnd(r.game.board)
    ensures r.game.isPlayerTurn <==> r.report == Ongoing || g.isPlayerTurn
    ensures r.game.selectedRow == g.selectedRow && r.game.selectedCol == g.selectedCol
  {
    var b := AIReply(g.board, rand);
    var report := CheckGameEnd(b);
    if report.Over? then Step(g.(board := b), report)
    else Step(g.(board := b, isPlayerTurn := true), report)
  }

  // ---------------------------------------------------------------------
  // The player's click

  function Selected(g: Game): Pos {
    Pos(g.selectedRow, g.selectedCol)
  }

  /** What `handleMouseClick` needs to run without an exception: with
      nothing selected it reads the clicked cell; with a selection it calls
      `isValidMove`. */
  predicate ClickPre(g: Game, row: int, col: int) {
    g.isPlayerTurn ==>
      (g.selectedRow == -1 ==> OnBoard(Pos(row, col)))
      && (g.selectedRow != -1 ==> IsValidMovePre(g.board, Selected(g), Pos(row, col)))
  }

  /** `handleMouseClick`. */
  function HandleMouseClick(g: Game, row: int, col: int, rand: real): (r: Step)
    requires ClickPre(g, row, col) && 0.0 <= rand < 1.0
    // clicks are ignored while it is not the player's turn
    ensures !g.isPlayerTurn ==> r == Step(g, Ongoing)
    // with nothing selected, a click selects a RED piece and changes nothing else
    ensures g.isPlayerTurn && g.selectedRow == -1 ==>
              && r.report == Ongoing
              && r.game.board == g.board && r.game.isPlayerTurn
              && (HasType(g.board, Pos(row, col), Red) ==> Selected(r.game) == Pos(row, col))
              && (!HasType(g.board, Pos(row, col), Red) ==> r.game == g)
    // an illegal destination leaves the board and turn alone and clears the selection
    ensures g.isPlayerTurn && g.selectedRow != -1 && !IsValidMove(g.board, Selected(g), Pos(row, col)) ==>
              && r.report == Ongoing
              && r.game.board == g.board && r.game.isPlayerTurn
              && r.game.selectedRow == -1 && r.game.selectedCol == -1
    // a legal move that ends the game: reported, player's turn and selection kept
    ensures g.isPlayerTurn && g.selectedRow != -1 && IsValidMove(g.board, Selected(g), Pos(row, col))
            && CheckGameEnd(PlayMove(g.board, Selected(g), Pos(row, col))).Over? ==>
              && r.game == g.(board := PlayMove(g.board, Selected(g), Pos(row, col)))
              && r.report == CheckGameEnd(r.game.board)
    // otherwise the computer replies in the same call; the player gets the
    // turn back exactly when the game goes on
    ensures g.isPlayerTurn && g.selectedRow != -1 && IsValidMove(g.board, Selected(g), Pos(row, col))
            && CheckGameEnd(PlayMove(g.board, Selected(g), Pos(row, col))) == Ongoing ==>
              && r.game.board == AIReply(PlayMove(g.board, Selected(g), Pos(row, col)), rand)
              && r.report == CheckGameEnd(r.game.board)
              && (r.game.isPlayerTurn <==> r.report == Ongoing)
              && r.game.selectedRow == -1 && r.game.selectedCol == -1
  {
    if !g.isPlayerTurn then Step(g, Ongoing)
    else if g.selectedRow == -1 then
      var here := Pos(row, col);
      if Get(g.board, here) != None && Get(g.board, here).value.pieceType == Red then
        Step(g.(selectedRow := row, selectedCol := col), Ongoing)
      else Step(g, Ongoing)
    else
      var from := Selected(g);
      var to := Pos(row, col);
      if IsValidMove(g.board, from, to) then
        var played := PlayMove(g.board, from, to);
        var report := CheckGameEnd(played);
        if report.Over? then Step(g.(board := played), report)
        else
          var ai := HandleAIMove(g.(board := played, isPlayerTurn := false), rand);
          Step(ai.game.(selectedRow := -1, selectedCol := -1), ai.report)
      else Step(g.(selectedRow := -1, selectedCol := -1), Ongoing)
  }

  // ---------------------------------------------------------------------
  // Invariants

  /** The computer's reply keeps every piece on a dark square. */
  lemma AIReplyKeepsDark(b: Board, rand: real)
    requires 0.0 <= rand < 1.0 && PiecesOnDark(b)
    ensures PiecesOnDark(AIReply(b, rand))
  {
    var choice := ChooseAIMove(b, rand);
    if choice.Some? {
      GeneratedMoveIsLegal(b, Black, false, choice.value);
      PlayLegalMoveKeepsDark(b, From(choice.value), To(choice.value));
    }
  }

  /** Every click keeps every piece on a dark square. */
  lemma ClickKeepsDark(g: Game, row: int, col: int, rand: real)
    requires ClickPre(g, row, col) && 0.0 <= rand < 1.0
    requires PiecesOnDark(g.board)
    ensures PiecesOnDark(HandleMouseClick(g, row, col, rand).game.board)
  {
    if g.isPlayerTurn && g.selectedRow != -1 && IsValidMove(g.board, Selected(g), Pos(row, col)) {
      PlayLegalMoveKeepsDark(g.board, Selected(g), Pos(row, col));
      var played := PlayMove(g.board, Selected(g), Pos(row, col));
      AIReplyKeepsDark(played, rand);
    }
  }
}
