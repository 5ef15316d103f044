/** Turn handling of the checkers component: what a click on a square or on a
    piece does, what `movePiece` does after the board update, and `resetGame`.
    Each operation is first given as a function from one `Game` value to the
    next; the class `CheckersComponent` then performs it in place on its
    fields and is proved to agree with that function. */
module CheckersGame {
  import opened CheckersBoard
  import opened MoveRules

  /** How a call ends. `gameOver` calls itself before doing anything else, so
      reaching it never returns normally; `GameOver` marks that end, with the
      board already updated. */
  datatype Outcome = Continue | GameOver(winner: Color)

  /** The component's fields: `board`, `selectedPiece`, `currentPlayer`,
      `clickedRow` and `clickedCol`. */
  datatype Game = Game(board: Board, selected: Option<Pos>, player: Color, clickedRow: int, clickedCol: int)

  datatype Step = Step(game: Game, outcome: Outcome)

  /** What the component needs of its state: a built board and, when a piece
      is selected, a selection on the board. */
  predicate ValidGame(g: Game)
  {
    WellFormed(g.board) && (g.selected.Some? ==> InRange(g.selected.value))
  }

  /** The state after `ngOnInit` or `resetGame`. */
  function InitialGame(): (g: Game)
    ensures ValidGame(g)
  {
    Game(InitialBoard(), None, Red, -1, -1)
  }

  /** `movePiece()`, with the target taken from the last click. */
  ghost function MovePieceStep(g: Game): (st: Step)
    requires ValidGame(g)
    ensures ValidGame(st.game)
  {
    var t := Pos(g.clickedRow, g.clickedCol);
    if g.selected.None? then Step(g, Continue)
    else if !InRange(t) then Step(g, Continue)
    else if !IsValidMove(g.board, g.selected, g.player, t) then Step(g, Continue)
    else
      var s := g.selected.value;
      var b := MoveBoard(g.board, s, t);
      if IsJump(s, t) && !AnyPieceOf(b, Opponent(g.player)) then
        Step(g.(board := b), GameOver(g.player))
      else if IsJump(s, t) && CanCaptureAgain(b, t) then
        Step(g.(board := b, selected := Some(t)), Continue)
      else
        Step(g.(board := b, selected := None, player := Opponent(g.player)), Continue)
  }

  /** `onSquareClick(row, col)`. */
  ghost function SquareClickStep(g: Game, row: int, col: int): (st: Step)
    requires ValidGame(g) && InRange(Pos(row, col))
    ensures ValidGame(st.game)
  {
    var clicked := g.(clickedRow := row, clickedCol := col);
    var p := Pos(row, col);
    if g.selected.None? then
      if PieceAt(g.board, p).Some? && PosColor(row, col) == Some(g.player) then
        Step(clicked.(selected := Some(p)), Continue)
      else
        Step(clicked, Continue)
    else if IsValidMove(g.board, g.selected, g.player, p) then
      MovePieceStep(clicked)
    else if PosColor(row, col) == Some(g.player) then
      Step(clicked.(selected := Some(p)), Continue)
    else
      Step(clicked, Continue)
  }

  /** `onPieceClick(row, col)`. */
  function PieceClickStep(g: Game, row: int, col: int): (g': Game)
    requires ValidGame(g) && InRange(Pos(row, col))
    ensures ValidGame(g')
  {
    if PieceAt(g.board, Pos(row, col)).Some? && PosColor(row, col) == Some(g.player) then
      g.(selected := Some(Pos(row, col)))
    else
      g
  }

  // ---------------------------------------------------------------------------
  // Properties of the transitions

  /** `movePiece` does nothing without a selection, with the last click off
      the board, or when the move it names is not valid. */
  lemma MovePieceRefused(g: Game)
    requires ValidGame(g)
    requires !IsValidMove(g.board, g.selected, g.player, Pos(g.clickedRow, g.clickedCol))
    ensures MovePieceStep(g) == Step(g, Continue)
  {
  }

  /** Which board `movePiece` leaves behind. */
  lemma MovePieceStepBoard(g: Game)
    requires ValidGame(g)
    ensures var t := Pos(g.clickedRow, g.clickedCol);
            MovePieceStep(g).game.board ==
              if IsValidMove(g.board, g.selected, g.player, t) then MoveBoard(g.board, g.selected.value, t)
              else g.board
    ensures MovePieceStep(g).game.clickedRow == g.clickedRow
    ensures MovePieceStep(g).game.clickedCol == g.clickedCol
  {
    var t := Pos(g.clickedRow, g.clickedCol);
    if IsValidMove(g.board, g.selected, g.player, t) {
      var s := g.selected.value;
      var b := MoveBoard(g.board, s, t);
      if IsJump(s, t) && !AnyPieceOf(b, Opponent(g.player)) {
        assert MovePieceStep(g) == Step(g.(board := b), GameOver(g.player));
      } else if IsJump(s, t) && CanCaptureAgain(b, t) {
        assert MovePieceStep(g) == Step(g.(board := b, selected := Some(t)), Continue);
      } else {
        assert MovePieceStep(g) == Step(g.(board := b, selected := None, player := Opponent(g.player)), Continue);
      }
    } else {
      assert MovePieceStep(g) == Step(g, Continue);
    }
  }

  /** After a one-step move the piece object stands on the target, the source
      is empty, nothing else on the board changed, the selection is cleared
      and the other player moves. */
  lemma StepMoveHandsOver(g: Game)
    requires ValidGame(g) && IsValidMove(g.board, g.selected, g.player, Pos(g.clickedRow, g.clickedCol))
    requires IsStep(g.selected.value, Pos(g.clickedRow, g.clickedCol))
    ensures var st := MovePieceStep(g);
            var s, t := g.selected.value, Pos(g.clickedRow, g.clickedCol);
            && st.outcome == Continue
            && st.game.selected == None
            && st.game.player == Opponent(g.player)
            && PieceAt(st.game.board, t) == PieceAt(g.board, s)
            && PieceAt(st.game.board, s).None?
            && (forall q :: InRange(q) && q != s && q != t ==> PieceAt(st.game.board, q) == PieceAt(g.board, q))
  {
  }

  /** After a jump the piece object stands on the landing square and the source
      and the square jumped over are empty. Then: if no piece of the opponent's
      stored colour is left the game ends with the mover as winner, selection
      and player untouched; otherwise, if `hasCaptureMove` holds at the landing
      square, the landing square becomes the selection and the same player moves
      again; otherwise the selection is cleared and the other player moves. */
  lemma JumpHandover(g: Game)
    requires ValidGame(g) && IsValidMove(g.board, g.selected, g.player, Pos(g.clickedRow, g.clickedCol))
    requires IsJump(g.selected.value, Pos(g.clickedRow, g.clickedCol))
    ensures var st := MovePieceStep(g);
            var s, t := g.selected.value, Pos(g.clickedRow, g.clickedCol);
            var b := st.game.board;
            && PieceAt(b, t) == PieceAt(g.board, s)
            && PieceAt(b, s).None?
            && PieceAt(b, Midpoint(s, t)).None?
            && (st.outcome.GameOver? <==> !AnyPieceOf(b, Opponent(g.player)))
            && (st.outcome.GameOver? ==>
                  st.outcome.winner == g.player && st.game.selected == g.selected && st.game.player == g.player)
            && (st.outcome == Continue && CanCaptureAgain(b, t) ==>
                  st.game.selected == Some(t) && st.game.player == g.player)
            && (st.outcome == Continue && !CanCaptureAgain(b, t) ==>
                  st.game.selected == None && st.game.player == Opponent(g.player))
  {
    var s, t := g.selected.value, Pos(g.clickedRow, g.clickedCol);
    var b := MoveBoard(g.board, s, t);
    if !AnyPieceOf(b, Opponent(g.player)) {
      assert MovePieceStep(g) == Step(g.(board := b), GameOver(g.player));
    } else if CanCaptureAgain(b, t) {
      assert MovePieceStep(g) == Step(g.(board := b, selected := Some(t)), Continue);
    } else {
      assert MovePieceStep(g) == Step(g.(board := b, selected := None, player := Opponent(g.player)), Continue);
    }
  }

  /** The game ends only on a jump that leaves no piece of the opponent's
      stored colour anywhere on the board. */
  lemma GameOverOnlyAfterWinningJump(g: Game)
    requires ValidGame(g) && MovePieceStep(g).outcome.GameOver?
    ensures g.selected.Some? && IsJump(g.selected.value, Pos(g.clickedRow, g.clickedCol))
    ensures MovePieceStep(g).outcome.winner == g.player
    ensures forall p :: InRange(p) ==> !HasColor(MovePieceStep(g).game.board, p, Opponent(g.player))
  {
    var t := Pos(g.clickedRow, g.clickedCol);
    if IsValidMove(g.board, g.selected, g.player, t) && IsJump(g.selected.value, t) {
      JumpHandover(g);
    }
  }

  /** `movePiece` never adds a piece to the board, and removes one exactly when
      it jumps over an occupied square. */
  lemma MovePieceNeverAddsPieces(g: Game)
    requires ValidGame(g)
    ensures |Occupied(MovePieceStep(g).game.board)| <= |Occupied(g.board)|
    ensures var t := Pos(g.clickedRow, g.clickedCol);
            |Occupied(MovePieceStep(g).game.board)| ==
              |Occupied(g.board)| -
              (if IsValidMove(g.board, g.selected, g.player, t) && IsJump(g.selected.value, t)
                  && PieceAt(g.board, Midpoint(g.selected.value, t)).Some?
               then 1 else 0)
  {
    var t := Pos(g.clickedRow, g.clickedCol);
    MovePieceStepBoard(g);
    if IsValidMove(g.board, g.selected, g.player, t) {
      MoveBoardCount(g.board, g.selected.value, t);
    }
  }

  /** No transition ever makes a king. */
  lemma TransitionsKeepNoKings(g: Game, row: int, col: int)
    requires ValidGame(g) && NoKings(g.board) && InRange(Pos(row, col))
    ensures NoKings(MovePieceStep(g).game.board)
    ensures NoKings(SquareClickStep(g, row, col).game.board)
    ensures NoKings(PieceClickStep(g, row, col).board)
  {
    var t := Pos(g.clickedRow, g.clickedCol);
    MovePieceStepBoard(g);
    if IsValidMove(g.board, g.selected, g.player, t) {
      MoveBoardNoKings(g.board, g.selected.value, t);
    }
    var clicked := g.(clickedRow := row, clickedCol := col);
    if g.selected.Some? && IsValidMove(g.board, g.selected, g.player, Pos(row, col)) {
      assert SquareClickStep(g, row, col) == MovePieceStep(clicked);
      MovePieceStepBoard(clicked);
      MoveBoardNoKings(g.board, g.selected.value, Pos(row, col));
    } else {
      assert SquareClickStep(g, row, col).game.board == g.board;
    }
  }

  /** With nothing selected, a click records its coordinates and selects the
      square exactly when it holds a piece and its position colour is the
      current player's; the board and the player stay as they were. */
  lemma ClickWithoutSelection(g: Game, row: int, col: int)
    requires ValidGame(g) && InRange(Pos(row, col)) && g.selected.None?
    ensures var st := SquareClickStep(g, row, col);
            && st.outcome == Continue
            && st.game.board == g.board && st.game.player == g.player
            && st.game.clickedRow == row && st.game.clickedCol == col
            && (st.game.selected == Some(Pos(row, col)) <==>
                  PieceAt(g.board, Pos(row, col)).Some? && PosColor(row, col) == Some(g.player))
            && (st.game.selected.None? <==>
                  !(PieceAt(g.board, Pos(row, col)).Some? && PosColor(row, col) == Some(g.player)))
  {
  }

  /** With a selection and a click that is not a valid move, the board and the
      player stay; the selection moves to the clicked square exactly when its
      position colour is the current player's, whether or not it holds a
      piece. */
  lemma ClickOnInvalidTarget(g: Game, row: int, col: int)
    requires ValidGame(g) && InRange(Pos(row, col)) && g.selected.Some?
    requires !IsValidMove(g.board, g.selected, g.player, Pos(row, col))
    ensures var st := SquareClickStep(g, row, col);
            && st.outcome == Continue
            && st.game.board == g.board && st.game.player == g.player
            && st.game.clickedRow == row && st.game.clickedCol == col
            && st.game.selected == (if PosColor(row, col) == Some(g.player) then Some(Pos(row, col)) else g.selected)
  {
  }

  /** With a selection and a valid target, the click records the coordinates
      and performs `movePiece` on that target: the selected piece lands there
      and its source empties. */
  lemma ClickOnValidTarget(g: Game, row: int, col: int)
    requires ValidGame(g) && InRange(Pos(row, col)) && g.selected.Some?
    requires IsValidMove(g.board, g.selected, g.player, Pos(row, col))
    ensures SquareClickStep(g, row, col) == MovePieceStep(g.(clickedRow := row, clickedCol := col))
    ensures var st := SquareClickStep(g, row, col);
            && st.game.clickedRow == row && st.game.clickedCol == col
            && PieceAt(st.game.board, Pos(row, col)) == PieceAt(g.board, g.selected.value)
            && PieceAt(st.game.board, g.selected.value).None?
  {
    var clicked := g.(clickedRow := row, clickedCol := col);
    var s, t := g.selected.value, Pos(row, col);
    assert SquareClickStep(g, row, col) == MovePieceStep(clicked);
    MovePieceStepBoard(clicked);
    var b := MoveBoard(g.board, s, t);
    assert MovePieceStep(clicked).game.board == b;
    assert PieceAt(b, t) == PieceAt(g.board, s) && PieceAt(b, s).None?;
  }

  /** A click on a piece selects it exactly when the square holds a piece and
      its position colour is the current player's; nothing else changes. */
  lemma PieceClickSelects(g: Game, row: int, col: int)
    requires ValidGame(g) && InRange(Pos(row, col))
    ensures var g' := PieceClickStep(g, row, col);
            && g'.board == g.board && g'.player == g.player
            && g'.clickedRow == g.clickedRow && g'.clickedCol == g.clickedCol
            && (g'.selected == Some(Pos(row, col)) <==>
                  g.selected == Some(Pos(row, col)) ||
                  (PieceAt(g.board, Pos(row, col)).Some? && PosColor(row, col) == Some(g.player)))
            && (g'.selected != g.selected ==> g'.selected == Some(Pos(row, col)))
  {
  }

  /** The opening move of red: select (5,0), then click (4,1). The piece moves,
      (5,0) is empty and it is black's turn. */
  lemma OpeningMove()
    ensures var g1 := SquareClickStep(InitialGame(), 5, 0);
            var g2 := SquareClickStep(g1.game, 4, 1);
            && g1.game.selected == Some(Pos(5, 0))
            && g2.outcome == Continue
            && PieceAt(g2.game.board, Pos(4, 1)) == Some(Piece(Red, false))
            && PieceAt(g2.game.board, Pos(5, 0)) == None
            && g2.game.selected == None
            && g2.game.player == Black
  {
    var b := InitialBoard();
    InitialLayout(Pos(5, 0));
    InitialLayout(Pos(4, 1));
    var g1 := SquareClickStep(InitialGame(), 5, 0);
    assert g1.game == InitialGame().(clickedRow := 5, clickedCol := 0, selected := Some(Pos(5, 0)));
    assert IsValidMove(b, Some(Pos(5, 0)), Red, Pos(4, 1));
  }

  /** Red's jump from (6,1) to (4,3) on the starting board passes over red's
      own piece at (5,2), whose position colour is the mover's. The move is
      accepted and removes that piece. The landing square has no position
      colour, so `hasCaptureMove` looks for red pieces around it; none has an
      empty square between, and the turn passes to black. */
  lemma RedJumpsOwnPiece()
    ensures var g1 := SquareClickStep(InitialGame(), 6, 1);
            var g2 := SquareClickStep(g1.game, 4, 3);
            && PieceAt(InitialBoard(), Pos(5, 2)) == Some(Piece(Red, false))
            && g1.game.selected == Some(Pos(6, 1))
            && CaptureOpponent(Pos(4, 3)) == Red
            && g2.outcome == Continue
            && PieceAt(g2.game.board, Pos(4, 3)) == Some(Piece(Red, false))
            && PieceAt(g2.game.board, Pos(6, 1)) == None
            && PieceAt(g2.game.board, Pos(5, 2)) == None
            && g2.game.selected == None
            && g2.game.player == Black
  {
    var b := InitialBoard();
    var s, t := Pos(6, 1), Pos(4, 3);
    InitialLayout(s);
    InitialLayout(t);
    InitialLayout(Pos(5, 2));
    InitialLayout(Pos(5, 4));
    InitialLayout(Pos(0, 1));
    var g1 := SquareClickStep(InitialGame(), 6, 1);
    assert g1.game == InitialGame().(clickedRow := 6, clickedCol := 1, selected := Some(s));
    assert IsValidMove(b, Some(s), Red, t);
    var clicked := g1.game.(clickedRow := 4, clickedCol := 3);
    assert SquareClickStep(g1.game, 4, 3) == MovePieceStep(clicked);
    var b' := MoveBoard(b, s, t);
    assert HasColor(b', Pos(0, 1), Black);
    assert AnyPieceOf(b', Black);
    CaptureOpponentOnBoard(t);
    forall o | InRange(o) && HasColor(b', o, Red) && IsJump(o, t)
      ensures !CaptureLine(b', o, t)
    {
      InitialLayout(o);
      assert o == Pos(6, 5);
    }
    assert !CanCaptureAgain(b', t);
  }

  // ---------------------------------------------------------------------------
  // The component

  class CheckersComponent {
    var board: Board
    var selectedPiece: Option<Pos>
    var currentPlayer: Color
    var clickedRow: int
    var clickedCol: int

    function State(): Game
      reads this
    {
      Game(board, selectedPiece, currentPlayer, clickedRow, clickedCol)
    }

    ghost predicate Valid()
      reads this
    {
      ValidGame(State())
    }

    /** The field initialisers followed by `ngOnInit`. */
    constructor ()
      ensures Valid() && State() == InitialGame()
    {
      var b := BuildInitialBoard();
      board := b;
      selectedPiece := None;
      currentPlayer := Red;
      clickedRow := -1;
      clickedCol := -1;
    }

    /** `resetGame()`: the result does not depend on the state before, so two
        resets in a row leave the same state as one. */
    method ResetGame()
      modifies this
      ensures Valid() && State() == InitialGame()
    {
      board := BuildInitialBoard();
      selectedPiece := None;
      currentPlayer := Red;
      clickedRow := -1;
      clickedCol := -1;
    }

    /** `getPieces(color)`. */
    method GetPieces(color: Color) returns (pieces: seq<Pos>)
      requires Valid()
      ensures ListsPiecesOf(board, color, pieces)
    {
      var b := board;
      pieces := [];
      var row := 0;
      while row < 8
        invariant 0 <= row <= 8
        invariant pieces == PiecesBefore(b, color, row)
      {
        var col := 0;
        while col < 8
          invariant 0 <= col <= 8
          invariant pieces == PiecesBefore(b, color, row) + RowPiecesBefore(b, color, row, col)
        {
          var piece := b[row][col].piece;
          RowPiecesBeforeNext(b, color, row, col);
          if piece.Some? && piece.value.color == color {
            AppendAfterJoin(PiecesBefore(b, color, row), RowPiecesBefore(b, color, row, col), Pos(row, col));
            pieces := pieces + [Pos(row, col)];
          }
          col := col + 1;
        }
        assert PiecesBefore(b, color, row + 1) ==
                 PiecesBefore(b, color, row) + RowPiecesBefore(b, color, row, 8);
        row := row + 1;
      }
      PiecesOfLists(b, color, pieces);
    }

    /** `hasCaptureMove(selectedPiece)`. */
    method HasCaptureMove(src: Pos) returns (found: bool)
      requires Valid() && InRange(src)
      ensures found == CanCaptureAgain(board, src)
    {
      var opponentColor := if PosColor(src.row, src.col) == Some(Red) then Black else Red;
      var opponentPieces := GetPieces(opponentColor);
      var b := board;
      var i := 0;
      while i < |opponentPieces|
        invariant 0 <= i <= |opponentPieces|
        invariant forall j :: 0 <= j < i ==> !CaptureLine(b, opponentPieces[j], src)
      {
        var o := opponentPieces[i];
        if Abs(o.row - src.row) == 2 && Abs(o.col - src.col) == 2 {
          var captured := Pos((o.row + src.row) / 2, (o.col + src.col) / 2);
          assert captured == Midpoint(o, src);
          if b[captured.row][captured.col].piece.None? {
            assert CaptureLine(b, o, src);
            return true;
          }
          assert !CaptureLine(b, o, src);
        } else {
          assert !CaptureLine(b, o, src);
        }
        i := i + 1;
      }
      forall p | InRange(p) && HasColor(b, p, opponentColor) ensures !CaptureLine(b, p, src) {
        var j :| 0 <= j < |opponentPieces| && opponentPieces[j] == p;
      }
      return false;
    }

    /** `movePiece()`. */
    method MovePiece() returns (outcome: Outcome)
      requires Valid()
      modifies this
      ensures Valid()
      ensures Step(State(), outcome) == MovePieceStep(old(State()))
    {
      outcome := Continue;
      if selectedPiece.None? {
        return;
      }
      var src := selectedPiece.value;
      var target := Pos(clickedRow, clickedCol);
      if target.row < 0 || target.row > 7 || target.col < 0 || target.col > 7 {
        return;
      }
      if !IsValidMove(board, selectedPiece, currentPlayer, target) {
        return;
      }
      ghost var g := State();
      board := SetPiece(board, target, board[src.row][src.col].piece);
      board := SetPiece(board, src, None);
      if Abs(target.row - src.row) == 2 && Abs(target.col - src.col) == 2 {
        var captured := Pos((target.row + src.row) / 2, (target.col + src.col) / 2);
        board := SetPiece(board, captured, None);
        assert board == MoveBoard(g.board, src, target);
        var opponentColor := if currentPlayer == Red then Black else Red;
        var opponentPieces := GetPieces(opponentColor);
        if |opponentPieces| == 0 {
          assert !AnyPieceOf(board, Opponent(g.player));
          outcome := GameOver(currentPlayer);
          return;
        }
        assert opponentPieces[0] in opponentPieces;
        assert AnyPieceOf(board, Opponent(g.player));
        var again := HasCaptureMove(target);
        if again {
          selectedPiece := Some(target);
          return;
        }
      } else {
        assert board == MoveBoard(g.board, src, target);
      }
      selectedPiece := None;
      currentPlayer := if currentPlayer == Red then Black else Red;
    }

    /** `onSquareClick(row, col)`. */
    method OnSquareClick(row: int, col: int) returns (outcome: Outcome)
      requires Valid() && InRange(Pos(row, col))
      modifies this
      ensures Valid()
      ensures Step(State(), outcome) == SquareClickStep(old(State()), row, col)
    {
      outcome := Continue;
      clickedCol := col;
      clickedRow := row;
      if selectedPiece.None? {
        var piece := board[row][col].piece;
        if piece.Some? && PosColor(row, col) == Some(currentPlayer) {
          selectedPiece := Some(Pos(row, col));
        }
      } else {
        var isValidMove := IsValidMove(board, selectedPiece, currentPlayer, Pos(row, col));
        if isValidMove {
          outcome := MovePiece();
        } else if PosColor(row, col) == Some(currentPlayer) {
          selectedPiece := Some(Pos(row, col));
        }
      }
    }

    /** `onPieceClick(row, col)`. */
    method OnPieceClick(row: int, col: int)
      requires Valid() && InRange(Pos(row, col))
      modifies this
      ensures Valid()
      ensures State() == PieceClickStep(old(State()), row, col)
    {
      var piece := board[row][col].piece;
      var pieceColor := PosColor(row, col);
      if piece.Some? && pieceColor == Some(currentPlayer) {
        selectedPiece := Some(Pos(row, col));
      }
    }
  }
}
