# Checkers component of gator-arcade, modelled in Dafny

This project models the rule engine of the checkers game in the gator-arcade
Angular application: the class `CheckersComponent` in
`src/gator-arcade/src/app/checkers/checkers.component.ts`. It covers the following:

- the 8×8 board of squares and how it is built (`ngOnInit`, `resetGame`);
- the colour a square's coordinates give it (`getPieceColor`);
- move legality (`isValidMove`) and `isKing`;
- the list of pieces of one colour (`getPieces`);
- the follow-up capture test (`hasCaptureMove`);
- the move itself (`movePiece`);
- the two click handlers (`onSquareClick`, `onPieceClick`).

The project has three modules.

- `CheckersBoard` (`board.dfy`) defines the board and squares.
  - A board is a `seq<seq<Square>>`.
  - It defines the position colour (`PosColor`), which uses JavaScript's truncating `%`.
  - It defines the starting layout, with `BuildInitialBoard`, the nested loops of `ngOnInit`.
  - It defines the list `getPieces` returns (`PiecesOf`).
  - It proves that this list is in row-major order and lists exactly the squares that hold a piece of that stored colour, and that this description fixes the list.
- `MoveRules` (`rules.dfy`) covers move legality and the board update of a move.
  - `IsValidMove` gives the legality verdict.
  - `MoveBoard` is the board update of a move.
  - It proves that a move never adds a piece.
  - It defines the follow-up capture test.
- `CheckersGame` (`game.dfy`) covers the component's state and transitions.
  - The component's fields form a `Game` value.
  - Each handler is a step function from one `Game` to the next (`MovePieceStep`, `SquareClickStep`, `PieceClickStep`), with lemmas about them.
  - The class `CheckersComponent` has the same fields. Its methods update them in place and are proved to agree with the step functions.

Two notions of colour are kept apart, because the component keeps them apart.
The *position colour* (`PosColor`, `getPieceColor`) depends only on
coordinates. It is black on the odd squares of rows 0–2, red on those of rows
5–7, and absent elsewhere. The *stored colour* of a piece object is fixed when
the board is built. Selection, move direction, the capture check and the
choice of opponent in `hasCaptureMove` all use the position colour.
Only `getPieces`, and with it the game-over test and the pieces
`hasCaptureMove` examines, reads the stored colour.

`gameOver` calls itself before doing anything else. Reaching it never returns
normally: the call ends in an error that propagates out of `movePiece` and
`onSquareClick`. The model returns the outcome `GameOver(winner)` at that
point. By then the board has already been updated, and the selection and the
current player are untouched.

### Rules as the code applies them

These rules differ from the usual rules of checkers. The model follows the code in each case.

- **Capture check.** A jump is accepted when the *position colour* of the square jumped over equals the mover's colour. That square need not hold a piece, let alone an opponent's (`JumpMoveRule`).
  - Every jump over rows 3 or 4 is refused (`NoJumpOverMiddleRows`). So red at (5,0) cannot jump a black piece at (4,1) onto (3,2).
  - A player may jump over their own piece and remove it. On the starting board, red's jump from (6,1) to (4,3) removes red's piece at (5,2) (`RedJumpsOwnPiece`).
- **Move direction.** Direction comes from the position colour of the source square, not from the stored colour or king flag of the piece on it.
  - A source square without a position colour (rows 3 and 4, or even squares) may step either way (`StepMoveRule`).
  - The king branch of `isValidMove` repeats the guard of the one-step branch, which always returns, so it never runs (`ValidMoveIgnoresPieceContents`).
  - No piece ever becomes a king (`InitialNoKings`, `TransitionsKeepNoKings`).
- **Continuing a capture.** `hasCaptureMove` does not ask whether the landed piece can jump again. It looks for a piece of the opponent's stored colour two diagonal steps away, with an *empty* square between (`CanCaptureAgainFromList`).
  - The opponent is black only when the landing square's position colour is red. Otherwise it is red, even when red has just moved (`CaptureOpponentOnBoard`).
- **Game over.** Nothing latches a terminal state after game over. Game over ends the call, and the model's state after it is an ordinary state.
- **Reselection.** With a piece selected, a click on a square that is not a valid move moves the selection there whenever the square's position colour is the current player's. This happens even if the square is empty (`ClickOnInvalidTarget`).

## Model

| member | source | states |
|---|---|---|
| CheckersBoard.JsRem2 | src/gator-arcade/src/app/checkers/checkers.component.ts:36-39 | the remainder of `x % 2` lies strictly between -2 and 2, differs from `x` by a multiple of 2, and is positive only for positive `x` and negative only for negative `x` (truncating division) |
| CheckersBoard.PosColorOnBoard | src/gator-arcade/src/app/checkers/checkers.component.ts:35-43 | on the board, `getPieceColor` is black exactly on the odd squares of rows 0–2, red exactly on the odd squares of rows 5–7, and null exactly on rows 3–4 and the even squares |
| CheckersBoard.PosColorNegativeSum | src/gator-arcade/src/app/checkers/checkers.component.ts:35-43 | coordinates with a negative sum have no position colour, because the truncated remainder is never 1 there |
| CheckersBoard.PosColor | src/gator-arcade/src/app/checkers/checkers.component.ts:35-43 | no contract; characterised by `PosColorOnBoard` and `PosColorNegativeSum` |
| CheckersBoard.Opponent | src/gator-arcade/src/app/checkers/checkers.component.ts:229 | the colour flip used for the game-over test and the handover at :245 always yields the other colour |
| CheckersBoard.SetPiece | src/gator-arcade/src/app/checkers/checkers.component.ts:219-220 | assigning one square's piece keeps the board well formed, puts the new value at that square and leaves every other square as it was |
| CheckersBoard.InitialSquare | src/gator-arcade/src/app/checkers/checkers.component.ts:24-29 | no contract; the square object pushed for (row, col), characterised by `InitialBoard` and `InitialLayout` |
| CheckersBoard.InitialBoard | src/gator-arcade/src/app/checkers/checkers.component.ts:21-32 | the built board is 8×8, each square knows its own row and column, and `isDark` is `row % 2 == col % 2` |
| CheckersBoard.InitialLayout | src/gator-arcade/src/app/checkers/checkers.component.ts:20-33 | at start a square holds a piece exactly when row+col is odd and the row is not 3 or 4; that piece is black in rows 0–2, red in rows 5–7, and not a king |
| CheckersBoard.InitialNoKings | src/gator-arcade/src/app/checkers/checkers.component.ts:28 | no piece on the starting board is a king, so with `TransitionsKeepNoKings` `isKing` never holds in a reachable state |
| CheckersBoard.BuildInitialBoard | src/gator-arcade/src/app/checkers/checkers.component.ts:21-32 | the nested loops that push eight rows of eight squares produce exactly `InitialBoard()` |
| CheckersBoard.InitialPieceCounts | src/gator-arcade/src/app/checkers/checkers.component.ts:20-33 | the starting board has twelve pieces of each stored colour, counted by the same list `getPieces` returns |
| CheckersBoard.InitialRowsCount | src/gator-arcade/src/app/checkers/checkers.component.ts:20-33 | after r rows `getPieces` has four black pieces per row among rows 0–2 and four red ones per row among rows 5–7 |
| CheckersBoard.InitialRowCount | src/gator-arcade/src/app/checkers/checkers.component.ts:20-33 | a starting row holds four pieces of a colour when that colour starts there and none otherwise |
| CheckersBoard.InitialHasColor | src/gator-arcade/src/app/checkers/checkers.component.ts:28 | at start a square holds a piece of stored colour c exactly when c starts in that row and row+col is odd |
| CheckersBoard.LayoutRowCount | src/gator-arcade/src/app/checkers/checkers.component.ts:162-167 | a row whose pieces of a colour sit exactly on its odd squares contributes one piece per two columns to `getPieces` |
| CheckersBoard.RowPiecesBefore | src/gator-arcade/src/app/checkers/checkers.component.ts:162-167 | every position the inner loop has pushed is in the current row, left of the current column, and holds a piece of the requested stored colour |
| CheckersBoard.RowPiecesBeforeNext | src/gator-arcade/src/app/checkers/checkers.component.ts:163-166 | one more column adds that position exactly when its piece has the requested stored colour, and adds nothing otherwise |
| CheckersBoard.PiecesBefore | src/gator-arcade/src/app/checkers/checkers.component.ts:161-168 | every position pushed after r rows is above row r and holds a piece of the requested stored colour |
| CheckersBoard.PiecesOf | src/gator-arcade/src/app/checkers/checkers.component.ts:159-170 | every position `getPieces` returns is on the board and holds a piece of the requested stored colour |
| CheckersBoard.PiecesOfOrdered | src/gator-arcade/src/app/checkers/checkers.component.ts:161-168 | `getPieces` lists positions in strictly increasing row-major order, hence without repeats |
| CheckersBoard.PiecesBeforeOrdered | src/gator-arcade/src/app/checkers/checkers.component.ts:161-168 | the positions pushed after any number of rows are in strictly increasing row-major order |
| CheckersBoard.RowPiecesBeforeOrdered | src/gator-arcade/src/app/checkers/checkers.component.ts:162-167 | the positions pushed within one row are in strictly increasing column order |
| CheckersBoard.PiecesOfMembership | src/gator-arcade/src/app/checkers/checkers.component.ts:159-170 | a position is listed by `getPieces(color)` if and only if it is on the board and holds a piece of that stored colour |
| CheckersBoard.PiecesOfEmpty | src/gator-arcade/src/app/checkers/checkers.component.ts:230-231 | `getPieces(color)` is empty if and only if no square holds a piece of that stored colour |
| CheckersBoard.PiecesOfLists | src/gator-arcade/src/app/checkers/checkers.component.ts:159-170 | the list the loops build has all three properties of `ListsPiecesOf`: sound, complete, ordered |
| CheckersBoard.ListsPiecesOfUnique | src/gator-arcade/src/app/checkers/checkers.component.ts:159-170 | a list is sound, complete and in row-major order for a colour if and only if it equals `getPieces` for that colour |
| CheckersBoard.OrderedListsEqual | src/gator-arcade/src/app/checkers/checkers.component.ts:159-170 | two lists in strict row-major order with the same members are equal |
| MoveRules.Midpoint | src/gator-arcade/src/app/checkers/checkers.component.ts:112-113 | for a two-step diagonal, `((t+s)/2)` is exact, is one diagonal step from both ends, differs from both, and is on the board when both ends are |
| MoveRules.IsValidMove | src/gator-arcade/src/app/checkers/checkers.component.ts:90-147 | a valid move needs a selection and an on-board, empty target one or two diagonal steps from the selection |
| MoveRules.StepMoveRule | src/gator-arcade/src/app/checkers/checkers.component.ts:123-134 | a one-step move onto an empty square is valid if and only if a red-positioned source moves up and a black-positioned source moves down; a source without position colour moves either way |
| MoveRules.JumpMoveRule | src/gator-arcade/src/app/checkers/checkers.component.ts:111-120 | a jump onto an empty square is valid if and only if the position colour of the square jumped over equals the current player |
| MoveRules.NoJumpOverMiddleRows | src/gator-arcade/src/app/checkers/checkers.component.ts:114-117 | no jump over a square in rows 3 or 4 is ever valid, for either player |
| MoveRules.ValidMoveIgnoresPieceContents | src/gator-arcade/src/app/checkers/checkers.component.ts:136-143 | the verdict depends on the board only through whether the target is occupied, so the king branch never decides anything |
| MoveRules.IsKing | src/gator-arcade/src/app/checkers/checkers.component.ts:150-156 | no contract; characterised by `IsKingNeverHolds` |
| MoveRules.IsKingNeverHolds | src/gator-arcade/src/app/checkers/checkers.component.ts:150-156 | on a board without kings `isKing` is false on every square |
| MoveRules.MoveBoard | src/gator-arcade/src/app/checkers/checkers.component.ts:218-226 | after a move the source's piece object is on the target, the source is empty, the square jumped over is empty on a jump, and every other square is unchanged |
| MoveRules.SetPieceCount | src/gator-arcade/src/app/checkers/checkers.component.ts:219-220 | writing one square changes the number of occupied squares by what it held before and holds after |
| MoveRules.MoveBoardCount | src/gator-arcade/src/app/checkers/checkers.component.ts:218-226 | a move onto an empty square keeps the number of pieces, except that a jump over an occupied square removes exactly one |
| MoveRules.MoveBoardNoKings | src/gator-arcade/src/app/checkers/checkers.component.ts:219 | moving keeps a board free of kings |
| MoveRules.CaptureOpponent | src/gator-arcade/src/app/checkers/checkers.component.ts:174-175 | no contract; characterised by `CaptureOpponentOnBoard` |
| MoveRules.CaptureOpponentOnBoard | src/gator-arcade/src/app/checkers/checkers.component.ts:174-175 | on the board `hasCaptureMove` searches for black pieces exactly when the landing square is an odd square of rows 5–7, and for red pieces everywhere else, whoever moved |
| MoveRules.CanCaptureAgain | src/gator-arcade/src/app/checkers/checkers.component.ts:172-188 | no contract; the meaning of `hasCaptureMove`: some square holds a piece of the searched colour two diagonal steps away, with an empty square between; related to the list scan by `CanCaptureAgainFromList` |
| MoveRules.CanCaptureAgainFromList | src/gator-arcade/src/app/checkers/checkers.component.ts:172-188 | `hasCaptureMove` holds if and only if some position in the opponent's `getPieces` list is two diagonal steps away with an empty square between |
| CheckersGame.InitialGame | src/gator-arcade/src/app/checkers/checkers.component.ts:9-16 | the starting state (fields as initialised, board as `ngOnInit` builds it) is a valid game: a well-formed board, and any selection on the board |
| CheckersGame.MovePieceStep | src/gator-arcade/src/app/checkers/checkers.component.ts:197-246 | `movePiece` keeps the board well formed and any selection on the board |
| CheckersGame.SquareClickStep | src/gator-arcade/src/app/checkers/checkers.component.ts:47-75 | `onSquareClick` keeps the board well formed and any selection on the board |
| CheckersGame.PieceClickStep | src/gator-arcade/src/app/checkers/checkers.component.ts:78-87 | `onPieceClick` keeps the board well formed and any selection on the board |
| CheckersGame.MovePieceRefused | src/gator-arcade/src/app/checkers/checkers.component.ts:198-216 | without a selection, with an off-board click or with an invalid move, `movePiece` changes nothing |
| CheckersGame.MovePieceStepBoard | src/gator-arcade/src/app/checkers/checkers.component.ts:214-226 | `movePiece` leaves exactly `MoveBoard` when the move is valid and the old board otherwise, and never changes the clicked coordinates |
| CheckersGame.StepMoveHandsOver | src/gator-arcade/src/app/checkers/checkers.component.ts:218-245 | after a valid one-step move the piece is on the target, the source is empty, nothing else changed, the selection is cleared and the other player moves |
| CheckersGame.JumpHandover | src/gator-arcade/src/app/checkers/checkers.component.ts:223-245 | after a valid jump: game over with the mover as winner if and only if no opponent piece is left; otherwise the same player continues from the landing square if and only if `hasCaptureMove` holds there, else the turn passes |
| CheckersGame.GameOverOnlyAfterWinningJump | src/gator-arcade/src/app/checkers/checkers.component.ts:228-234 | the game ends only on a jump, only with the mover as winner, and only when no piece of the opponent's stored colour remains |
| CheckersGame.MovePieceNeverAddsPieces | src/gator-arcade/src/app/checkers/checkers.component.ts:218-226 | `movePiece` never increases the number of pieces on the board; it removes exactly one when it performs a jump over an occupied square and none otherwise |
| CheckersGame.TransitionsKeepNoKings | src/gator-arcade/src/app/checkers/checkers.component.ts:47-87 | no click and no move ever produces a king |
| CheckersGame.ClickWithoutSelection | src/gator-arcade/src/app/checkers/checkers.component.ts:55-62 | with nothing selected a click records its coordinates and selects the square if and only if it holds a piece and its position colour is the current player's; board and player stay |
| CheckersGame.ClickOnInvalidTarget | src/gator-arcade/src/app/checkers/checkers.component.ts:64-74 | with a selection and an invalid target, board and player stay, and the selection moves to the clicked square exactly when its position colour is the current player's |
| CheckersGame.ClickOnValidTarget | src/gator-arcade/src/app/checkers/checkers.component.ts:66-69 | with a selection and a valid target, the click is `movePiece` with the clicked coordinates, so the selected piece lands on the target and the source empties |
| CheckersGame.PieceClickSelects | src/gator-arcade/src/app/checkers/checkers.component.ts:78-87 | `onPieceClick` changes only the selection, and selects the square exactly when it holds a piece whose position colour is the current player's |
| CheckersGame.OpeningMove | src/gator-arcade/src/app/checkers/checkers.component.ts:47-75 | from the start, clicking (5,0) then (4,1) selects the red piece, moves it, empties (5,0) and passes the turn to black |
| CheckersGame.RedJumpsOwnPiece | src/gator-arcade/src/app/checkers/checkers.component.ts:47-75 | from the start, clicking (6,1) then (4,3) jumps red's piece over red's own piece at (5,2) and removes it; `hasCaptureMove` then looks for red pieces, finds none it accepts, and the turn passes to black |
| CheckersGame.CheckersComponent.constructor | src/gator-arcade/src/app/checkers/checkers.component.ts:20-33 | field initialisers plus `ngOnInit` give the starting state |
| CheckersGame.CheckersComponent.ResetGame | src/gator-arcade/src/app/checkers/checkers.component.ts:248-270 | `resetGame` yields the starting state whatever the state before |
| CheckersGame.CheckersComponent.GetPieces | src/gator-arcade/src/app/checkers/checkers.component.ts:159-170 | the loops return a list that is sound, complete and in row-major order, which by `ListsPiecesOfUnique` is exactly `PiecesOf` |
| CheckersGame.CheckersComponent.HasCaptureMove | src/gator-arcade/src/app/checkers/checkers.component.ts:172-188 | the scan returns true exactly when `CanCaptureAgain` holds at the given square |
| CheckersGame.CheckersComponent.MovePiece | src/gator-arcade/src/app/checkers/checkers.component.ts:197-246 | the in-place updates leave the fields and the outcome that `MovePieceStep` gives for the old fields |
| CheckersGame.CheckersComponent.OnSquareClick | src/gator-arcade/src/app/checkers/checkers.component.ts:47-75 | the handler leaves the fields and the outcome that `SquareClickStep` gives for the old fields |
| CheckersGame.CheckersComponent.OnPieceClick | src/gator-arcade/src/app/checkers/checkers.component.ts:78-87 | the handler leaves the fields that `PieceClickStep` gives for the old fields |

## Left out

- Angular plumbing is not modelled: the `@Component` decorator, the template and the stylesheet.
- `console.log` calls are output only and are not modelled.
- The `alert` in `gameOver` is never reached and is not modelled.
- `gameOver`'s unbounded self-call is modelled as the outcome `GameOver(winner)`. The kind of error it raises and how the framework reports it are not modelled.
- The `selectedSquare` field and the local `pieceColor` in `onSquareClick` are dropped. `selectedSquare` is only ever written null; `pieceColor` is computed but never read.
- The board is a value that the methods reassign. Sharing of square and piece objects is not modelled; the only one the code creates is the piece object that a move carries from one square to another, and the model carries the same value.
- Coordinates are unbounded integers. JavaScript numbers are doubles, but every coordinate here is a small integer, so rounding cannot arise.
- CheckersGame.CheckersComponent.OnSquareClick: requires on-board coordinates. With nothing selected the source would throw for an off-board click. With a selection, an off-board click such as (9,0) can select an off-board square when its position colour matches the current player. A later move from there then throws. Neither path is modelled.
- CheckersGame.SquareClickStep: requires on-board coordinates, for the same reason as `OnSquareClick`.
- CheckersGame.CheckersComponent.OnPieceClick: requires on-board coordinates. The source would throw for an off-board click.
- CheckersGame.PieceClickStep: requires on-board coordinates, for the same reason as `OnPieceClick`.
- The rest of the repository is not part of this model: the other games, routing, and the app shell.
