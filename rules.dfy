/** Move rules of the checkers component: `isValidMove`, `isKing`, the board
    update `movePiece` performs, and the follow-up capture test
    `hasCaptureMove`. Colours used for legality are position colours
    (`PosColor`); only `getPieces` reads the stored colour of a piece. */
module MoveRules {
  import opened CheckersBoard

  function Abs(x: int): nat
  {
    if x < 0 then -x else x
  }

  /** One row and one column away. */
  predicate IsStep(s: Pos, t: Pos)
  {
    Abs(t.row - s.row) == 1 && Abs(t.col - s.col) == 1
  }

  /** Two rows and two columns away. */
  predicate IsJump(s: Pos, t: Pos)
  {
    Abs(t.row - s.row) == 2 && Abs(t.col - s.col) == 2
  }

  /** `((t.row + s.row) / 2, (t.col + s.col) / 2)`: the sums are even, so the
      division is exact and the result is the square jumped over. */
  function Midpoint(s: Pos, t: Pos): (m: Pos)
    requires IsJump(s, t)
    ensures 2 * m.row == s.row + t.row && 2 * m.col == s.col + t.col
    ensures IsStep(s, m) && IsStep(m, t)
    ensures m != s && m != t
    ensures InRange(s) && InRange(t) ==> InRange(m)
  {
    Pos((t.row + s.row) / 2, (t.col + s.col) / 2)
  }

  /** `isValidMove(target)` for the component's board, selection and current
      player. The source's king branch repeats the guard of the one-step
      branch, which always returns, so it never runs and is not part of the
      expression; `ValidMoveIgnoresPieceContents` shows the result never
      depends on a king flag. */
  function IsValidMove(b: Board, selected: Option<Pos>, player: Color, t: Pos): (ok: bool)
    requires WellFormed(b)
    ensures ok ==> selected.Some? && InRange(t) && PieceAt(b, t).None?
    ensures ok ==> IsStep(selected.value, t) || IsJump(selected.value, t)
  {
    if selected.None? then false
    else if !InRange(t) then false
    else if PieceAt(b, t).Some? then false
    else
      var s := selected.value;
      if IsJump(s, t) then
        var m := Midpoint(s, t);
        PosColor(m.row, m.col) == Some(player)
      else if IsStep(s, t) then
        var pc := PosColor(s.row, s.col);
        if pc == Some(Red) && t.row >= s.row then false
        else if pc == Some(Black) && t.row <= s.row then false
        else true
      else false
  }

  /** A one-step move onto an empty square is accepted unless the position
      colour of the source is red and the move does not go up, or black and
      the move does not go down; a source without a position colour moves
      either way. */
  lemma StepMoveRule(b: Board, s: Pos, player: Color, t: Pos)
    requires WellFormed(b) && InRange(t) && PieceAt(b, t).None? && IsStep(s, t)
    ensures IsValidMove(b, Some(s), player, t) <==>
              (PosColor(s.row, s.col) == Some(Red) ==> t.row < s.row) &&
              (PosColor(s.row, s.col) == Some(Black) ==> t.row > s.row)
    ensures PosColor(s.row, s.col) == None ==> IsValidMove(b, Some(s), player, t)
  {
  }

  /** A jump onto an empty square is accepted exactly when the position colour
      of the square jumped over is the mover's own colour. */
  lemma JumpMoveRule(b: Board, s: Pos, player: Color, t: Pos)
    requires WellFormed(b) && InRange(t) && PieceAt(b, t).None? && IsJump(s, t)
    ensures IsValidMove(b, Some(s), player, t) <==>
              PosColor(Midpoint(s, t).row, Midpoint(s, t).col) == Some(player)
  {
  }

  /** Every jump over rows 3 and 4 is refused, for both players: a red piece
      on row 5 can never capture toward the middle of the board. */
  lemma NoJumpOverMiddleRows(b: Board, s: Pos, player: Color, t: Pos)
    requires WellFormed(b) && IsJump(s, t) && 3 <= Midpoint(s, t).row <= 4
    ensures !IsValidMove(b, Some(s), player, t)
  {
  }

  /** The verdict reads the board only to see whether the target square is
      occupied: the piece on the source, the piece jumped over, stored colours
      and king flags play no part. */
  lemma ValidMoveIgnoresPieceContents(b1: Board, b2: Board, selected: Option<Pos>, player: Color, t: Pos)
    requires WellFormed(b1) && WellFormed(b2)
    requires InRange(t) ==> PieceAt(b1, t).Some? == PieceAt(b2, t).Some?
    ensures IsValidMove(b1, selected, player, t) == IsValidMove(b2, selected, player, t)
  {
  }

  /** `isKing(row, col)`. */
  function IsKing(b: Board, p: Pos): bool
    requires WellFormed(b) && InRange(p)
  {
    PieceAt(b, p).Some? && PieceAt(b, p).value.isKing
  }

  /** On a board without kings, `isKing` is false everywhere. */
  lemma IsKingNeverHolds(b: Board, p: Pos)
    requires WellFormed(b) && NoKings(b) && InRange(p)
    ensures !IsKing(b, p)
  {
  }

  /** The board update of `movePiece`: the source's piece object goes to the
      target, the source is emptied and, on a jump, so is the square jumped
      over. */
  function MoveBoard(b: Board, s: Pos, t: Pos): (b': Board)
    requires WellFormed(b) && InRange(s) && InRange(t) && (IsStep(s, t) || IsJump(s, t))
    ensures WellFormed(b')
    ensures PieceAt(b', t) == PieceAt(b, s)
    ensures PieceAt(b', s).None?
    ensures IsJump(s, t) ==> InRange(Midpoint(s, t)) && PieceAt(b', Midpoint(s, t)).None?
    ensures forall q :: InRange(q) && q != s && q != t && !(IsJump(s, t) && q == Midpoint(s, t)) ==>
              PieceAt(b', q) == PieceAt(b, q)
  {
    var moved := SetPiece(SetPiece(b, t, PieceAt(b, s)), s, None);
    if IsJump(s, t) then SetPiece(moved, Midpoint(s, t), None) else moved
  }

  lemma OccupiedMembership(b: Board, q: Pos)
    requires WellFormed(b)
    ensures q in Occupied(b) <==> InRange(q) && PieceAt(b, q).Some?
  {
  }

  /** Writing one square changes the set of occupied squares at that square only. */
  lemma OccupiedAfterSet(b: Board, p: Pos, x: Option<Piece>)
    requires WellFormed(b) && InRange(p)
    ensures Occupied(SetPiece(b, p, x)) == (Occupied(b) - {p}) + (if x.Some? then {p} else {})
  {
    var b' := SetPiece(b, p, x);
    forall q ensures q in Occupied(b') <==> q in (Occupied(b) - {p}) + (if x.Some? then {p} else {}) {
      OccupiedMembership(b, q);
      OccupiedMembership(b', q);
    }
  }

  /** Writing one square changes the number of occupied squares by what that
      square held before and holds after. */
  lemma SetPieceCount(b: Board, p: Pos, x: Option<Piece>)
    requires WellFormed(b) && InRange(p)
    ensures |Occupied(SetPiece(b, p, x))| ==
              |Occupied(b)| - (if PieceAt(b, p).Some? then 1 else 0) + (if x.Some? then 1 else 0)
  {
    OccupiedAfterSet(b, p, x);
    OccupiedMembership(b, p);
    var rest := Occupied(b) - {p};
    if PieceAt(b, p).Some? {
      assert Occupied(b) == rest + {p};
    } else {
      assert Occupied(b) == rest;
    }
  }

  /** A move never adds a piece: the number of occupied squares drops by one
      when a jump passes over an occupied square and is unchanged otherwise. */
  lemma MoveBoardCount(b: Board, s: Pos, t: Pos)
    requires WellFormed(b) && InRange(s) && InRange(t) && (IsStep(s, t) || IsJump(s, t))
    requires PieceAt(b, t).None?
    ensures |Occupied(MoveBoard(b, s, t))| ==
              |Occupied(b)| - (if IsJump(s, t) && PieceAt(b, Midpoint(s, t)).Some? then 1 else 0)
  {
    var b1 := SetPiece(b, t, PieceAt(b, s));
    SetPieceCount(b, t, PieceAt(b, s));
    var b2 := SetPiece(b1, s, None);
    SetPieceCount(b1, s, None);
    assert |Occupied(b2)| == |Occupied(b)|;
    if IsJump(s, t) {
      var m := Midpoint(s, t);
      SetPieceCount(b2, m, None);
      assert PieceAt(b2, m) == PieceAt(b, m);
      assert MoveBoard(b, s, t) == SetPiece(b2, m, None);
    } else {
      assert MoveBoard(b, s, t) == b2;
    }
  }

  /** Moving keeps a board free of kings: nothing in the component promotes a piece. */
  lemma MoveBoardNoKings(b: Board, s: Pos, t: Pos)
    requires WellFormed(b) && InRange(s) && InRange(t) && (IsStep(s, t) || IsJump(s, t))
    requires NoKings(b)
    ensures NoKings(MoveBoard(b, s, t))
  {
    var b' := MoveBoard(b, s, t);
    forall q | InRange(q) && PieceAt(b', q).Some? ensures !PieceAt(b', q).value.isKing {
      if q == t {
        assert PieceAt(b', q) == PieceAt(b, s);
      }
    }
  }

  /** The opponent `hasCaptureMove` looks for: black when the position colour
      of `s` is red, red otherwise (including squares with no position colour). */
  function CaptureOpponent(s: Pos): Color
  {
    if PosColor(s.row, s.col) == Some(Red) then Black else Red
  }

  /** On the board the colour `hasCaptureMove` searches for is black exactly on
      the odd squares of rows 5 to 7, and red everywhere else. In particular a
      piece landing in rows 3 or 4, or on an even square, is checked against
      red pieces, whoever moved it. */
  lemma CaptureOpponentOnBoard(s: Pos)
    requires InRange(s)
    ensures CaptureOpponent(s) == Black <==> s.row > 4 && (s.row + s.col) % 2 == 1
    ensures CaptureOpponent(s) == Red <==> s.row <= 4 || (s.row + s.col) % 2 == 0
  {
    PosColorOnBoard(s);
  }

  /** The test `hasCaptureMove` applies to one opponent piece `o`: it lies two
      diagonal steps from `s` and the square between them is empty. */
  predicate CaptureLine(b: Board, o: Pos, s: Pos)
    requires WellFormed(b) && InRange(o) && InRange(s)
  {
    IsJump(o, s) && PieceAt(b, Midpoint(o, s)).None?
  }

  /** `hasCaptureMove(s)`: some piece of the opponent's stored colour passes
      `CaptureLine`. */
  ghost predicate CanCaptureAgain(b: Board, s: Pos)
    requires WellFormed(b) && InRange(s)
  {
    exists o :: InRange(o) && HasColor(b, o, CaptureOpponent(s)) && CaptureLine(b, o, s)
  }

  /** The same test over the list `getPieces` returns for the opponent: it
      holds exactly when some listed position passes `CaptureLine`. */
  lemma CanCaptureAgainFromList(b: Board, s: Pos)
    requires WellFormed(b) && InRange(s)
    ensures var ops := PiecesOf(b, CaptureOpponent(s));
            CanCaptureAgain(b, s) <==> exists i :: 0 <= i < |ops| && CaptureLine(b, ops[i], s)
  {
    var opp := CaptureOpponent(s);
    var ops := PiecesOf(b, opp);
    if o :| InRange(o) && HasColor(b, o, opp) && CaptureLine(b, o, s) {
      PiecesOfMembership(b, opp, o);
      var i :| 0 <= i < |ops| && ops[i] == o;
      assert CaptureLine(b, ops[i], s);
    }
  }
}
