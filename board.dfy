/** Board model of the checkers component: squares, pieces, the two notions of
    colour the component uses, the starting layout and the list of pieces of
    one stored colour (`getPieces`). */
module CheckersBoard {

  datatype Option<+T> = None | Some(value: T)

  datatype Color = Red | Black

  /** A piece object. The component creates it as `{ color }`, so its king flag
      reads as false, and nothing ever sets it. */
  datatype Piece = Piece(color: Color, isKing: bool)

  /** One cell of the grid; `isDark` is fixed when the board is built. */
  datatype Square = Square(row: int, col: int, isDark: bool, piece: Option<Piece>)

  /** A `{ row, col }` coordinate pair as the component passes them around. */
  datatype Pos = Pos(row: int, col: int)

  type Board = seq<seq<Square>>

  function Opponent(c: Color): (o: Color)
    ensures o != c
  {
    if c == Red then Black else Red
  }

  predicate InRange(p: Pos)
  {
    0 <= p.row < 8 && 0 <= p.col < 8
  }

  /** `x % 2` as JavaScript computes it: the quotient is truncated toward zero,
      so a non-zero remainder takes the sign of `x`. */
  function JsRem2(x: int): (r: int)
    ensures -2 < r < 2
    ensures (x - r) % 2 == 0
    ensures r > 0 ==> x > 0
    ensures r < 0 ==> x < 0
  {
    if x >= 0 then x % 2 else -((-x) % 2)
  }

  /** `getPieceColor`: the colour the component derives from a square's
      coordinates alone, whatever piece (if any) stands there. */
  function PosColor(row: int, col: int): Option<Color>
  {
    if row < 3 && JsRem2(row + col) == 1 then Some(Black)
    else if row > 4 && JsRem2(row + col) == 1 then Some(Red)
    else None
  }

  /** On the board, the position colour is black on the odd squares of rows
      0 to 2, red on the odd squares of rows 5 to 7, and absent elsewhere. */
  lemma PosColorOnBoard(p: Pos)
    requires InRange(p)
    ensures PosColor(p.row, p.col) == Some(Black) <==> p.row < 3 && (p.row + p.col) % 2 == 1
    ensures PosColor(p.row, p.col) == Some(Red) <==> p.row > 4 && (p.row + p.col) % 2 == 1
    ensures PosColor(p.row, p.col) == None <==> 3 <= p.row <= 4 || (p.row + p.col) % 2 == 0
  {
  }

  /** Off the board, truncating remainders matter: where `row + col` is
      negative the remainder is never 1, so there is no position colour. */
  lemma PosColorNegativeSum(row: int, col: int)
    requires row + col < 0
    ensures PosColor(row, col) == None
  {
  }

  /** The shape every board the component builds has: 8 rows of 8 squares,
      each knowing its own coordinates and dark exactly when row and column
      have the same parity. */
  predicate WellFormed(b: Board)
  {
    && |b| == 8
    && (forall r :: 0 <= r < 8 ==> |b[r]| == 8)
    && (forall r, c :: 0 <= r < 8 && 0 <= c < 8 ==>
          b[r][c].row == r && b[r][c].col == c && b[r][c].isDark == (r % 2 == c % 2))
  }

  function PieceAt(b: Board, p: Pos): Option<Piece>
    requires WellFormed(b) && InRange(p)
  {
    b[p.row][p.col].piece
  }

  /** The square at `p` holds a piece whose stored colour is `color`. */
  predicate HasColor(b: Board, p: Pos, color: Color)
    requires WellFormed(b) && InRange(p)
  {
    PieceAt(b, p).Some? && PieceAt(b, p).value.color == color
  }

  /** `board[p.row][p.col].piece = x`: only that square's piece changes. */
  function SetPiece(b: Board, p: Pos, x: Option<Piece>): (b': Board)
    requires WellFormed(b) && InRange(p)
    ensures WellFormed(b')
    ensures PieceAt(b', p) == x
    ensures forall q :: InRange(q) && q != p ==> PieceAt(b', q) == PieceAt(b, q)
  {
    b[p.row := b[p.row][p.col := b[p.row][p.col].(piece := x)]]
  }

  /** The square the board builder pushes at (row, col): a new piece whose
      stored colour is the position colour, when there is one. */
  function InitialSquare(row: int, col: int): Square
  {
    var pc := PosColor(row, col);
    Square(row, col, row % 2 == col % 2, if pc.Some? then Some(Piece(pc.value, false)) else None)
  }

  function InitialBoard(): (b: Board)
    ensures WellFormed(b)
  {
    seq(8, r => seq(8, c => InitialSquare(r, c)))
  }

  /** The starting layout: black pieces on the odd squares of rows 0 to 2, red
      ones on the odd squares of rows 5 to 7, no kings, and rows 3 and 4 empty. */
  lemma InitialLayout(p: Pos)
    requires InRange(p)
    ensures PieceAt(InitialBoard(), p).Some? <==>
              (p.row + p.col) % 2 == 1 && (p.row < 3 || p.row > 4)
    ensures PieceAt(InitialBoard(), p).Some? ==>
              PieceAt(InitialBoard(), p).value == Piece(if p.row < 3 then Black else Red, false)
    ensures 3 <= p.row <= 4 ==> PieceAt(InitialBoard(), p).None?
  {
    PosColorOnBoard(p);
  }

  /** `ngOnInit` and `resetGame`: push eight rows of eight squares. */
  method BuildInitialBoard() returns (b: Board)
    ensures b == InitialBoard()
  {
    b := [];
    var row := 0;
    while row < 8
      invariant 0 <= row <= 8
      invariant b == InitialBoard()[..row]
    {
      var currentRow: seq<Square> := [];
      var col := 0;
      while col < 8
        invariant 0 <= col <= 8
        invariant currentRow == InitialBoard()[row][..col]
      {
        currentRow := currentRow + [InitialSquare(row, col)];
        col := col + 1;
      }
      assert currentRow == InitialBoard()[row];
      assert InitialBoard()[..row + 1] == InitialBoard()[..row] + [InitialBoard()[row]];
      b := b + [currentRow];
      row := row + 1;
    }
  }

  /** Position order used by `getPieces`: row by row, left to right. */
  function RowMajor(p: Pos): int
  {
    p.row * 8 + p.col
  }

  /** The positions `getPieces` has collected in row `r` after its inner loop
      has looked at columns 0 to c-1. */
  function RowPiecesBefore(b: Board, color: Color, r: int, c: int): (ps: seq<Pos>)
    requires WellFormed(b) && 0 <= r < 8 && 0 <= c <= 8
    ensures forall i :: 0 <= i < |ps| ==>
              ps[i].row == r && 0 <= ps[i].col < c && HasColor(b, ps[i], color)
    decreases c
  {
    if c == 0 then []
    else
      RowPiecesBefore(b, color, r, c - 1) +
      (if HasColor(b, Pos(r, c - 1), color) then [Pos(r, c - 1)] else [])
  }

  /** One more column of the inner loop of `getPieces`: the position is added
      exactly when it holds a piece of that stored colour. */
  lemma RowPiecesBeforeNext(b: Board, color: Color, r: int, c: int)
    requires WellFormed(b) && 0 <= r < 8 && 0 <= c < 8
    ensures var hit := b[r][c].piece.Some? && b[r][c].piece.value.color == color;
            && (hit ==> RowPiecesBefore(b, color, r, c + 1) == RowPiecesBefore(b, color, r, c) + [Pos(r, c)])
            && (!hit ==> RowPiecesBefore(b, color, r, c + 1) == RowPiecesBefore(b, color, r, c))
  {
    assert RowPiecesBefore(b, color, r, c) + [] == RowPiecesBefore(b, color, r, c);
  }

  /** Appending one element after a join. */
  lemma AppendAfterJoin(xs: seq<Pos>, ys: seq<Pos>, p: Pos)
    ensures (xs + ys) + [p] == xs + (ys + [p])
  {
  }

  /** The positions `getPieces` has collected after its outer loop has looked
      at rows 0 to r-1. */
  function PiecesBefore(b: Board, color: Color, r: int): (ps: seq<Pos>)
    requires WellFormed(b) && 0 <= r <= 8
    ensures forall i :: 0 <= i < |ps| ==>
              0 <= ps[i].row < r && 0 <= ps[i].col < 8 && HasColor(b, ps[i], color)
    decreases r
  {
    if r == 0 then []
    else PiecesBefore(b, color, r - 1) + RowPiecesBefore(b, color, r - 1, |b[r - 1]|)
  }

  /** `getPieces(color)`: every position holding a piece of that stored
      colour, in row-major order. */
  function PiecesOf(b: Board, color: Color): (ps: seq<Pos>)
    requires WellFormed(b)
    ensures forall i :: 0 <= i < |ps| ==> InRange(ps[i]) && HasColor(b, ps[i], color)
  {
    PiecesBefore(b, color, |b|)
  }

  /** Strictly increasing in row-major order, hence without repeats. */
  predicate RowMajorOrdered(ps: seq<Pos>)
  {
    forall i, j :: 0 <= i < j < |ps| ==> RowMajor(ps[i]) < RowMajor(ps[j])
  }

  lemma {:induction false} RowPiecesBeforeOrdered(b: Board, color: Color, r: int, c: int)
    requires WellFormed(b) && 0 <= r < 8 && 0 <= c <= 8
    ensures RowMajorOrdered(RowPiecesBefore(b, color, r, c))
    decreases c
  {
    if c > 0 {
      var earlier := RowPiecesBefore(b, color, r, c - 1);
      RowPiecesBeforeOrdered(b, color, r, c - 1);
      RowPiecesBeforeNext(b, color, r, c - 1);
      var ps := RowPiecesBefore(b, color, r, c);
      forall i, j | 0 <= i < j < |ps| ensures RowMajor(ps[i]) < RowMajor(ps[j]) {
        if j < |earlier| {
          assert ps[i] == earlier[i] && ps[j] == earlier[j];
        } else {
          assert ps[i] == earlier[i] && ps[j] == Pos(r, c - 1);
        }
      }
    }
  }

  /** Joining two ordered lists, the first wholly before the second, keeps the order. */
  lemma OrderedConcat(xs: seq<Pos>, ys: seq<Pos>)
    requires RowMajorOrdered(xs) && RowMajorOrdered(ys)
    requires forall i, j :: 0 <= i < |xs| && 0 <= j < |ys| ==> RowMajor(xs[i]) < RowMajor(ys[j])
    ensures RowMajorOrdered(xs + ys)
  {
    var ps := xs + ys;
    forall i, j | 0 <= i < j < |ps| ensures RowMajor(ps[i]) < RowMajor(ps[j]) {
      if j < |xs| {
        assert ps[i] == xs[i] && ps[j] == xs[j];
      } else if i >= |xs| {
        assert ps[i] == ys[i - |xs|] && ps[j] == ys[j - |xs|];
      } else {
        assert ps[i] == xs[i] && ps[j] == ys[j - |xs|];
      }
    }
  }

  /** Everything collected from rows above `r - 1` comes before row `r - 1`. */
  lemma EarlierRowsFirst(b: Board, color: Color, r: int)
    requires WellFormed(b) && 0 < r <= 8
    ensures var earlier, last := PiecesBefore(b, color, r - 1), RowPiecesBefore(b, color, r - 1, |b[r - 1]|);
            forall i, j :: 0 <= i < |earlier| && 0 <= j < |last| ==> RowMajor(earlier[i]) < RowMajor(last[j])
  {
    var earlier, last := PiecesBefore(b, color, r - 1), RowPiecesBefore(b, color, r - 1, |b[r - 1]|);
    forall i, j | 0 <= i < |earlier| && 0 <= j < |last|
      ensures RowMajor(earlier[i]) < RowMajor(last[j])
    {
      assert earlier[i].row < r - 1 && last[j].row == r - 1;
    }
  }

  lemma {:induction false} PiecesBeforeOrdered(b: Board, color: Color, r: int)
    requires WellFormed(b) && 0 <= r <= 8
    ensures RowMajorOrdered(PiecesBefore(b, color, r))
    decreases r
  {
    if r > 0 {
      var earlier, last := PiecesBefore(b, color, r - 1), RowPiecesBefore(b, color, r - 1, |b[r - 1]|);
      PiecesBeforeOrdered(b, color, r - 1);
      RowPiecesBeforeOrdered(b, color, r - 1, |b[r - 1]|);
      EarlierRowsFirst(b, color, r);
      OrderedConcat(earlier, last);
      assert PiecesBefore(b, color, r) == earlier + last;
    }
  }

  /** `getPieces` lists positions in row-major order, hence without repeats. */
  lemma PiecesOfOrdered(b: Board, color: Color)
    requires WellFormed(b)
    ensures RowMajorOrdered(PiecesOf(b, color))
  {
    PiecesBeforeOrdered(b, color, |b|);
  }

  lemma {:induction false} RowPiecesBeforeComplete(b: Board, color: Color, r: int, c: int, col: int)
    requires WellFormed(b) && 0 <= r < 8 && 0 <= col < c <= 8
    requires HasColor(b, Pos(r, col), color)
    ensures Pos(r, col) in RowPiecesBefore(b, color, r, c)
    decreases c
  {
    if col < c - 1 {
      RowPiecesBeforeComplete(b, color, r, c - 1, col);
    }
  }

  lemma {:induction false} PiecesBeforeComplete(b: Board, color: Color, r: int, p: Pos)
    requires WellFormed(b) && 0 <= r <= 8 && InRange(p) && p.row < r
    requires HasColor(b, p, color)
    ensures p in PiecesBefore(b, color, r)
    decreases r
  {
    var earlier, last := PiecesBefore(b, color, r - 1), RowPiecesBefore(b, color, r - 1, 8);
    assert PiecesBefore(b, color, r) == earlier + last;
    if p.row < r - 1 {
      PiecesBeforeComplete(b, color, r - 1, p);
      assert p in earlier;
    } else {
      RowPiecesBeforeComplete(b, color, p.row, 8, p.col);
      assert p in last;
    }
  }

  /** `getPieces(color)` lists a position exactly when it is on the board and
      holds a piece of that stored colour. */
  lemma PiecesOfMembership(b: Board, color: Color, p: Pos)
    requires WellFormed(b)
    ensures p in PiecesOf(b, color) <==> InRange(p) && HasColor(b, p, color)
  {
    if InRange(p) && HasColor(b, p, color) {
      PiecesBeforeComplete(b, color, 8, p);
    }
  }

  /** Some square holds a piece of stored colour `color`. */
  ghost predicate AnyPieceOf(b: Board, color: Color)
    requires WellFormed(b)
  {
    exists p :: InRange(p) && HasColor(b, p, color)
  }

  /** `getPieces(color)` is empty exactly when no square holds a piece of that
      stored colour. */
  lemma PiecesOfEmpty(b: Board, color: Color)
    requires WellFormed(b)
    ensures |PiecesOf(b, color)| == 0 <==> !AnyPieceOf(b, color)
  {
    var ps := PiecesOf(b, color);
    if |ps| != 0 {
      assert InRange(ps[0]) && HasColor(b, ps[0], color);
    } else {
      forall p | InRange(p) ensures !HasColor(b, p, color) {
        PiecesOfMembership(b, color, p);
      }
    }
  }

  /** What a list returned by `getPieces(color)` is, without saying how it is
      built: it holds exactly the positions with a piece of that stored colour,
      in row-major order. */
  ghost predicate ListsPiecesOf(b: Board, color: Color, ps: seq<Pos>)
    requires WellFormed(b)
  {
    && (forall i :: 0 <= i < |ps| ==> InRange(ps[i]) && HasColor(b, ps[i], color))
    && (forall p :: InRange(p) && HasColor(b, p, color) ==> p in ps)
    && RowMajorOrdered(ps)
  }

  lemma PiecesOfLists(b: Board, color: Color, ps: seq<Pos>)
    requires WellFormed(b) && ps == PiecesBefore(b, color, 8)
    ensures ListsPiecesOf(b, color, ps) && ps == PiecesOf(b, color)
  {
    PiecesOfOrdered(b, color);
    forall p | InRange(p) && HasColor(b, p, color) ensures p in PiecesOf(b, color) {
      PiecesOfMembership(b, color, p);
    }
  }

  /** A member of the tail of one of two such lists with the same head is in
      the tail of the other. */
  lemma OrderedTailMember(xs: seq<Pos>, ys: seq<Pos>, p: Pos)
    requires RowMajorOrdered(xs) && |xs| > 0 && |ys| > 0 && xs[0] == ys[0]
    requires forall q :: q in xs <==> q in ys
    requires p in xs[1..]
    ensures p in ys[1..]
  {
    var i :| 1 <= i < |xs| && xs[i] == p;
    assert RowMajor(xs[0]) < RowMajor(p);
    assert p in ys;
    var k :| 0 <= k < |ys| && ys[k] == p;
    assert ys[1..][k - 1] == p;
  }

  /** Two non-empty such lists with the same members start alike. */
  lemma OrderedSameHead(xs: seq<Pos>, ys: seq<Pos>)
    requires RowMajorOrdered(xs) && RowMajorOrdered(ys) && |xs| > 0 && |ys| > 0
    requires forall p :: p in xs <==> p in ys
    ensures xs[0] == ys[0]
  {
    assert xs[0] in ys;
    var j :| 0 <= j < |ys| && ys[j] == xs[0];
    assert ys[0] in xs;
    var k :| 0 <= k < |xs| && xs[k] == ys[0];
    assert RowMajor(xs[0]) <= RowMajor(xs[k]) == RowMajor(ys[0]) <= RowMajor(ys[j]);
  }

  /** Two lists in strict row-major order with the same members are equal. */
  lemma {:induction false} OrderedListsEqual(xs: seq<Pos>, ys: seq<Pos>)
    requires RowMajorOrdered(xs) && RowMajorOrdered(ys)
    requires forall p :: p in xs <==> p in ys
    ensures xs == ys
    decreases |xs|
  {
    if |ys| > 0 {
      assert ys[0] in xs;
    }
    if |xs| > 0 {
      assert xs[0] in ys;
      OrderedSameHead(xs, ys);
      forall p ensures p in xs[1..] <==> p in ys[1..] {
        if p in xs[1..] {
          OrderedTailMember(xs, ys, p);
        }
        if p in ys[1..] {
          OrderedTailMember(ys, xs, p);
        }
      }
      OrderedListsEqual(xs[1..], ys[1..]);
      assert xs == [xs[0]] + xs[1..] && ys == [ys[0]] + ys[1..];
    }
  }

  /** `ListsPiecesOf` fixes the list: it is exactly `PiecesOf`. */
  lemma ListsPiecesOfUnique(b: Board, color: Color, ps: seq<Pos>)
    requires WellFormed(b)
    ensures ListsPiecesOf(b, color, ps) <==> ps == PiecesOf(b, color)
  {
    PiecesOfLists(b, color, PiecesOf(b, color));
    if ListsPiecesOf(b, color, ps) {
      var qs := PiecesOf(b, color);
      forall p ensures p in ps <==> p in qs {
        PiecesOfMembership(b, color, p);
      }
      OrderedListsEqual(ps, qs);
    }
  }

  /** True when the starting layout puts pieces of stored colour `color` in row `r`. */
  predicate StartRow(color: Color, r: int)
  {
    if color == Black then r < 3 else r > 4
  }

  lemma InitialHasColor(color: Color, p: Pos)
    requires InRange(p)
    ensures HasColor(InitialBoard(), p, color) <==> StartRow(color, p.row) && (p.row + p.col) % 2 == 1
  {
    InitialLayout(p);
  }

  /** Counting the odd squares of a row one column at a time. */
  lemma HalfStep(c: int, r: int)
    requires 0 < c <= 8 && 0 <= r < 8
    ensures (c + r % 2) / 2 == (c - 1 + r % 2) / 2 + (if (r + c - 1) % 2 == 1 then 1 else 0)
  {
  }

  /** A row whose pieces of stored colour `color` sit exactly on its odd
      squares, if at all, contributes one piece per two columns. */
  lemma {:induction false} LayoutRowCount(b: Board, color: Color, r: int, c: int)
    requires WellFormed(b) && 0 <= r < 8 && 0 <= c <= 8
    requires forall col :: 0 <= col < 8 ==>
               (HasColor(b, Pos(r, col), color) <==> StartRow(color, r) && (r + col) % 2 == 1)
    ensures |RowPiecesBefore(b, color, r, c)| == if StartRow(color, r) then (c + r % 2) / 2 else 0
    decreases c
  {
    if c > 0 {
      LayoutRowCount(b, color, r, c - 1);
      var hit := HasColor(b, Pos(r, c - 1), color);
      assert |RowPiecesBefore(b, color, r, c)| ==
               |RowPiecesBefore(b, color, r, c - 1)| + (if hit then 1 else 0);
      HalfStep(c, r);
    }
  }

  lemma InitialRowCount(color: Color, r: int)
    requires 0 <= r < 8
    ensures |RowPiecesBefore(InitialBoard(), color, r, 8)| == if StartRow(color, r) then (8 + r % 2) / 2 else 0
  {
    forall col | 0 <= col < 8
      ensures HasColor(InitialBoard(), Pos(r, col), color) <==> StartRow(color, r) && (r + col) % 2 == 1
    {
      InitialHasColor(color, Pos(r, col));
    }
    LayoutRowCount(InitialBoard(), color, r, 8);
  }

  lemma {:induction false} InitialRowsCount(color: Color, r: int)
    requires 0 <= r <= 8
    ensures |PiecesBefore(InitialBoard(), color, r)| ==
              if color == Black then 4 * (if r < 3 then r else 3)
              else 4 * (if r > 5 then r - 5 else 0)
    decreases r
  {
    if r > 0 {
      InitialRowsCount(color, r - 1);
      InitialRowCount(color, r - 1);
    }
  }

  /** Each side starts with twelve pieces. */
  lemma InitialPieceCounts()
    ensures |PiecesOf(InitialBoard(), Red)| == 12
    ensures |PiecesOf(InitialBoard(), Black)| == 12
  {
    InitialRowsCount(Red, 8);
    InitialRowsCount(Black, 8);
  }

  /** The set of occupied squares. */
  function Occupied(b: Board): set<Pos>
    requires WellFormed(b)
  {
    set r, c | 0 <= r < 8 && 0 <= c < 8 && b[r][c].piece.Some? :: Pos(r, c)
  }

  /** No piece on the board is a king. */
  ghost predicate NoKings(b: Board)
    requires WellFormed(b)
  {
    forall p :: InRange(p) && PieceAt(b, p).Some? ==> !PieceAt(b, p).value.isKing
  }

  /** The board builder creates every piece without the king flag. */
  lemma InitialNoKings()
    ensures NoKings(InitialBoard())
  {
    forall p | InRange(p) && PieceAt(InitialBoard(), p).Some?
      ensures !PieceAt(InitialBoard(), p).value.isKing
    {
      InitialLayout(p);
    }
  }
}
