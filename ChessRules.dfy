/**
 * The value-level rules of final-project/src/ChessGame.c: pieces, colours,
 * the 8x8 board `b[x][y]`, the movement rule of each piece kind, attack
 * detection, speculative apply/revert, the ordered move validation, move
 * enumeration and game-status classification.
 *
 * Movement is that of the FIDE Laws of Chess, Article 3, without castling,
 * en passant or promotion, and with one difference kept from the source: the
 * pawn's double step may jump over an occupied square. The imperative `Game` class in module ChessGame
 * is proved against these definitions.
 */
module ChessRules {
  import opened Options

  /** CHESS_GRID */
  const GridSize: int := 8

  /** ChessColor. The enum values are assumed to be BLACK = 0, WHITE = 1, so
      that the source's `!turn` is `SwitchColor(turn)` for both players. */
  datatype Color = Black | White | NoColor

  /** ChessPiece */
  datatype Piece =
    | NoPiece
    | WhitePawn | WhiteRook | WhiteKnight | WhiteBishop | WhiteQueen | WhiteKing
    | BlackPawn | BlackRook | BlackKnight | BlackBishop | BlackQueen | BlackKing

  /** The kind a piece is dispatched on in isValidPieceMove. */
  datatype Kind = Pawn | Rook | Knight | Bishop | Queen | King | Empty

  /** ChessPos (without its move-type tag) and ChessMove. */
  datatype Pos = Pos(x: int, y: int)
  datatype Move = Move(from: Pos, to: Pos, captured: Piece, player: Color)

  /** ChessPosType: the tag GetMoves attaches to each destination. */
  datatype PosType = Standard | Threatened | Capture | Both
  datatype Target = Target(to: Pos, kind: PosType)

  /** ChessResult */
  datatype Result =
    | Success | InvalidArgument | InvalidPosition | EmptyPosition | IllegalMove
    | KingIsStillThreatened | KingWillBeThreatened | EmptyHistory

  /** ChessStatus */
  datatype Status = Running | Check | Checkmate | Draw

  /** getPieceColor */
  function PieceColor(p: Piece): Color
  {
    match p
    case WhitePawn | WhiteRook | WhiteKnight | WhiteBishop | WhiteQueen | WhiteKing => White
    case BlackPawn | BlackRook | BlackKnight | BlackBishop | BlackQueen | BlackKing => Black
    case NoPiece => NoColor
  }

  function KindOf(p: Piece): Kind
  {
    match p
    case WhitePawn | BlackPawn => Pawn
    case WhiteRook | BlackRook => Rook
    case WhiteKnight | BlackKnight => Knight
    case WhiteBishop | BlackBishop => Bishop
    case WhiteQueen | BlackQueen => Queen
    case WhiteKing | BlackKing => King
    case NoPiece => Empty
  }

  /** switchColor */
  function SwitchColor(c: Color): (r: Color)
    ensures c == White <==> r == Black
    ensures c == Black <==> r == White
  {
    match c
    case Black => White
    case White => Black
    case NoColor => NoColor
  }

  predicate IsPlayer(c: Color)
  {
    c == White || c == Black
  }

  /** The king of a player. */
  function KingPiece(c: Color): Piece
  {
    if c == White then WhiteKing else BlackKing
  }

  // ---------------------------------------------------------------------------
  // The board
  // ---------------------------------------------------------------------------

  type Board = seq<seq<Piece>>

  predicate WellFormed(b: Board)
  {
    |b| == GridSize && forall x :: 0 <= x < GridSize ==> |b[x]| == GridSize
  }

  /** isValidPositionOnBoard */
  predicate OnBoard(p: Pos)
  {
    0 <= p.x < GridSize && 0 <= p.y < GridSize
  }

  function At(b: Board, p: Pos): Piece
    requires WellFormed(b) && OnBoard(p)
  {
    b[p.x][p.y]
  }

  /** The board with square `p` replaced by `v`. */
  function Set(b: Board, p: Pos, v: Piece): (r: Board)
    requires WellFormed(b) && OnBoard(p)
    ensures WellFormed(r)
    ensures forall x, y :: 0 <= x < GridSize && 0 <= y < GridSize ==>
              r[x][y] == if x == p.x && y == p.y then v else b[x][y]
  {
    b[p.x := b[p.x][p.y := v]]
  }

  lemma SameBoard(b1: Board, b2: Board)
    requires WellFormed(b1) && WellFormed(b2)
    requires forall x, y :: 0 <= x < GridSize && 0 <= y < GridSize ==> b1[x][y] == b2[x][y]
    ensures b1 == b2
  {
    forall x | 0 <= x < GridSize
      ensures b1[x] == b2[x]
    {
    }
  }

  /** A position of the scan `for x { for y { ... } }` that both loops of
      the source use: the squares already visited are the files before `x`
      and the squares of file `x` before `y`. */
  predicate ScanPoint(x: int, y: int)
  {
    0 <= x <= GridSize && 0 <= y <= GridSize && (y > 0 ==> x < GridSize)
  }

  /** Square `p` is visited before the scan reaches (x, y). */
  predicate Before(p: Pos, x: int, y: int)
  {
    p.x < x || (p.x == x && p.y < y)
  }

  // ---------------------------------------------------------------------------
  // Movement of each piece kind (no check-safety)
  // ---------------------------------------------------------------------------

  function Abs(n: int): nat
  {
    if n < 0 then -n else n
  }

  function Min(a: int, b: int): int
  {
    if a < b then a else b
  }

  function Max(a: int, b: int): int
  {
    if a < b then b else a
  }

  /** isValidToPosition: the destination does not hold a piece of the
      mover's colour (an empty origin never passes either). */
  predicate IsValidToPosition(mover: Piece, target: Piece)
  {
    PieceColor(mover) != PieceColor(target)
  }

  /** getPieceColor: six white pieces, six black pieces, and only the empty
      square without a colour; the kind ignores the colour. */
  lemma PieceColorCases(p: Piece)
    ensures PieceColor(p) == NoColor <==> p == NoPiece
    ensures PieceColor(p) == White <==>
              p in {WhitePawn, WhiteRook, WhiteKnight, WhiteBishop, WhiteQueen, WhiteKing}
    ensures PieceColor(p) == Black <==>
              p in {BlackPawn, BlackRook, BlackKnight, BlackBishop, BlackQueen, BlackKing}
    ensures KindOf(p) == Empty <==> p == NoPiece
  {
  }

  /** The friendly-fire rule: a piece may go to an empty square or onto a
      piece of the other colour, never onto its own colour. */
  lemma FriendlyFire(mover: Piece, target: Piece)
    requires mover != NoPiece
    ensures IsValidToPosition(mover, target) <==>
              target == NoPiece || PieceColor(target) == SwitchColor(PieceColor(mover))
  {
  }

  /** The rank direction a pawn of colour `c` advances in. */
  function Forward(c: Color): int
  {
    if c == White then 1 else -1
  }

  /** The rank a pawn of colour `c` starts on. */
  function StartRank(c: Color): int
  {
    if c == White then 1 else 6
  }

  /** isValidPawnMove, as computed by the source. */
  predicate PawnMove(mover: Piece, target: Piece, from: Pos, to: Pos)
  {
    var color := PieceColor(mover);
    var isInStartPos := from.y == (if color == White then 1 else 6);
    var horDiff := Abs(from.x - to.x);
    var verDiff := (from.y - to.y) * (if color == White then -1 else 1);
    var isCapture := target != NoPiece && color != PieceColor(target);
    var regularMove := !isCapture && verDiff == 1 && horDiff == 0;
    var startingMove := !isCapture && isInStartPos && verDiff == 2 && horDiff == 0;
    var capturingMove := isCapture && verDiff == 1 && horDiff == 1;
    regularMove || startingMove || capturingMove
  }

  /** isValidKnightMove, as computed by the source. */
  predicate KnightMove(from: Pos, to: Pos)
  {
    var horDiff := Abs(from.x - to.x);
    var verDiff := Abs(from.y - to.y);
    (verDiff == 2 && horDiff == 1) != (horDiff == 2 && verDiff == 1)
  }

  /** isValidKingMove, as computed by the source. */
  predicate KingMove(from: Pos, to: Pos)
  {
    var horDiff := Abs(from.x - to.x);
    var verDiff := Abs(from.y - to.y);
    horDiff <= 1 && verDiff <= 1 && (horDiff > 0 || verDiff > 0)
  }

  /** Rook rule: exactly one coordinate changes, and every square strictly
      between origin and destination is empty. */
  predicate RookMove(b: Board, from: Pos, to: Pos)
    requires WellFormed(b) && OnBoard(from) && OnBoard(to)
  {
    && ((from.x != to.x) != (from.y != to.y))
    && (forall i :: Min(from.x, to.x) < i < Max(from.x, to.x) ==> b[i][from.y] == NoPiece)
    && (forall j :: Min(from.y, to.y) < j < Max(from.y, to.y) ==> b[from.x][j] == NoPiece)
  }

  /** The rank of the square on file `i` of the diagonal through `from`
      and `to`. */
  function DiagonalY(from: Pos, to: Pos, i: int): int
  {
    if (to.x > from.x) == (to.y > from.y) then from.y + (i - from.x) else from.y - (i - from.x)
  }

  /** Bishop rule: a non-null diagonal move, and every square strictly
      between origin and destination on that diagonal is empty. */
  predicate BishopMove(b: Board, from: Pos, to: Pos)
    requires WellFormed(b) && OnBoard(from) && OnBoard(to)
  {
    && Abs(from.x - to.x) == Abs(from.y - to.y)
    && from.x != to.x
    && forall i :: Min(from.x, to.x) < i < Max(from.x, to.x) ==> b[i][DiagonalY(from, to, i)] == NoPiece
  }

  /** Queen rule: the rook rule or the bishop rule. */
  predicate QueenMove(b: Board, from: Pos, to: Pos)
    requires WellFormed(b) && OnBoard(from) && OnBoard(to)
  {
    RookMove(b, from, to) || BishopMove(b, from, to)
  }

  /** isValidPieceMove: the rule of the piece on the origin square; an empty
      origin has no moves. The friendly-fire rule is not part of it. */
  predicate PieceMove(b: Board, from: Pos, to: Pos)
    requires WellFormed(b) && OnBoard(from) && OnBoard(to)
  {
    match KindOf(At(b, from))
    case Pawn => PawnMove(At(b, from), At(b, to), from, to)
    case Rook => RookMove(b, from, to)
    case Knight => KnightMove(from, to)
    case Bishop => BishopMove(b, from, to)
    case Queen => QueenMove(b, from, to)
    case King => KingMove(from, to)
    case Empty => false
  }

  /** Pawn geometry relative to the pawn's forward direction: one step onto
      a square without an enemy, two steps from the start rank onto a square
      without an enemy (the square passed over is not examined), or one
      diagonal step forward onto an enemy piece. */
  lemma PawnGeometry(mover: Piece, target: Piece, from: Pos, to: Pos)
    ensures PawnMove(mover, target, from, to) <==>
      var c := PieceColor(mover);
      var enemy := target != NoPiece && PieceColor(target) != c;
      || (!enemy && to == Pos(from.x, from.y + Forward(c)))
      || (!enemy && from.y == StartRank(c) && to == Pos(from.x, from.y + 2 * Forward(c)))
      || (enemy && to.y == from.y + Forward(c) && Abs(to.x - from.x) == 1)
  {
    if PieceColor(mover) == White {
      assert (from.y - to.y) * -1 == to.y - from.y;
    } else {
      assert (from.y - to.y) * 1 == from.y - to.y;
    }
  }

  /** A knight moves by exactly one of the eight L-shaped offsets. */
  lemma KnightGeometry(from: Pos, to: Pos)
    ensures KnightMove(from, to) <==>
      (to.x - from.x, to.y - from.y) in
        {(1, 2), (2, 1), (-1, 2), (-2, 1), (1, -2), (2, -1), (-1, -2), (-2, -1)}
  {
  }

  /** A king moves to exactly one of the eight adjacent squares. */
  lemma KingGeometry(from: Pos, to: Pos)
    ensures KingMove(from, to) <==>
      (to.x - from.x, to.y - from.y) in
        {(-1, -1), (-1, 0), (-1, 1), (0, -1), (0, 1), (1, -1), (1, 0), (1, 1)}
  {
  }

  /** No piece may stay on its square. */
  lemma NoNullMove(b: Board, p: Pos)
    requires WellFormed(b) && OnBoard(p)
    ensures !PieceMove(b, p, p)
  {
  }

  /** Rook and bishop paths read the same from either end. */
  lemma SlidingSymmetric(b: Board, from: Pos, to: Pos)
    requires WellFormed(b) && OnBoard(from) && OnBoard(to)
    ensures RookMove(b, from, to) == RookMove(b, to, from)
    ensures BishopMove(b, from, to) == BishopMove(b, to, from)
  {
    if Abs(from.x - to.x) == Abs(from.y - to.y) && from.x != to.x {
      forall i | Min(from.x, to.x) < i < Max(from.x, to.x)
        ensures DiagonalY(from, to, i) == DiagonalY(to, from, i)
      {
      }
    }
  }

  // ---------------------------------------------------------------------------
  // Attack detection
  // ---------------------------------------------------------------------------

  /** The piece on `p` has colour `c` and may move, by its rule alone, onto
      `pos`. */
  predicate Attacker(b: Board, p: Pos, pos: Pos, c: Color)
    requires WellFormed(b) && OnBoard(p) && OnBoard(pos)
  {
    PieceColor(At(b, p)) == c && PieceMove(b, p, pos)
  }

  /** Some piece of colour `c` may move onto `pos`. */
  ghost predicate Attacked(b: Board, pos: Pos, c: Color)
    requires WellFormed(b) && OnBoard(pos)
  {
    exists p :: OnBoard(p) && Attacker(b, p, pos, c)
  }

  /** The loop of isPosThreatenedBy up to scan position (x, y): has an
      attacker of colour `c` been visited? */
  predicate ThreatenedBefore(b: Board, pos: Pos, c: Color, x: int, y: int)
    requires WellFormed(b) && OnBoard(pos) && ScanPoint(x, y)
    decreases x, y
  {
    if y > 0 then Attacker(b, Pos(x, y - 1), pos, c) || ThreatenedBefore(b, pos, c, x, y - 1)
    else if x > 0 then ThreatenedBefore(b, pos, c, x - 1, GridSize)
    else false
  }

  /** isPosThreatenedBy: the whole scan. */
  predicate IsPosThreatened(b: Board, pos: Pos, c: Color)
    requires WellFormed(b) && OnBoard(pos)
  {
    ThreatenedBefore(b, pos, c, GridSize, 0)
  }

  lemma {:induction false} ThreatenedBeforeExact(b: Board, pos: Pos, c: Color, x: int, y: int)
    requires WellFormed(b) && OnBoard(pos) && ScanPoint(x, y)
    ensures ThreatenedBefore(b, pos, c, x, y) <==>
              exists p :: OnBoard(p) && Before(p, x, y) && Attacker(b, p, pos, c)
    decreases x, y
  {
    if y > 0 {
      ThreatenedBeforeExact(b, pos, c, x, y - 1);
      if ThreatenedBefore(b, pos, c, x, y) && !Attacker(b, Pos(x, y - 1), pos, c) {
        var p :| OnBoard(p) && Before(p, x, y - 1) && Attacker(b, p, pos, c);
        assert Before(p, x, y);
      }
      if exists p :: OnBoard(p) && Before(p, x, y) && Attacker(b, p, pos, c) {
        var p :| OnBoard(p) && Before(p, x, y) && Attacker(b, p, pos, c);
        if p != Pos(x, y - 1) {
          assert Before(p, x, y - 1);
        }
      }
    } else if x > 0 {
      ThreatenedBeforeExact(b, pos, c, x - 1, GridSize);
      if exists p :: OnBoard(p) && Before(p, x, y) && Attacker(b, p, pos, c) {
        var p :| OnBoard(p) && Before(p, x, y) && Attacker(b, p, pos, c);
        assert Before(p, x - 1, GridSize);
      }
    }
  }

  /** The scan of isPosThreatenedBy answers exactly whether `pos` is
      attacked. */
  lemma IsPosThreatenedExact(b: Board, pos: Pos, c: Color)
    requires WellFormed(b) && OnBoard(pos)
    ensures IsPosThreatened(b, pos, c) <==> Attacked(b, pos, c)
  {
    ThreatenedBeforeExact(b, pos, c, GridSize, 0);
  }

  /** An attacker found part-way through the scan settles the answer, which
      is what the early return of isPosThreatenedBy relies on. */
  lemma ThreatenedSettles(b: Board, pos: Pos, c: Color, x: int, y: int)
    requires WellFormed(b) && OnBoard(pos) && ScanPoint(x, y) && ThreatenedBefore(b, pos, c, x, y)
    ensures IsPosThreatened(b, pos, c)
  {
    ThreatenedBeforeExact(b, pos, c, x, y);
    IsPosThreatenedExact(b, pos, c);
  }

  predicate HasPiece(b: Board, piece: Piece)
    requires WellFormed(b)
  {
    exists x, y :: 0 <= x < GridSize && 0 <= y < GridSize && b[x][y] == piece
  }

  /** Both players have a king on the board. */
  predicate KingsPresent(b: Board)
    requires WellFormed(b)
  {
    HasPiece(b, WhiteKing) && HasPiece(b, BlackKing)
  }

  /** At most one king of colour `c` is on the board. */
  predicate UniqueKing(b: Board, c: Color)
    requires WellFormed(b)
  {
    forall x1, y1, x2, y2 ::
      (0 <= x1 < GridSize && 0 <= y1 < GridSize && 0 <= x2 < GridSize && 0 <= y2 < GridSize &&
       b[x1][y1] == KingPiece(c) && b[x2][y2] == KingPiece(c)) ==> x1 == x2 && y1 == y2
  }

  /** The last square visited before scan position (x, y) that holds
      `piece`. */
  function LastBefore(b: Board, piece: Piece, x: int, y: int): (r: Option<Pos>)
    requires WellFormed(b) && ScanPoint(x, y)
    ensures r.Some? ==> OnBoard(r.value) && At(b, r.value) == piece && Before(r.value, x, y)
    decreases x, y
  {
    if y > 0 then
      if b[x][y - 1] == piece then Some(Pos(x, y - 1)) else LastBefore(b, piece, x, y - 1)
    else if x > 0 then LastBefore(b, piece, x - 1, GridSize)
    else None
  }

  /** The scan finds a piece that was visited, and nothing that holds the
      piece comes after what it finds. */
  lemma {:induction false} LastBeforeFinds(b: Board, piece: Piece, x: int, y: int, p: Pos)
    requires WellFormed(b) && ScanPoint(x, y)
    requires OnBoard(p) && At(b, p) == piece && Before(p, x, y)
    ensures LastBefore(b, piece, x, y).Some?
    ensures !Before(LastBefore(b, piece, x, y).value, p.x, p.y)
    decreases x, y
  {
    if y > 0 {
      if b[x][y - 1] != piece {
        LastBeforeFinds(b, piece, x, y - 1, p);
      }
    } else if x > 0 {
      LastBeforeFinds(b, piece, x - 1, GridSize, p);
    }
  }

  /** The king whose safety isKingThreatenedBy(c) examines: the king of the
      colour opposite to `c`. */
  function ThreatenedKing(c: Color): Piece
  {
    if SwitchColor(c) == White then WhiteKing else BlackKing
  }

  /** Where isKingThreatenedBy finds that king: the last match of the scan. */
  function KingSquare(b: Board, king: Piece): (p: Pos)
    requires WellFormed(b) && HasPiece(b, king)
    ensures OnBoard(p) && At(b, p) == king
  {
    var x, y :| 0 <= x < GridSize && 0 <= y < GridSize && b[x][y] == king;
    LastBeforeFinds(b, king, GridSize, 0, Pos(x, y));
    LastBefore(b, king, GridSize, 0).value
  }

  /** isKingThreatenedBy(c): is the king of the colour opposite to `c`
      attacked by a piece of colour `c`? */
  predicate IsKingThreatenedBy(b: Board, c: Color)
    requires WellFormed(b) && HasPiece(b, ThreatenedKing(c))
  {
    IsPosThreatened(b, KingSquare(b, ThreatenedKing(c)), c)
  }

  /** The standard notion: some king of colour `c` is attacked by a piece of
      the other colour. */
  ghost predicate InCheck(b: Board, c: Color)
    requires WellFormed(b)
  {
    exists x, y :: 0 <= x < GridSize && 0 <= y < GridSize &&
      b[x][y] == KingPiece(c) && Attacked(b, Pos(x, y), SwitchColor(c))
  }

  /** With a single king of colour `c`, asking whether the opposite colour
      threatens "its opponent's" king is exactly asking whether `c` is in
      check. */
  lemma KingThreatIsCheck(b: Board, c: Color)
    requires WellFormed(b) && IsPlayer(c) && HasPiece(b, KingPiece(c)) && UniqueKing(b, c)
    ensures ThreatenedKing(SwitchColor(c)) == KingPiece(c)
    ensures IsKingThreatenedBy(b, SwitchColor(c)) <==> InCheck(b, c)
  {
    assert ThreatenedKing(SwitchColor(c)) == KingPiece(c);
    var p := KingSquare(b, KingPiece(c));
    IsPosThreatenedExact(b, p, SwitchColor(c));
    if InCheck(b, c) {
      CheckedKingIsFound(b, c);
    }
  }

  /** The king found in check is the one the scan finds. */
  lemma CheckedKingIsFound(b: Board, c: Color)
    requires WellFormed(b) && IsPlayer(c) && HasPiece(b, KingPiece(c)) && UniqueKing(b, c)
    requires InCheck(b, c)
    ensures Attacked(b, KingSquare(b, KingPiece(c)), SwitchColor(c))
  {
    var x, y :| 0 <= x < GridSize && 0 <= y < GridSize &&
      b[x][y] == KingPiece(c) && Attacked(b, Pos(x, y), SwitchColor(c));
    var p := KingSquare(b, KingPiece(c));
    assert b[p.x][p.y] == KingPiece(c);
  }

  // ---------------------------------------------------------------------------
  // Speculative apply and revert
  // ---------------------------------------------------------------------------

  /** The move record pseudoDoMove fills in: the mover and the captured piece. */
  function Recorded(b: Board, turn: Color, m: Move): Move
    requires WellFormed(b) && OnBoard(m.to)
  {
    m.(player := turn, captured := At(b, m.to))
  }

  /** pseudoDoMove on the board: the origin's piece goes to the destination
      and the origin is emptied. */
  function Apply(b: Board, m: Move): (r: Board)
    requires WellFormed(b) && OnBoard(m.from) && OnBoard(m.to)
    ensures WellFormed(r)
  {
    Set(Set(b, m.to, At(b, m.from)), m.from, NoPiece)
  }

  /** pseudoUndoMove on the board: the destination's piece goes back to the
      origin and the recorded captured piece back to the destination. */
  function Revert(b: Board, m: Move): (r: Board)
    requires WellFormed(b) && OnBoard(m.from) && OnBoard(m.to)
    ensures WellFormed(r)
  {
    Set(Set(b, m.from, At(b, m.to)), m.to, m.captured)
  }

  /** Reverting a recorded move restores every square, including the
      captured piece, even for a null move. */
  lemma ApplyRevert(b: Board, turn: Color, m: Move)
    requires WellFormed(b) && OnBoard(m.from) && OnBoard(m.to)
    ensures Revert(Apply(b, m), Recorded(b, turn, m)) == b
  {
    SameBoard(Revert(Apply(b, m), Recorded(b, turn, m)), b);
  }

  /** A move that does not land on a friendly piece keeps the mover's king
      on the board. */
  lemma KingSurvivesMove(b: Board, turn: Color, m: Move)
    requires WellFormed(b) && OnBoard(m.from) && OnBoard(m.to) && IsPlayer(turn)
    requires HasPiece(b, KingPiece(turn)) && PieceColor(At(b, m.to)) != turn
    ensures HasPiece(Apply(b, m), KingPiece(turn))
  {
    var x, y :| 0 <= x < GridSize && 0 <= y < GridSize && b[x][y] == KingPiece(turn);
    var a := Apply(b, m);
    if Pos(x, y) == m.from {
      assert a[m.to.x][m.to.y] == KingPiece(turn);
    } else {
      assert a[x][y] == KingPiece(turn);
    }
  }

  /** A move keeps a single king of each colour single. */
  lemma ApplyKeepsUniqueKing(b: Board, m: Move, c: Color)
    requires WellFormed(b) && OnBoard(m.from) && OnBoard(m.to) && UniqueKing(b, c)
    ensures UniqueKing(Apply(b, m), c)
  {
  }

  // ---------------------------------------------------------------------------
  // Move validation: isValidMove
  // ---------------------------------------------------------------------------

  /** The checks of isValidMove before king safety, in order. */
  function PreCheck(b: Board, turn: Color, m: Move): Result
    requires WellFormed(b)
  {
    if !(OnBoard(m.from) && OnBoard(m.to)) then InvalidPosition
    else if PieceColor(At(b, m.from)) != turn then EmptyPosition
    else if !IsValidToPosition(At(b, m.from), At(b, m.to)) then IllegalMove
    else if !PieceMove(b, m.from, m.to) then IllegalMove
    else Success
  }

  /** isValidMove: the pre-checks, then king safety. `isThreatened` asks
      isKingThreatenedBy(turn), which examines the opponent's king; only
      `willBeThreatened` (the mover's king after the move) decides whether
      the move is accepted. */
  function Validate(b: Board, turn: Color, m: Move): Result
    requires WellFormed(b) && KingsPresent(b) && IsPlayer(turn)
  {
    var pre := PreCheck(b, turn, m);
    if pre != Success then pre
    else
      var isThreatened := IsKingThreatenedBy(b, turn);
      var after := Apply(b, m);
      KingSurvivesMove(b, turn, m);
      assert ThreatenedKing(SwitchColor(turn)) == KingPiece(turn);
      var willBeThreatened := IsKingThreatenedBy(after, SwitchColor(turn));
      if isThreatened && willBeThreatened then KingIsStillThreatened
      else if willBeThreatened then KingWillBeThreatened
      else Success
  }

  /** The order of the checks: each result names the first check that fails. */
  lemma ValidateOrder(b: Board, turn: Color, m: Move)
    requires WellFormed(b) && KingsPresent(b) && IsPlayer(turn)
    ensures Validate(b, turn, m) == InvalidPosition <==> !(OnBoard(m.from) && OnBoard(m.to))
    ensures Validate(b, turn, m) == EmptyPosition <==>
              OnBoard(m.from) && OnBoard(m.to) && PieceColor(At(b, m.from)) != turn
    ensures Validate(b, turn, m) == IllegalMove <==>
              OnBoard(m.from) && OnBoard(m.to) && PieceColor(At(b, m.from)) == turn &&
              (PieceColor(At(b, m.to)) == turn || !PieceMove(b, m.from, m.to))
    ensures Validate(b, turn, m) in {Success, InvalidPosition, EmptyPosition, IllegalMove,
                                     KingIsStillThreatened, KingWillBeThreatened}
  {
  }

  /** Check safety: a move that passes the pre-checks is accepted exactly when
      the mover is not in check afterwards, and otherwise is refused with one
      of the two king-safety results. */
  lemma ValidateIsCheckSafe(b: Board, turn: Color, m: Move)
    requires WellFormed(b) && KingsPresent(b) && IsPlayer(turn) && UniqueKing(b, turn)
    requires PreCheck(b, turn, m) == Success
    ensures OnBoard(m.from) && OnBoard(m.to)
    ensures Validate(b, turn, m) == Success <==> !InCheck(Apply(b, m), turn)
    ensures Validate(b, turn, m) != Success ==>
              Validate(b, turn, m) in {KingIsStillThreatened, KingWillBeThreatened}
  {
    KingSurvivesMove(b, turn, m);
    ApplyKeepsUniqueKing(b, m, turn);
    KingThreatIsCheck(Apply(b, m), turn);
  }

  /** An accepted move leaves no square holding the mover's king attacked by
      any opponent piece. */
  lemma SuccessLeavesKingSafe(b: Board, turn: Color, m: Move)
    requires WellFormed(b) && KingsPresent(b) && IsPlayer(turn) && UniqueKing(b, turn)
    requires Validate(b, turn, m) == Success
    ensures OnBoard(m.from) && OnBoard(m.to) && PieceColor(At(b, m.from)) == turn
    ensures forall x, y :: 0 <= x < GridSize && 0 <= y < GridSize && Apply(b, m)[x][y] == KingPiece(turn) ==>
              !Attacked(Apply(b, m), Pos(x, y), SwitchColor(turn))
  {
    ValidateIsCheckSafe(b, turn, m);
  }

  /** The source's KingIsStillThreatened does not mean that the mover was in
      check: it is returned when the move leaves the mover in check and, before
      the move, the mover was attacking the opponent's king. */
  lemma StillThreatenedMeansOpponentWasAttacked(b: Board, turn: Color, m: Move)
    requires WellFormed(b) && KingsPresent(b) && IsPlayer(turn)
    requires UniqueKing(b, turn) && UniqueKing(b, SwitchColor(turn))
    requires PreCheck(b, turn, m) == Success
    ensures OnBoard(m.from) && OnBoard(m.to)
    ensures Validate(b, turn, m) == KingIsStillThreatened <==>
              InCheck(Apply(b, m), turn) && InCheck(b, SwitchColor(turn))
    ensures Validate(b, turn, m) == KingWillBeThreatened <==>
              InCheck(Apply(b, m), turn) && !InCheck(b, SwitchColor(turn))
  {
    ValidateIsCheckSafe(b, turn, m);
    KingThreatIsCheck(b, SwitchColor(turn));
    assert SwitchColor(SwitchColor(turn)) == turn;
  }

  /** What play keeps true of a position: one king of each colour, and the
      side that has just moved is not in check. */
  ghost predicate Playable(b: Board, turn: Color)
    requires WellFormed(b) && IsPlayer(turn)
  {
    && KingsPresent(b)
    && UniqueKing(b, White) && UniqueKing(b, Black)
    && !InCheck(b, SwitchColor(turn))
  }

  /** An accepted move keeps the position playable for the other side: it
      cannot take the opponent's king, since that king would have been in
      check, and it leaves the mover out of check. */
  lemma SuccessKeepsPlayable(b: Board, turn: Color, m: Move)
    requires WellFormed(b) && IsPlayer(turn) && Playable(b, turn)
    requires Validate(b, turn, m) == Success
    ensures OnBoard(m.from) && OnBoard(m.to)
    ensures Playable(Apply(b, m), SwitchColor(turn))
  {
    ValidateOrder(b, turn, m);
    SuccessLeavesKingSafe(b, turn, m);
    MoverOutOfCheck(b, turn, m);
    PlayableAfter(b, turn, m);
  }

  /** The board facts an accepted move supplies are enough to keep the
      position playable. */
  lemma PlayableAfter(b: Board, turn: Color, m: Move)
    requires WellFormed(b) && IsPlayer(turn) && Playable(b, turn)
    requires OnBoard(m.from) && OnBoard(m.to)
    requires PieceColor(At(b, m.from)) == turn && PieceColor(At(b, m.to)) != turn
    requires PieceMove(b, m.from, m.to) && !InCheck(Apply(b, m), turn)
    ensures Playable(Apply(b, m), SwitchColor(turn))
  {
    KingSurvivesMove(b, turn, m);
    NoKingCaptureOutOfCheck(b, turn, m);
    OtherKingSurvivesMove(b, m, SwitchColor(turn));
    ApplyKeepsUniqueKing(b, m, White);
    ApplyKeepsUniqueKing(b, m, Black);
    assert SwitchColor(SwitchColor(turn)) == turn;
  }

  /** A move of the mover's piece by its rule cannot land on the opponent's
      king unless that king was in check. */
  lemma NoKingCaptureOutOfCheck(b: Board, turn: Color, m: Move)
    requires WellFormed(b) && IsPlayer(turn) && OnBoard(m.from) && OnBoard(m.to)
    requires PieceColor(At(b, m.from)) == turn && PieceMove(b, m.from, m.to)
    requires !InCheck(b, SwitchColor(turn))
    ensures At(b, m.to) != KingPiece(SwitchColor(turn))
  {
    assert SwitchColor(SwitchColor(turn)) == turn;
    assert Attacker(b, m.from, m.to, turn);
    assert Attacked(b, m.to, turn);
  }

  /** A king on neither end of the move stays on the board. */
  lemma OtherKingSurvivesMove(b: Board, m: Move, c: Color)
    requires WellFormed(b) && OnBoard(m.from) && OnBoard(m.to) && HasPiece(b, KingPiece(c))
    requires At(b, m.from) != KingPiece(c) && At(b, m.to) != KingPiece(c)
    ensures HasPiece(Apply(b, m), KingPiece(c))
  {
    var x, y :| 0 <= x < GridSize && 0 <= y < GridSize && b[x][y] == KingPiece(c);
    assert Apply(b, m)[x][y] == KingPiece(c);
  }

  /** No king of the mover attacked after the move is the mover not in
      check. */
  lemma MoverOutOfCheck(b: Board, turn: Color, m: Move)
    requires WellFormed(b) && IsPlayer(turn) && OnBoard(m.from) && OnBoard(m.to)
    requires forall x, y :: 0 <= x < GridSize && 0 <= y < GridSize && Apply(b, m)[x][y] == KingPiece(turn) ==>
               !Attacked(Apply(b, m), Pos(x, y), SwitchColor(turn))
    ensures !InCheck(Apply(b, m), turn)
  {
  }

  /** The initial layout is playable for white: black's king on (4, 7) is
      out of reach of every white piece. */
  lemma InitialPlayable()
    ensures Playable(InitialBoard(), White)
  {
    InitialBoardKings();
    InitialBlackNotInCheck();
  }

  /** In the initial layout black is not in check. */
  lemma InitialBlackNotInCheck()
    ensures !InCheck(InitialBoard(), Black)
  {
    var b := InitialBoard();
    InitialKingSquare(Black, 7);
    assert b[4][7] == BlackKing;
    forall p | OnBoard(p)
      ensures !Attacker(b, p, Pos(4, 7), White)
    {
      InitialOutOfReach(p);
    }
    assert !Attacked(b, Pos(4, 7), White);
  }

  /** No white piece of the initial layout can reach (4, 7): pawns, knights
      and the king move at most two ranks, the rooks and bishops are on the
      wrong lines, and so is the queen. */
  lemma InitialOutOfReach(p: Pos)
    requires OnBoard(p)
    ensures !Attacker(InitialBoard(), p, Pos(4, 7), White)
  {
    var b := InitialBoard();
    assert At(b, p) == InitialPiece(p.x, p.y);
  }

  // ---------------------------------------------------------------------------
  // Move enumeration: getMoveType, ChessGame_GetMoves, hasMoves
  // ---------------------------------------------------------------------------

  /** A move between two squares, with the record fields left blank. */
  function PlainMove(from: Pos, to: Pos): Move
  {
    Move(from, to, NoPiece, NoColor)
  }

  /** getMoveType: after the move, can the opponent take the moved piece on
      its new square; and was the destination occupied. */
  function MoveType(b: Board, turn: Color, from: Pos, to: Pos): PosType
    requires WellFormed(b) && OnBoard(from) && OnBoard(to)
  {
    var isThreatened := IsPosThreatened(Apply(b, PlainMove(from, to)), to, SwitchColor(turn));
    var isCapture := At(b, to) != NoPiece;
    if isThreatened && isCapture then Both
    else if isThreatened then Threatened
    else if isCapture then Capture
    else Standard
  }

  /** The move-type tag means: Threatened/Both exactly when, after the move,
      some opponent piece may move onto the moved piece's new square, and
      Capture/Both exactly when the destination was occupied before it. */
  lemma MoveTypeMeaning(b: Board, turn: Color, from: Pos, to: Pos)
    requires WellFormed(b) && OnBoard(from) && OnBoard(to)
    ensures MoveType(b, turn, from, to) in {Threatened, Both} <==>
              Attacked(Apply(b, PlainMove(from, to)), to, SwitchColor(turn))
    ensures MoveType(b, turn, from, to) in {Capture, Both} <==> At(b, to) != NoPiece
  {
    IsPosThreatenedExact(Apply(b, PlainMove(from, to)), to, SwitchColor(turn));
  }

  /** The accepted destinations visited before scan position (x, y), each
      tagged with its move type, in scan order. */
  function TargetsBefore(b: Board, turn: Color, from: Pos, x: int, y: int): seq<Target>
    requires WellFormed(b) && KingsPresent(b) && IsPlayer(turn) && OnBoard(from) && ScanPoint(x, y)
    decreases x, y
  {
    if y > 0 then
      var to := Pos(x, y - 1);
      var rest := TargetsBefore(b, turn, from, x, y - 1);
      if Validate(b, turn, PlainMove(from, to)) == Success
      then rest + [Target(to, MoveType(b, turn, from, to))]
      else rest
    else if x > 0 then TargetsBefore(b, turn, from, x - 1, GridSize)
    else []
  }

  function LegalTargets(b: Board, turn: Color, from: Pos): seq<Target>
    requires WellFormed(b) && KingsPresent(b) && IsPlayer(turn) && OnBoard(from)
  {
    TargetsBefore(b, turn, from, GridSize, 0)
  }

  lemma {:induction false} TargetsExact(b: Board, turn: Color, from: Pos, x: int, y: int, t: Target)
    requires WellFormed(b) && KingsPresent(b) && IsPlayer(turn) && OnBoard(from) && ScanPoint(x, y)
    ensures t in TargetsBefore(b, turn, from, x, y) <==>
              && OnBoard(t.to) && Before(t.to, x, y)
              && Validate(b, turn, PlainMove(from, t.to)) == Success
              && t.kind == MoveType(b, turn, from, t.to)
    decreases x, y
  {
    if y > 0 {
      TargetsExact(b, turn, from, x, y - 1, t);
      var to := Pos(x, y - 1);
      var rest := TargetsBefore(b, turn, from, x, y - 1);
      var ok := Validate(b, turn, PlainMove(from, to)) == Success;
      var e := Target(to, MoveType(b, turn, from, to));
      assert TargetsBefore(b, turn, from, x, y) == if ok then rest + [e] else rest;
      if t.to == to {
        assert t !in rest;
      } else {
        assert t != e;
      }
    } else if x > 0 {
      TargetsExact(b, turn, from, x - 1, GridSize, t);
    }
  }

  /** The destinations GetMoves lists are exactly the squares the piece may
      move to when its own colour is to move, each with its move type. */
  lemma LegalTargetsExact(b: Board, turn: Color, from: Pos, t: Target)
    requires WellFormed(b) && KingsPresent(b) && IsPlayer(turn) && OnBoard(from)
    ensures t in LegalTargets(b, turn, from) <==>
              && OnBoard(t.to)
              && Validate(b, turn, PlainMove(from, t.to)) == Success
              && t.kind == MoveType(b, turn, from, t.to)
  {
    TargetsExact(b, turn, from, GridSize, 0, t);
  }

  /** ChessGame_GetMoves as a value: an off-board origin, an empty origin, or
      the destinations of the piece with its owner to move. */
  function MovesFrom(b: Board, pos: Pos): (Result, seq<Target>)
    requires WellFormed(b) && KingsPresent(b)
  {
    if !OnBoard(pos) then (InvalidPosition, [])
    else if At(b, pos) == NoPiece then (EmptyPosition, [])
    else (Success, LegalTargets(b, PieceColor(At(b, pos)), pos))
  }

  /** A square of the player to move from which GetMoves lists something. */
  predicate Movable(b: Board, turn: Color, p: Pos)
    requires WellFormed(b) && KingsPresent(b) && IsPlayer(turn) && OnBoard(p)
  {
    PieceColor(At(b, p)) == turn && LegalTargets(b, turn, p) != []
  }

  /** The loop of hasMoves up to scan position (x, y). */
  predicate MovesBefore(b: Board, turn: Color, x: int, y: int)
    requires WellFormed(b) && KingsPresent(b) && IsPlayer(turn) && ScanPoint(x, y)
    decreases x, y
  {
    if y > 0 then Movable(b, turn, Pos(x, y - 1)) || MovesBefore(b, turn, x, y - 1)
    else if x > 0 then MovesBefore(b, turn, x - 1, GridSize)
    else false
  }

  /** hasMoves: the whole scan. */
  predicate HasMoves(b: Board, turn: Color)
    requires WellFormed(b) && KingsPresent(b) && IsPlayer(turn)
  {
    MovesBefore(b, turn, GridSize, 0)
  }

  lemma {:induction false} MovesBeforeExact(b: Board, turn: Color, x: int, y: int)
    requires WellFormed(b) && KingsPresent(b) && IsPlayer(turn) && ScanPoint(x, y)
    ensures MovesBefore(b, turn, x, y) <==> exists p :: OnBoard(p) && Before(p, x, y) && Movable(b, turn, p)
    decreases x, y
  {
    if y > 0 {
      MovesBeforeExact(b, turn, x, y - 1);
      if MovesBefore(b, turn, x, y) && !Movable(b, turn, Pos(x, y - 1)) {
        var p :| OnBoard(p) && Before(p, x, y - 1) && Movable(b, turn, p);
        assert Before(p, x, y);
      }
      if exists p :: OnBoard(p) && Before(p, x, y) && Movable(b, turn, p) {
        var p :| OnBoard(p) && Before(p, x, y) && Movable(b, turn, p);
        if p != Pos(x, y - 1) {
          assert Before(p, x, y - 1);
        }
      }
    } else if x > 0 {
      MovesBeforeExact(b, turn, x - 1, GridSize);
      if exists p :: OnBoard(p) && Before(p, x, y) && Movable(b, turn, p) {
        var p :| OnBoard(p) && Before(p, x, y) && Movable(b, turn, p);
        assert Before(p, x - 1, GridSize);
      }
    }
  }

  /** A movable square found part-way through the scan settles the answer,
      which is what the early return of hasMoves relies on. */
  lemma MovesSettle(b: Board, turn: Color, x: int, y: int)
    requires WellFormed(b) && KingsPresent(b) && IsPlayer(turn) && ScanPoint(x, y)
    requires MovesBefore(b, turn, x, y)
    ensures HasMoves(b, turn)
  {
    MovesBeforeExact(b, turn, x, y);
    MovesBeforeExact(b, turn, GridSize, 0);
    var p :| OnBoard(p) && Before(p, x, y) && Movable(b, turn, p);
    assert Before(p, GridSize, 0);
  }

  /** HasMoves holds exactly when some move passes validation. */
  lemma HasMovesIffLegalMove(b: Board, turn: Color)
    requires WellFormed(b) && KingsPresent(b) && IsPlayer(turn)
    ensures HasMoves(b, turn) <==>
              exists from, to :: OnBoard(from) && OnBoard(to) &&
                Validate(b, turn, PlainMove(from, to)) == Success
  {
    MovesBeforeExact(b, turn, GridSize, 0);
    if HasMoves(b, turn) {
      var p :| OnBoard(p) && Before(p, GridSize, 0) && Movable(b, turn, p);
      TargetGivesLegalMove(b, turn, p);
    }
    if exists from, to :: OnBoard(from) && OnBoard(to) && Validate(b, turn, PlainMove(from, to)) == Success {
      var from, to :| OnBoard(from) && OnBoard(to) && Validate(b, turn, PlainMove(from, to)) == Success;
      LegalMoveGivesTarget(b, turn, from, to);
      assert Before(from, GridSize, 0);
    }
  }

  lemma TargetGivesLegalMove(b: Board, turn: Color, from: Pos)
    requires WellFormed(b) && KingsPresent(b) && IsPlayer(turn) && OnBoard(from)
    requires LegalTargets(b, turn, from) != []
    ensures exists to :: OnBoard(to) && Validate(b, turn, PlainMove(from, to)) == Success
  {
    var t := LegalTargets(b, turn, from)[0];
    LegalTargetsExact(b, turn, from, t);
  }

  lemma LegalMoveGivesTarget(b: Board, turn: Color, from: Pos, to: Pos)
    requires WellFormed(b) && KingsPresent(b) && IsPlayer(turn) && OnBoard(from) && OnBoard(to)
    requires Validate(b, turn, PlainMove(from, to)) == Success
    ensures Movable(b, turn, from)
  {
    var t := Target(to, MoveType(b, turn, from, to));
    LegalTargetsExact(b, turn, from, t);
    assert PreCheck(b, turn, PlainMove(from, to)) == Success;
  }

  // ---------------------------------------------------------------------------
  // Game status: ChessGame_GetGameStatus
  // ---------------------------------------------------------------------------

  function StatusOf(b: Board, turn: Color): Status
    requires WellFormed(b) && KingsPresent(b) && IsPlayer(turn)
  {
    assert ThreatenedKing(SwitchColor(turn)) == KingPiece(turn);
    var inCheck := IsKingThreatenedBy(b, SwitchColor(turn));
    if inCheck then (if HasMoves(b, turn) then Check else Checkmate)
    else (if HasMoves(b, turn) then Running else Draw)
  }

  /** Checkmate is check with no legal move, Draw is no legal move without
      check, Check is check with a legal move, Running is the rest. */
  lemma StatusMeaning(b: Board, turn: Color)
    requires WellFormed(b) && KingsPresent(b) && IsPlayer(turn) && UniqueKing(b, turn)
    ensures var moves := exists from, to :: OnBoard(from) && OnBoard(to) &&
                           Validate(b, turn, PlainMove(from, to)) == Success;
            && (StatusOf(b, turn) == Checkmate <==> InCheck(b, turn) && !moves)
            && (StatusOf(b, turn) == Check <==> InCheck(b, turn) && moves)
            && (StatusOf(b, turn) == Draw <==> !InCheck(b, turn) && !moves)
            && (StatusOf(b, turn) == Running <==> !InCheck(b, turn) && moves)
  {
    KingThreatIsCheck(b, turn);
    HasMovesIffLegalMove(b, turn);
  }

  // ---------------------------------------------------------------------------
  // Initial layout: ChessGame_InitBoard
  // ---------------------------------------------------------------------------

  /** The back-rank piece on file `x`: rook, knight, bishop, queen, king,
      bishop, knight, rook. */
  function BackRank(x: int, c: Color): Piece
  {
    if c == White then
      if x == 0 || x == 7 then WhiteRook
      else if x == 1 || x == 6 then WhiteKnight
      else if x == 2 || x == 5 then WhiteBishop
      else if x == 3 then WhiteQueen
      else WhiteKing
    else
      if x == 0 || x == 7 then BlackRook
      else if x == 1 || x == 6 then BlackKnight
      else if x == 2 || x == 5 then BlackBishop
      else if x == 3 then BlackQueen
      else BlackKing
  }

  function InitialPiece(x: int, y: int): Piece
  {
    if y == 0 then BackRank(x, White)
    else if y == 1 then WhitePawn
    else if y == 6 then BlackPawn
    else if y == 7 then BackRank(x, Black)
    else NoPiece
  }

  function InitialBoard(): (b: Board)
    ensures WellFormed(b)
    ensures forall x, y :: 0 <= x < GridSize && 0 <= y < GridSize ==> b[x][y] == InitialPiece(x, y)
  {
    seq(GridSize, x => seq(GridSize, y => InitialPiece(x, y)))
  }

  /** The initial layout has exactly one king per colour, on file 4 of the
      back ranks. */
  lemma InitialBoardKings()
    ensures KingsPresent(InitialBoard())
    ensures UniqueKing(InitialBoard(), White) && UniqueKing(InitialBoard(), Black)
    ensures KingSquare(InitialBoard(), WhiteKing) == Pos(4, 0)
    ensures KingSquare(InitialBoard(), BlackKing) == Pos(4, 7)
  {
    InitialKingSquare(White, 0);
    InitialKingSquare(Black, 7);
  }

  /** White owns exactly ranks 0-1 and black exactly ranks 6-7 of the
      initial layout; ranks 2-5 are empty. */
  lemma InitialSides()
    ensures forall x, y :: 0 <= x < GridSize && 0 <= y < GridSize ==>
              && (PieceColor(InitialBoard()[x][y]) == White <==> y <= 1)
              && (PieceColor(InitialBoard()[x][y]) == Black <==> y >= 6)
  {
    forall x, y | 0 <= x < GridSize && 0 <= y < GridSize
      ensures PieceColor(InitialBoard()[x][y]) == White <==> y <= 1
      ensures PieceColor(InitialBoard()[x][y]) == Black <==> y >= 6
    {
      assert InitialBoard()[x][y] == InitialPiece(x, y);
    }
  }

  lemma InitialKingSquare(c: Color, rank: int)
    requires IsPlayer(c) && rank == (if c == White then 0 else 7)
    ensures HasPiece(InitialBoard(), KingPiece(c))
    ensures UniqueKing(InitialBoard(), c)
    ensures KingSquare(InitialBoard(), KingPiece(c)) == Pos(4, rank)
  {
    var b := InitialBoard();
    assert b[4][rank] == KingPiece(c);
    forall x, y | 0 <= x < GridSize && 0 <= y < GridSize && b[x][y] == KingPiece(c)
      ensures x == 4 && y == rank
    {
      assert InitialPiece(x, y) == KingPiece(c);
    }
    var p := KingSquare(b, KingPiece(c));
  }
}
