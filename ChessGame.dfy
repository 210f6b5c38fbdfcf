/**
 * The game object of final-project/src/ChessGame.c: an 8x8 array of piece
 * codes `board[x, y]`, the colour to move, the settings, and a bounded move
 * history. Each board, move and history method is proved against the
 * value-level definitions of module ChessRules, read off the board through
 * `GridOf(board)`; the settings methods state their constants and ranges
 * directly. A ghost list of the positions the recorded moves were played
 * from ties the history to play, so an undo returns to a known, playable
 * position.
 *
 * The history is the ring-buffer stack of module FsaStack with capacity
 * CHESS_HISTORY_SIZE = 6.
 */
module ChessGame {
  import opened Options
  import opened ChessRules
  import FsaStack

  /** CHESS_HISTORY_SIZE */
  const HistorySize: nat := 6

  /** ChessMode and ChessDifficulty codes (assumed consecutive, as the
      range checks of the setters require). */
  const Mode1Player: int := 1
  const Mode2Player: int := 2
  const DifficultyAmateur: int := 1
  const DifficultyEasy: int := 2
  const DifficultyExpert: int := 5

  /** ChessColor codes: BLACK = 0, WHITE = 1. */
  const ColorBlack: int := 0
  const ColorWhite: int := 1

  function ColorOfCode(code: int): Color
  {
    if code == ColorBlack then Black else if code == ColorWhite then White else NoColor
  }

  /** The piece codes of an 8x8 array as a value, indexed `[x][y]`. */
  ghost function GridOf(a: array2<Piece>): (g: Board)
    reads a
    requires a.Length0 == GridSize && a.Length1 == GridSize
    ensures WellFormed(g)
    ensures forall x, y :: 0 <= x < GridSize && 0 <= y < GridSize ==> g[x][y] == a[x, y]
  {
    seq(GridSize, x requires 0 <= x < GridSize reads a =>
      seq(GridSize, y requires 0 <= y < GridSize && a.Length0 == GridSize && a.Length1 == GridSize
                      reads a => a[x, y]))
  }

  // The steps of ChessGame_InitBoard, in order: the two back ranks, the pawn
  // ranks, the four middle ranks.

  method PlaceWhiteBackRank(a: array2<Piece>)
    requires a.Length0 == GridSize && a.Length1 == GridSize
    modifies a
    ensures forall x, y :: 0 <= x < GridSize && 0 < y < GridSize ==> a[x, y] == old(a[x, y])
    ensures a[0, 0] == WhiteRook && a[1, 0] == WhiteKnight && a[2, 0] == WhiteBishop && a[3, 0] == WhiteQueen
    ensures a[4, 0] == WhiteKing && a[5, 0] == WhiteBishop && a[6, 0] == WhiteKnight && a[7, 0] == WhiteRook
  {
    a[0, 0], a[7, 0] := WhiteRook, WhiteRook;
    a[1, 0], a[6, 0] := WhiteKnight, WhiteKnight;
    a[2, 0], a[5, 0] := WhiteBishop, WhiteBishop;
    a[3, 0] := WhiteQueen;
    a[4, 0] := WhiteKing;
  }

  method PlaceBlackBackRank(a: array2<Piece>)
    requires a.Length0 == GridSize && a.Length1 == GridSize
    modifies a
    ensures forall x, y :: 0 <= x < GridSize && 0 <= y < GridSize - 1 ==> a[x, y] == old(a[x, y])
    ensures a[0, 7] == BlackRook && a[1, 7] == BlackKnight && a[2, 7] == BlackBishop && a[3, 7] == BlackQueen
    ensures a[4, 7] == BlackKing && a[5, 7] == BlackBishop && a[6, 7] == BlackKnight && a[7, 7] == BlackRook
  {
    a[0, 7], a[7, 7] := BlackRook, BlackRook;
    a[1, 7], a[6, 7] := BlackKnight, BlackKnight;
    a[2, 7], a[5, 7] := BlackBishop, BlackBishop;
    a[3, 7] := BlackQueen;
    a[4, 7] := BlackKing;
  }

  method PlacePawns(a: array2<Piece>)
    requires a.Length0 == GridSize && a.Length1 == GridSize
    modifies a
    ensures forall x, y :: 0 <= x < GridSize && 0 <= y < GridSize && y != 1 && y != 6 ==> a[x, y] == old(a[x, y])
    ensures forall x :: 0 <= x < GridSize ==> a[x, 1] == WhitePawn && a[x, 6] == BlackPawn
  {
    for j := 0 to GridSize
      invariant forall x, y :: 0 <= x < GridSize && 0 <= y < GridSize && y != 1 && y != 6 ==> a[x, y] == old(a[x, y])
      invariant forall x :: 0 <= x < j ==> a[x, 1] == WhitePawn && a[x, 6] == BlackPawn
    {
      a[j, 1] := WhitePawn;
      a[j, 6] := BlackPawn;
    }
  }

  method ClearMiddleRanks(a: array2<Piece>)
    requires a.Length0 == GridSize && a.Length1 == GridSize
    modifies a
    ensures forall x, y :: 0 <= x < GridSize && 0 <= y < GridSize && (y < 2 || y >= GridSize - 2) ==> a[x, y] == old(a[x, y])
    ensures forall x, y :: 0 <= x < GridSize && 2 <= y < GridSize - 2 ==> a[x, y] == NoPiece
  {
    for i := 2 to GridSize - 2
      invariant forall x, y :: 0 <= x < GridSize && 0 <= y < GridSize && (y < 2 || y >= i) ==> a[x, y] == old(a[x, y])
      invariant forall x, y :: 0 <= x < GridSize && 2 <= y < i ==> a[x, y] == NoPiece
    {
      for j := 0 to GridSize
        invariant forall x, y :: 0 <= x < GridSize && 0 <= y < GridSize && (y < 2 || y > i || (y == i && x >= j)) ==> a[x, y] == old(a[x, y])
        invariant forall x, y :: 0 <= x < GridSize && 2 <= y < i ==> a[x, y] == NoPiece
        invariant forall x :: 0 <= x < j ==> a[x, i] == NoPiece
      {
        a[j, i] := NoPiece;
      }
    }
  }

  /** The steps together lay out the initial position. */
  lemma InitialLayout(a: array2<Piece>)
    requires a.Length0 == GridSize && a.Length1 == GridSize
    requires a[0, 0] == WhiteRook && a[1, 0] == WhiteKnight && a[2, 0] == WhiteBishop && a[3, 0] == WhiteQueen
    requires a[4, 0] == WhiteKing && a[5, 0] == WhiteBishop && a[6, 0] == WhiteKnight && a[7, 0] == WhiteRook
    requires a[0, 7] == BlackRook && a[1, 7] == BlackKnight && a[2, 7] == BlackBishop && a[3, 7] == BlackQueen
    requires a[4, 7] == BlackKing && a[5, 7] == BlackBishop && a[6, 7] == BlackKnight && a[7, 7] == BlackRook
    requires forall x :: 0 <= x < GridSize ==> a[x, 1] == WhitePawn && a[x, 6] == BlackPawn
    requires forall x, y :: 0 <= x < GridSize && 2 <= y < GridSize - 2 ==> a[x, y] == NoPiece
    ensures GridOf(a) == InitialBoard()
  {
    forall x, y | 0 <= x < GridSize && 0 <= y < GridSize
      ensures GridOf(a)[x][y] == InitialBoard()[x][y]
    {
      assert a[x, y] == InitialPiece(x, y);
    }
    SameBoard(GridOf(a), InitialBoard());
  }

  /** Every move kept in the history names two squares of the board. */
  predicate OnBoardMoves(h: seq<Move>)
  {
    forall mv :: mv in h ==> OnBoard(mv.from) && OnBoard(mv.to)
  }

  /** Pushing an on-board move keeps the whole history on the board, whether
      or not the push evicts the oldest entry. */
  lemma PushKeepsOnBoard(h: seq<Move>, mv: Move)
    requires |h| <= HistorySize && OnBoardMoves(h) && OnBoard(mv.from) && OnBoard(mv.to)
    ensures OnBoardMoves(FsaStack.Pushed(h, mv, HistorySize))
  {
    if |h| == HistorySize {
      assert forall m :: m in h[1..] ==> m in h;
    }
  }

  /** One recorded move explained: it was played from the position `pb`
      with `pt` to move, its record is the filled-in move, and applying it
      gives the position `b` with `turn` to move. */
  ghost predicate Explains(pb: Board, pt: Color, m: Move, b: Board, turn: Color)
  {
    && WellFormed(pb) && IsPlayer(pt)
    && OnBoard(m.from) && OnBoard(m.to)
    && m == Recorded(pb, pt, m)
    && b == Apply(pb, m) && turn == SwitchColor(pt)
  }

  /** The history explained by play: `past` holds, oldest first, the
      position each recorded move was played from, and each move leads to
      the next position (the current one, `b` with `turn` to move, after
      the newest). */
  ghost predicate Traced(past: seq<(Board, Color)>, h: seq<Move>, b: Board, turn: Color)
    decreases |past|
  {
    && |past| == |h|
    && (|past| > 0 ==>
          var n := |past| - 1;
          && Explains(past[n].0, past[n].1, h[n], b, turn)
          && Traced(past[..n], h[..n], past[n].0, past[n].1))
  }

  /** A position with a player to move that play keeps sound. */
  ghost predicate PlayableEntry(e: (Board, Color))
  {
    WellFormed(e.0) && IsPlayer(e.1) && Playable(e.0, e.1)
  }

  /** Every position the history was played from was playable. */
  ghost predicate AllPlayable(past: seq<(Board, Color)>)
  {
    forall k :: 0 <= k < |past| ==> PlayableEntry(past[k])
  }

  /** Pushing a playable position, with or without eviction, keeps every
      kept position playable. */
  lemma PushedPastPlayable(past: seq<(Board, Color)>, x: (Board, Color))
    requires AllPlayable(past) && PlayableEntry(x)
    ensures AllPlayable(PushedPast(past, x))
  {
    var r := PushedPast(past, x);
    forall k | 0 <= k < |r|
      ensures PlayableEntry(r[k])
    {
      if k < |r| - 1 {
        assert r[k] == if |past| >= HistorySize then past[k + 1] else past[k];
      }
    }
  }

  /** The positions kept beside the history after a push: the oldest goes
      when the history is full, as the history's own oldest entry does. */
  ghost function PushedPast(past: seq<(Board, Color)>, x: (Board, Color)): (r: seq<(Board, Color)>)
    ensures |r| == if |past| >= HistorySize then |past| else |past| + 1
    ensures r[|r| - 1] == x
  {
    if |past| >= HistorySize then past[1..] + [x] else past + [x]
  }

  /** Forgetting the oldest recorded move keeps the rest explained. */
  lemma {:induction false} TracedDropOldest(past: seq<(Board, Color)>, h: seq<Move>, b: Board, turn: Color)
    requires Traced(past, h, b, turn) && |past| > 0
    ensures Traced(past[1..], h[1..], b, turn)
    decreases |past|
  {
    var n := |past| - 1;
    if n > 0 {
      TracedDropOldest(past[..n], h[..n], past[n].0, past[n].1);
      assert past[1..][..n - 1] == past[..n][1..];
      assert h[1..][..n - 1] == h[..n][1..];
      assert past[1..][n - 1] == past[n] && h[1..][n - 1] == h[n];
    }
  }

  /** A move explained from the current position extends the trace. */
  lemma TracedAppend(past: seq<(Board, Color)>, h: seq<Move>, b: Board, turn: Color, m: Move, b': Board, turn': Color)
    requires Traced(past, h, b, turn) && Explains(b, turn, m, b', turn')
    ensures Traced(past + [(b, turn)], h + [m], b', turn')
  {
    assert (past + [(b, turn)])[..|past|] == past;
    assert (h + [m])[..|h|] == h;
  }

  /** After an accepted move the history is explained by the position the
      move was played from, with the oldest entry evicted as the history
      evicts it. */
  lemma TracedPush(past: seq<(Board, Color)>, h: seq<Move>, b: Board, turn: Color, m: Move)
    requires WellFormed(b) && IsPlayer(turn) && KingsPresent(b) && Traced(past, h, b, turn)
    requires |h| <= HistorySize && Validate(b, turn, m) == Success
    ensures OnBoard(m.from) && OnBoard(m.to)
    ensures Traced(PushedPast(past, (b, turn)), FsaStack.Pushed(h, Recorded(b, turn, m), HistorySize),
                   Apply(b, m), SwitchColor(turn))
  {
    ValidateOrder(b, turn, m);
    var rec := Recorded(b, turn, m);
    assert Explains(b, turn, rec, Apply(b, m), SwitchColor(turn));
    if |h| == HistorySize {
      TracedDropOldest(past, h, b, turn);
      TracedAppend(past[1..], h[1..], b, turn, rec, Apply(b, m), SwitchColor(turn));
    } else {
      TracedAppend(past, h, b, turn, rec, Apply(b, m), SwitchColor(turn));
    }
  }

  /** Undoing the newest explained move returns to the position it was
      played from, which is explained by the rest. */
  lemma TracedUndo(past: seq<(Board, Color)>, h: seq<Move>, b: Board, turn: Color)
    requires Traced(past, h, b, turn) && |past| > 0
    ensures var n := |past| - 1;
            && OnBoard(h[n].from) && OnBoard(h[n].to)
            && WellFormed(past[n].0) && IsPlayer(past[n].1)
            && WellFormed(b) && Revert(b, h[n]) == past[n].0 && SwitchColor(turn) == past[n].1
            && Traced(past[..n], h[..n], past[n].0, past[n].1)
  {
    var n := |past| - 1;
    ApplyRevert(past[n].0, past[n].1, h[n]);
  }

  /** The bookkeeping of an accepted move: the new position is playable,
      every kept position was, and the history is explained. */
  lemma TrackedAfterPush(past: seq<(Board, Color)>, h: seq<Move>, b: Board, turn: Color, m: Move)
    requires PlayableEntry((b, turn)) && AllPlayable(past) && Traced(past, h, b, turn)
    requires |h| <= HistorySize && Validate(b, turn, m) == Success
    ensures OnBoard(m.from) && OnBoard(m.to)
    ensures PlayableEntry((Apply(b, m), SwitchColor(turn)))
    ensures AllPlayable(PushedPast(past, (b, turn)))
    ensures Traced(PushedPast(past, (b, turn)), FsaStack.Pushed(h, Recorded(b, turn, m), HistorySize),
                   Apply(b, m), SwitchColor(turn))
  {
    TracedPush(past, h, b, turn, m);
    SuccessKeepsPlayable(b, turn, m);
    PushedPastPlayable(past, (b, turn));
  }

  /** The bookkeeping of an undo: the position returned to is the newest
      kept one, it is playable, and the rest stays explained. */
  lemma TrackedAfterUndo(past: seq<(Board, Color)>, h: seq<Move>, b: Board, turn: Color)
    requires AllPlayable(past) && Traced(past, h, b, turn) && |past| > 0
    ensures var n := |past| - 1;
            && OnBoard(h[n].from) && OnBoard(h[n].to) && WellFormed(b)
            && FsaStack.Popped(h) == (Some(h[n]), h[..n])
            && Revert(b, h[n]) == past[n].0 && SwitchColor(turn) == past[n].1
            && PlayableEntry(past[n]) && AllPlayable(past[..n])
            && Traced(past[..n], h[..n], past[n].0, past[n].1)
  {
    TracedUndo(past, h, b, turn);
    var n := |past| - 1;
    assert PlayableEntry(past[n]);
  }

  class Game {
    var board: array2<Piece>
    var turn: Color
    var mode: int
    var difficulty: int
    var userColor: Color
    var history: FsaStack.Stack<Move>
    /** The positions the recorded moves were played from, oldest first. */
    ghost var Past: seq<(Board, Color)>

    /** The board is the 8x8 grid every scan expects. */
    predicate Shaped()
      reads this
    {
      board.Length0 == GridSize && board.Length1 == GridSize
    }

    ghost predicate Valid()
      reads this, history, history.Repr
    {
      && Shaped()
      && IsPlayer(turn)
      && history.Valid() && history.capacity == HistorySize
      && this !in history.Repr && board !in history.Repr
      && OnBoardMoves(history.Contents)
    }

    /** A game reached by play: the position is playable, and the history is
        explained by the playable positions its moves were played from. */
    ghost predicate Tracked()
      reads this, board, history, history.Repr
    {
      && Valid()
      && PlayableEntry((GridOf(board), turn))
      && AllPlayable(Past)
      && Traced(Past, history.Contents, GridOf(board), turn)
    }

    /** ChessGame_Create, without allocation failure: white to move, default
        settings and an empty history; the board is not initialised. */
    constructor ()
      ensures Valid() && fresh(board) && fresh(history.Repr)
      ensures turn == White && history.Contents == [] && Past == []
      ensures mode == Mode1Player && difficulty == DifficultyEasy && userColor == White
    {
      board := new Piece[GridSize, GridSize];
      turn := White;
      mode, difficulty, userColor := Mode1Player, DifficultyEasy, White;
      history := new FsaStack.Stack<Move>.Create(HistorySize);
      Past := [];
    }

    // -------------------------------------------------------------------------
    // Piece rules that scan the board
    // -------------------------------------------------------------------------

    /** isValidRookMove: the path loop visits exactly the squares strictly
        between origin and destination. */
    method IsValidRookMove(from: Pos, to: Pos) returns (r: bool)
      requires Shaped() && OnBoard(from) && OnBoard(to)
      ensures r == RookMove(GridOf(board), from, to)
    {
      var horDiff := from.x - to.x;
      var verDiff := from.y - to.y;
      if !((horDiff != 0) != (verDiff != 0)) {
        return false;
      }
      if horDiff != 0 {
        var start := if from.x < to.x then from.x + 1 else to.x + 1;
        var end := if from.x < to.x then to.x else from.x;
        for i := start to end
          invariant forall k :: start <= k < i ==> board[k, from.y] == NoPiece
        {
          if board[i, from.y] != NoPiece {
            return false;
          }
        }
      } else {
        var start := if from.y < to.y then from.y + 1 else to.y + 1;
        var end := if from.y < to.y then to.y else from.y;
        for i := start to end
          invariant forall k :: start <= k < i ==> board[from.x, k] == NoPiece
        {
          if board[from.x, i] != NoPiece {
            return false;
          }
        }
      }
      return true;
    }

    /** isValidBishopMove: the distance-1 shortcut reads the colour to move,
        yet the result is the bishop rule whatever that colour is, because at
        distance 1 there is no square between. */
    method IsValidBishopMove(from: Pos, to: Pos) returns (r: bool)
      requires Shaped() && OnBoard(from) && OnBoard(to)
      ensures r == BishopMove(GridOf(board), from, to)
    {
      var horAbs := Abs(from.x - to.x);
      var verAbs := Abs(from.y - to.y);
      if horAbs != verAbs || horAbs == 0 {
        return false;
      }
      if horAbs == 1 && PieceColor(board[to.x, to.y]) != turn {
        return true;
      }
      var rightUp := from.x < to.x && from.y < to.y;
      var leftUp := from.x > to.x && from.y < to.y;
      var rightDown := from.x < to.x && from.y > to.y;
      var leftDown := from.x > to.x && from.y > to.y;
      var startX, startY, endX;
      if rightUp || rightDown {
        startX := from.x + 1;
        endX := to.x;
        if rightUp { startY := from.y + 1; } else { startY := from.y - 1; }
      } else {
        startX := to.x + 1;
        endX := from.x;
        if leftUp { startY := to.y - 1; } else { startY := to.y + 1; }
      }
      var i, j := startX, startY;
      while i < endX
        invariant startX <= i <= endX
        invariant j == DiagonalY(from, to, i)
        invariant forall k :: startX <= k < i ==> board[k, DiagonalY(from, to, k)] == NoPiece
      {
        if board[i, j] != NoPiece {
          return false;
        }
        if rightUp { i, j := i + 1, j + 1; }
        if leftUp { i, j := i + 1, j - 1; }
        if rightDown { i, j := i + 1, j - 1; }
        if leftDown { i, j := i + 1, j + 1; }
      }
      return true;
    }

    /** isValidQueenMove */
    method IsValidQueenMove(from: Pos, to: Pos) returns (r: bool)
      requires Shaped() && OnBoard(from) && OnBoard(to)
      ensures r == (RookMove(GridOf(board), from, to) || BishopMove(GridOf(board), from, to))
    {
      r := IsValidRookMove(from, to);
      if !r {
        r := IsValidBishopMove(from, to);
      }
    }

    /** isValidPieceMove: dispatch on the piece at the origin. */
    method IsValidPieceMove(from: Pos, to: Pos) returns (r: bool)
      requires Shaped() && OnBoard(from) && OnBoard(to)
      ensures r == PieceMove(GridOf(board), from, to)
    {
      var piece := board[from.x, from.y];
      match KindOf(piece)
      case Pawn => r := PawnMove(piece, board[to.x, to.y], from, to);
      case Rook => r := IsValidRookMove(from, to);
      case Knight => r := KnightMove(from, to);
      case Bishop => r := IsValidBishopMove(from, to);
      case Queen => r := IsValidQueenMove(from, to);
      case King => r := KingMove(from, to);
      case Empty => r := false;
    }

    // -------------------------------------------------------------------------
    // Attack detection
    // -------------------------------------------------------------------------

    /** isPosThreatenedBy: scan every square for a piece of colour `c` whose
        rule reaches `pos`. */
    method IsPosThreatenedBy(pos: Pos, c: Color) returns (r: bool)
      requires Shaped() && OnBoard(pos)
      ensures r == IsPosThreatened(GridOf(board), pos, c)
    {
      ghost var g := GridOf(board);
      for i := 0 to GridSize
        invariant !ThreatenedBefore(g, pos, c, i, 0)
      {
        for j := 0 to GridSize
          invariant !ThreatenedBefore(g, pos, c, i, j)
        {
          if PieceColor(board[i, j]) == c {
            var attacks := IsValidPieceMove(Pos(i, j), pos);
            if attacks {
              ThreatenedSettles(g, pos, c, i, j + 1);
              return true;
            }
          }
        }
      }
      return false;
    }

    /** isKingThreatenedBy: find the last square of the scan holding the king
        of the colour opposite to `c`, then ask whether `c` attacks it. */
    method IsKingThreatenedBy(c: Color) returns (r: bool)
      requires Shaped() && HasPiece(GridOf(board), ThreatenedKing(c))
      ensures r == ChessRules.IsKingThreatenedBy(GridOf(board), c)
    {
      ghost var g := GridOf(board);
      var king := if SwitchColor(c) == White then WhiteKing else BlackKing;
      var kingPos := Pos(0, 0);
      ghost var found: Option<Pos> := None;
      for i := 0 to GridSize
        invariant found == LastBefore(g, king, i, 0)
        invariant found.Some? ==> kingPos == found.value
      {
        for j := 0 to GridSize
          invariant found == LastBefore(g, king, i, j)
          invariant found.Some? ==> kingPos == found.value
        {
          if board[i, j] == king {
            kingPos := Pos(i, j);
            found := Some(kingPos);
          }
        }
      }
      ghost var x, y :| 0 <= x < GridSize && 0 <= y < GridSize && g[x][y] == king;
      LastBeforeFinds(g, king, GridSize, 0, Pos(x, y));
      r := IsPosThreatenedBy(kingPos, c);
    }

    // -------------------------------------------------------------------------
    // Speculative apply and revert
    // -------------------------------------------------------------------------

    /** pseudoDoMove: records the mover and the captured piece in the move
        and moves the piece; the turn is not changed. */
    method PseudoDoMove(move: Move) returns (applied: Move)
      requires Shaped() && OnBoard(move.from) && OnBoard(move.to)
      modifies board
      ensures applied == Recorded(old(GridOf(board)), turn, move)
      ensures GridOf(board) == Apply(old(GridOf(board)), move)
    {
      applied := move.(player := turn, captured := board[move.to.x, move.to.y]);
      board[move.to.x, move.to.y] := board[move.from.x, move.from.y];
      board[move.from.x, move.from.y] := NoPiece;
      SameBoard(GridOf(board), Apply(old(GridOf(board)), move));
    }

    /** pseudoUndoMove */
    method PseudoUndoMove(move: Move)
      requires Shaped() && OnBoard(move.from) && OnBoard(move.to)
      modifies board
      ensures GridOf(board) == Revert(old(GridOf(board)), move)
    {
      board[move.from.x, move.from.y] := board[move.to.x, move.to.y];
      board[move.to.x, move.to.y] := move.captured;
      SameBoard(GridOf(board), Revert(old(GridOf(board)), move));
    }

    // -------------------------------------------------------------------------
    // Validation and enumeration
    // -------------------------------------------------------------------------

    /** isValidMove: the ordered checks; king safety applies the move, asks
        about the mover's king, and reverts, so the board is unchanged. */
    method IsValidMove(move: Move) returns (r: Result)
      requires Shaped() && IsPlayer(turn) && KingsPresent(GridOf(board))
      modifies board
      ensures GridOf(board) == old(GridOf(board))
      ensures r == Validate(old(GridOf(board)), turn, move)
      ensures r == Success ==> OnBoard(move.from) && OnBoard(move.to)
    {
      ghost var g := GridOf(board);
      if !(OnBoard(move.from) && OnBoard(move.to)) {
        return InvalidPosition;
      }
      if PieceColor(board[move.from.x, move.from.y]) != turn {
        return EmptyPosition;
      }
      if !IsValidToPosition(board[move.from.x, move.from.y], board[move.to.x, move.to.y]) {
        return IllegalMove;
      }
      var pieceOk := IsValidPieceMove(move.from, move.to);
      if !pieceOk {
        return IllegalMove;
      }
      assert PreCheck(g, turn, move) == Success;
      r := KingSafety(move);
    }

    /** The king-safety tail of isValidMove, once the pre-checks pass. */
    method KingSafety(move: Move) returns (r: Result)
      requires Shaped() && IsPlayer(turn) && KingsPresent(GridOf(board))
      requires PreCheck(GridOf(board), turn, move) == Success
      modifies board
      ensures GridOf(board) == old(GridOf(board))
      ensures r == Validate(old(GridOf(board)), turn, move)
    {
      var isThreatened := IsKingThreatenedBy(turn);
      var willBeThreatened := ThreatenedAfter(move);
      if isThreatened && willBeThreatened {
        return KingIsStillThreatened;
      }
      if willBeThreatened {
        return KingWillBeThreatened;
      }
      return Success;
    }

    /** The middle of isValidMove: apply the move, ask whether the opponent
        then attacks the mover's king, and revert. */
    method ThreatenedAfter(move: Move) returns (r: bool)
      requires Shaped() && IsPlayer(turn) && OnBoard(move.from) && OnBoard(move.to)
      requires HasPiece(GridOf(board), KingPiece(turn)) && PieceColor(board[move.to.x, move.to.y]) != turn
      modifies board
      ensures GridOf(board) == old(GridOf(board))
      ensures HasPiece(Apply(old(GridOf(board)), move), KingPiece(turn))
      ensures r == ChessRules.IsKingThreatenedBy(Apply(old(GridOf(board)), move), SwitchColor(turn))
    {
      ghost var g := GridOf(board);
      var applied := PseudoDoMove(move);
      KingSurvivesMove(g, turn, move);
      assert ThreatenedKing(SwitchColor(turn)) == KingPiece(turn);
      r := IsKingThreatenedBy(SwitchColor(turn));
      PseudoUndoMove(applied);
      ApplyRevert(g, turn, move);
    }

    /** getMoveType: apply, ask whether the opponent attacks the destination,
        revert, and note whether the destination was occupied. */
    method GetMoveType(move: Move) returns (kind: PosType)
      requires Shaped() && OnBoard(move.from) && OnBoard(move.to)
      modifies board
      ensures GridOf(board) == old(GridOf(board))
      ensures kind == MoveType(old(GridOf(board)), turn, move.from, move.to)
    {
      ghost var g := GridOf(board);
      var applied := PseudoDoMove(move);
      assert GridOf(board) == Apply(g, PlainMove(move.from, move.to));
      var isThreatened := IsPosThreatenedBy(move.to, SwitchColor(turn));
      PseudoUndoMove(applied);
      ApplyRevert(g, turn, move);
      var isCapture := board[move.to.x, move.to.y] != NoPiece;
      if isThreatened && isCapture {
        return Both;
      }
      if isThreatened {
        return Threatened;
      }
      if isCapture {
        return Capture;
      }
      return Standard;
    }

    method AddTarget(from: Pos, to: Pos, moves: seq<Target>) returns (r: seq<Target>)
      requires Shaped() && IsPlayer(turn) && KingsPresent(GridOf(board)) && OnBoard(from) && OnBoard(to)
      modifies board
      ensures GridOf(board) == old(GridOf(board))
      ensures r == moves + (if Validate(old(GridOf(board)), turn, PlainMove(from, to)) == Success
                            then [Target(to, MoveType(old(GridOf(board)), turn, from, to))] else [])
    {
      var move := Move(from, to, NoPiece, NoColor);
      var res := IsValidMove(move);
      r := moves;
      if res == Success {
        var kind := GetMoveType(move);
        r := moves + [Target(to, kind)];
      }
    }

    /** ChessGame_GetMoves: for an occupied origin, let the piece's owner move
        for the duration of the scan, and collect every destination that
        passes isValidMove with its move type. */
    method GetMoves(pos: Pos) returns (r: Result, moves: seq<Target>)
      requires Shaped() && IsPlayer(turn) && KingsPresent(GridOf(board))
      modifies this`turn, board
      ensures Shaped() && GridOf(board) == old(GridOf(board)) && turn == old(turn)
      ensures (r, moves) == MovesFrom(old(GridOf(board)), pos)
    {
      ghost var g := GridOf(board);
      if !OnBoard(pos) {
        return InvalidPosition, [];
      }
      if board[pos.x, pos.y] == NoPiece {
        return EmptyPosition, [];
      }
      var originalTurn := turn;
      if PieceColor(board[pos.x, pos.y]) != turn {
        turn := SwitchColor(turn);
      }
      assert turn == PieceColor(At(g, pos));
      moves := [];
      for i := 0 to GridSize
        invariant Shaped() && GridOf(board) == g && turn == PieceColor(At(g, pos))
        invariant moves == TargetsBefore(g, turn, pos, i, 0)
      {
        for j := 0 to GridSize
          invariant Shaped() && GridOf(board) == g && turn == PieceColor(At(g, pos))
          invariant moves == TargetsBefore(g, turn, pos, i, j)
        {
          moves := AddTarget(pos, Pos(i, j), moves);
        }
      }
      turn := originalTurn;
      r := Success;
    }

    /** The body of the hasMoves scan for one square: a piece of the colour
        to move whose GetMoves fails or lists something. */
    method CanMoveFrom(p: Pos) returns (r: bool)
      requires Shaped() && IsPlayer(turn) && KingsPresent(GridOf(board)) && OnBoard(p)
      modifies this`turn, board
      ensures Shaped() && GridOf(board) == old(GridOf(board)) && turn == old(turn)
      ensures r == Movable(old(GridOf(board)), turn, p)
    {
      var color := PieceColor(board[p.x, p.y]);
      if color != turn {
        return false;
      }
      var res, possibleMoves := GetMoves(p);
      var areThereMoves := possibleMoves != [];
      r := res != Success || areThereMoves;
    }

    /** hasMoves: does some piece of the colour to move have a destination? */
    method HasMoves() returns (r: bool)
      requires Shaped() && IsPlayer(turn) && KingsPresent(GridOf(board))
      modifies this`turn, board
      ensures Shaped() && GridOf(board) == old(GridOf(board)) && turn == old(turn)
      ensures r == ChessRules.HasMoves(old(GridOf(board)), turn)
    {
      ghost var g := GridOf(board);
      for i := 0 to GridSize
        invariant Shaped() && GridOf(board) == g && turn == old(turn)
        invariant !MovesBefore(g, turn, i, 0)
      {
        for j := 0 to GridSize
          invariant Shaped() && GridOf(board) == g && turn == old(turn)
          invariant !MovesBefore(g, turn, i, j)
        {
          var found := CanMoveFrom(Pos(i, j));
          if found {
            MovesSettle(g, turn, i, j + 1);
            return true;
          }
        }
      }
      return false;
    }

    /** ChessGame_GetGameStatus: check is asked as isKingThreatenedBy(!turn),
        the opponent attacking the king of the colour to move. */
    method GetGameStatus() returns (r: Result, status: Status)
      requires Valid() && KingsPresent(GridOf(board))
      modifies this`turn, board
      ensures Valid() && GridOf(board) == old(GridOf(board)) && turn == old(turn)
      ensures r == Success && status == StatusOf(old(GridOf(board)), turn)
    {
      assert ThreatenedKing(SwitchColor(turn)) == KingPiece(turn);
      var inCheck := IsKingThreatenedBy(SwitchColor(turn));
      var hasMoves := HasMoves();
      if inCheck {
        status := if hasMoves then Check else Checkmate;
      } else {
        status := if hasMoves then Running else Draw;
      }
      r := Success;
    }

    // -------------------------------------------------------------------------
    // Committed moves and undo
    // -------------------------------------------------------------------------

    /** ChessGame_DoMove: a rejected move changes nothing; an accepted one is
        applied, recorded in the history and hands the turn over. */
    method DoMove(move: Move) returns (r: Result)
      requires Valid() && KingsPresent(GridOf(board))
      modifies this`turn, this`Past, board, history.Repr
      ensures Valid() && history == old(history) && history.Repr == old(history.Repr)
      ensures r == Validate(old(GridOf(board)), old(turn), move)
      ensures r == Success ==> OnBoard(move.from) && OnBoard(move.to)
      ensures old(Playable(GridOf(board), turn)) ==> Playable(GridOf(board), turn)
      ensures old(Tracked()) ==> Tracked()
      ensures r != Success ==>
                && GridOf(board) == old(GridOf(board)) && turn == old(turn)
                && history.Contents == old(history.Contents) && Past == old(Past)
      ensures r == Success ==>
                && GridOf(board) == Apply(old(GridOf(board)), move)
                && turn == SwitchColor(old(turn))
                && history.Contents == FsaStack.Pushed(old(history.Contents), Recorded(old(GridOf(board)), old(turn), move), HistorySize)
                && Past == PushedPast(old(Past), (old(GridOf(board)), old(turn)))
    {
      ghost var b0, t0, p0, h0 := GridOf(board), turn, Past, history.Contents;
      ghost var tracked := Tracked();
      r := IsValidMove(move);
      assert unchanged(history.Repr);
      if r != Success {
        return;
      }
      Commit(move);
      if Playable(b0, t0) {
        SuccessKeepsPlayable(b0, t0, move);
      }
      if tracked {
        TrackedAfterPush(p0, h0, b0, t0, move);
      }
    }

    /** The accepted half of ChessGame_DoMove: apply the move, push the
        filled-in record and hand the turn over. */
    method Commit(move: Move)
      requires Valid() && OnBoard(move.from) && OnBoard(move.to)
      modifies this`turn, this`Past, board, history.Repr
      ensures Valid() && history == old(history) && history.Repr == old(history.Repr)
      ensures GridOf(board) == Apply(old(GridOf(board)), move)
      ensures turn == SwitchColor(old(turn))
      ensures history.Contents == FsaStack.Pushed(old(history.Contents), Recorded(old(GridOf(board)), old(turn), move), HistorySize)
      ensures Past == PushedPast(old(Past), (old(GridOf(board)), old(turn)))
    {
      Past := PushedPast(Past, (GridOf(board), turn));
      var applied := PseudoDoMove(move);
      assert unchanged(history.Repr);
      PushKeepsOnBoard(history.Contents, applied);
      history.Push(applied);
      label pushed:
      turn := SwitchColor(turn);
      assert unchanged@pushed(history.Repr);
    }

    /** ChessGame_UndoMove: EmptyHistory with nothing changed, or pop the
        newest move, revert it and hand the turn back. */
    method UndoMove() returns (r: Result, move: Option<Move>)
      requires Valid()
      modifies this`turn, this`Past, board, history.Repr
      ensures Valid() && history == old(history) && history.Repr == old(history.Repr)
      ensures old(history.Contents) == [] ==>
                && r == EmptyHistory && move == None
                && GridOf(board) == old(GridOf(board)) && turn == old(turn) && history.Contents == []
                && Past == old(Past)
      ensures old(history.Contents) != [] ==>
                && r == Success && move.Some?
                && (move, history.Contents) == FsaStack.Popped(old(history.Contents))
                && GridOf(board) == Revert(old(GridOf(board)), move.value)
                && turn == SwitchColor(old(turn))
      ensures old(Tracked()) ==> Tracked()
      ensures old(Tracked()) && old(history.Contents) != [] ==>
                && (GridOf(board), turn) == old(Past[|Past| - 1])
                && Past == old(Past[..|Past| - 1])
    {
      ghost var tracked := Tracked();
      ghost var b0, t0, p0, h0 := GridOf(board), turn, Past, history.Contents;
      var empty := history.IsEmpty();
      if empty {
        return EmptyHistory, None;
      }
      move := Retract();
      r := Success;
      if tracked {
        TrackedAfterUndo(p0, h0, b0, t0);
      }
    }

    /** The non-empty half of ChessGame_UndoMove: pop the newest record,
        revert it and hand the turn back. */
    method Retract() returns (move: Option<Move>)
      requires Valid() && history.Contents != []
      modifies this`turn, this`Past, board, history.Repr
      ensures Valid() && history == old(history) && history.Repr == old(history.Repr)
      ensures move.Some? && (move, history.Contents) == FsaStack.Popped(old(history.Contents))
      ensures GridOf(board) == Revert(old(GridOf(board)), move.value)
      ensures turn == SwitchColor(old(turn))
      ensures Past == if |old(Past)| > 0 then old(Past[..|Past| - 1]) else old(Past)
    {
      if |Past| > 0 {
        Past := Past[..|Past| - 1];
      }
      move := history.Pop();
      PseudoUndoMove(move.value);
      turn := SwitchColor(turn);
    }

    // -------------------------------------------------------------------------
    // Settings and layout
    // -------------------------------------------------------------------------

    /** ChessGame_SetDefaultSettings */
    method SetDefaultSettings() returns (r: Result)
      requires Valid()
      modifies this`mode, this`difficulty, this`userColor
      ensures Valid() && r == Success
      ensures mode == Mode1Player && difficulty == DifficultyEasy && userColor == White
    {
      mode := Mode1Player;
      difficulty := DifficultyEasy;
      userColor := White;
      r := Success;
    }

    /** ChessGame_SetGameMode: codes outside [1-player, 2-player] are refused. */
    method SetGameMode(newMode: int) returns (r: Result)
      requires Valid()
      modifies this`mode
      ensures Valid()
      ensures r == (if Mode1Player <= newMode <= Mode2Player then Success else InvalidArgument)
      ensures mode == if r == Success then newMode else old(mode)
    {
      if newMode < Mode1Player { return InvalidArgument; }
      if newMode > Mode2Player { return InvalidArgument; }
      mode := newMode;
      r := Success;
    }

    /** ChessGame_SetDifficulty: codes outside [amateur, expert] are refused. */
    method SetDifficulty(newDifficulty: int) returns (r: Result)
      requires Valid()
      modifies this`difficulty
      ensures Valid()
      ensures r == (if DifficultyAmateur <= newDifficulty <= DifficultyExpert then Success else InvalidArgument)
      ensures difficulty == if r == Success then newDifficulty else old(difficulty)
    {
      if newDifficulty < DifficultyAmateur { return InvalidArgument; }
      if newDifficulty > DifficultyExpert { return InvalidArgument; }
      difficulty := newDifficulty;
      r := Success;
    }

    /** ChessGame_SetUserColor: codes outside [black, white] are refused. */
    method SetUserColor(code: int) returns (r: Result)
      requires Valid()
      modifies this`userColor
      ensures Valid()
      ensures r == (if ColorBlack <= code <= ColorWhite then Success else InvalidArgument)
      ensures userColor == if r == Success then ColorOfCode(code) else old(userColor)
      ensures r == Success ==> IsPlayer(userColor)
    {
      if code < ColorBlack { return InvalidArgument; }
      if code > ColorWhite { return InvalidArgument; }
      userColor := ColorOfCode(code);
      r := Success;
    }

    /** ChessGame_InitBoard: back ranks, pawn ranks, then four empty ranks. */
    method InitBoard() returns (r: Result)
      requires Valid()
      modifies board
      ensures Valid() && r == Success
      ensures GridOf(board) == InitialBoard()
    {
      PlaceWhiteBackRank(board);
      PlaceBlackBackRank(board);
      PlacePawns(board);
      ClearMiddleRanks(board);
      InitialLayout(board);
      assert unchanged(history.Repr);
      r := Success;
    }

    /** ChessGame_ResetGame: white to move, the initial layout and a fresh
        empty history; the settings are kept. */
    method ResetGame() returns (r: Result)
      requires Valid()
      modifies this`turn, this`history, this`Past, board
      ensures Valid() && r == Success && fresh(history.Repr)
      ensures turn == White && GridOf(board) == InitialBoard() && history.Contents == [] && Past == []
      ensures Playable(GridOf(board), turn) && Tracked()
    {
      turn := White;
      var _ := InitBoard();
      history := new FsaStack.Stack<Move>.Create(HistorySize);
      Past := [];
      r := Success;
      InitialPlayable();
    }
  }

  /** A committed move followed by an undo restores the board and the turn;
      the history loses only the entry the push evicted, if any. */
  lemma DoMoveThenUndoMove(b: Board, turn: Color, h: seq<Move>, move: Move)
    requires WellFormed(b) && KingsPresent(b) && IsPlayer(turn) && |h| <= HistorySize
    requires Validate(b, turn, move) == Success
    ensures OnBoard(move.from) && OnBoard(move.to)
    ensures var rec := Recorded(b, turn, move);
            var (top, rest) := FsaStack.Popped(FsaStack.Pushed(h, rec, HistorySize));
            && top == Some(rec)
            && Revert(Apply(b, move), rec) == b
            && SwitchColor(SwitchColor(turn)) == turn
            && rest == if |h| == HistorySize then h[1..] else h
  {
    var rec := Recorded(b, turn, move);
    FsaStack.PushThenPop(h, rec, HistorySize);
    ApplyRevert(b, turn, move);
  }

  /** ChessGame_DoMove followed by ChessGame_UndoMove on the same game: an
      accepted move is taken back, restoring the board and the turn and
      returning the filled-in record. A refused move is not followed by an
      undo: the game is left as it was and no undo result is returned. */
  method DoMoveThenUndoMoveInPlace(g: Game, move: Move) returns (done: Result, undone: Option<(Result, Option<Move>)>)
    requires g.Valid() && KingsPresent(GridOf(g.board))
    modifies g`turn, g`Past, g.board, g.history.Repr
    ensures g.Valid()
    ensures done == Validate(old(GridOf(g.board)), old(g.turn), move)
    ensures done != Success ==>
              && undone == None
              && GridOf(g.board) == old(GridOf(g.board)) && g.turn == old(g.turn)
              && g.history.Contents == old(g.history.Contents)
    ensures done == Success ==>
              && undone == Some((Success, Some(Recorded(old(GridOf(g.board)), old(g.turn), move))))
              && GridOf(g.board) == old(GridOf(g.board))
              && g.turn == old(g.turn)
              && g.history.Contents == (if |old(g.history.Contents)| == HistorySize then old(g.history.Contents)[1..] else old(g.history.Contents))
  {
    ghost var b, t, h := GridOf(g.board), g.turn, g.history.Contents;
    done := g.DoMove(move);
    if done != Success {
      return done, None;
    }
    DoMoveThenUndoMove(b, t, h, move);
    var r, popped := g.UndoMove();
    undone := Some((r, popped));
  }
}
