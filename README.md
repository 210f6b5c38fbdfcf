# chessprog: the chess rules engine and its move history, in Dafny

This project models the rules engine of the chessprog console/GUI chess
program (`final-project/src/ChessGame.c`) and the fixed-capacity ring-buffer
stack that keeps its bounded undo history (`src/FSAStack.c`), and proves what
they promise.

- `Options.dfy`: the `Option` datatype.
- `FsaStack.dfy` (module `FsaStack`): the stack as a class over an
  `array<T>` with the source's `startIndex`/`size`/`capacity` bookkeeping.
  - `Push` and `Pop` are proved against the pure functions `Pushed` and
    `Popped` on the retained contents, oldest first; `Create`, `IsFull` and
    `IsEmpty` state their results on those contents directly.
  - `PushedAll` (a series of pushes) and `Drained` (popping until empty)
    build on them; the eviction rule and LIFO order are proved as lemmas
    about these functions.
  - A byte-level model of the buffer as written shows the offset bug listed
    under Findings.
- `ChessRules.dfy` (module `ChessRules`): the engine's rules as values.
  - Pieces and colours.
  - The 8x8 board `b[x][y]` as `seq<seq<Piece>>`.
  - The movement rule of each piece kind: Article 3 of the FIDE Laws of
    Chess without castling, en passant or promotion; the pawn's double step
    may jump over an occupied square.
  - Attack detection; the speculative apply and revert.
  - The ordered validation of `isValidMove`.
  - Move enumeration with its move-type tag.
  - The game status.
  - The initial layout.
  - The nested `for x { for y }` scans of the source are recursive
    definitions over a scan position (`ThreatenedBefore`, `LastBefore`,
    `TargetsBefore`, `MovesBefore`). Each scan has an exactness lemma that
    ties it to a declarative reference (an existential, or membership).
- `ChessGame.dfy` (module `ChessGame`): the `ChessGame` struct as the class
  `Game`.
  - It holds a `board: array2<Piece>`, the turn, the settings, and an
    `FsaStack.Stack<Move>` of capacity 6 as the history.
  - The functions of `ChessGame.c` that loop or change the game are methods
    of `Game` with the source's loops and early returns. The small pure
    helpers (`getPieceColor`, `switchColor`, `isValidPositionOnBoard`,
    `isValidToPosition` and the pawn, knight and king rules) are
    `ChessRules` functions and predicates.
  - Each board, move and history method is proved against the `ChessRules`
    definition of what it computes, read off the array by `GridOf(board)`.
    The constructor and the settings methods state their constants and
    accepted ranges directly.
  - A ghost field `Past` keeps, beside the history, the position each
    recorded move was played from. `Tracked()` says every such position was
    playable, each record is the filled-in move, and replaying the records
    leads to the current position. `ResetGame` establishes it, and `DoMove`
    and `UndoMove` keep it, so an undo returns to the position before the
    last kept move and play can go on.
  - The methods that apply a move speculatively prove that the board is
    unchanged afterwards.

Points where the model follows the code rather than the natural reading:

- `isKingThreatenedBy(c)` looks up the king of the colour opposite to `c`.
  - `isValidMove` therefore asks, as `isThreatened`, whether the *mover*
    attacks the *opponent's* king.
  - Only the choice between `KingIsStillThreatened` and
    `KingWillBeThreatened` depends on it. `StillThreatenedMeansOpponentWasAttacked`
    states exactly what it means.
- `isKingThreatenedBy` keeps the last matching square of the scan. It needs a
  king on the board, so every operation that reaches it requires
  `KingsPresent`. `Playable` (both kings present and single, the side that
  has just moved not in check) holds after `ResetGame` and is kept by every
  `DoMove`, so play can continue move after move.
- The pawn's two-square advance from its start rank examines only the
  destination, never the square passed over, so a pawn may jump a piece
  (`PawnGeometry`). Section 3.7(b) of the FIDE Laws requires both squares to
  be empty.
- The move-type tag `Threatened` means that some opponent piece's movement
  rule reaches the moved piece's new square; whether that capture would
  itself be check-safe is not considered. It does not mean that the destination was attacked before
  the move.
- `hasMoves` also returns true when `GetMoves` fails; for an owned square
  that cannot happen.
- `ChessGame.h` is not part of this model. Its enum values are assumed as
  follows, which makes `!turn` equal to `switchColor(turn)` for both players:
  - colours: BLACK = 0, WHITE = 1;
  - modes: 1-player = 1, 2-player = 2;
  - difficulties: amateur = 1, easy = 2, expert = 5.
- The history uses the `FsaStack` ring semantics with capacity
  CHESS_HISTORY_SIZE = 6. The `ArrayStack` the code calls is not part of
  this model.
- `ChessGame_UndoMove` writes the popped move through a pointer. Here it is
  the out-parameter `move: Option<Move>`, which is `None` when the history is
  empty.

## Model

| member | source | states |
|---|---|---|
| ChessRules.PieceColorCases | final-project/src/ChessGame.c:35-55 | PieceColor: getPieceColor gives White exactly for the six white pieces, Black exactly for the six black ones, and no colour only for the empty square |
| ChessRules.SwitchColor | final-project/src/ChessGame.c:196-205 | switchColor maps White to Black and Black to White (both directions), and nothing else to a player |
| ChessRules.FriendlyFire | final-project/src/ChessGame.c:76-81 | IsValidToPosition: for a real mover, isValidToPosition accepts exactly an empty destination or one holding a piece of the other colour |
| ChessRules.PawnGeometry | final-project/src/ChessGame.c:83-94 | PawnMove: pawn rule relative to the colour's forward direction: one step onto a square without an enemy, two steps from rank 1/6 without examining the square passed over, one diagonal step forward onto an enemy |
| ChessRules.KnightGeometry | final-project/src/ChessGame.c:116-121 | KnightMove: the knight moves iff the offset is one of the eight L-shapes |
| ChessRules.KingGeometry | final-project/src/ChessGame.c:161-166 | KingMove: the king moves iff the offset is one of the eight adjacent squares (no null move) |
| ChessRules.SlidingSymmetric | final-project/src/ChessGame.c:96-155 | RookMove, BishopMove: the rook and bishop path rules give the same answer from either end |
| ChessRules.NoNullMove | final-project/src/ChessGame.c:168-194 | PieceMove: no piece, and no empty origin, may move onto its own square |
| ChessRules.ThreatenedBeforeExact | final-project/src/ChessGame.c:207-218 | the partial scan of isPosThreatenedBy up to (x, y) is true iff an attacker of the colour was visited before (x, y) |
| ChessRules.IsPosThreatenedExact | final-project/src/ChessGame.c:207-218 | isPosThreatenedBy's scan answers exactly whether some piece of the colour may move onto the square |
| ChessRules.ThreatenedSettles | final-project/src/ChessGame.c:211-213 | an attacker found part-way settles the whole scan, justifying the early return |
| ChessRules.LastBefore | final-project/src/ChessGame.c:225-232 | the square the king scan keeps is on the board, holds the piece and was visited |
| ChessRules.LastBeforeFinds | final-project/src/ChessGame.c:225-232 | if the piece is on a visited square the scan finds it, and no later square holds it than the one kept |
| ChessRules.KingSquare | final-project/src/ChessGame.c:220-232 | the king square isKingThreatenedBy uses is on the board and holds that king |
| ChessRules.KingThreatIsCheck | final-project/src/ChessGame.c:220-234 | with a single king of colour c, isKingThreatenedBy(!c) holds iff c's king is attacked by some opposing piece |
| ChessRules.ApplyRevert | final-project/src/ChessGame.c:236-246 | Apply, Revert, Recorded: pseudoUndoMove of the move record pseudoDoMove filled in restores every square, the captured piece included, even when from = to |
| ChessRules.KingSurvivesMove | final-project/src/ChessGame.c:236-241 | Apply: a move that does not land on a friendly piece keeps the mover's king on the board |
| ChessRules.ApplyKeepsUniqueKing | final-project/src/ChessGame.c:236-241 | Apply: a move never creates a second king of a colour |
| ChessRules.ValidateOrder | final-project/src/ChessGame.c:293-298 | Validate: isValidMove's result names the first failed check: InvalidPosition iff an endpoint is off-board, EmptyPosition iff the origin is not the mover's, IllegalMove iff friendly destination or failed geometry; nothing else is returned |
| ChessRules.ValidateIsCheckSafe | final-project/src/ChessGame.c:299-305 | Validate: after the pre-checks, Success iff the mover is not in check after the move, and otherwise one of the two king-safety results |
| ChessRules.SuccessLeavesKingSafe | final-project/src/ChessGame.c:293-306 | Validate: an accepted move is the mover's own piece, and afterwards no opponent piece attacks the mover's king |
| ChessRules.StillThreatenedMeansOpponentWasAttacked | final-project/src/ChessGame.c:299-304 | Validate: KingIsStillThreatened iff the mover is in check after the move and the opponent was in check before it; KingWillBeThreatened iff in check after and the opponent was not |
| ChessRules.SuccessKeepsPlayable | final-project/src/ChessGame.c:293-306 | an accepted move from a playable position leaves both kings on the board, each single, and the mover out of check, so the position is playable for the opponent |
| ChessRules.PlayableAfter | final-project/src/ChessGame.c:293-306 | a move of the mover's own piece by its rule, not onto a friendly piece and leaving the mover out of check, keeps a playable position playable for the opponent |
| ChessRules.NoKingCaptureOutOfCheck | final-project/src/ChessGame.c:293-298 | a move of the mover's piece by its rule lands on the opponent's king only if that king was in check |
| ChessRules.OtherKingSurvivesMove | final-project/src/ChessGame.c:236-241 | a king on neither end of a move stays on the board |
| ChessRules.MoveTypeMeaning | final-project/src/ChessGame.c:266-275 | MoveType: the tag is Threatened or Both iff, after the move, some opponent piece may move onto the moved piece's new square, and Capture or Both iff the destination was occupied |
| ChessRules.TargetsExact | final-project/src/ChessGame.c:436-443 | TargetsBefore: the partial destination scan holds a target iff its square was visited, passes validation and carries its move type |
| ChessRules.LegalTargetsExact | final-project/src/ChessGame.c:426-447 | MovesFrom: GetMoves lists exactly the destinations that pass validation with the piece's owner to move, each with its move type |
| ChessRules.MovesBeforeExact | final-project/src/ChessGame.c:248-264 | MovesBefore: the partial hasMoves scan is true iff a movable square of the player was visited |
| ChessRules.MovesSettle | final-project/src/ChessGame.c:255-260 | a movable square found part-way settles hasMoves, justifying the early return |
| ChessRules.HasMovesIffLegalMove | final-project/src/ChessGame.c:248-264 | HasMoves: hasMoves holds iff some move from some square passes validation |
| ChessRules.TargetGivesLegalMove | final-project/src/ChessGame.c:257-260 | a non-empty destination list contains a move that passes validation |
| ChessRules.LegalMoveGivesTarget | final-project/src/ChessGame.c:257-260 | a move that passes validation makes its origin a square with listed destinations |
| ChessRules.StatusMeaning | final-project/src/ChessGame.c:399-407 | StatusOf: Checkmate iff in check with no legal move, Check iff in check with one, Draw iff not in check with none, Running otherwise |
| ChessRules.InitialBoard | final-project/src/ChessGame.c:375-397 | the initial layout square by square |
| ChessRules.InitialBoardKings | final-project/src/ChessGame.c:380-386 | the initial layout has exactly one king per colour, found by the king scan on e1 (4, 0) and e8 (4, 7) |
| ChessRules.InitialKingSquare | final-project/src/ChessGame.c:380-386 | one colour's king is present, unique, and found on file 4 of its back rank |
| ChessRules.InitialSides | final-project/src/ChessGame.c:375-397 | white owns exactly ranks 0-1 and black exactly ranks 6-7 of the initial layout |
| ChessRules.InitialPlayable | final-project/src/ChessGame.c:375-397 | the initial layout is playable with white to move: one king per colour and black not in check |
| ChessRules.InitialBlackNotInCheck | final-project/src/ChessGame.c:375-397 | black is not in check in the initial layout |
| ChessRules.InitialOutOfReach | final-project/src/ChessGame.c:375-397 | no white piece of the initial layout may move onto black's king square (4, 7) |
| FsaStack.Popped | src/FSAStack.c:57-63 | a pop from an empty stack leaves it empty; otherwise it removes one entry |
| FsaStack.PushedAll | src/FSAStack.c:46-55 | a series of pushes never exceeds the capacity |
| FsaStack.PushThenPop | src/FSAStack.c:46-63 | Pushed, Popped: Push x then Pop returns x, and the contents are restored except for the entry a full push evicted |
| FsaStack.PushedBounded | src/FSAStack.c:46-55 | Pushed: a push grows the contents by one below capacity and keeps them at capacity when full; the result is the last `capacity` entries |
| FsaStack.PushedAllKeepsNewest | src/FSAStack.c:46-55 | any series of pushes retains exactly the newest `capacity` entries, oldest first |
| FsaStack.DrainedIsReverse | src/FSAStack.c:57-63 | popping until empty yields the contents newest first |
| FsaStack.OverflowLosesOldest | src/FSAStack.c:46-63 | after capacity + 1 pushes onto an empty stack, popping everything yields the last capacity entries newest first; the first is lost |
| FsaStack.WrapIsMod | src/FSAStack.c:48-51 | the conditional subtraction the model uses equals the source's `% capacity` on its range |
| FsaStack.Stack.Create | src/FSAStack.c:16-28 | a new stack is empty with size 0, startIndex 0 and the given capacity |
| FsaStack.Stack.IsFull | src/FSAStack.c:36-39 | full iff the retained entries number `capacity` |
| FsaStack.Stack.IsEmpty | src/FSAStack.c:41-44 | empty iff nothing is retained |
| FsaStack.Stack.Push | src/FSAStack.c:46-55 | the ring invariant is kept; the contents become `Pushed`; below capacity size grows by one with startIndex fixed, when full size stays and startIndex advances modulo capacity |
| FsaStack.Stack.Pop | src/FSAStack.c:57-63 | the ring invariant is kept; the result and the new contents are `Popped` (None and nothing changed on an empty stack) and startIndex is fixed |
| FsaStack.BytePush | src/FSAStack.c:46-55 | the push as written, at a byte offset equal to the slot index, keeps the buffer size |
| FsaStack.ByteOffsetsOverlap | src/FSAStack.c:49-61 | BytePush, BytePop: with two-byte entries the second push overwrites part of the first, so the older entry pops back corrupted |
| ChessGame.PlaceWhiteBackRank | final-project/src/ChessGame.c:377-381 | rank 0 receives R N B Q K B N R and no other square changes |
| ChessGame.PlaceBlackBackRank | final-project/src/ChessGame.c:382-386 | rank 7 receives the black back rank and no other square changes |
| ChessGame.PlacePawns | final-project/src/ChessGame.c:387-390 | ranks 1 and 6 become white and black pawns and no other square changes |
| ChessGame.ClearMiddleRanks | final-project/src/ChessGame.c:391-395 | ranks 2-5 become empty and no other square changes |
| ChessGame.InitialLayout | final-project/src/ChessGame.c:375-397 | the steps of InitBoard together produce exactly the initial layout |
| ChessGame.PushKeepsOnBoard | final-project/src/ChessGame.c:412-413 | pushing an on-board move keeps every recorded move on the board, eviction or not |
| ChessGame.PushedPast | final-project/src/ChessGame.c:412-413 | the kept positions grow by one, or drop the oldest when the history is full, and end with the position just played from |
| ChessGame.PushedPastPlayable | final-project/src/ChessGame.c:412-413 | pushing a playable position keeps every kept position playable |
| ChessGame.TracedDropOldest | final-project/src/ChessGame.c:412-413 | forgetting the oldest record, as a full history does, keeps the rest explained by play |
| ChessGame.TracedAppend | final-project/src/ChessGame.c:409-416 | a move explained from the current position extends the explained history |
| ChessGame.TracedPush | final-project/src/ChessGame.c:409-416 | after an accepted move the pushed history, evictions included, is explained by the positions played from |
| ChessGame.TracedUndo | final-project/src/ChessGame.c:418-424 | reverting the newest explained record gives back the position it was played from and the other colour to move |
| ChessGame.TrackedAfterPush | final-project/src/ChessGame.c:409-416 | an accepted move keeps the game tracked: the new position and every kept one are playable, and the history is explained |
| ChessGame.TrackedAfterUndo | final-project/src/ChessGame.c:418-424 | the pop returns the newest record, its revert gives the newest kept position, which is playable, and the rest stays explained |
| ChessGame.Game.constructor | final-project/src/ChessGame.c:308-316 | white to move, default settings, an empty history of capacity 6 and no kept positions |
| ChessGame.Game.IsValidRookMove | final-project/src/ChessGame.c:96-114 | the loop answers exactly the rook rule: one coordinate changes and every square strictly between is empty |
| ChessGame.Game.IsValidBishopMove | final-project/src/ChessGame.c:123-155 | the loop answers exactly the bishop rule whatever the turn, so the distance-1 shortcut that reads the turn is irrelevant |
| ChessGame.Game.IsValidQueenMove | final-project/src/ChessGame.c:157-159 | queen = rook or bishop |
| ChessGame.Game.IsValidPieceMove | final-project/src/ChessGame.c:168-194 | the dispatch answers the rule of the piece on the origin, false for an empty origin |
| ChessGame.Game.IsPosThreatenedBy | final-project/src/ChessGame.c:207-218 | the nested loop with early return answers the full scan |
| ChessGame.Game.IsKingThreatenedBy | final-project/src/ChessGame.c:220-234 | the loop keeps the last king square of the scan and answers whether the colour attacks it |
| ChessGame.Game.PseudoDoMove | final-project/src/ChessGame.c:236-241 | records the mover and the captured piece and applies the move to the array |
| ChessGame.Game.PseudoUndoMove | final-project/src/ChessGame.c:243-246 | reverts a recorded move on the array |
| ChessGame.Game.IsValidMove | final-project/src/ChessGame.c:293-306 | returns the validation result and leaves the board unchanged |
| ChessGame.Game.KingSafety | final-project/src/ChessGame.c:299-305 | once the pre-checks pass, the king-safety result is the validation result, and the board is unchanged |
| ChessGame.Game.ThreatenedAfter | final-project/src/ChessGame.c:300-302 | apply, ask whether the mover's king is attacked, revert: the answer for the applied board, with the board unchanged |
| ChessGame.Game.GetMoveType | final-project/src/ChessGame.c:266-275 | returns the move type (moved piece attackable, destination occupied) and leaves the board unchanged |
| ChessGame.Game.AddTarget | final-project/src/ChessGame.c:438-442 | one step of the GetMoves loop appends the destination with its type exactly when it passes validation |
| ChessGame.Game.GetMoves | final-project/src/ChessGame.c:426-447 | InvalidPosition for an off-board origin, EmptyPosition for an empty one, otherwise every valid destination with the owner to move; board and turn restored |
| ChessGame.Game.CanMoveFrom | final-project/src/ChessGame.c:254-260 | one square of the hasMoves scan: an owned piece with listed destinations |
| ChessGame.Game.HasMoves | final-project/src/ChessGame.c:248-264 | the scan answers hasMoves; board and turn unchanged |
| ChessGame.Game.GetGameStatus | final-project/src/ChessGame.c:399-407 | the status of the position for the side to move; board and turn unchanged |
| ChessGame.Game.DoMove | final-project/src/ChessGame.c:409-416 | a playable position stays playable and a tracked game stays tracked, with the position played from kept beside the pushed record; a refused move returns its result and changes nothing; an accepted one is applied, its record pushed, and the turn flipped; the history stack and its footprint stay the same objects, so further DoMove and UndoMove calls can follow on the same object |
| ChessGame.Game.Commit | final-project/src/ChessGame.c:412-414 | apply, push the filled-in record and flip the turn, keeping the game invariant and the history stack's footprint; the position played from is kept beside the record |
| ChessGame.Game.UndoMove | final-project/src/ChessGame.c:418-424 | EmptyHistory with nothing changed on an empty history; otherwise pops the newest record, reverts it and flips the turn; on a tracked game it returns to the position that move was played from, which is playable, and the game stays tracked |
| ChessGame.Game.Retract | final-project/src/ChessGame.c:420-423 | pops the newest record, reverts it on the array and flips the turn; the kept positions lose their newest entry |
| ChessGame.DoMoveThenUndoMove | final-project/src/ChessGame.c:409-424 | DoMove then UndoMove restores board and turn and returns the record, losing only an evicted history entry |
| ChessGame.DoMoveThenUndoMoveInPlace | final-project/src/ChessGame.c:409-424 | on one game object, an accepted DoMove followed by UndoMove returns Success and the filled-in record and restores the board and the turn; the history loses only an evicted entry; a refused move changes nothing and no undo result is returned |
| ChessGame.Game.SetDefaultSettings | final-project/src/ChessGame.c:343-349 | 1-player mode, easy difficulty, user plays white |
| ChessGame.Game.SetGameMode | final-project/src/ChessGame.c:351-357 | accepts exactly the modes 1..2, otherwise InvalidArgument with the mode unchanged |
| ChessGame.Game.SetDifficulty | final-project/src/ChessGame.c:359-365 | accepts exactly the difficulties amateur..expert, otherwise InvalidArgument with the difficulty unchanged |
| ChessGame.Game.SetUserColor | final-project/src/ChessGame.c:367-373 | accepts exactly the colour codes black..white, otherwise InvalidArgument with the colour unchanged |
| ChessGame.Game.InitBoard | final-project/src/ChessGame.c:375-397 | the board becomes the initial layout |
| ChessGame.Game.ResetGame | final-project/src/ChessGame.c:334-341 | white to move, the initial layout, a fresh empty history, a playable position and a tracked game; settings kept |

## Left out

- NULL game and stack handles are not modelled. Dafny references are never null, so the `CHESS_INVALID_ARGUMENT` branch of every `ChessGame_*` function and the NULL returns of the stack are absent.
- Allocation failure in `ChessGame_Create` and `FSAStack_Create`, `ChessGame_Copy`, `ChessGame_Destroy` and `FSAStack_Destroy` are not modelled. Objects are fresh allocations and memory is not freed.
- `ArrayStack_*` is not part of this model. The history uses the `FsaStack` semantics at capacity 6. The list `GetMoves` fills is a `seq<Target>` rather than an `ArrayStack` of capacity CHESS_MAX_POSSIBLE_MOVES = 27, which is never exceeded by one piece's destinations.
- FsaStack.Stack.Push: does not model the 32-bit wrap-around of `(startIndex + size) % capacity`. The fields are `unsigned int` in the source, so that sum wraps modulo 2^32 once it reaches 2^32, which a capacity above 2^31 allows. The model's `nat` fields never wrap, and the history's capacity is 6.
- FsaStack.Stack.Pop: does not model the same 32-bit wrap-around of `(startIndex + size) % capacity`, for the same reason.
- FsaStack.Stack.Create: the capacity is an unbounded `nat`, not an `unsigned int`.
- FsaStack.Stack.Push: requires `capacity > 0`. The source takes `% 0` on a zero-capacity stack, and the history always has capacity 6.
- Boards without a king of each colour are outside the model. `isKingThreatenedBy` reads an uninitialised position there, so the engine methods require `KingsPresent`.
- The pointer aliasing of `FSAStack_Pop` is not modelled. It returns a pointer into the buffer that a later push may overwrite. The model returns the value.
- `FSAStack_Push` and `FSAStack_Pop` are modelled with element-indexed slots. The byte-offset behaviour of the buffer as written is modelled separately (`BytePush`, `BytePop`) and listed under Findings.
- Minimax/AI move selection, the GUI, the console loop and `GameManager.c` are not part of this model.

## Findings

| source | as written | input that shows it | evidently intended | confidence | as-written member | corrected member |
|---|---|---|---|---|---|---|
| src/FSAStack.c:49-61 | `elements + offset` adds the slot index to a byte pointer, without multiplying by `elementSize` | capacity 2, elementSize 2: push [1,2], push [3,4], pop, pop: the second pop returns [1,3] | slot `offset` starts at byte `offset * elementSize`, as the buffer of `elementSize * capacity` bytes allocated at line 22 and the copy of `elementSize` bytes at line 49 call for | high, not executed | FsaStack.ByteOffsetsOverlap | FsaStack.PushThenPop |
