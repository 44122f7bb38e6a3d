# A verified model of a small chess engine's rules and move picker

This project is a Dafny model of the core of a TypeScript chess engine. It covers four parts:

- **Board and text.** The board is 66 bytes: 64 cells from a8 (index 0) to h1 (index 63), a side-to-move byte and a flag byte. The flag byte holds four castling rights and an en-passant column. The model also covers the board's text form and the opening position.
- **Rules engine** (`src/Chess.ts`). It covers the move generators of every piece, the `isKingInCheck` probe, castling in `kingMoves`, the legality filter `findMoves` and `applyMove`.
- **Legacy copy** (`src/board.ts`). It runs the same code, except that its pawn generator does not look at the square a double step passes over. The model keeps one generator with a `Variant` parameter: `Engine` follows `src/Chess.ts` and `Legacy` follows `src/board.ts`.
- **Search and square names.** The one-ply search of `src/pickMoveByRating.ts` comes in a synchronous and a Promise-based picker, with their depth wrappers. Square names come from `src/pgn.ts`.

Modules, one per file:

| file | module | models |
|---|---|---|
| wrappers.dfy | Wrappers | `Option` |
| board.dfy | BoardState | piece codes, the flag byte, board geometry, `findPieces` |
| text.dfy | BoardText | `fromString`, `toString` and their round trips |
| start.dfy | StartPosition | `Board()` and `newGame` |
| pieces.dfy | PseudoMoves | `travelMoves`, rook/bishop/queen/knight/plain-king/pawn generators |
| check.dfy | Check | `isKingInCheck`, and an attack relation read off the geometry |
| apply.dfy | Apply | `applyMove` |
| legal.dfy | Legal | `kingMoves` with castling, `findMoves` |
| search.dfy | Search | `determineEndState`, `findAllMoves`, both pickers, `applyDepth`, `applyDepthPromise` |
| pgn.dfy | Pgn | `pos.fromPgn`, `pos.toPgn` |
| findings.dfy | Findings | two counterexamples to the code as written |

The engine functions take a `Board`: 64 cells, each one of `.kqrnbpKQRNBP`. The source throws only when the code on the origin square of `findMoves` is none of these, because no generator is found for it (`src/Chess.ts:489-498`). `findAllMoves` calls `findMoves` only on the mover's own piece codes. `isKingInCheck`, `kingMoves` and `applyMove` accept any byte and class it as white by `code >= 'a'`. Requiring every cell to be a piece code or empty is the model's choice (see Left out). The parser returns a `RawBoard`, which has no such restriction.

Every generator is modelled as a function that returns the sequence the source's generator yields, in the same order. Each one is paired with an independent definition from the board's geometry, and an all-inputs lemma proves the two agree. For example, `TravelMembers` relates `travelMoves` to `OnRayFrom`, and `IsKingInCheckSpec` relates `isKingInCheck` to `Attacked`.

Notes on what the code does, which the model follows:

- `fromString` resets the flag byte to 15 on every parse, so printing and parsing keeps only the cells and the side (`ParsePrinted`). It also turns any side byte other than `W` into `B`.
- Castling checks fixed squares of the king's row: columns 1 to 3 toward column 0, columns 5 and 6 toward column 7. It never checks that a rook stands in the corner.
- The synchronous picker falls back to the end-state score both when there is no legal move and when every move rates -Infinity for the mover. `determineEndState` looks only at the first king of the side to move and never at the legal moves.
- `src/board.ts` does not check the square a two-square pawn advance passes over; `src/Chess.ts` does (see Findings).

## Model

| member | source | states |
|---|---|---|
| BoardState.CodeKindOf | src/Chess.ts:177-185 | Every kind has one code per colour. The colour test `code >= 'a'` and `toWhite` read the kind and the colour back off it. |
| BoardState.EnPassantCol | src/Chess.ts:114-122 | There is an en-passant column exactly when bit 16 of the flag byte is set, and it is always a column 0..7. |
| BoardState.SetEnPassantCol | src/Chess.ts:124-131 | Setting column `c` reads back as column `c mod 8` and leaves the four castling bits unchanged. |
| BoardState.EnPassantPos | src/Chess.ts:133-147 | The en-passant square exists exactly when the flag bit is set. It is on row 2 when white is to move and on row 5 when black is. |
| BoardState.RowStart | src/Chess.ts:454 | `8 * row(pos)` is a multiple of 8 at most 56, and `pos` lies in the eight squares from it. |
| BoardState.MoveGeometry | src/Chess.ts:168-175 | `isMoveOnBoard` holds exactly when the row and column offsets stay on the board; the target then lies in that row and column. |
| BoardState.FindPieces | src/Chess.ts:152-161 | Yields exactly the squares holding one of the codes, in increasing order. |
| BoardState.FindPiecesLast | src/Chess.ts:510-513 | The last square yielded is the last square holding the code, and nothing is yielded exactly when no square holds it. |
| BoardState.FindPiecesFirst | src/pickMoveByRating.ts:7-16 | The first square yielded is the first square holding the code, and nothing is yielded exactly when no square holds it. |
| BoardText.FlattenSpec | src/Chess.ts:46 | Removing blanks keeps exactly the characters that are neither space nor newline, and never lengthens the text. |
| BoardText.FlattenAppend | src/Chess.ts:46 | Removing blanks distributes over concatenation. |
| BoardText.GridAt | src/Chess.ts:28-38 | The printed grid puts cell `(i, j)` at offset `16i + 2j`, a space at the other odd offsets and a newline at the end of each row. |
| BoardText.FlattenGrid | src/Chess.ts:28-38 | With no blank cell, the printed grid without its blanks is the 64 cells in order. |
| BoardText.FlattenText | src/Chess.ts:25-43 | The whole printed text, without blanks, is the cells followed by the side line. |
| BoardText.ParsePrinted | src/Chess.ts:45-64 | Printing then parsing gives back the cells and reads the side as white exactly when it was `W`. It resets the flags to all four castling rights with no en-passant target. |
| BoardText.ParsePrintedBoard | src/board.ts:44-63 | The same round trip holds for every engine board. |
| BoardText.PrintedIsWellFormed | src/Chess.ts:25-43 | The printer's output always fits the grid grammar `WellFormedText`. |
| BoardText.PrintedGrid | src/Chess.ts:28-40 | The printed text has 142 characters: cells at even offsets, spaces and newlines between, a blank line before the side line. |
| BoardText.WellFormedPrinted | src/Chess.ts:25-43 | Text in the grid grammar is exactly the printed form of the cells and side read from it. |
| BoardText.PrintParsed | src/Chess.ts:45-64 | Parsing then printing text in the grid grammar gives back the same text. |
| StartPosition.NewBoardSpec | src/Chess.ts:9-22 | `Board()` is the standard opening position square by square: white to move, all four castling rights, no en-passant target. |
| StartPosition.NewGameSpec | src/board.ts:5-16 | The legacy `newGame` template, with its other indentation, parses to the same standard position. |
| StartPosition.SameStart | src/board.ts:552 | `newGame` and `Board()` are the same board. |
| StartPosition.ParseTemplate | src/Chess.ts:45-64 | Any template of 64 blank-free cells, however it is indented, parses to those cells, white to move and every castling right. |
| StartPosition.FlattenTemplate | src/Chess.ts:10-21 | A spaced-out, indented template without its blanks is its rows joined, then the side line. |
| StartPosition.JoinSpellsStart | src/Chess.ts:11-18 | Eight rows of eight that spell out the standard position row by row, joined, are its 64 cells. |
| PseudoMoves.RayGeometry | src/Chess.ts:197-204 | Step `dist` along a unit direction is on the board exactly when its row and column offsets stay on it; the square is then in that row and column, and `dist < 8`. |
| PseudoMoves.TravelSound | src/Chess.ts:187-218 | Every square `travelMoves` yields lies on the ray past empty squares only, and is empty or holds an opponent's piece. |
| PseudoMoves.TravelComplete | src/Chess.ts:187-218 | Every such square of the ray is yielded. |
| PseudoMoves.TravelMembers | src/Chess.ts:187-218 | The yielded squares are exactly the ray's reachable squares. |
| PseudoMoves.TravelMoves | src/Chess.ts:193-195 | The zero direction yields nothing; any other unit direction yields exactly its reachable ray squares. |
| PseudoMoves.Slide | src/Chess.ts:220-268 | The rook, bishop and queen generators yield exactly the reachable squares of some ray in their directions, all on the board and enterable. |
| PseudoMoves.RayTargets | src/Chess.ts:205-215 | A reachable ray square is on the board and empty or the opponent's. |
| PseudoMoves.Jumps | src/Chess.ts:281-297 | Every square a jump generator yields is on the board and empty or the opponent's. |
| PseudoMoves.StepGeometry | src/Chess.ts:168-175 | An on-board step reaches `sq` exactly when `sq` is on the board at that row and column offset. |
| PseudoMoves.JumpsGeometry | src/Chess.ts:281-297 | A jump generator yields exactly the on-board, enterable squares whose offset is in its list. |
| PseudoMoves.KingStepsSpec | src/Chess.ts:360-368 | The king's steps are exactly the eight non-zero offsets within one row and one column. |
| PseudoMoves.KnightJumpsSpec | src/Chess.ts:270-280 | The knight's move set is exactly the offsets of one and two in either order, with any signs. |
| PseudoMoves.PlainKingMovesGeometry | src/Chess.ts:355-381 | `plainKingMoves` yields exactly the enterable squares next to `pos`. |
| PseudoMoves.KnightMovesGeometry | src/Chess.ts:270-298 | `knightMoves` yields exactly the enterable squares a knight's jump from `pos`. |
| PseudoMoves.PawnMoves | src/Chess.ts:300-353 | Every pawn move goes toward the opponent: up for white, down for black. |
| PseudoMoves.PawnAdvanceSpec | src/Chess.ts:319-336 | The single step is offered exactly when the square straight ahead is empty. |
| PseudoMoves.PawnJumpSpec | src/Chess.ts:305-336 | The double step is offered exactly from the home row onto an empty square two ahead, and in `Engine` only past an empty square. |
| PseudoMoves.PawnCaptureSpec | src/Chess.ts:338-352 | A diagonal step is offered exactly onto an opponent's piece or the en-passant square. |
| PseudoMoves.PawnMovesSpec | src/Chess.ts:300-353 | `pawnMoves` yields exactly the advance, double-step and capture targets. |
| PseudoMoves.LegacyPawnMovesExtend | src/board.ts:252-294 | The legacy generator offers every move of the engine's, and besides them at most the double step past an occupied square. |
| Check.KingProbeSpec | src/Chess.ts:394-398 | The king probe fires exactly when an opponent king is next to `pos`. |
| Check.KnightProbeSpec | src/Chess.ts:400-404 | The knight probe fires exactly when an opponent knight is a jump from `pos`. |
| Check.NearCheckSpec | src/Chess.ts:394-404 | The king and knight probes together fire exactly on an adjacent opponent king or knight. |
| Check.SliderSpec | src/Chess.ts:420-432 | A line probe fires exactly when the first piece along some line is an opponent slider of that kind or a queen. |
| Check.LineCheckSpec | src/Chess.ts:420-432 | The rook and bishop probes fire exactly on an opponent rook, bishop or queen along a clear line. |
| Check.PawnProbeSpec | src/Chess.ts:406-418 | The two pawn probes, kept on the board, fire exactly when an opponent pawn stands one row behind `pos` as that pawn moves and one column aside, so that its diagonal capture lands on `pos`. |
| Check.IsKingInCheckSpec | src/Chess.ts:383-435 | `isKingInCheck`, with the pawn probe kept on the board, answers exactly whether `pos` is attacked. |
| Check.ProbeDivergence | src/Chess.ts:406-418 | The pawn probe as written differs from the bounded one only for a black king on the last row reading the side byte or the flag byte. There it reports a pawn. |
| Check.PawnProbeDivergence | src/Chess.ts:406-418 | The two checks differ only for a black king on row 7: in column 0 or 2 with flag byte 112, or in column 1 with side byte `p`. There the source reports a check the board does not hold. |
| Apply.DefaultPromotion | src/Chess.ts:527-531 | The default promotion piece is a queen of the mover's colour. |
| Apply.MovePiece | src/Chess.ts:543-577 | The piece leaves `from` and lands on `to`, promoted where due. An en-passant capture clears the victim's square. Nothing else changes. |
| Apply.MoveRook | src/Chess.ts:590-599 | Castling moves the corner rook of the home row to the square the king passed, and nothing else changes. |
| Apply.ApplyMove | src/Chess.ts:536-541 | The side to move flips. |
| Apply.ApplyMoveCells | src/Chess.ts:533-599 | The cells after a move: origin emptied, target filled or promoted, en-passant victim removed, castling rook moved, every other square unchanged. |
| Apply.ApplyMoveFlags | src/Chess.ts:550-614 | En passant is offered exactly after a pawn's 16-index move, in its column. After any other move the flag byte is its castling bits alone. Castling rights only shrink. A king move drops exactly the mover's two rights and keeps the opponent's. A rook leaving column 0 or 7 of its home row drops exactly that right. Every other move keeps all rights, including a home-row rook leaving columns 1 to 6. |
| Apply.ClearEnPassant | src/Chess.ts:551 | Clearing the en-passant bits leaves exactly the castling bits: no en-passant column and every castling right. |
| Apply.NewEnPassantSpec | src/Chess.ts:550-560 | The en-passant step sets the origin's column exactly on a pawn's double step and keeps the castling rights. Otherwise it leaves the castling bits alone. |
| Apply.ClearCastling | src/Chess.ts:585-612 | Clearing a castling mask keeps the en-passant column, clears exactly those rights and adds none. |
| Apply.RightsLostAreCastling | src/Chess.ts:97-112 | The masks a move clears never touch the en-passant bits. |
| Apply.NewCastlingSpec | src/Chess.ts:579-612 | The castling step keeps the en-passant column and never adds a right. A king move drops exactly the mover's two rights. A rook leaving a home corner drops exactly that one. Every other move keeps them all. |
| Apply.NewFlagsSpec | src/Chess.ts:550-614 | The whole flag update, both steps together, as stated for `ApplyMoveFlags`. |
| Legal.CanCastle0Spec | src/Chess.ts:456-465 | Castling toward column 0 needs the right, columns 1 to 3 empty, and neither the king's square nor column 3 attacked. |
| Legal.CanCastle7Spec | src/Chess.ts:467-475 | Castling toward column 7 needs the right, columns 5 and 6 empty, and neither the king's square nor column 5 attacked. |
| Legal.CastleRightInMask | src/Chess.ts:450-452 | Either castling right lies within the side's castling mask, so the early return drops nothing. |
| Legal.KingMovesSpec | src/Chess.ts:437-476 | `kingMoves` yields exactly the plain steps, plus column 2 or 6 of the king's row when castling that way is allowed. |
| Legal.CastleTargetEmpty | src/Chess.ts:456-475 | A castling destination is an empty square of the king's row. |
| Legal.KingMovesSound | src/Chess.ts:437-476 | Every square `kingMoves` yields is on the board and enterable. |
| Legal.PseudoMovesOf | src/Chess.ts:489-498 | The generator chosen by the piece's kind yields only on-board enterable squares, or for a pawn the en-passant square. |
| Legal.Filter | src/Chess.ts:506-518 | The filter keeps exactly the moves that pass the test, and never lengthens the list. |
| Legal.FilterSingle | src/Chess.ts:506-518 | A single move is kept exactly when it passes the test. |
| Legal.FilterAppend | src/Chess.ts:506-518 | Filtering distributes over concatenation. With `FilterSingle` this fixes the result as the passing moves in their original order. |
| Legal.FindMoves | src/Chess.ts:478-483 | An empty square yields nothing, and every move is on the board. |
| Legal.FindMovesSpec | src/Chess.ts:478-519 | A move is offered exactly when the piece's generator yields it and the mover's last king on the resulting board is not attacked, if the mover has a king. |
| Search.AboveOrder | src/pickMoveByRating.ts:44 | The rating comparison is a strict total order on -Infinity, the reals and +Infinity. |
| Search.TimesInvolution | src/pickMoveByRating.ts:39 | Multiplying by the rating multiplier twice gives the rating back. |
| Search.DetermineEndState | src/pickMoveByRating.ts:4-21 | It is checkmate exactly when the side to move has no king, or its first king is attacked. |
| Search.ExpandMembers | src/pickMoveByRating.ts:26-30 | The nested loops list exactly the pairs of an origin and one of its destinations. |
| Search.ExpandDests | src/pickMoveByRating.ts:26-30 | Over increasing origins, each origin's destinations appear in their own order. |
| Search.FindAllMovesSpec | src/pickMoveByRating.ts:23-31 | A pair is listed exactly when a piece of the side to move stands on its origin and `findMoves` offers its target. |
| Search.FindAllMovesOrder | src/pickMoveByRating.ts:23-31 | Moves are listed by origin from square 0 up, each origin's in the order `findMoves` yields them. |
| Search.ScanSpec | src/pickMoveByRating.ts:41-48 | The loop ends with no move exactly when every rating is -Infinity, and otherwise with the first index of a greatest rating. |
| Search.FindBestMoveAndRatingSpec | src/pickMoveByRating.ts:33-59 | A move is returned exactly when one rates above -Infinity for the mover. It is the earliest of greatest rating, valued by its child's rating; otherwise the value is the end-state score. |
| Search.MaxOfSpec | src/pickMoveByRating.ts:117-128 | The greatest rating bounds every rating and, unless it is -Infinity, is one of them. |
| Search.TiedUpToSpec | src/pickMoveByRating.ts:117-128 | The tie list holds exactly the indices whose rating equals the given one, increasing. |
| Search.ReduceSpec | src/pickMoveByRating.ts:117-128 | The `reduce` ends with the greatest rating and exactly the indices that have it, in order. |
| Search.PickIndexRange | src/pickMoveByRating.ts:131 | `floor(rand * n)` is a valid index of a nonempty list exactly when `0 <= rand < 1`. |
| Search.PickTiedSpec | src/pickMoveByRating.ts:117-133 | Over a nonempty list, the tie pick reports the greatest rating. It picks an index holding it exactly when `rand` is in [0, 1). |
| Search.FindBestMoveAndRatingPromiseSpec | src/pickMoveByRating.ts:87-136 | With no move, it returns no move and the end-state score. Otherwise the value is the greatest mover-relative rating turned back, and `rand` in [0, 1), and only such a `rand`, picks a move of greatest rating. |
| Search.FirstBestIsFirstTied | src/pickMoveByRating.ts:117-131 | The first index of a greatest rating heads the tie list. |
| Search.PickersAgree | src/pickMoveByRating.ts:87-136 | When some move rates above -Infinity, the Promise picker with `rand = 0` returns the synchronous picker's move and value. With no move at all, they agree for every `rand`. |
| Search.PickersDiverge | src/pickMoveByRating.ts:117-131 | When every move rates -Infinity, the synchronous picker finds none, while the Promise picker with `rand = 0` plays the first move and reports a loss. |
| Search.ApplyDepthSpec | src/pickMoveByRating.ts:61-76 | Depth 0 is the evaluator. Depth `d + 1` values a board by the depth-`d` value of the child the picker chooses, or by the end-state score. |
| Search.ApplyDepthPromiseSpec | src/pickMoveByRating.ts:138-150 | Depth `d + 1` of the Promise search is the greatest mover-relative depth-`d` child value turned back, or the end-state score without moves. |
| Pgn.IndexOfSpec | src/pgn.ts:9 | `indexOf` finds the first occurrence, and returns -1 exactly when there is none. |
| Pgn.FileIndex | src/pgn.ts:3 | A file letter's index is its distance from `a`; any other character gives -1. |
| Pgn.RankIndex | src/pgn.ts:4 | A rank digit's index is its distance from `1`; any other character gives -1. |
| Pgn.FromPgn | src/pgn.ts:7-10 | Reading a name succeeds exactly when it has two characters. |
| Pgn.ToPgn | src/pgn.ts:11-18 | Naming succeeds exactly for indices 0..63, giving a file letter and a rank digit. |
| Pgn.FromPgnOf | src/pgn.ts:7-10 | File `f` and rank `k` read as index `8 * (7 - k) + f`. |
| Pgn.FromToPgn | src/pgn.ts:7-18 | Naming an index and reading the name back gives the index. |
| Pgn.ToFromPgn | src/pgn.ts:7-18 | Every square name reads to an on-board index whose name is the one read. |
| Pgn.FromPgnOnBoard | src/pgn.ts:7-18 | Among two-character strings, those that read to an index whose name is themselves are exactly the square names. |
| Pgn.Corners | src/pgn.ts:7-10 | a8 is index 0, h8 is 7, a1 is 56 and h1 is 63. |
| Pgn.UncheckedCharacters | src/pgn.ts:9 | `i1`, which is not a square name, reads as h2's index 55: the -1 of the unknown file borrows from the rank. |
| Findings.LoneKingAttacksNothing | src/Chess.ts:383-435 | A square is not attacked when the opponent's only piece is a king that is not next to it. |
| Findings.LonelyDoubleStep | src/Chess.ts:550-560 | After black's d7-d5 on the three-piece position, the flag byte is 112, the code of a white pawn. |
| Findings.PhantomProbe | src/Chess.ts:406-418 | On that position the black king on a1 is not attacked, yet the probe as written reports a check. |
| Findings.PhantomPawnCheck | src/Chess.ts:406-418 | The same, on the board `applyMove` produces. |
| Findings.FindMovesAsWritten | src/Chess.ts:478-519 | `findMoves` with the probe as written yields nothing from an empty square and only on-board squares. |
| Findings.AsWrittenDropsOnly | src/Chess.ts:506-518 | The probe as written only adds checks, so the source offers a subset of the corrected legal moves. |
| Findings.LostDoubleStep | src/Chess.ts:506-518 | On that position the source never offers d7-d5, which the corrected probe keeps. |
| Findings.JumpOverBlocker | src/board.ts:267-277 | The legacy pawn on e2 jumps over a knight on e3 to e4; the engine's generator does not. |

## Left out

- Input and output, the web demo, the game loop, the evaluators and the head-to-head drivers are not part of this model. `src/BoardRater.ts`, `src/rateBoard.ts` and `src/Game.ts` are not part of this model.
- The evaluator is a parameter `Board -> Score`. Ratings are -Infinity, a real number or +Infinity. NaN and floating-point rounding are not modelled.
- The random number of the Promise picker is a parameter. `applyPromise` is the identity and `Promise.all` is an in-order map: both only defer the same values.
- `applyDepthPromise` passes no random number to the picker, so it is modelled with `rand = 0`, which is the source's default.
- `Board.copy` is the identity, because boards are immutable values here.
- The source's promotion callback may return any number. The model assumes it returns a cell code and takes the promotion piece as that code; the search and `findMoves` use the default queen.
- Boards with any cell code outside `.kqrnbpKQRNBP` are outside the `Board` type. This is the model's choice. The source throws only in `findMoves` when the origin holds such a code, and elsewhere treats such a code as an occupied square of the colour `code >= 'a'` gives, matching no piece kind. The model states nothing about those boards.
- Strings here are sequences of Unicode scalar values, while the source counts UTF-16 code units (`charCodeAt`, `str.length`). A character outside the Basic Multilingual Plane is one character in the model and two code units in the source. So `FromPgn` rejects a one-character name of such a character, which passes the source's length check, and `FromString` reads it as one cell instead of two.
- `fromPgn` and `toPgn` assert on their input; a failed assertion is `None`.
- `fromString` stores each character's code modulo 256, and a read past the end of a short text stores 0.
- Legal.FindMoves, Search.DetermineEndState, Search.FindAllMoves, Search.FindBestMoveAndRating, Search.FindBestMoveAndRatingPromise and the depth wrappers use the corrected pawn probe. The source calls the as-written `isKingInCheck` (`src/pickMoveByRating.ts:4-31`), so on a position where that probe reads the flag or side byte as a white pawn (see Findings) these members differ from the source. `Findings.FindMovesAsWritten` models `findMoves` as written.
- Apply.ApplyMove: the function's own contract states only that the side flips. The cell and flag effects are stated by `ApplyMoveCells` and `ApplyMoveFlags`, which hold for every move.
- A capture of a rook on its corner does not clear the opponent's castling right in the source, and the model follows that. No property is claimed about it.

## Findings

| source | as written | input that shows it | evidently intended | confidence | as-written member | corrected member |
|---|---|---|---|---|---|---|
| src/Chess.ts:406-418 (same in src/board.ts:339-351) | The pawn probe bounds only the column, so for a black king on row 7 it reads `board[64]` or `board[65]`. The flag byte is 112, the code of a white pawn, when the en-passant column is 3 and no castling right is left. | The black king on a1, a black pawn on d7 and the white king on h8, black to move, no castling rights. After d7-d5 the flag byte is 112, so `findMoves` rejects d7-d5 as leaving the king in check. | A probe row off the board finds no pawn. | not executed | Check.IsKingInCheckAsWritten (Findings.PhantomPawnCheck, Findings.LostDoubleStep) | Check.IsKingInCheck (Check.IsKingInCheckSpec, Findings.AsWrittenDropsOnly) |
| src/board.ts:252-277 | The legacy double step checks only the target square, not the square passed over. | A white pawn on e2 and a black knight on e3, white to move: the legacy generator offers e2-e4. | The double step needs both squares empty, as `src/Chess.ts:326-331` checks. | not executed | PseudoMoves.PawnMoves with `Legacy` (Findings.JumpOverBlocker) | PseudoMoves.PawnMoves with `Engine` (PseudoMoves.PawnMovesSpec, PseudoMoves.LegacyPawnMovesExtend) |

The engine model, meaning everything under `Legal` and `Search`, uses the corrected probe. The legacy variant keeps its pawn generator as written, because that is the code of `src/board.ts`.
