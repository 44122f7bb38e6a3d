/**
 * Two places where the source's code and its evident intent part ways, each shown on a
 * concrete position: the pawn probe of `isKingInCheck` reading past the last row, and the
 * legacy pawn generator jumping over a blocked square.
 */
module Findings {
  import opened Wrappers
  import opened BoardState
  import opened PseudoMoves
  import opened Check
  import opened Apply
  import opened Legal

  // The pawn probe past the last row.

  /**
   * Black to move, no castling right and no en-passant target: the black king on a1 (56),
   * a black pawn on d7 (11) and the white king on h8 (7).
   */
  const Lonely: Board :=
    RawBoard(seq(64, i => if i == 56 then 'K' else if i == 11 then 'P' else if i == 7 then 'k' else Empty),
      BlackToMove, 0)

  /** On a board where the opponent's only piece is its king on `king`, no other square holds an opponent's code. */
  lemma OnlyOpponentKing(b: Board, white: bool, king: int, sq: int)
    requires 0 <= king < 64 && b.cells[king] == Code(King, !white)
    requires forall i :: 0 <= i < 64 && i != king ==> b.cells[i] == Empty || IsWhite(b.cells[i]) == white
    requires 0 <= sq < 64
    ensures b.cells[sq] != Code(Queen, !white) && b.cells[sq] != Code(Rook, !white)
    ensures b.cells[sq] != Code(Bishop, !white) && b.cells[sq] != Code(Knight, !white)
    ensures b.cells[sq] != Code(Pawn, !white)
    ensures b.cells[sq] == Code(King, !white) ==> sq == king
  {
    CodeKindOf(b.cells[sq], King, !white);
    CodeKindOf(b.cells[sq], Queen, !white);
    CodeKindOf(b.cells[sq], Rook, !white);
    CodeKindOf(b.cells[sq], Bishop, !white);
    CodeKindOf(b.cells[sq], Knight, !white);
    CodeKindOf(b.cells[sq], Pawn, !white);
  }

  /** Nothing attacks `pos` when the opponent has only a king, and that king is not next to `pos`. */
  lemma LoneKingAttacksNothing(b: Board, pos: int, white: bool, king: int)
    requires 0 <= pos < 64 && 0 <= king < 64 && b.cells[king] == Code(King, !white)
    requires !(-1 <= Row(king) - Row(pos) <= 1 && -1 <= Col(king) - Col(pos) <= 1)
    requires forall i :: 0 <= i < 64 && i != king ==> b.cells[i] == Empty || IsWhite(b.cells[i]) == white
    ensures !Attacked(b, pos, white)
  {
    forall sq | 0 <= sq < 64
      ensures b.cells[sq] != Code(Queen, !white) && b.cells[sq] != Code(Rook, !white)
      ensures b.cells[sq] != Code(Bishop, !white) && b.cells[sq] != Code(Knight, !white)
      ensures b.cells[sq] != Code(Pawn, !white)
      ensures b.cells[sq] == Code(King, !white) ==> sq == king
    {
      OnlyOpponentKing(b, white, king, sq);
    }
  }

  /** The cells of `Lonely` once the pawn on d7 has made its double step to d5 (27). */
  function LonelyAfterCell(i: int): Byte {
    if i == 56 then 'K' else if i == 27 then 'P' else if i == 7 then 'k' else Empty
  }

  /**
   * After d7-d5 the pawn stands on d5 and the flag byte records an en-passant target in
   * column 3 and no castling right: 16 + 3 * 32 = 112, which is the code of a white pawn.
   */
  lemma LonelyDoubleStep()
    ensures var a := ApplyMove(Lonely, 11, 27, DefaultPromotion(Lonely, 11));
      && a.flags == 112 && a.side == WhiteToMove
      && forall i :: 0 <= i < 64 ==> a.cells[i] == LonelyAfterCell(i)
  {
    var a := ApplyMove(Lonely, 11, 27, DefaultPromotion(Lonely, 11));
    assert MovesKind(Lonely, 11, Pawn) && Abs(11 - 27) == 16 && Row(27) == 3;
    assert !Castles(Lonely, 11, 27);
    ApplyMoveCells(Lonely, 11, 27, DefaultPromotion(Lonely, 11), a);
    ApplyMoveFlags(Lonely, 11, 27, DefaultPromotion(Lonely, 11), a);
    forall i | 0 <= i < 64
      ensures a.cells[i] == LonelyAfterCell(i)
    {
      if i != 11 && i != 27 {
        assert !Touched(Lonely, 11, 27, i);
      }
    }
    FlagsOf(a.flags, 3);
  }

  /** A flag byte with no castling right and an en-passant target in column `col`. */
  lemma FlagsOf(flags: bv8, col: int)
    requires 0 <= col < 8
    requires flags & AllCastleRights == 0 && EnPassantCol(flags) == Some(col)
    ensures flags as int == 16 + 32 * col
  {
    assert flags == EnPassantFlag | ((col as bv8) << 5);
  }

  /** The position after d7-d5, with the side to move left open. */
  predicate IsLonelyAfter(a: Board) {
    a.flags == 112 && forall i :: 0 <= i < 64 ==> a.cells[i] == LonelyAfterCell(i)
  }

  /** On the position after d7-d5 the probe as written sees a white pawn below the black king. */
  lemma PhantomProbe(a: Board)
    requires IsLonelyAfter(a)
    ensures a.cells[56] == Code(King, false)
    ensures IsKingInCheckAsWritten(a, 56, false) && !IsKingInCheck(a, 56, false)
  {
    assert a.cells[7] == Code(King, true);
    LoneKingAttacksNothing(a, 56, false, 7);
    IsKingInCheckSpec(a, 56, false);
    assert RawByte(a, 8 * (Row(56) + Forward(false)) + 1) == Some(Code(Pawn, true));
  }

  /**
   * On the position after d7-d5 the black king on a1 is not attacked, yet the pawn probe
   * as written reads the flag byte as a white pawn on b0 and reports a check.
   */
  lemma PhantomPawnCheck()
    ensures var a := ApplyMove(Lonely, 11, 27, DefaultPromotion(Lonely, 11));
      && a.cells[56] == Code(King, false)
      && IsKingInCheckAsWritten(a, 56, false)
      && !IsKingInCheck(a, 56, false)
  {
    LonelyDoubleStep();
    PhantomProbe(ApplyMove(Lonely, 11, 27, DefaultPromotion(Lonely, 11)));
  }

  /** `findMoves`'s test of a move with the pawn probe as written. */
  predicate KingSafeAfterAsWritten(b: Board, pos: int, move: int, white: bool)
    requires 0 <= pos < 64 && 0 <= move < 64
  {
    var nb := ApplyMove(b, pos, move, DefaultPromotion(b, pos));
    var kings := FindPieces(nb.cells, {KingCode(white)});
    |kings| == 0 || !IsKingInCheckAsWritten(nb, kings[|kings| - 1], white)
  }

  /** `findMoves` with the pawn probe as written. */
  function FindMovesAsWritten(v: Variant, b: Board, pos: int): (r: seq<int>)
    requires 0 <= pos < 64
    ensures b.cells[pos] == Empty ==> r == []
    ensures forall sq :: sq in r ==> 0 <= sq < 64
  {
    if b.cells[pos] == Empty then []
    else
      var white := IsWhite(b.cells[pos]);
      Filter(PseudoMovesOf(v, b, pos, white, KindOf(b.cells[pos]).value),
        move => 0 <= move < 64 && KingSafeAfterAsWritten(b, pos, move, white))
  }

  /**
   * The probe as written only ever adds checks, so the source's `findMoves` offers a subset
   * of the corrected one's moves.
   */
  lemma AsWrittenDropsOnly(v: Variant, b: Board, pos: int, sq: int)
    requires 0 <= pos < 64
    ensures sq in FindMovesAsWritten(v, b, pos) ==> sq in FindMoves(v, b, pos)
  {
    if sq in FindMovesAsWritten(v, b, pos) {
      SafeAsWrittenIsSafe(b, pos, sq, IsWhite(b.cells[pos]));
    }
  }

  /** A move the probe as written lets through is one the corrected probe lets through. */
  lemma SafeAsWrittenIsSafe(b: Board, pos: int, move: int, white: bool)
    requires 0 <= pos < 64 && 0 <= move < 64
    ensures KingSafeAfterAsWritten(b, pos, move, white) ==> KingSafeAfter(b, pos, move, white)
  {
    var nb := ApplyMove(b, pos, move, DefaultPromotion(b, pos));
    var kings := FindPieces(nb.cells, {KingCode(white)});
    if |kings| > 0 {
      PawnProbeDivergence(nb, kings[|kings| - 1], white);
    }
  }

  /** With the mover's last king on `kp` after the move, both tests ask the probe about `kp`. */
  lemma SafetyAt(b: Board, pos: int, move: int, white: bool, kp: int)
    requires 0 <= pos < 64 && 0 <= move < 64
    requires LastHolding(ApplyMove(b, pos, move, DefaultPromotion(b, pos)).cells, KingCode(white), kp)
    ensures var nb := ApplyMove(b, pos, move, DefaultPromotion(b, pos));
      && (KingSafeAfter(b, pos, move, white) <==> !IsKingInCheck(nb, kp, white))
      && (KingSafeAfterAsWritten(b, pos, move, white) <==> !IsKingInCheckAsWritten(nb, kp, white))
  {
    FindPiecesLast(ApplyMove(b, pos, move, DefaultPromotion(b, pos)).cells, KingCode(white));
  }

  /** The black pawn on d7 of `Lonely` may make its double step. */
  lemma LonelyJump()
    ensures Lonely.cells[11] == Code(Pawn, false)
    ensures 27 in PseudoMovesOf(Engine, Lonely, 11, false, Pawn)
  {
    PawnMovesSpec(Engine, Lonely, 11, false, 27);
    assert JumpTarget(Engine, Lonely, 11, false, 27);
  }

  /** The source never offers black d7-d5 on `Lonely`, a legal move the corrected probe keeps. */
  lemma LostDoubleStep()
    ensures 27 in FindMoves(Engine, Lonely, 11)
    ensures 27 !in FindMovesAsWritten(Engine, Lonely, 11)
  {
    var a := ApplyMove(Lonely, 11, 27, DefaultPromotion(Lonely, 11));
    LonelyDoubleStep();
    PhantomProbe(a);
    assert LastHolding(a.cells, KingCode(false), 56);
    SafetyAt(Lonely, 11, 27, false, 56);
    LonelyJump();
    CodeKindOf(Lonely.cells[11], Pawn, false);
    FilterTests(Engine, Lonely, 11, 27);
  }

  /** A generated move is offered by either `findMoves` exactly when it passes that one's test. */
  lemma FilterTests(v: Variant, b: Board, pos: int, sq: int)
    requires 0 <= pos < 64 && 0 <= sq < 64 && b.cells[pos] != Empty
    requires sq in PseudoMovesOf(v, b, pos, IsWhite(b.cells[pos]), KindOf(b.cells[pos]).value)
    ensures sq in FindMoves(v, b, pos) <==> KingSafeAfter(b, pos, sq, IsWhite(b.cells[pos]))
    ensures sq in FindMovesAsWritten(v, b, pos) <==> KingSafeAfterAsWritten(b, pos, sq, IsWhite(b.cells[pos]))
  {
  }

  // The legacy double step over a blocked square.

  /** White to move: a white pawn on e2 (52) behind a black knight on e3 (44). */
  const Blocked: Board :=
    RawBoard(seq(64, i => if i == 52 then 'p' else if i == 44 then 'N' else Empty), WhiteToMove, 0)

  /**
   * The legacy generator lets the pawn on e2 jump over the knight to e4; the engine's
   * generator, which looks at the square passed over, does not.
   */
  lemma JumpOverBlocker()
    ensures 36 in PawnMoves(Legacy, Blocked, 52, true)
    ensures 36 !in PawnMoves(Engine, Blocked, 52, true)
  {
    PawnMovesSpec(Legacy, Blocked, 52, true, 36);
    PawnMovesSpec(Engine, Blocked, 52, true, 36);
    assert JumpTarget(Legacy, Blocked, 52, true, 36);
    assert Row(36) == 4 && Col(36) == Col(52);
  }
}
