/**
 * `isKingInCheck` (`src/Chess.ts`, identical in `src/board.ts`): whether the square `pos`
 * is attacked by the opponent of `white`, probed from `pos` outwards with the player's own
 * move generators.
 */
module Check {
  import opened Wrappers
  import opened BoardState
  import opened PseudoMoves

  /** The king and knight probes: an opponent king one step away or an opponent knight a jump away. */
  predicate NearCheck(b: Board, pos: int, white: bool)
    requires 0 <= pos < 64
  {
    || (exists sq :: sq in PlainKingMoves(b, pos, white) && b.cells[sq] == Code(King, !white))
    || (exists sq :: sq in KnightMoves(b, pos, white) && b.cells[sq] == Code(Knight, !white))
  }

  /**
   * The pawn probe at column `col` of the row an opponent pawn attacks from, with the row
   * bounded: a probe off the board finds no pawn.
   */
  predicate PawnProbe(b: Board, pos: int, white: bool, col: int)
    requires 0 <= pos < 64
  {
    var row := Row(pos) + Forward(white);
    0 <= col < 8 && 0 <= row < 8 && b.cells[8 * row + col] == Code(Pawn, !white)
  }

  predicate PawnCheck(b: Board, pos: int, white: bool)
    requires 0 <= pos < 64
  {
    PawnProbe(b, pos, white, Col(pos) - 1) || PawnProbe(b, pos, white, Col(pos) + 1)
  }

  /** The rook and bishop probes: the first piece along a line is an opponent slider moving that way. */
  predicate LineCheck(b: Board, pos: int, white: bool)
    requires 0 <= pos < 64
  {
    || (exists sq :: sq in RookMoves(b, pos, white) &&
          (b.cells[sq] == Code(Rook, !white) || b.cells[sq] == Code(Queen, !white)))
    || (exists sq :: sq in BishopMoves(b, pos, white) &&
          (b.cells[sq] == Code(Bishop, !white) || b.cells[sq] == Code(Queen, !white)))
  }

  /** `isKingInCheck(board, pos, isPlayerWhite)`, with the pawn probe kept on the board. */
  predicate IsKingInCheck(b: Board, pos: int, white: bool)
    requires 0 <= pos < 64
  {
    NearCheck(b, pos, white) || PawnCheck(b, pos, white) || LineCheck(b, pos, white)
  }

  // The attack relation read off the board's geometry, independent of the generators.

  /** An opponent king on one of the eight squares around `pos`. */
  predicate KingAdjacent(b: Board, pos: int, white: bool)
    requires 0 <= pos < 64
  {
    exists sq :: 0 <= sq < 64 && sq != pos &&
      -1 <= Row(sq) - Row(pos) <= 1 && -1 <= Col(sq) - Col(pos) <= 1 &&
      b.cells[sq] == Code(King, !white)
  }

  /** An opponent knight a knight's jump from `pos`. */
  predicate KnightAdjacent(b: Board, pos: int, white: bool)
    requires 0 <= pos < 64
  {
    exists sq :: 0 <= sq < 64 && KnightOffset(Row(sq) - Row(pos), Col(sq) - Col(pos)) &&
      b.cells[sq] == Code(Knight, !white)
  }

  /** An opponent pawn whose diagonal capture lands on `pos`: one row behind it, one column aside. */
  predicate PawnAdjacent(b: Board, pos: int, white: bool)
    requires 0 <= pos < 64
  {
    exists sq :: 0 <= sq < 64 && b.cells[sq] == Code(Pawn, !white) &&
      Row(pos) == Row(sq) + Forward(!white) && (Col(pos) == Col(sq) + 1 || Col(pos) == Col(sq) - 1)
  }

  /** An opponent slider stands on a ray from `pos` in one of `dirs`, past empty squares only. */
  ghost predicate SliderOnLine(b: Board, pos: int, white: bool, dirs: seq<Dir>, k: Kind)
    requires AllUnit(dirs)
  {
    exists i, sq :: 0 <= i < |dirs| && OnRayFrom(b, pos, dirs[i], white, sq, 1) &&
      (b.cells[sq] == Code(k, !white) || b.cells[sq] == Code(Queen, !white))
  }

  /**
   * The square `pos` is attacked by the opponent of `white`: by a king next to it, a knight
   * a knight's jump away, a pawn diagonally ahead of it, or a rook, bishop or queen along a
   * clear line.
   */
  ghost predicate Attacked(b: Board, pos: int, white: bool)
    requires 0 <= pos < 64
  {
    || KingAdjacent(b, pos, white)
    || KnightAdjacent(b, pos, white)
    || PawnAdjacent(b, pos, white)
    || SliderOnLine(b, pos, white, RookDirs, Rook)
    || SliderOnLine(b, pos, white, BishopDirs, Bishop)
  }

  /** The opponent's pieces are always enterable for the player. */
  lemma OpponentEnterable(b: Board, white: bool, sq: int, k: Kind)
    requires 0 <= sq < 64 && b.cells[sq] == Code(k, !white)
    ensures Enterable(b, white, sq)
  {
    CodeKindOf(b.cells[sq], k, !white);
  }

  /** The king probe finds exactly an opponent king next to `pos`. */
  lemma KingProbeSpec(b: Board, pos: int, white: bool)
    requires 0 <= pos < 64
    ensures (exists sq :: sq in PlainKingMoves(b, pos, white) && b.cells[sq] == Code(King, !white))
      <==> KingAdjacent(b, pos, white)
  {
    if KingAdjacent(b, pos, white) {
      var sq :| 0 <= sq < 64 && sq != pos &&
        -1 <= Row(sq) - Row(pos) <= 1 && -1 <= Col(sq) - Col(pos) <= 1 &&
        b.cells[sq] == Code(King, !white);
      OpponentEnterable(b, white, sq, King);
      PlainKingMovesGeometry(b, pos, white, sq);
    }
    if exists sq :: sq in PlainKingMoves(b, pos, white) && b.cells[sq] == Code(King, !white) {
      var sq :| sq in PlainKingMoves(b, pos, white) && b.cells[sq] == Code(King, !white);
      PlainKingMovesGeometry(b, pos, white, sq);
    }
  }

  /** The knight probe finds exactly an opponent knight a jump from `pos`. */
  lemma KnightProbeSpec(b: Board, pos: int, white: bool)
    requires 0 <= pos < 64
    ensures (exists sq :: sq in KnightMoves(b, pos, white) && b.cells[sq] == Code(Knight, !white))
      <==> KnightAdjacent(b, pos, white)
  {
    if KnightAdjacent(b, pos, white) {
      var sq :| 0 <= sq < 64 && KnightOffset(Row(sq) - Row(pos), Col(sq) - Col(pos)) &&
        b.cells[sq] == Code(Knight, !white);
      OpponentEnterable(b, white, sq, Knight);
      KnightMovesGeometry(b, pos, white, sq);
    }
    if exists sq :: sq in KnightMoves(b, pos, white) && b.cells[sq] == Code(Knight, !white) {
      var sq :| sq in KnightMoves(b, pos, white) && b.cells[sq] == Code(Knight, !white);
      KnightMovesGeometry(b, pos, white, sq);
    }
  }

  /** The pawn probes find exactly an opponent pawn that captures onto `pos`. */
  lemma PawnProbeSpec(b: Board, pos: int, white: bool)
    requires 0 <= pos < 64
    ensures PawnCheck(b, pos, white) <==> PawnAdjacent(b, pos, white)
  {
    var row := Row(pos) + Forward(white);
    if PawnCheck(b, pos, white) {
      var col := if PawnProbe(b, pos, white, Col(pos) - 1) then Col(pos) - 1 else Col(pos) + 1;
      var sq := 8 * row + col;
      assert Row(sq) == row && Col(sq) == col;
    }
    if PawnAdjacent(b, pos, white) {
      var sq :| 0 <= sq < 64 && b.cells[sq] == Code(Pawn, !white) &&
        Row(pos) == Row(sq) + Forward(!white) && (Col(pos) == Col(sq) + 1 || Col(pos) == Col(sq) - 1);
      assert sq == 8 * Row(sq) + Col(sq);
      assert PawnProbe(b, pos, white, Col(sq));
    }
  }

  /** The king and knight probes find exactly an adjacent opponent king or knight. */
  lemma NearCheckSpec(b: Board, pos: int, white: bool)
    requires 0 <= pos < 64
    ensures NearCheck(b, pos, white) <==> KingAdjacent(b, pos, white) || KnightAdjacent(b, pos, white)
  {
    KingProbeSpec(b, pos, white);
    KnightProbeSpec(b, pos, white);
  }

  lemma SliderSpec(b: Board, pos: int, white: bool, dirs: seq<Dir>, k: Kind)
    requires 0 <= pos < 64 && AllUnit(dirs) && forall i :: 0 <= i < |dirs| ==> dirs[i] != Dir(0, 0)
    ensures (exists sq :: sq in Slide(b, pos, dirs, white) &&
              (b.cells[sq] == Code(k, !white) || b.cells[sq] == Code(Queen, !white)))
      <==> SliderOnLine(b, pos, white, dirs, k)
  {
    if SliderOnLine(b, pos, white, dirs, k) {
      var i, sq :| 0 <= i < |dirs| && OnRayFrom(b, pos, dirs[i], white, sq, 1) &&
        (b.cells[sq] == Code(k, !white) || b.cells[sq] == Code(Queen, !white));
      assert sq in Slide(b, pos, dirs, white);
    }
  }

  lemma LineCheckSpec(b: Board, pos: int, white: bool)
    requires 0 <= pos < 64
    ensures LineCheck(b, pos, white) <==>
      SliderOnLine(b, pos, white, RookDirs, Rook) || SliderOnLine(b, pos, white, BishopDirs, Bishop)
  {
    SliderSpec(b, pos, white, RookDirs, Rook);
    SliderSpec(b, pos, white, BishopDirs, Bishop);
  }

  /** `isKingInCheck` answers exactly the attack relation. */
  lemma IsKingInCheckSpec(b: Board, pos: int, white: bool)
    requires 0 <= pos < 64
    ensures IsKingInCheck(b, pos, white) <==> Attacked(b, pos, white)
  {
    NearCheckSpec(b, pos, white);
    PawnProbeSpec(b, pos, white);
    LineCheckSpec(b, pos, white);
  }

  // The pawn probe as the source writes it.

  /**
   * `board[i]` on the 66-byte array: a cell, the side byte at 64, the flag byte at 65, and
   * `undefined` (never equal to a piece code) anywhere else.
   */
  function RawByte(b: Board, i: int): (r: Option<Byte>)
    ensures r.Some? <==> 0 <= i < 66
    ensures 0 <= i < 64 ==> r == Some(b.cells[i])
  {
    if 0 <= i < 64 then Some(b.cells[i])
    else if i == 64 then Some(b.side)
    else if i == 65 then Some((b.flags as int) as char)
    else None
  }

  /** The pawn probe with only the column bounded: the row may be -1 or 8. */
  predicate PawnProbeAsWritten(b: Board, pos: int, white: bool, col: int)
    requires 0 <= pos < 64
  {
    0 <= col < 8 && RawByte(b, 8 * (Row(pos) + Forward(white)) + col) == Some(Code(Pawn, !white))
  }

  predicate IsKingInCheckAsWritten(b: Board, pos: int, white: bool)
    requires 0 <= pos < 64
  {
    || NearCheck(b, pos, white)
    || PawnProbeAsWritten(b, pos, white, Col(pos) - 1) || PawnProbeAsWritten(b, pos, white, Col(pos) + 1)
    || LineCheck(b, pos, white)
  }

  /**
   * A probe reads past the board only from the last row, where index 64 is the side byte
   * and index 65 the flag byte.
   */
  lemma ProbeDivergence(b: Board, pos: int, white: bool, col: int)
    requires 0 <= pos < 64
    ensures PawnProbeAsWritten(b, pos, white, col) != PawnProbe(b, pos, white, col) ==>
      && !white && Row(pos) == 7
      && ((col == 1 && b.flags == 112) || (col == 0 && b.side == 'p'))
      && PawnProbeAsWritten(b, pos, white, col)
  {
    var row := Row(pos) + Forward(white);
    if PawnProbeAsWritten(b, pos, white, col) != PawnProbe(b, pos, white, col) {
      assert 0 <= col < 8 && (row == -1 || row == 8);
      if row == 8 && col == 1 {
        assert b.flags as int == 112;
      }
    }
  }

  /**
   * The two checks differ only for a black king on the last row (row 7): in column 0 or 2
   * the pawn probe reads the flag byte, which holds 112, the code of a white pawn, exactly
   * when the en-passant column is 3 and no castling right is left; in column 1 it reads the
   * side byte, which is never 'p' on a board read from text the printer wrote. Where they
   * differ the source reports a check the board does not hold.
   */
  lemma PawnProbeDivergence(b: Board, pos: int, white: bool)
    requires 0 <= pos < 64
    ensures IsKingInCheckAsWritten(b, pos, white) != IsKingInCheck(b, pos, white) ==>
      && !white && Row(pos) == 7
      && (((Col(pos) == 0 || Col(pos) == 2) && b.flags == 112) || (Col(pos) == 1 && b.side == 'p'))
      && IsKingInCheckAsWritten(b, pos, white) && !IsKingInCheck(b, pos, white)
  {
    ProbeDivergence(b, pos, white, Col(pos) - 1);
    ProbeDivergence(b, pos, white, Col(pos) + 1);
  }
}
