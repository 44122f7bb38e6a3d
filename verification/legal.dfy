/**
 * `kingMoves` and the legality filter `findMoves` (`src/Chess.ts`, and the same code in
 * `src/board.ts` over its own pawn generator).
 */
module Legal {
  import opened Wrappers
  import opened BoardState
  import opened PseudoMoves
  import opened Check
  import opened Apply

  /** The squares between the king and the column-0 corner are empty. */
  predicate PathClear0(b: Board, pos: int)
    requires 0 <= pos < 64
  {
    var i8 := RowStart(pos);
    b.cells[i8 + 1] == Empty && b.cells[i8 + 2] == Empty && b.cells[i8 + 3] == Empty
  }

  /** The squares between the king and the column-7 corner are empty. */
  predicate PathClear7(b: Board, pos: int)
    requires 0 <= pos < 64
  {
    var i8 := RowStart(pos);
    b.cells[i8 + 5] == Empty && b.cells[i8 + 6] == Empty
  }

  /** Castling towards column 0: the right, three empty squares, and neither `pos` nor column 3 attacked. */
  predicate CanCastle0(b: Board, pos: int, white: bool)
    requires 0 <= pos < 64
  {
    var i8 := RowStart(pos);
    && HasCastleRight(b.flags, white, false)
    && PathClear0(b, pos)
    && !IsKingInCheck(b, pos, white) && !IsKingInCheck(b, i8 + 3, white)
  }

  /** Castling towards column 7: the right, two empty squares, and neither `pos` nor column 5 attacked. */
  predicate CanCastle7(b: Board, pos: int, white: bool)
    requires 0 <= pos < 64
  {
    var i8 := RowStart(pos);
    && HasCastleRight(b.flags, white, true)
    && PathClear7(b, pos)
    && !IsKingInCheck(b, pos, white) && !IsKingInCheck(b, i8 + 5, white)
  }

  /**
   * `kingMoves`: the plain steps, then castling to column 2 and to column 6 of the king's
   * row. Whether a rook stands in the corner is never looked at.
   */
  function KingMoves(b: Board, pos: int, white: bool): (r: seq<int>)
    requires 0 <= pos < 64
  {
    var plain := PlainKingMoves(b, pos, white);
    if b.flags & CastleMask(white) == 0 then plain
    else
      var i8 := RowStart(pos);
      plain + (if CanCastle0(b, pos, white) then [i8 + 2] else []) +
        (if CanCastle7(b, pos, white) then [i8 + 6] else [])
  }

  /** The castling conditions towards column 0, with the attack relation in place of the probe. */
  lemma CanCastle0Spec(b: Board, pos: int, white: bool)
    requires 0 <= pos < 64
    ensures CanCastle0(b, pos, white) <==>
      && HasCastleRight(b.flags, white, false)
      && b.cells[RowStart(pos) + 1] == Empty && b.cells[RowStart(pos) + 2] == Empty
      && b.cells[RowStart(pos) + 3] == Empty
      && !Attacked(b, pos, white) && !Attacked(b, RowStart(pos) + 3, white)
  {
    var passed := RowStart(pos) + 3;
    assert 0 <= passed < 64;
    IsKingInCheckSpec(b, pos, white);
    IsKingInCheckSpec(b, passed, white);
  }

  /** The castling conditions towards column 7, with the attack relation in place of the probe. */
  lemma CanCastle7Spec(b: Board, pos: int, white: bool)
    requires 0 <= pos < 64
    ensures CanCastle7(b, pos, white) <==>
      && HasCastleRight(b.flags, white, true)
      && b.cells[RowStart(pos) + 5] == Empty && b.cells[RowStart(pos) + 6] == Empty
      && !Attacked(b, pos, white) && !Attacked(b, RowStart(pos) + 5, white)
  {
    var passed := RowStart(pos) + 5;
    assert 0 <= passed < 64;
    IsKingInCheckSpec(b, pos, white);
    IsKingInCheckSpec(b, passed, white);
  }

  /** Either castling right lies inside the side's castling mask. */
  lemma CastleRightInMask(flags: bv8, white: bool, col7: bool)
    ensures HasCastleRight(flags, white, col7) ==> flags & CastleMask(white) != 0
  {
  }

  /**
   * A king reaches its plain steps, and column 2 or 6 of its row exactly when castling that
   * way is allowed; the castling mask test in front adds nothing.
   */
  lemma KingMovesSpec(b: Board, pos: int, white: bool, sq: int)
    requires 0 <= pos < 64
    ensures sq in KingMoves(b, pos, white) <==>
      || sq in PlainKingMoves(b, pos, white)
      || (sq == RowStart(pos) + 2 && CanCastle0(b, pos, white))
      || (sq == RowStart(pos) + 6 && CanCastle7(b, pos, white))
  {
    CastleRightInMask(b.flags, white, false);
    CastleRightInMask(b.flags, white, true);
  }

  /** A castling destination is an empty square of the king's row. */
  lemma CastleTargetEmpty(b: Board, pos: int, sq: int)
    requires 0 <= pos < 64
    requires (sq == RowStart(pos) + 2 && PathClear0(b, pos)) || (sq == RowStart(pos) + 6 && PathClear7(b, pos))
    ensures 0 <= sq < 64 && b.cells[sq] == Empty
  {
  }

  /** Every king destination is on the board and empty or the opponent's. */
  lemma KingMovesSound(b: Board, pos: int, white: bool, sq: int)
    requires 0 <= pos < 64 && sq in KingMoves(b, pos, white)
    ensures 0 <= sq < 64 && Enterable(b, white, sq)
  {
    KingMovesSpec(b, pos, white, sq);
    if sq !in PlainKingMoves(b, pos, white) {
      CastleTargetEmpty(b, pos, sq);
    }
  }

  /** The generator `findMoves` looks up for a piece of kind `k`. */
  function PseudoMovesOf(v: Variant, b: Board, pos: int, white: bool, k: Kind): (r: seq<int>)
    requires 0 <= pos < 64
    ensures forall sq :: sq in r ==>
      0 <= sq < 64 && (Enterable(b, white, sq) || (k == Pawn && EnPassantPos(b) == Some(sq)))
  {
    match k
    case King =>
      var r := KingMoves(b, pos, white);
      assert forall sq :: sq in r ==> 0 <= sq < 64 && Enterable(b, white, sq) by {
        forall sq | sq in r
          ensures 0 <= sq < 64 && Enterable(b, white, sq)
        {
          KingMovesSound(b, pos, white, sq);
        }
      }
      r
    case Queen => QueenMoves(b, pos, white)
    case Rook => RookMoves(b, pos, white)
    case Knight => KnightMoves(b, pos, white)
    case Bishop => BishopMoves(b, pos, white)
    case Pawn =>
      var r := PawnMoves(v, b, pos, white);
      assert forall sq :: sq in r ==> Enterable(b, white, sq) || EnPassantPos(b) == Some(sq) by {
        forall sq | sq in r
          ensures Enterable(b, white, sq) || EnPassantPos(b) == Some(sq)
        {
          PawnMovesSpec(v, b, pos, white, sq);
        }
      }
      r
  }

  /** The code of `white`'s king. */
  function KingCode(white: bool): Byte {
    Code(King, white)
  }

  /** `findMoves` keeps `[pos, move]` when, after it, the last king of the mover's colour found is not in check. */
  predicate KingSafeAfter(b: Board, pos: int, move: int, white: bool)
    requires 0 <= pos < 64 && 0 <= move < 64
  {
    var nb := ApplyMove(b, pos, move, DefaultPromotion(b, pos));
    var kings := FindPieces(nb.cells, {KingCode(white)});
    |kings| == 0 || !IsKingInCheck(nb, kings[|kings| - 1], white)
  }

  /** The elements of `s` that `keep` accepts, in their order. */
  function Filter(s: seq<int>, keep: int -> bool): (r: seq<int>)
    ensures |r| <= |s|
    ensures forall x :: x in r <==> x in s && keep(x)
  {
    if |s| == 0 then []
    else
      var rest := Filter(s[1..], keep);
      assert forall x :: x in s <==> x == s[0] || x in s[1..];
      if keep(s[0]) then [s[0]] + rest else rest
  }

  /** Filtering one element keeps it exactly when it passes. */
  lemma FilterSingle(x: int, keep: int -> bool)
    ensures Filter([x], keep) == if keep(x) then [x] else []
  {
    assert [x][1..] == [];
  }

  /** Filtering distributes over concatenation, so the kept elements stay in their order. */
  lemma {:induction false} FilterAppend(s1: seq<int>, s2: seq<int>, keep: int -> bool)
    ensures Filter(s1 + s2, keep) == Filter(s1, keep) + Filter(s2, keep)
    decreases |s1|
  {
    if |s1| == 0 {
      assert s1 + s2 == s2;
    } else {
      var s := s1 + s2;
      assert s[0] == s1[0] && s[1..] == s1[1..] + s2;
      FilterAppend(s1[1..], s2, keep);
    }
  }

  /** The test `findMoves` applies to each generated destination of the piece on `pos`. */
  function LegalAfter(b: Board, pos: int, white: bool): int -> bool
    requires 0 <= pos < 64
  {
    move => 0 <= move < 64 && KingSafeAfter(b, pos, move, white)
  }

  /** `findMoves(board, pos)`: nothing from an empty square, else the piece's moves that pass the check. */
  function FindMoves(v: Variant, b: Board, pos: int): (r: seq<int>)
    requires 0 <= pos < 64
    ensures b.cells[pos] == Empty ==> r == []
    ensures forall sq :: sq in r ==> 0 <= sq < 64
  {
    if b.cells[pos] == Empty then []
    else
      var white := IsWhite(b.cells[pos]);
      Filter(PseudoMovesOf(v, b, pos, white, KindOf(b.cells[pos]).value), LegalAfter(b, pos, white))
  }

  /**
   * Legality: a move is offered exactly when the piece's generator yields it and, after it
   * is played, the mover's king standing last on the board (if there is one) is not attacked.
   */
  lemma FindMovesSpec(v: Variant, b: Board, pos: int, sq: int)
    requires 0 <= pos < 64
    ensures sq in FindMoves(v, b, pos) <==>
      && b.cells[pos] != Empty
      && var white := IsWhite(b.cells[pos]);
      && sq in PseudoMovesOf(v, b, pos, white, KindOf(b.cells[pos]).value)
      && var nb := ApplyMove(b, pos, sq, DefaultPromotion(b, pos));
      && forall kp :: LastHolding(nb.cells, KingCode(white), kp) ==> !Attacked(nb, kp, white)
  {
    if b.cells[pos] != Empty {
      var white := IsWhite(b.cells[pos]);
      var moves := PseudoMovesOf(v, b, pos, white, KindOf(b.cells[pos]).value);
      if sq in moves {
        var nb := ApplyMove(b, pos, sq, DefaultPromotion(b, pos));
        FindPiecesLast(nb.cells, KingCode(white));
        var kings := FindPieces(nb.cells, {KingCode(white)});
        if |kings| > 0 {
          IsKingInCheckSpec(nb, kings[|kings| - 1], white);
        }
      }
    }
  }
}
