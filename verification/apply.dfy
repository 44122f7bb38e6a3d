/**
 * `applyMove` (`src/Chess.ts`, identical in `src/board.ts`): plays `[from, to]` on a copy of
 * the board, handling en passant, promotion, castling and the castling-rights bookkeeping.
 */
module Apply {
  import opened Wrappers
  import opened BoardState

  function Abs(x: int): nat {
    if x < 0 then -x else x
  }

  /** The piece on `from`, read as white the way the source dispatches on it. */
  predicate MovesKind(b: Board, from: int, k: Kind)
    requires 0 <= from < 64
  {
    ToWhite(b.cells[from]) == Code(k, true)
  }

  /** The default `promotionPreference`: a queen of the moving piece's colour. */
  function DefaultPromotion(b: Board, from: int): (r: Byte)
    requires 0 <= from < 64
    ensures KindOf(r) == Some(Queen) && IsWhite(r) == IsWhite(b.cells[from])
  {
    var q := Code(Queen, IsWhite(b.cells[from]));
    CodeKindOf(q, Queen, IsWhite(b.cells[from]));
    q
  }

  /** The square of the pawn an en-passant capture removes: the mover's row, the target's column. */
  function EnPassantVictim(from: int, to: int): int {
    8 * Row(from) + Col(to)
  }

  /** A pawn moving diagonally (seven or nine indices) onto an empty square captures en passant. */
  predicate EnPassantCapture(b: Board, from: int, to: int)
    requires 0 <= from < 64 && 0 <= to < 64
  {
    MovesKind(b, from, Pawn) && (Abs(from - to) == 7 || Abs(from - to) == 9) && b.cells[to] == Empty
  }

  /** Any other pawn move except the double step that lands on row 0 or 7 promotes. */
  predicate Promotes(b: Board, from: int, to: int)
    requires 0 <= from < 64 && 0 <= to < 64
  {
    && MovesKind(b, from, Pawn) && Abs(from - to) != 16 && !EnPassantCapture(b, from, to)
    && (Row(to) == 0 || Row(to) == 7)
  }

  /** A king moving two indices castles. */
  predicate Castles(b: Board, from: int, to: int)
    requires 0 <= from < 64
  {
    MovesKind(b, from, King) && Abs(from - to) == 2
  }

  /** The squares `applyMove` may write besides `from` and `to`. */
  predicate Touched(b: Board, from: int, to: int, i: int)
    requires 0 <= from < 64 && 0 <= to < 64
  {
    || i == from || i == to
    || (EnPassantCapture(b, from, to) && i == EnPassantVictim(from, to))
    || (Castles(b, from, to) && (i == RookFrom(b, to) || i == (from + to) / 2))
  }

  /** The piece moves and the pawn rules apply: double step, en-passant capture or promotion. */
  function MovePiece(b: Board, from: int, to: int, promo: Byte): (r: seq<Byte>)
    requires 0 <= from < 64 && 0 <= to < 64 && IsCell(promo)
    ensures |r| == 64 && forall i :: 0 <= i < 64 ==> IsCell(r[i])
    ensures from != to ==> r[from] == Empty
    ensures Promotes(b, from, to) ==> r[to] == promo
    ensures !Promotes(b, from, to) && !(EnPassantCapture(b, from, to) && EnPassantVictim(from, to) == to) ==>
      r[to] == b.cells[from]
    ensures EnPassantCapture(b, from, to) ==> r[EnPassantVictim(from, to)] == Empty
    ensures forall i ::
      (0 <= i < 64 && i != from && i != to && !(EnPassantCapture(b, from, to) && i == EnPassantVictim(from, to)))
      ==> r[i] == b.cells[i]
  {
    var moved := b.cells[from := Empty][to := b.cells[from]];
    if MovesKind(b, from, Pawn) then
      var dist := Abs(from - to);
      if dist == 16 then moved
      else if (dist == 7 || dist == 9) && b.cells[to] == Empty then
        assert Col(to) != Col(from);
        moved[EnPassantVictim(from, to) := Empty]
      else if Row(to) == 0 || Row(to) == 7 then moved[to := promo]
      else moved
    else moved
  }

  /** The row the side to move castles on: 7 for white, 0 for black. */
  function HomeRow(b: Board): int {
    if WhiteMoves(b) then 7 else 0
  }

  /** The corner a castling king's rook comes from. */
  function RookFrom(b: Board, to: int): int {
    8 * HomeRow(b) + (if Col(to) == 2 then 0 else 7)
  }

  /** A king move of two squares also moves the corner rook to the square the king passed. */
  function MoveRook(b: Board, cells: seq<Byte>, from: int, to: int): (r: seq<Byte>)
    requires 0 <= from < 64 && 0 <= to < 64
    requires |cells| == 64 && forall i :: 0 <= i < 64 ==> IsCell(cells[i])
    ensures |r| == 64 && forall i :: 0 <= i < 64 ==> IsCell(r[i])
    ensures Castles(b, from, to) ==> r[(from + to) / 2] == b.cells[RookFrom(b, to)]
    ensures Castles(b, from, to) && RookFrom(b, to) != (from + to) / 2 ==> r[RookFrom(b, to)] == Empty
    ensures forall i :: 0 <= i < 64 && !(Castles(b, from, to) && (i == RookFrom(b, to) || i == (from + to) / 2)) ==>
      r[i] == cells[i]
  {
    if Castles(b, from, to) then
      var rookFrom := RookFrom(b, to);
      cells[rookFrom := Empty][(from + to) / 2 := b.cells[rookFrom]]
    else cells
  }

  /** En passant is cleared, then set again by a pawn moving sixteen indices. */
  function NewEnPassant(b: Board, from: int, to: int, flags: bv8): bv8
    requires 0 <= from < 64
  {
    var cleared := flags & !EnPassantAll;
    if MovesKind(b, from, Pawn) && Abs(from - to) == 16 then SetEnPassantCol(cleared, from % 8)
    else cleared
  }

  /**
   * The castling rights a move gives up: both of the side to move's for a king move, the
   * matching one for a rook leaving column 0 or 7 of the side to move's home row, else none.
   * A piece is never both, so the source's two masking steps clear this one mask.
   */
  function RightsLost(b: Board, from: int): bv8
    requires 0 <= from < 64
  {
    var white := WhiteMoves(b);
    if MovesKind(b, from, King) then CastleMask(white)
    else if MovesKind(b, from, Rook) && Row(from) == HomeRow(b) then
      if Col(from) == 0 then CastleMask0(white)
      else if Col(from) == 7 then CastleMask7(white)
      else 0
    else 0
  }

  /** The castling rights after the move: the lost ones are cleared. */
  function NewCastling(b: Board, from: int, flags: bv8): bv8
    requires 0 <= from < 64
  {
    flags & !RightsLost(b, from)
  }

  /**
   * `applyMove(board, [from, to], () => promo)`. `promo` stands for the promotion callback's
   * value and is kept to the board's cell codes. What the move does to the cells and to the
   * flags is stated by `ApplyMoveCells` and `ApplyMoveFlags`.
   */
  function ApplyMove(b: Board, from: int, to: int, promo: Byte): (r: Board)
    requires 0 <= from < 64 && 0 <= to < 64 && IsCell(promo)
    // The side to move flips.
    ensures WhiteMoves(r) <==> !WhiteMoves(b)
    ensures r.side == WhiteToMove || r.side == BlackToMove
  {
    var cells := MoveRook(b, MovePiece(b, from, to, promo), from, to);
    var side := if b.side == WhiteToMove then BlackToMove else WhiteToMove;
    var flags := NewCastling(b, from, NewEnPassant(b, from, to, b.flags));
    RawBoard(cells, side, flags)
  }

  /** The cells after `applyMove`. */
  lemma ApplyMoveCells(b: Board, from: int, to: int, promo: Byte, r: Board)
    requires 0 <= from < 64 && 0 <= to < 64 && IsCell(promo)
    requires r == ApplyMove(b, from, to, promo)
    // The moved piece leaves its origin and lands on its target, promoted where due.
    ensures from != to ==> r.cells[from] == Empty
    ensures Promotes(b, from, to) ==> r.cells[to] == promo
    ensures (&& !Promotes(b, from, to)
             && !(EnPassantCapture(b, from, to) && EnPassantVictim(from, to) == to)
             && !(Castles(b, from, to) && RookFrom(b, to) == to)) ==>
      r.cells[to] == b.cells[from]
    // An en-passant capture removes the pawn beside the origin.
    ensures EnPassantCapture(b, from, to) ==> r.cells[EnPassantVictim(from, to)] == Empty
    // Castling moves the corner rook of the side to move's home row next to the king.
    ensures Castles(b, from, to) ==> r.cells[(from + to) / 2] == b.cells[RookFrom(b, to)]
    ensures Castles(b, from, to) && RookFrom(b, to) != (from + to) / 2 ==> r.cells[RookFrom(b, to)] == Empty
    // No other square changes.
    ensures forall i :: 0 <= i < 64 && !Touched(b, from, to, i) ==> r.cells[i] == b.cells[i]
  {
    var moved := MovePiece(b, from, to, promo);
    assert r.cells == MoveRook(b, moved, from, to);
  }

  /** The flag byte after `applyMove`. */
  lemma ApplyMoveFlags(b: Board, from: int, to: int, promo: Byte, r: Board)
    requires 0 <= from < 64 && 0 <= to < 64 && IsCell(promo)
    requires r == ApplyMove(b, from, to, promo)
    // En passant is offered exactly after a pawn's sixteen-index move, in the origin's column.
    ensures EnPassantCol(r.flags) ==
      if MovesKind(b, from, Pawn) && Abs(from - to) == 16 then Some(Col(from)) else None
    // Without a double step the flag byte holds castling bits only.
    ensures !(MovesKind(b, from, Pawn) && Abs(from - to) == 16) ==> r.flags == r.flags & AllCastleRights
    // Castling rights only shrink.
    ensures r.flags & AllCastleRights & !b.flags == 0
    // A king move gives up exactly both of the side to move's rights.
    ensures MovesKind(b, from, King) ==>
      r.flags & AllCastleRights == b.flags & AllCastleRights & !CastleMask(WhiteMoves(b))
    // A rook leaving column 0 or 7 of the home row gives up exactly that right.
    ensures MovesKind(b, from, Rook) && Row(from) == HomeRow(b) && Col(from) == 0 ==>
      r.flags & AllCastleRights == b.flags & AllCastleRights & !CastleMask0(WhiteMoves(b))
    ensures MovesKind(b, from, Rook) && Row(from) == HomeRow(b) && Col(from) == 7 ==>
      r.flags & AllCastleRights == b.flags & AllCastleRights & !CastleMask7(WhiteMoves(b))
    // Any other move keeps every right.
    ensures !MovesKind(b, from, King) &&
            !(MovesKind(b, from, Rook) && Row(from) == HomeRow(b) && (Col(from) == 0 || Col(from) == 7)) ==>
      r.flags & AllCastleRights == b.flags & AllCastleRights
  {
    NewFlagsSpec(b, from, to);
  }

  /** Clearing the en-passant bits keeps the castling rights and leaves no target. */
  lemma ClearEnPassant(flags: bv8)
    ensures EnPassantCol(flags & !EnPassantAll) == None
    ensures flags & !EnPassantAll & AllCastleRights == flags & AllCastleRights
    // What is left is exactly the castling bits.
    ensures flags & !EnPassantAll == flags & AllCastleRights
  {
  }

  /** The en-passant step leaves the castling rights alone. */
  lemma NewEnPassantSpec(b: Board, from: int, to: int, flags: bv8)
    requires 0 <= from < 64
    ensures EnPassantCol(NewEnPassant(b, from, to, flags)) ==
      (if MovesKind(b, from, Pawn) && Abs(from - to) == 16 then Some(Col(from)) else None)
    ensures NewEnPassant(b, from, to, flags) & AllCastleRights == flags & AllCastleRights
    // Without a double step no en-passant bit is left at all.
    ensures !(MovesKind(b, from, Pawn) && Abs(from - to) == 16) ==>
      NewEnPassant(b, from, to, flags) == flags & AllCastleRights
  {
    ClearEnPassant(flags);
  }

  /** Clearing castling bits leaves the en-passant bits alone and only clears rights. */
  lemma ClearCastling(flags: bv8, mask: bv8)
    requires mask & EnPassantAll == 0
    ensures EnPassantCol(flags & !mask) == EnPassantCol(flags)
    ensures (flags & !mask) & AllCastleRights == flags & AllCastleRights & !mask
    ensures (flags & !mask) & mask == 0
    ensures (flags & !mask) & AllCastleRights & !flags == 0
  {
    assert (flags & !mask) & EnPassantFlag == flags & EnPassantFlag;
    assert (flags & !mask) >> 5 == flags >> 5;
  }

  /** The lost rights are castling bits only. */
  lemma RightsLostAreCastling(b: Board, from: int)
    requires 0 <= from < 64
    ensures RightsLost(b, from) & EnPassantAll == 0
  {
  }

  /** The castling step leaves the en-passant bits alone and only clears rights. */
  lemma NewCastlingSpec(b: Board, from: int, flags: bv8)
    requires 0 <= from < 64
    ensures var f := NewCastling(b, from, flags);
      && EnPassantCol(f) == EnPassantCol(flags)
      && f & AllCastleRights & !flags == 0
      && (MovesKind(b, from, King) ==>
            f & AllCastleRights == flags & AllCastleRights & !CastleMask(WhiteMoves(b)))
      && (MovesKind(b, from, Rook) && Row(from) == HomeRow(b) && Col(from) == 0 ==>
            f & AllCastleRights == flags & AllCastleRights & !CastleMask0(WhiteMoves(b)))
      && (MovesKind(b, from, Rook) && Row(from) == HomeRow(b) && Col(from) == 7 ==>
            f & AllCastleRights == flags & AllCastleRights & !CastleMask7(WhiteMoves(b)))
      && (!MovesKind(b, from, King) &&
          !(MovesKind(b, from, Rook) && Row(from) == HomeRow(b) && (Col(from) == 0 || Col(from) == 7)) ==>
            f & AllCastleRights == flags & AllCastleRights)
  {
    RightsLostAreCastling(b, from);
    ClearCastling(flags, RightsLost(b, from));
    if MovesKind(b, from, King) {
      assert !MovesKind(b, from, Rook);
    }
  }

  /** The flag bookkeeping of `applyMove`, bit by bit. */
  lemma NewFlagsSpec(b: Board, from: int, to: int)
    requires 0 <= from < 64
    ensures var f := NewCastling(b, from, NewEnPassant(b, from, to, b.flags));
      && EnPassantCol(f) == (if MovesKind(b, from, Pawn) && Abs(from - to) == 16 then Some(Col(from)) else None)
      && f & AllCastleRights & !b.flags == 0
      && (MovesKind(b, from, King) ==>
            f & AllCastleRights == b.flags & AllCastleRights & !CastleMask(WhiteMoves(b)))
      && (MovesKind(b, from, Rook) && Row(from) == HomeRow(b) && Col(from) == 0 ==>
            f & AllCastleRights == b.flags & AllCastleRights & !CastleMask0(WhiteMoves(b)))
      && (MovesKind(b, from, Rook) && Row(from) == HomeRow(b) && Col(from) == 7 ==>
            f & AllCastleRights == b.flags & AllCastleRights & !CastleMask7(WhiteMoves(b)))
      && (!MovesKind(b, from, King) &&
          !(MovesKind(b, from, Rook) && Row(from) == HomeRow(b) && (Col(from) == 0 || Col(from) == 7)) ==>
            f & AllCastleRights == b.flags & AllCastleRights)
      && (!(MovesKind(b, from, Pawn) && Abs(from - to) == 16) ==> f == f & AllCastleRights)
  {
    var e := NewEnPassant(b, from, to, b.flags);
    NewEnPassantSpec(b, from, to, b.flags);
    NewCastlingSpec(b, from, e);
    CastleBitsOnly(e, b.flags, NewCastling(b, from, e));
  }

  /** Only the castling bits matter for a comparison of rights. */
  lemma CastleBitsOnly(e: bv8, flags: bv8, f: bv8)
    requires e & AllCastleRights == flags & AllCastleRights
    requires f & AllCastleRights & !e == 0
    ensures f & AllCastleRights & !flags == 0
  {
  }
}
