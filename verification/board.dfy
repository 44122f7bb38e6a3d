/**
 * The packed board state shared by `src/Chess.ts` and `src/board.ts`: a 66-byte array whose
 * bytes 0..63 are the cells (index 0 is a8, index 63 is h1), byte 64 is the side to move and
 * byte 65 is the flag byte (castling rights in bits 0-3, an en-passant target in bits 4-7).
 */
module BoardState {
  import opened Wrappers

  /** One byte of the board array, read as the character whose code it is. */
  type Byte = c: char | c as int < 256 witness '.'

  const Empty: Byte := '.'
  const WhiteToMove: Byte := 'W'
  const BlackToMove: Byte := 'B'

  datatype Kind = King | Queen | Rook | Knight | Bishop | Pawn

  /** The cell code of a piece: lower case for white, upper case for black. */
  function Code(k: Kind, white: bool): Byte {
    match k
    case King => if white then 'k' else 'K'
    case Queen => if white then 'q' else 'Q'
    case Rook => if white then 'r' else 'R'
    case Knight => if white then 'n' else 'N'
    case Bishop => if white then 'b' else 'B'
    case Pawn => if white then 'p' else 'P'
  }

  /** The colour test of the source: every code from 'a' upwards counts as white. */
  predicate IsWhite(c: Byte) {
    c >= 'a'
  }

  /** Lifts a non-white code by 'a' - 'A' and keeps a white one. */
  function ToWhite(c: Byte): Byte {
    if !IsWhite(c) then (c as int + ('a' as int - 'A' as int)) as char else c
  }

  /** The per-piece dispatch table of `findMoves`, keyed by the white code. */
  function KindOf(c: Byte): Option<Kind> {
    var w := ToWhite(c);
    if w == 'k' then Some(King)
    else if w == 'q' then Some(Queen)
    else if w == 'r' then Some(Rook)
    else if w == 'n' then Some(Knight)
    else if w == 'b' then Some(Bishop)
    else if w == 'p' then Some(Pawn)
    else None
  }

  /** The dispatch table recognises exactly the twelve piece codes, with their colour. */
  lemma CodeKindOf(c: Byte, k: Kind, white: bool)
    ensures KindOf(Code(k, white)) == Some(k)
    ensures IsWhite(Code(k, white)) == white
    ensures KindOf(c) == Some(k) ==> c == Code(k, IsWhite(c))
    ensures ToWhite(Code(k, white)) == Code(k, true)
  {
  }

  predicate IsPiece(c: Byte) {
    KindOf(c).Some?
  }

  /** A cell the move generator can dispatch on: empty or a piece. */
  predicate IsCell(c: Byte) {
    c == Empty || IsPiece(c)
  }

  datatype RawBoard = RawBoard(cells: seq<Byte>, side: Byte, flags: bv8)

  /**
   * A board the engine functions are modelled on: every cell is '.' or a piece letter.
   * Keeping other codes out is a choice of this model. `fromString` stores any character
   * code modulo 256 and the promotion callback may return any number, and the source throws
   * only in `findMoves`, when the origin square holds a code with no generator.
   */
  predicate ValidBoard(b: RawBoard) {
    |b.cells| == 64 && forall i :: 0 <= i < 64 ==> IsCell(b.cells[i])
  }

  type Board = b: RawBoard | ValidBoard(b) witness RawBoard(seq(64, _ => Empty), WhiteToMove, 0x0F)

  /** `board[64] === codes.sides.white` */
  predicate WhiteMoves(b: RawBoard) {
    b.side == WhiteToMove
  }

  // Flag byte layout.

  /** Bits 0-1 are white's rights, bits 2-3 black's. */
  function CastleMask(white: bool): bv8 {
    if white then 0x03 else 0x0C
  }

  /** The right to castle towards column 0 (queen side). */
  function CastleMask0(white: bool): bv8 {
    if white then 0x01 else 0x04
  }

  /** The right to castle towards column 7 (king side). */
  function CastleMask7(white: bool): bv8 {
    if white then 0x02 else 0x08
  }

  const AllCastleRights: bv8 := 0x0F
  const EnPassantFlag: bv8 := 0x10
  const EnPassantAll: bv8 := 0xF0

  predicate HasCastleRight(flags: bv8, white: bool, col7: bool) {
    flags & (if col7 then CastleMask7(white) else CastleMask0(white)) != 0
  }

  /** The en-passant column held in bits 5-7, when bit 4 says there is one. */
  function EnPassantCol(flags: bv8): (r: Option<int>)
    ensures r.Some? <==> flags & EnPassantFlag != 0
    ensures r.Some? ==> 0 <= r.value < 8
  {
    if flags & EnPassantFlag == 0 then None else Some((flags >> 5) as int)
  }

  /**
   * Records an en-passant target in column `col` and keeps the castling rights. The
   * source shifts a JavaScript number and stores it in a byte, which keeps `col` modulo 8.
   */
  function SetEnPassantCol(flags: bv8, col: int): (r: bv8)
    ensures EnPassantCol(r) == Some(col % 8)
    ensures r & AllCastleRights == flags & AllCastleRights
  {
    (flags & !EnPassantAll) | EnPassantFlag | (((col % 8) as bv8) << 5)
  }

  /**
   * The square a pawn may capture onto en passant: row 2 when white is to move (behind a
   * black pawn that stepped two squares), row 5 otherwise.
   */
  function EnPassantPos(b: RawBoard): (r: Option<int>)
    ensures r.Some? <==> b.flags & EnPassantFlag != 0
    ensures r.Some? && WhiteMoves(b) ==> 16 <= r.value < 24
    ensures r.Some? && !WhiteMoves(b) ==> 40 <= r.value < 48
  {
    match EnPassantCol(b.flags)
    case None => None
    case Some(col) => Some(8 * (if WhiteMoves(b) then 2 else 5) + col)
  }

  // Board geometry.

  /** `Math.floor(pos / 8)`; Dafny's division agrees with the floor for the divisor 8. */
  function Row(pos: int): int {
    pos / 8
  }

  function Col(pos: int): int {
    pos % 8
  }

  /** The index of column 0 of the row of `pos`. */
  function RowStart(pos: int): (r: int)
    requires 0 <= pos < 64
    ensures 0 <= r <= 56 && r <= pos < r + 8 && r % 8 == 0
  {
    8 * Row(pos)
  }

  /** A step by `di` rows and `dj` columns stays on the board without wrapping a row. */
  predicate IsMoveOnBoard(pos: int, di: int, dj: int) {
    Row(pos) == Row(pos + dj) && 0 <= pos + 8 * di < 64
  }

  /** The test `isMoveOnBoard` is the same as both coordinates of the target staying in 0..7. */
  lemma MoveGeometry(pos: int, di: int, dj: int)
    requires 0 <= pos < 64
    ensures IsMoveOnBoard(pos, di, dj) <==> 0 <= Row(pos) + di < 8 && 0 <= Col(pos) + dj < 8
    ensures IsMoveOnBoard(pos, di, dj) ==>
      0 <= pos + 8 * di + dj < 64 &&
      Row(pos + 8 * di + dj) == Row(pos) + di && Col(pos + 8 * di + dj) == Col(pos) + dj
  {
    var r, c := Row(pos), Col(pos);
    assert pos == 8 * r + c;
    if 0 <= c + dj < 8 {
      assert Row(pos + dj) == r;
    } else if c + dj < 0 {
      assert Row(pos + dj) < r;
    } else {
      assert Row(pos + dj) > r;
    }
    if IsMoveOnBoard(pos, di, dj) {
      var t := pos + 8 * di + dj;
      assert t == 8 * (r + di) + (c + dj);
    }
  }

  /** Square indices whose cell holds one of `codes`, in increasing order. */
  function FindPieces(cells: seq<Byte>, codes: set<Byte>): (r: seq<int>)
    requires |cells| == 64
    ensures forall k :: 0 <= k < |r| ==> 0 <= r[k] < 64 && cells[r[k]] in codes
    ensures forall i :: 0 <= i < 64 && cells[i] in codes ==> i in r
    ensures forall k, l :: 0 <= k < l < |r| ==> r[k] < r[l]
  {
    FindPiecesFrom(cells, codes, 0)
  }

  function FindPiecesFrom(cells: seq<Byte>, codes: set<Byte>, i: nat): (r: seq<int>)
    requires |cells| == 64 && i <= 64
    ensures forall k :: 0 <= k < |r| ==> i <= r[k] < 64 && cells[r[k]] in codes
    ensures forall j :: i <= j < 64 && cells[j] in codes ==> j in r
    ensures forall k, l :: 0 <= k < l < |r| ==> r[k] < r[l]
    decreases 64 - i
  {
    if i == 64 then []
    else if cells[i] in codes then [i] + FindPiecesFrom(cells, codes, i + 1)
    else FindPiecesFrom(cells, codes, i + 1)
  }

  /** The last square (highest index) of the board holding `c`. */
  ghost predicate LastHolding(cells: seq<Byte>, c: Byte, sq: int)
    requires |cells| == 64
  {
    0 <= sq < 64 && cells[sq] == c && forall j :: sq < j < 64 ==> cells[j] != c
  }

  /** The last element of `FindPieces` is the last square holding the code. */
  lemma FindPiecesLast(cells: seq<Byte>, c: Byte)
    requires |cells| == 64
    ensures var r := FindPieces(cells, {c});
      && (|r| == 0 <==> forall j :: 0 <= j < 64 ==> cells[j] != c)
      && (|r| > 0 ==> LastHolding(cells, c, r[|r| - 1]))
      && (forall sq :: LastHolding(cells, c, sq) ==> |r| > 0 && sq == r[|r| - 1])
  {
    var r := FindPieces(cells, {c});
    if |r| > 0 {
      var last := r[|r| - 1];
      forall j | last < j < 64
        ensures cells[j] != c
      {
        forall k | 0 <= k < |r|
          ensures r[k] <= last
        {
          assert k < |r| - 1 ==> r[k] < r[|r| - 1];
        }
      }
    }
    forall sq | LastHolding(cells, c, sq)
      ensures |r| > 0 && sq == r[|r| - 1]
    {
      assert sq in r;
      var last := r[|r| - 1];
      assert cells[last] == c;
    }
  }

  /** The first square (lowest index) of the board holding `c`. */
  ghost predicate FirstHolding(cells: seq<Byte>, c: Byte, sq: int)
    requires |cells| == 64
  {
    0 <= sq < 64 && cells[sq] == c && forall j :: 0 <= j < sq ==> cells[j] != c
  }

  /** The first element of `FindPieces` is the first square holding the code. */
  lemma FindPiecesFirst(cells: seq<Byte>, c: Byte)
    requires |cells| == 64
    ensures var r := FindPieces(cells, {c});
      && (|r| == 0 <==> forall j :: 0 <= j < 64 ==> cells[j] != c)
      && (|r| > 0 ==> FirstHolding(cells, c, r[0]))
      && (forall sq :: FirstHolding(cells, c, sq) ==> |r| > 0 && sq == r[0])
  {
    var r := FindPieces(cells, {c});
    if |r| > 0 {
      forall j | 0 <= j < r[0]
        ensures cells[j] != c
      {
        forall k | 0 <= k < |r|
          ensures r[k] >= r[0]
        {
          assert 0 < k ==> r[0] < r[k];
        }
      }
    }
    forall sq | FirstHolding(cells, c, sq)
      ensures |r| > 0 && sq == r[0]
    {
      assert sq in r;
      assert cells[r[0]] == c;
    }
  }
}
