/**
 * The per-piece generators of pseudo-legal destinations (`travelMoves`, `rookMoves`,
 * `bishopMoves`, `queenMoves`, `knightMoves`, `pawnMoves`, `plainKingMoves`). Each one
 * returns its destinations in the order the source's generator yields them.
 */
module PseudoMoves {
  import opened Wrappers
  import opened BoardState

  /**
   * The two copies of the engine: `Engine` is `src/Chess.ts`, `Legacy` is `src/board.ts`.
   * They differ only in whether a pawn's two-square step checks the square it passes.
   */
  datatype Variant = Engine | Legacy

  /** A step of `di` rows and `dj` columns. */
  datatype Dir = Dir(di: int, dj: int)

  predicate Unit(d: Dir) {
    -1 <= d.di <= 1 && -1 <= d.dj <= 1
  }

  const RookDirs: seq<Dir> := [Dir(0, 1), Dir(0, -1), Dir(1, 0), Dir(-1, 0)]
  const BishopDirs: seq<Dir> := [Dir(-1, -1), Dir(-1, 1), Dir(1, -1), Dir(1, 1)]

  /** The order the source builds them in: (2, 1) then (1, 2), each with flipI then flipJ. */
  const KnightJumps: seq<Dir> :=
    [Dir(2, 1), Dir(2, -1), Dir(-2, 1), Dir(-2, -1), Dir(1, 2), Dir(1, -2), Dir(-1, 2), Dir(-1, -2)]

  /** di over [-1, 0, 1], then dj over [-1, 0, 1], skipping (0, 0). */
  const KingSteps: seq<Dir> :=
    [Dir(-1, -1), Dir(-1, 0), Dir(-1, 1), Dir(0, -1), Dir(0, 1), Dir(1, -1), Dir(1, 0), Dir(1, 1)]

  /** `pos + 8 * di + dj` */
  function Target(pos: int, d: Dir): int {
    pos + 8 * d.di + d.dj
  }

  /**
   * `u * n` for a unit factor `u` in -1..1 (every ray direction is made of unit factors),
   * written without a product so that the arithmetic on rays stays linear.
   */
  function Scale(u: int, n: int): (r: int)
    requires -1 <= u <= 1
    ensures r == u * n
  {
    if u == 0 then 0 else if u == 1 then n else -n
  }

  /** The square `dist` steps from `pos` along `d`: `pos + 8 * distI + distJ`. */
  function Step(pos: int, d: Dir, dist: int): int
    requires Unit(d)
  {
    pos + 8 * Scale(d.di, dist) + Scale(d.dj, dist)
  }

  /** `isMoveOnBoard(pos, [distI, distJ])` */
  predicate OnBoardAt(pos: int, d: Dir, dist: int)
    requires Unit(d)
  {
    IsMoveOnBoard(pos, Scale(d.di, dist), Scale(d.dj, dist))
  }

  /** A square the player may move onto: empty or holding an opponent's piece. */
  predicate Enterable(b: Board, white: bool, sq: int)
    requires 0 <= sq < 64
  {
    b.cells[sq] == Empty || IsWhite(b.cells[sq]) != white
  }

  /** A square occupied by one of the player's own pieces. */
  predicate Friendly(b: Board, white: bool, sq: int)
    requires 0 <= sq < 64
  {
    b.cells[sq] != Empty && IsWhite(b.cells[sq]) == white
  }

  /** Along a ray the board test is the coordinate test, and a ray leaves the board by step 8. */
  lemma RayGeometry(pos: int, d: Dir, dist: int)
    requires 0 <= pos < 64 && Unit(d) && d != Dir(0, 0) && dist >= 1
    ensures OnBoardAt(pos, d, dist) <==>
      0 <= Row(pos) + Scale(d.di, dist) < 8 && 0 <= Col(pos) + Scale(d.dj, dist) < 8
    ensures OnBoardAt(pos, d, dist) ==>
      dist < 8 && 0 <= Step(pos, d, dist) < 64 &&
      Row(Step(pos, d, dist)) == Row(pos) + Scale(d.di, dist) &&
      Col(Step(pos, d, dist)) == Col(pos) + Scale(d.dj, dist)
  {
    MoveGeometry(pos, Scale(d.di, dist), Scale(d.dj, dist));
  }

  /** Every square before an on-board square of a ray is on the board too. */
  lemma RayPrefix(pos: int, d: Dir, dist: int, k: int)
    requires 0 <= pos < 64 && Unit(d) && d != Dir(0, 0) && 1 <= k <= dist
    requires OnBoardAt(pos, d, dist)
    ensures OnBoardAt(pos, d, k)
  {
    RayGeometry(pos, d, dist);
    RayGeometry(pos, d, k);
  }

  /** The squares strictly between step `from` (inclusive) and step `to` (exclusive) are empty. */
  ghost predicate ClearFrom(b: Board, pos: int, d: Dir, from: int, to: int)
    requires Unit(d)
  {
    forall k :: from <= k < to ==> 0 <= Step(pos, d, k) < 64 && b.cells[Step(pos, d, k)] == Empty
  }

  /**
   * `sq` is step `n >= from` of the ray from `pos` along `d`, every square of the ray before
   * it (from step `from` on) is empty, and `sq` itself is empty or the opponent's.
   */
  ghost predicate RayStep(b: Board, pos: int, d: Dir, white: bool, sq: int, from: int, n: int)
    requires Unit(d)
  {
    from <= n && OnBoardAt(pos, d, n) && sq == Step(pos, d, n) && 0 <= sq < 64 &&
    ClearFrom(b, pos, d, from, n) && Enterable(b, white, sq)
  }

  /** `sq` is reached by the ray from `pos` along `d`, walked from step `from`. */
  ghost predicate OnRayFrom(b: Board, pos: int, d: Dir, white: bool, sq: int, from: int)
    requires Unit(d)
  {
    exists n :: RayStep(b, pos, d, white, sq, from, n)
  }

  /**
   * `travelMoves` from step `dist` on: the squares along `d` up to and including the first
   * occupied one, which is kept only if it holds an opponent's piece.
   */
  function Travel(b: Board, pos: int, d: Dir, white: bool, dist: int): seq<int>
    requires 0 <= pos < 64 && Unit(d) && d != Dir(0, 0) && 1 <= dist <= 8
    decreases 8 - dist
  {
    if !OnBoardAt(pos, d, dist) then []
    else
      RayGeometry(pos, d, dist);
      var sq := Step(pos, d, dist);
      if b.cells[sq] == Empty then [sq] + Travel(b, pos, d, white, dist + 1)
      else if IsWhite(b.cells[sq]) != white then [sq]
      else []
  }

  /** Every square a ray walk yields lies on the ray past empty squares and is enterable. */
  lemma {:induction false} TravelSound(b: Board, pos: int, d: Dir, white: bool, dist: int, sq: int)
    requires 0 <= pos < 64 && Unit(d) && d != Dir(0, 0) && 1 <= dist <= 8
    requires sq in Travel(b, pos, d, white, dist)
    ensures OnRayFrom(b, pos, d, white, sq, dist)
    decreases 8 - dist
  {
    RayGeometry(pos, d, dist);
    var first := Step(pos, d, dist);
    if sq == first {
      assert RayStep(b, pos, d, white, sq, dist, dist);
    } else {
      assert b.cells[first] == Empty && sq in Travel(b, pos, d, white, dist + 1);
      TravelSound(b, pos, d, white, dist + 1, sq);
      var n :| RayStep(b, pos, d, white, sq, dist + 1, n);
      ClearExtend(b, pos, d, dist, n);
      assert RayStep(b, pos, d, white, sq, dist, n);
    }
  }

  /** An empty square at step `from` extends a clear stretch starting one step later. */
  lemma ClearExtend(b: Board, pos: int, d: Dir, from: int, to: int)
    requires Unit(d) && from < to
    requires 0 <= Step(pos, d, from) < 64 && b.cells[Step(pos, d, from)] == Empty
    requires ClearFrom(b, pos, d, from + 1, to)
    ensures ClearFrom(b, pos, d, from, to)
  {
  }

  /** Every square on the ray past empty squares, if enterable, is yielded by the walk. */
  lemma {:induction false} TravelComplete(b: Board, pos: int, d: Dir, white: bool, dist: int, sq: int)
    requires 0 <= pos < 64 && Unit(d) && d != Dir(0, 0) && 1 <= dist <= 8
    requires OnRayFrom(b, pos, d, white, sq, dist)
    ensures sq in Travel(b, pos, d, white, dist)
    decreases 8 - dist
  {
    var n :| RayStep(b, pos, d, white, sq, dist, n);
    RayPrefix(pos, d, n, dist);
    RayGeometry(pos, d, dist);
    var first := Step(pos, d, dist);
    if n == dist {
      assert sq == first;
    } else {
      assert b.cells[first] == Empty;
      assert RayStep(b, pos, d, white, sq, dist + 1, n);
      TravelComplete(b, pos, d, white, dist + 1, sq);
    }
  }

  /** Membership in a ray: exactly the squares `OnRayFrom` describes. */
  lemma TravelMembers(b: Board, pos: int, d: Dir, white: bool, dist: int, sq: int)
    requires 0 <= pos < 64 && Unit(d) && d != Dir(0, 0) && 1 <= dist <= 8
    ensures sq in Travel(b, pos, d, white, dist) <==> OnRayFrom(b, pos, d, white, sq, dist)
  {
    if sq in Travel(b, pos, d, white, dist) {
      TravelSound(b, pos, d, white, dist, sq);
    }
    if OnRayFrom(b, pos, d, white, sq, dist) {
      TravelComplete(b, pos, d, white, dist, sq);
    }
  }

  /** `travelMoves`: a zero direction yields nothing, any other walks its ray from step 1. */
  function TravelMoves(b: Board, pos: int, d: Dir, white: bool): (r: seq<int>)
    requires 0 <= pos < 64 && Unit(d)
    ensures forall sq :: sq in r <==> d != Dir(0, 0) && OnRayFrom(b, pos, d, white, sq, 1)
  {
    if d == Dir(0, 0) then []
    else
      var r := Travel(b, pos, d, white, 1);
      assert forall sq :: sq in r <==> OnRayFrom(b, pos, d, white, sq, 1) by {
        forall sq
          ensures sq in r <==> OnRayFrom(b, pos, d, white, sq, 1)
        {
          TravelMembers(b, pos, d, white, 1, sq);
        }
      }
      r
  }

  predicate AllUnit(dirs: seq<Dir>) {
    forall i :: 0 <= i < |dirs| ==> Unit(dirs[i])
  }

  /** The rays of `dirs` walked one after the other. */
  function Slide(b: Board, pos: int, dirs: seq<Dir>, white: bool): (r: seq<int>)
    requires 0 <= pos < 64 && AllUnit(dirs)
    ensures forall sq :: sq in r ==> 0 <= sq < 64 && Enterable(b, white, sq)
    ensures forall sq :: sq in r <==>
      exists i :: 0 <= i < |dirs| && dirs[i] != Dir(0, 0) && OnRayFrom(b, pos, dirs[i], white, sq, 1)
  {
    if |dirs| == 0 then []
    else
      var r := TravelMoves(b, pos, dirs[0], white) + Slide(b, pos, dirs[1..], white);
      assert forall sq :: sq in r <==>
        exists i :: 0 <= i < |dirs| && dirs[i] != Dir(0, 0) && OnRayFrom(b, pos, dirs[i], white, sq, 1) by {
        forall sq
          ensures sq in r <==>
            exists i :: 0 <= i < |dirs| && dirs[i] != Dir(0, 0) && OnRayFrom(b, pos, dirs[i], white, sq, 1)
        {
          if exists i :: 0 <= i < |dirs| && dirs[i] != Dir(0, 0) && OnRayFrom(b, pos, dirs[i], white, sq, 1) {
            var i :| 0 <= i < |dirs| && dirs[i] != Dir(0, 0) && OnRayFrom(b, pos, dirs[i], white, sq, 1);
            if i > 0 {
              assert dirs[1..][i - 1] == dirs[i];
            }
          }
          if sq in Slide(b, pos, dirs[1..], white) {
            var i :| 0 <= i < |dirs[1..]| && dirs[1..][i] != Dir(0, 0) &&
              OnRayFrom(b, pos, dirs[1..][i], white, sq, 1);
            assert dirs[i + 1] == dirs[1..][i];
          }
        }
      }
      r
  }

  /** Every square a ray reaches is on the board and empty or the opponent's. */
  lemma RayTargets(b: Board, pos: int, d: Dir, white: bool, sq: int)
    requires Unit(d) && OnRayFrom(b, pos, d, white, sq, 1)
    ensures 0 <= sq < 64 && Enterable(b, white, sq)
  {
  }

  function RookMoves(b: Board, pos: int, white: bool): seq<int>
    requires 0 <= pos < 64
  {
    Slide(b, pos, RookDirs, white)
  }

  function BishopMoves(b: Board, pos: int, white: bool): seq<int>
    requires 0 <= pos < 64
  {
    Slide(b, pos, BishopDirs, white)
  }

  /** The rook's rays first, then the bishop's. */
  function QueenMoves(b: Board, pos: int, white: bool): seq<int>
    requires 0 <= pos < 64
  {
    RookMoves(b, pos, white) + BishopMoves(b, pos, white)
  }

  /** The single steps of `ds` that stay on the board and land on an enterable square. */
  function Jumps(b: Board, pos: int, ds: seq<Dir>, white: bool): (r: seq<int>)
    requires 0 <= pos < 64
    ensures forall sq :: sq in r ==> 0 <= sq < 64 && Enterable(b, white, sq)
  {
    if |ds| == 0 then []
    else
      var d := ds[0];
      MoveGeometry(pos, d.di, d.dj);
      var here := if IsMoveOnBoard(pos, d.di, d.dj) && Enterable(b, white, Target(pos, d))
        then [Target(pos, d)] else [];
      here + Jumps(b, pos, ds[1..], white)
  }

  function KnightMoves(b: Board, pos: int, white: bool): seq<int>
    requires 0 <= pos < 64
  {
    Jumps(b, pos, KnightJumps, white)
  }

  function PlainKingMoves(b: Board, pos: int, white: bool): seq<int>
    requires 0 <= pos < 64
  {
    Jumps(b, pos, KingSteps, white)
  }

  /** The offset from `pos` to `sq` in rows and columns. */
  function Offset(pos: int, sq: int): Dir {
    Dir(Row(sq) - Row(pos), Col(sq) - Col(pos))
  }

  /** A single step lands on `sq` exactly when `sq` is on the board at that offset from `pos`. */
  lemma StepGeometry(pos: int, d: Dir, sq: int)
    requires 0 <= pos < 64
    ensures (IsMoveOnBoard(pos, d.di, d.dj) && sq == Target(pos, d)) <==> 0 <= sq < 64 && Offset(pos, sq) == d
  {
    MoveGeometry(pos, d.di, d.dj);
    if 0 <= sq < 64 {
      assert sq == 8 * Row(sq) + Col(sq) && pos == 8 * Row(pos) + Col(pos);
    }
  }

  /** A jump generator yields exactly the enterable squares whose offset is one of its steps. */
  lemma {:induction false} JumpsGeometry(b: Board, pos: int, ds: seq<Dir>, white: bool, sq: int)
    requires 0 <= pos < 64
    ensures sq in Jumps(b, pos, ds, white) <==> 0 <= sq < 64 && Offset(pos, sq) in ds && Enterable(b, white, sq)
    decreases |ds|
  {
    if |ds| > 0 {
      JumpsGeometry(b, pos, ds[1..], white, sq);
      StepGeometry(pos, ds[0], sq);
      assert ds == [ds[0]] + ds[1..];
    }
  }

  /** The king's steps are the offsets of at most one row and one column, other than none. */
  lemma KingStepsSpec(d: Dir)
    ensures d in KingSteps <==> -1 <= d.di <= 1 && -1 <= d.dj <= 1 && d != Dir(0, 0)
  {
  }

  /** The knight's jumps are the offsets two rows and one column apart or the reverse. */
  lemma KnightJumpsSpec(d: Dir)
    ensures d in KnightJumps <==> KnightOffset(d.di, d.dj)
  {
  }

  /** The king's steps are exactly the enterable squares at distance one in both coordinates. */
  lemma PlainKingMovesGeometry(b: Board, pos: int, white: bool, sq: int)
    requires 0 <= pos < 64
    ensures sq in PlainKingMoves(b, pos, white) <==>
      0 <= sq < 64 && sq != pos &&
      -1 <= Row(sq) - Row(pos) <= 1 && -1 <= Col(sq) - Col(pos) <= 1 &&
      Enterable(b, white, sq)
  {
    JumpsGeometry(b, pos, KingSteps, white, sq);
    KingStepsSpec(Offset(pos, sq));
    if 0 <= sq < 64 {
      assert sq == 8 * Row(sq) + Col(sq) && pos == 8 * Row(pos) + Col(pos);
    }
  }

  /** Two rows and one column apart, or one row and two columns. */
  predicate KnightOffset(dr: int, dc: int) {
    || ((dr == 2 || dr == -2) && (dc == 1 || dc == -1))
    || ((dr == 1 || dr == -1) && (dc == 2 || dc == -2))
  }

  /** The knight's jumps are exactly the enterable squares two rows and one column away or vice versa. */
  lemma KnightMovesGeometry(b: Board, pos: int, white: bool, sq: int)
    requires 0 <= pos < 64
    ensures sq in KnightMoves(b, pos, white) <==>
      0 <= sq < 64 &&
      KnightOffset(Row(sq) - Row(pos), Col(sq) - Col(pos)) && Enterable(b, white, sq)
  {
    JumpsGeometry(b, pos, KnightJumps, white, sq);
    KnightJumpsSpec(Offset(pos, sq));
  }

  /** `-1` for white (towards row 0), `1` for black. */
  function Forward(white: bool): int {
    if white then -1 else 1
  }

  /** The one-square advance of `pawnMoves`. */
  function PawnAdvance(b: Board, pos: int, white: bool): (r: seq<int>)
    requires 0 <= pos < 64
  {
    var dir := Forward(white);
    MoveGeometry(pos, dir, 0);
    if IsMoveOnBoard(pos, dir, 0) && b.cells[pos + 8 * dir] == Empty then [pos + 8 * dir] else []
  }

  /**
   * The two-square advance of `pawnMoves`, from the pawn's home row. `Engine` also needs
   * the square passed over to be empty; `Legacy` does not look at it.
   */
  function PawnJump(v: Variant, b: Board, pos: int, white: bool): (r: seq<int>)
    requires 0 <= pos < 64
  {
    var dir := Forward(white);
    var firstMove := if white then Row(pos) == 6 else Row(pos) == 1;
    MoveGeometry(pos, 2 * dir, 0);
    if firstMove && IsMoveOnBoard(pos, 2 * dir, 0) &&
      !(v == Engine && b.cells[pos + 8 * dir] != Empty) && b.cells[pos + 16 * dir] == Empty
    then [pos + 16 * dir] else []
  }

  /** One diagonal capture probe of `pawnMoves`: an opponent's piece or the en-passant square. */
  function PawnCapture(b: Board, pos: int, white: bool, dj: int): (r: seq<int>)
    requires 0 <= pos < 64
  {
    var dir := Forward(white);
    if !IsMoveOnBoard(pos, dir, dj) then []
    else
      MoveGeometry(pos, dir, dj);
      var sq := pos + 8 * dir + dj;
      if (b.cells[sq] != Empty && IsWhite(b.cells[sq]) != white) || EnPassantPos(b) == Some(sq)
      then [sq] else []
  }

  /** `pawnMoves`: the one-square advance, the two-square advance, then the captures towards column +1 and column -1. */
  function PawnMoves(v: Variant, b: Board, pos: int, white: bool): (r: seq<int>)
    requires 0 <= pos < 64
    ensures forall sq :: sq in r ==> 0 <= sq < 64 && if white then Row(sq) < Row(pos) else Row(sq) > Row(pos)
  {
    var r := PawnAdvance(b, pos, white) + PawnJump(v, b, pos, white) +
      PawnCapture(b, pos, white, 1) + PawnCapture(b, pos, white, -1);
    forall sq | sq in r
      ensures 0 <= sq < 64 && if white then Row(sq) < Row(pos) else Row(sq) > Row(pos)
    {
      PawnAdvanceSpec(b, pos, white, sq);
      PawnJumpSpec(v, b, pos, white, sq);
      PawnCaptureSpec(b, pos, white, 1, sq);
      PawnCaptureSpec(b, pos, white, -1, sq);
    }
    r
  }

  /** Straight ahead one row onto an empty square. */
  predicate AdvanceTarget(b: Board, pos: int, white: bool, sq: int) {
    0 <= sq < 64 && Row(sq) == Row(pos) + Forward(white) && Col(sq) == Col(pos) && b.cells[sq] == Empty
  }

  /** Straight ahead two rows from the home row onto an empty square, in `Engine` only past an empty one. */
  predicate JumpTarget(v: Variant, b: Board, pos: int, white: bool, sq: int)
    requires 0 <= pos < 64
  {
    var dir := Forward(white);
    && 0 <= sq < 64
    && Row(pos) == (if white then 6 else 1)
    && Row(sq) == Row(pos) + 2 * dir && Col(sq) == Col(pos)
    && b.cells[sq] == Empty
    && (v == Engine ==> b.cells[pos + 8 * dir] == Empty)
  }

  /** Diagonally ahead one row, column `pos + dj`, onto an opponent's piece or the en-passant square. */
  predicate CaptureTarget(b: Board, pos: int, white: bool, dj: int, sq: int) {
    && 0 <= sq < 64
    && Row(sq) == Row(pos) + Forward(white) && Col(sq) == Col(pos) + dj
    && ((b.cells[sq] != Empty && IsWhite(b.cells[sq]) != white) || EnPassantPos(b) == Some(sq))
  }

  lemma PawnAdvanceSpec(b: Board, pos: int, white: bool, sq: int)
    requires 0 <= pos < 64
    ensures sq in PawnAdvance(b, pos, white) <==> AdvanceTarget(b, pos, white, sq)
  {
    MoveGeometry(pos, Forward(white), 0);
    if 0 <= sq < 64 {
      assert sq == 8 * Row(sq) + Col(sq);
    }
  }

  lemma PawnJumpSpec(v: Variant, b: Board, pos: int, white: bool, sq: int)
    requires 0 <= pos < 64
    ensures sq in PawnJump(v, b, pos, white) <==> JumpTarget(v, b, pos, white, sq)
  {
    MoveGeometry(pos, 2 * Forward(white), 0);
    if 0 <= sq < 64 {
      assert sq == 8 * Row(sq) + Col(sq);
    }
  }

  lemma PawnCaptureSpec(b: Board, pos: int, white: bool, dj: int, sq: int)
    requires 0 <= pos < 64
    ensures sq in PawnCapture(b, pos, white, dj) <==> CaptureTarget(b, pos, white, dj, sq)
  {
    MoveGeometry(pos, Forward(white), dj);
    if 0 <= sq < 64 {
      assert sq == 8 * Row(sq) + Col(sq);
    }
  }

  /** The pawn's destinations, read off the board's rows and columns. */
  predicate PawnTarget(v: Variant, b: Board, pos: int, white: bool, sq: int)
    requires 0 <= pos < 64
  {
    || AdvanceTarget(b, pos, white, sq)
    || JumpTarget(v, b, pos, white, sq)
    || CaptureTarget(b, pos, white, 1, sq)
    || CaptureTarget(b, pos, white, -1, sq)
  }

  /**
   * A pawn goes straight ahead one square onto an empty square, two squares from its home
   * row onto an empty square (in `Engine` only past an empty square), or one square
   * diagonally ahead onto an opponent's piece or the en-passant square.
   */
  lemma PawnMovesSpec(v: Variant, b: Board, pos: int, white: bool, sq: int)
    requires 0 <= pos < 64
    ensures sq in PawnMoves(v, b, pos, white) <==> PawnTarget(v, b, pos, white, sq)
  {
    PawnAdvanceSpec(b, pos, white, sq);
    PawnJumpSpec(v, b, pos, white, sq);
    PawnCaptureSpec(b, pos, white, 1, sq);
    PawnCaptureSpec(b, pos, white, -1, sq);
  }

  /** `Legacy` offers every move `Engine` offers, and at most the blocked two-square advance besides. */
  lemma LegacyPawnMovesExtend(b: Board, pos: int, white: bool, sq: int)
    requires 0 <= pos < 64
    ensures sq in PawnMoves(Engine, b, pos, white) ==> sq in PawnMoves(Legacy, b, pos, white)
    ensures sq in PawnMoves(Legacy, b, pos, white) && sq !in PawnMoves(Engine, b, pos, white) ==>
      var dir := if white then -1 else 1;
      sq == pos + 16 * dir && b.cells[pos + 8 * dir] != Empty
  {
    PawnMovesSpec(Engine, b, pos, white, sq);
    PawnMovesSpec(Legacy, b, pos, white, sq);
    PawnJumpSpec(Legacy, b, pos, white, sq);
    if 0 <= sq < 64 {
      assert sq == 8 * Row(sq) + Col(sq);
      assert pos == 8 * Row(pos) + Col(pos);
    }
  }
}
