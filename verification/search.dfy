/**
 * The move search of `src/pickMoveByRating.ts`: move enumeration, end-state
 * classification, the one-ply best reply from the mover's side, depth recursion, and the
 * Promise-based twin that breaks ties with an injected random number. The evaluator is a
 * parameter; promises are modelled by the values they resolve to.
 */
module Search {
  import opened Wrappers
  import opened BoardState
  import opened PseudoMoves
  import opened Check
  import opened Apply
  import opened Legal

  /** `[from, to]` */
  datatype Move = Move(from: int, to: int)

  /** A rating: a real number, or one of the infinities the source uses as seeds and mate scores. */
  datatype Score = NegInf | Fin(value: real) | PosInf

  /** `a > b` */
  predicate Above(a: Score, b: Score) {
    match a
    case NegInf => false
    case Fin(x) => b.NegInf? || (b.Fin? && x > b.value)
    case PosInf => !b.PosInf?
  }

  /** `Above` is a strict total order. */
  lemma AboveOrder(a: Score, b: Score, c: Score)
    ensures !Above(a, a)
    ensures Above(a, b) ==> !Above(b, a)
    ensures Above(a, b) && Above(b, c) ==> Above(a, c)
    ensures !Above(a, b) && !Above(b, a) ==> a == b
  {
  }

  function Negate(s: Score): Score {
    match s
    case NegInf => PosInf
    case Fin(x) => Fin(-x)
    case PosInf => NegInf
  }

  /** `ratingMultiplier * s`: 1 when white is to move, -1 when black is. */
  function Times(white: bool, s: Score): Score {
    if white then s else Negate(s)
  }

  lemma TimesInvolution(white: bool, s: Score)
    ensures Times(white, Times(white, s)) == s
  {
  }

  datatype EndState = Checkmate | Stalemate

  /**
   * `determineEndState`: checkmate when the side to move has no king or its first king
   * found is attacked, stalemate otherwise. The legal moves are not consulted.
   */
  function DetermineEndState(b: Board): (r: EndState)
    ensures var king := KingCode(WhiteMoves(b));
      r == Checkmate <==>
        || (forall j :: 0 <= j < 64 ==> b.cells[j] != king)
        || (exists kp :: FirstHolding(b.cells, king, kp) && Attacked(b, kp, WhiteMoves(b)))
  {
    var white := WhiteMoves(b);
    var kings := FindPieces(b.cells, {KingCode(white)});
    FindPiecesFirst(b.cells, KingCode(white));
    if |kings| == 0 then Checkmate
    else
      IsKingInCheckSpec(b, kings[0], white);
      if IsKingInCheck(b, kings[0], white) then Checkmate else Stalemate
  }

  /** The value of a position without a move: a mate for the side to move, or the stalemate constant 1. */
  function EndScore(b: Board): Score {
    if DetermineEndState(b) == Checkmate then Times(WhiteMoves(b), NegInf) else Fin(1.0)
  }

  // Move enumeration.

  function PieceCodes(white: bool): set<Byte> {
    {Code(King, white), Code(Queen, white), Code(Rook, white), Code(Knight, white), Code(Bishop, white),
     Code(Pawn, white)}
  }

  /** `[from, dest]` for each destination, in order. */
  function Pairs(from: int, dests: seq<int>): (r: seq<Move>)
    ensures |r| == |dests| && forall i :: 0 <= i < |r| ==> r[i] == Move(from, dests[i])
  {
    seq(|dests|, i requires 0 <= i < |dests| => Move(from, dests[i]))
  }

  /** The pairs of each origin with each of its destinations, origin by origin. */
  function Expand(origins: seq<int>, dests: int -> seq<int>): (r: seq<Move>)
    ensures forall i :: 0 <= i < |r| ==> r[i].from in origins && r[i].to in dests(r[i].from)
  {
    if |origins| == 0 then []
    else
      var here := Pairs(origins[0], dests(origins[0]));
      var rest := Expand(origins[1..], dests);
      var r := here + rest;
      assert forall i :: |here| <= i < |r| ==> r[i] == rest[i - |here|];
      assert forall o :: o in origins[1..] ==> o in origins;
      r
  }

  lemma {:induction false} ExpandMembers(origins: seq<int>, dests: int -> seq<int>, m: Move)
    ensures m in Expand(origins, dests) <==> m.from in origins && m.to in dests(m.from)
  {
    if |origins| > 0 {
      ExpandMembers(origins[1..], dests, m);
      var here := Pairs(origins[0], dests(origins[0]));
      if m.from == origins[0] && m.to in dests(origins[0]) {
        var i :| 0 <= i < |dests(origins[0])| && dests(origins[0])[i] == m.to;
        assert here[i] == m;
      }
      assert m.from in origins <==> m.from == origins[0] || m.from in origins[1..];
    }
  }

  /** The destinations listed for origin `o`, in their order. */
  function DestsOf(moves: seq<Move>, o: int): seq<int> {
    if |moves| == 0 then []
    else (if moves[0].from == o then [moves[0].to] else []) + DestsOf(moves[1..], o)
  }

  lemma {:induction false} DestsOfAppend(a: seq<Move>, b: seq<Move>, o: int)
    ensures DestsOf(a + b, o) == DestsOf(a, o) + DestsOf(b, o)
  {
    if |a| == 0 {
      assert a + b == b;
    } else {
      var head := if a[0].from == o then [a[0].to] else [];
      var ab := a + b;
      assert ab[0] == a[0] && ab[1..] == a[1..] + b;
      DestsOfAppend(a[1..], b, o);
      assert DestsOf(ab, o) == head + DestsOf(a[1..] + b, o);
      assert DestsOf(a, o) == head + DestsOf(a[1..], o);
    }
  }

  lemma {:induction false} DestsOfPairs(from: int, dests: seq<int>, o: int)
    ensures DestsOf(Pairs(from, dests), o) == if from == o then dests else []
  {
    if |dests| > 0 {
      assert Pairs(from, dests)[1..] == Pairs(from, dests[1..]);
      DestsOfPairs(from, dests[1..], o);
    }
  }

  /** Over increasing origins, origin `o`'s pairs list exactly its destinations, in their order. */
  lemma {:induction false} ExpandDests(origins: seq<int>, dests: int -> seq<int>, o: int)
    requires forall k, l :: 0 <= k < l < |origins| ==> origins[k] < origins[l]
    ensures DestsOf(Expand(origins, dests), o) == if o in origins then dests(o) else []
  {
    if |origins| > 0 {
      var here := Pairs(origins[0], dests(origins[0]));
      var rest := Expand(origins[1..], dests);
      ExpandDests(origins[1..], dests, o);
      DestsOfAppend(here, rest, o);
      DestsOfPairs(origins[0], dests(origins[0]), o);
      assert o in origins <==> o == origins[0] || o in origins[1..];
      if o == origins[0] {
        assert o !in origins[1..];
      }
    }
  }

  /** Over increasing origins, the pairs are ordered by origin. */
  lemma {:induction false} ExpandSorted(origins: seq<int>, dests: int -> seq<int>)
    requires forall k, l :: 0 <= k < l < |origins| ==> origins[k] < origins[l]
    ensures forall i, j :: 0 <= i < j < |Expand(origins, dests)| ==>
      Expand(origins, dests)[i].from <= Expand(origins, dests)[j].from
  {
    if |origins| > 0 {
      var here := Pairs(origins[0], dests(origins[0]));
      var rest := Expand(origins[1..], dests);
      ExpandSorted(origins[1..], dests);
      var r := here + rest;
      assert forall x :: x in origins[1..] ==> origins[0] < x;
      forall i, j | 0 <= i < j < |r|
        ensures r[i].from <= r[j].from
      {
        if j < |here| {
          assert r[i] == here[i] && r[j] == here[j];
          assert r[i].from == origins[0] == r[j].from;
        } else if i < |here| {
          assert r[i] == here[i] && r[j] == rest[j - |here|];
          assert r[j].from in origins[1..];
          assert r[i].from == origins[0] < r[j].from;
        } else {
          assert r[i] == rest[i - |here|] && r[j] == rest[j - |here|];
          assert rest[i - |here|].from <= rest[j - |here|].from;
        }
      }
    }
  }

  /** `findMoves` from each square. */
  function Destinations(b: Board): int -> seq<int> {
    pos => if 0 <= pos < 64 then FindMoves(Engine, b, pos) else []
  }

  /** `findAllMoves`: the `[from, to]` pairs of the side to move, scanning origins from square 0 up. */
  function FindAllMoves(b: Board): (r: seq<Move>)
    ensures forall i :: 0 <= i < |r| ==> 0 <= r[i].from < 64 && 0 <= r[i].to < 64
  {
    var origins := FindPieces(b.cells, PieceCodes(WhiteMoves(b)));
    Expand(origins, Destinations(b))
  }

  /** A pair is listed exactly when a piece of the side to move stands on its origin and `findMoves` offers its target. */
  lemma FindAllMovesSpec(b: Board, m: Move)
    ensures m in FindAllMoves(b) <==>
      0 <= m.from < 64 && b.cells[m.from] in PieceCodes(WhiteMoves(b)) && m.to in FindMoves(Engine, b, m.from)
  {
    var origins := FindPieces(b.cells, PieceCodes(WhiteMoves(b)));
    ExpandMembers(origins, Destinations(b), m);
  }

  /**
   * `findAllMoves` lists the moves by origin from square 0 up, and each origin's moves in
   * the order `findMoves` yields them; squares without a piece of the side to move list none.
   */
  lemma FindAllMovesOrder(b: Board, o: int)
    ensures var r := FindAllMoves(b);
      && (forall i, j :: 0 <= i < j < |r| ==> r[i].from <= r[j].from)
      && DestsOf(r, o) ==
           if 0 <= o < 64 && b.cells[o] in PieceCodes(WhiteMoves(b)) then FindMoves(Engine, b, o) else []
  {
    var origins := FindPieces(b.cells, PieceCodes(WhiteMoves(b)));
    ExpandDests(origins, Destinations(b), o);
    ExpandSorted(origins, Destinations(b));
  }

  // Rating.

  /** The board after `m`, with the default promotion. */
  function ChildOf(b: Board, m: Move): Board
    requires 0 <= m.from < 64 && 0 <= m.to < 64
  {
    ApplyMove(b, m.from, m.to, DefaultPromotion(b, m.from))
  }

  /** The mover-relative rating of each move's child. */
  function Ratings(b: Board, rate: Board -> Score, moves: seq<Move>): (r: seq<Score>)
    requires forall i :: 0 <= i < |moves| ==> 0 <= moves[i].from < 64 && 0 <= moves[i].to < 64
    ensures |r| == |moves|
  {
    seq(|moves|, i requires 0 <= i < |moves| => Times(WhiteMoves(b), rate(ChildOf(b, moves[i]))))
  }

  /** `i` is the first index of a greatest rating among the first `n`. */
  predicate FirstBest(ratings: seq<Score>, n: int, i: int)
    requires n <= |ratings|
  {
    && 0 <= i < n
    && (forall j :: 0 <= j < n ==> !Above(ratings[j], ratings[i]))
    && (forall j :: 0 <= j < i ==> Above(ratings[i], ratings[j]))
  }

  /** The loop of `findBestMoveAndRating` from index `k` on: a strictly greater rating replaces the best. */
  function Scan(ratings: seq<Score>, k: nat, best: Option<nat>, bestRating: Score): (Option<nat>, Score)
    requires k <= |ratings|
    decreases |ratings| - k
  {
    if k == |ratings| then (best, bestRating)
    else if Above(ratings[k], bestRating) then Scan(ratings, k + 1, Some(k), ratings[k])
    else Scan(ratings, k + 1, best, bestRating)
  }

  /**
   * Seeded with no move and -Infinity, the scan ends with no move exactly when every rating
   * is -Infinity, and otherwise with the first index of a greatest rating.
   */
  lemma {:induction false} ScanSpec(ratings: seq<Score>, k: nat, best: Option<nat>, bestRating: Score)
    requires k <= |ratings|
    requires best.None? ==> bestRating == NegInf && forall j :: 0 <= j < k ==> ratings[j] == NegInf
    requires best.Some? ==>
      FirstBest(ratings, k, best.value) && bestRating == ratings[best.value] && bestRating != NegInf
    ensures var (b2, r2) := Scan(ratings, k, best, bestRating);
      && (b2.None? ==> r2 == NegInf && forall j :: 0 <= j < |ratings| ==> ratings[j] == NegInf)
      && (b2.Some? ==> FirstBest(ratings, |ratings|, b2.value) && r2 == ratings[b2.value] && r2 != NegInf)
    decreases |ratings| - k
  {
    if k < |ratings| {
      var x := ratings[k];
      if Above(x, bestRating) {
        forall j | 0 <= j < k
          ensures Above(x, ratings[j])
        {
          AboveOrder(x, bestRating, ratings[j]);
          if best.None? {
            assert ratings[j] == NegInf;
          } else {
            AboveOrder(bestRating, ratings[j], x);
          }
        }
        forall j | 0 <= j <= k
          ensures !Above(ratings[j], x)
        {
          AboveOrder(x, ratings[j], x);
        }
        ScanSpec(ratings, k + 1, Some(k), x);
      } else {
        if best.None? {
          assert x == NegInf;
        } else {
          forall j | 0 <= j <= k
            ensures !Above(ratings[j], bestRating)
          {
          }
        }
        ScanSpec(ratings, k + 1, best, bestRating);
      }
    }
  }

  /** The scan over all ratings, from no move and -Infinity. */
  function ScanAll(ratings: seq<Score>): (r: (Option<nat>, Score))
    ensures r.0.None? ==> r.1 == NegInf && forall j :: 0 <= j < |ratings| ==> ratings[j] == NegInf
    ensures r.0.Some? ==> FirstBest(ratings, |ratings|, r.0.value) && r.1 == ratings[r.0.value] && r.1 != NegInf
  {
    ScanSpec(ratings, 0, None, NegInf);
    Scan(ratings, 0, None, NegInf)
  }

  /**
   * `findBestMoveAndRating`: the first move whose mover-relative rating is strictly greatest,
   * valued by its child's raw rating; without such a move, no move and the end-state score.
   */
  function FindBestMoveAndRating(b: Board, rate: Board -> Score): (r: (Option<Move>, Score))
  {
    var moves := FindAllMoves(b);
    var ratings := Ratings(b, rate, moves);
    var (best, bestRating) := ScanAll(ratings);
    match best
    case None => (None, EndScore(b))
    case Some(i) => (Some(moves[i]), Times(WhiteMoves(b), bestRating))
  }

  /** `pickMoveByRating` */
  function PickMoveByRating(b: Board, rate: Board -> Score): Option<Move> {
    FindBestMoveAndRating(b, rate).0
  }

  /**
   * The synchronous picker returns a move exactly when some move rates above -Infinity for
   * the mover; it is then the earliest move of strictly greatest rating, and the node value
   * is that child's raw rating. Otherwise the value is the end-state score.
   */
  lemma FindBestMoveAndRatingSpec(b: Board, rate: Board -> Score)
    ensures var moves := FindAllMoves(b);
      var ratings := Ratings(b, rate, moves);
      var (move, value) := FindBestMoveAndRating(b, rate);
      && (move.None? <==> forall j :: 0 <= j < |ratings| ==> ratings[j] == NegInf)
      && (move.None? ==> value == EndScore(b))
      && (move.Some? ==>
            exists i :: FirstBest(ratings, |ratings|, i) && move.value == moves[i] && value == rate(ChildOf(b, moves[i])))
  {
    var moves := FindAllMoves(b);
    var ratings := Ratings(b, rate, moves);
    var (best, bestRating) := ScanAll(ratings);
    if best.Some? {
      var i := best.value;
      var child := ChildOf(b, moves[i]);
      assert ratings[i] == Times(WhiteMoves(b), rate(child));
      TimesInvolution(WhiteMoves(b), rate(child));
      assert FindBestMoveAndRating(b, rate) == (Some(moves[i]), rate(child));
    }
  }

  // The Promise-based picker.

  /** The greater of two ratings. */
  function Max(a: Score, b: Score): Score {
    if Above(b, a) then b else a
  }

  /** The greatest of the first `n` ratings, -Infinity for none. */
  function MaxOf(ratings: seq<Score>, n: nat): Score
    requires n <= |ratings|
  {
    if n == 0 then NegInf else Max(MaxOf(ratings, n - 1), ratings[n - 1])
  }

  /** `MaxOf` bounds the first `n` ratings and, unless it is -Infinity, is one of them. */
  lemma {:induction false} MaxOfSpec(ratings: seq<Score>, n: nat)
    requires n <= |ratings|
    ensures forall j :: 0 <= j < n ==> !Above(ratings[j], MaxOf(ratings, n))
    ensures MaxOf(ratings, n) == NegInf || exists j :: 0 <= j < n && ratings[j] == MaxOf(ratings, n)
  {
    if n > 0 {
      MaxOfSpec(ratings, n - 1);
      var prev := MaxOf(ratings, n - 1);
      var m := MaxOf(ratings, n);
      forall j | 0 <= j < n
        ensures !Above(ratings[j], m)
      {
        AboveOrder(ratings[j], prev, m);
        AboveOrder(ratings[j], ratings[n - 1], m);
        AboveOrder(ratings[n - 1], prev, prev);
      }
    }
  }

  /** The indices among the first `n` whose rating is `m`, in increasing order. */
  function TiedUpTo(ratings: seq<Score>, n: nat, m: Score): seq<nat>
    requires n <= |ratings|
  {
    if n == 0 then [] else TiedUpTo(ratings, n - 1, m) + (if ratings[n - 1] == m then [n - 1] else [])
  }

  /** `TiedUpTo` lists exactly the indices holding `m`, in increasing order. */
  lemma {:induction false} TiedUpToSpec(ratings: seq<Score>, n: nat, m: Score)
    requires n <= |ratings|
    ensures forall j :: j in TiedUpTo(ratings, n, m) <==> 0 <= j < n && ratings[j] == m
    ensures forall k, l :: 0 <= k < l < |TiedUpTo(ratings, n, m)| ==>
      TiedUpTo(ratings, n, m)[k] < TiedUpTo(ratings, n, m)[l]
  {
    if n > 0 {
      TiedUpToSpec(ratings, n - 1, m);
      var prefix := TiedUpTo(ratings, n - 1, m);
      var last: seq<nat> := if ratings[n - 1] == m then [n - 1] else [];
      var r := prefix + last;
      assert r == TiedUpTo(ratings, n, m);
      forall k | 0 <= k < |prefix|
        ensures prefix[k] < n - 1
      {
        assert prefix[k] in prefix;
      }
      assert forall j :: j in r <==> j in prefix || j in last;
      forall k, l | 0 <= k < l < |r|
        ensures r[k] < r[l]
      {
        if l >= |prefix| {
          assert r[l] == n - 1;
          assert r[k] == prefix[k];
        }
      }
    }
  }

  /** The `reduce` of `findBestMoveAndRatingPromise` from index `k` on: ties are collected, a greater rating restarts the list. */
  function Reduce(ratings: seq<Score>, k: nat, tied: seq<nat>, best: Score): (seq<nat>, Score)
    requires k <= |ratings|
    decreases |ratings| - k
  {
    if k == |ratings| then (tied, best)
    else if Above(best, ratings[k]) then Reduce(ratings, k + 1, tied, best)
    else if best == ratings[k] then Reduce(ratings, k + 1, tied + [k], best)
    else Reduce(ratings, k + 1, [k], ratings[k])
  }

  /** The tied list after looking at index `k`. */
  function NextTied(ratings: seq<Score>, k: nat, tied: seq<nat>, best: Score): seq<nat>
    requires k < |ratings|
  {
    if Above(best, ratings[k]) then tied else if best == ratings[k] then tied + [k] else [k]
  }

  /** No index ties with a rating none of the first `n` has. */
  lemma {:induction false} TiedNone(ratings: seq<Score>, n: nat, m: Score)
    requires n <= |ratings| && forall j :: 0 <= j < n ==> ratings[j] != m
    ensures TiedUpTo(ratings, n, m) == []
  {
    if n > 0 {
      TiedNone(ratings, n - 1, m);
    }
  }

  /** A rating above everything before it ties with none of them. */
  lemma NewMaxUntied(ratings: seq<Score>, k: nat)
    requires k < |ratings| && Above(ratings[k], MaxOf(ratings, k))
    ensures TiedUpTo(ratings, k, ratings[k]) == []
  {
    MaxOfSpec(ratings, k);
    forall j | 0 <= j < k
      ensures ratings[j] != ratings[k]
    {
      AboveOrder(ratings[k], MaxOf(ratings, k), ratings[k]);
    }
    TiedNone(ratings, k, ratings[k]);
  }

  /** One step of the reduce keeps the greatest rating so far and the indices that have it. */
  lemma ReduceStep(ratings: seq<Score>, k: nat, tied: seq<nat>, best: Score)
    requires k < |ratings|
    requires best == MaxOf(ratings, k) && tied == TiedUpTo(ratings, k, best)
    ensures Reduce(ratings, k, tied, best) ==
      Reduce(ratings, k + 1, TiedUpTo(ratings, k + 1, MaxOf(ratings, k + 1)), MaxOf(ratings, k + 1))
  {
    var x := ratings[k];
    AboveOrder(best, x, x);
    var m := MaxOf(ratings, k + 1);
    assert m == Max(best, x);
    if Above(best, x) {
      assert TiedUpTo(ratings, k + 1, m) == tied + [];
    } else if best == x {
      assert TiedUpTo(ratings, k + 1, m) == tied + [k];
    } else {
      NewMaxUntied(ratings, k);
      assert TiedUpTo(ratings, k + 1, m) == [] + [k];
    }
    assert NextTied(ratings, k, tied, best) == TiedUpTo(ratings, k + 1, m);
  }

  /** The greatest rating and the indices holding it. */
  function Greatest(ratings: seq<Score>): (seq<nat>, Score) {
    var m := MaxOf(ratings, |ratings|);
    (TiedUpTo(ratings, |ratings|, m), m)
  }

  /** Seeded with no move and -Infinity, the reduce ends with the greatest rating and every index that has it. */
  lemma {:induction false} ReduceSpec(ratings: seq<Score>, k: nat, tied: seq<nat>, best: Score)
    requires k <= |ratings|
    requires best == MaxOf(ratings, k) && tied == TiedUpTo(ratings, k, best)
    ensures Reduce(ratings, k, tied, best) == Greatest(ratings)
    decreases |ratings| - k
  {
    if k == |ratings| {
      assert Reduce(ratings, k, tied, best) == (tied, best);
    } else {
      ReduceStep(ratings, k, tied, best);
      var m := MaxOf(ratings, k + 1);
      ReduceSpec(ratings, k + 1, TiedUpTo(ratings, k + 1, m), m);
    }
  }

  /** The reduce over all ratings, from no move and -Infinity. */
  function ReduceAll(ratings: seq<Score>): (r: (seq<nat>, Score))
    ensures r.1 == MaxOf(ratings, |ratings|) && r.0 == TiedUpTo(ratings, |ratings|, r.1)
    ensures forall k :: 0 <= k < |r.0| ==> r.0[k] < |ratings|
  {
    ReduceSpec(ratings, 0, [], NegInf);
    var r := Reduce(ratings, 0, [], NegInf);
    TiedUpToSpec(ratings, |ratings|, r.1);
    assert forall k :: 0 <= k < |r.0| ==> r.0[k] in r.0;
    r
  }

  /** `Math.floor(rand * count)` */
  function PickIndex(rand: real, count: nat): int {
    (rand * (count as real)).Floor
  }

  /** The index at `floor(rand * count)` among the indices of greatest rating, if there is one there, and that rating. */
  function PickTied(ratings: seq<Score>, rand: real): (r: (Option<nat>, Score))
    ensures r.0.Some? ==> r.0.value < |ratings|
  {
    var (tied, best) := ReduceAll(ratings);
    var idx := PickIndex(rand, |tied|);
    (if 0 <= idx < |tied| then Some(tied[idx]) else None, best)
  }

  /**
   * `findBestMoveAndRatingPromise` with `Promise.all` resolved in order: without moves, no
   * move and the end-state score; otherwise the move at `floor(rand * count)` among the
   * moves of greatest rating (none when that index falls outside them), valued by the
   * greatest rating.
   */
  function FindBestMoveAndRatingPromise(b: Board, rate: Board -> Score, rand: real): (r: (Option<Move>, Score))
  {
    var moves := FindAllMoves(b);
    if |moves| == 0 then (None, EndScore(b))
    else
      var (pick, best) := PickTied(Ratings(b, rate, moves), rand);
      (if pick.Some? then Some(moves[pick.value]) else None, Times(WhiteMoves(b), best))
  }

  /** `pickMoveByRatingPromise` */
  function PickMoveByRatingPromise(b: Board, rate: Board -> Score, rand: real): Option<Move> {
    FindBestMoveAndRatingPromise(b, rate, rand).0
  }

  /** A random number in [0, 1) picks a valid index of a nonempty list, and no other number does. */
  lemma PickIndexRange(rand: real, count: nat)
    requires count > 0
    ensures 0 <= PickIndex(rand, count) < count <==> 0.0 <= rand < 1.0
  {
    var x := rand * (count as real);
    if 0.0 <= rand < 1.0 {
      assert 0.0 <= x < count as real;
    }
    if 0 <= x.Floor < count {
      assert 0.0 <= x < count as real;
    }
  }

  /** A nonempty rating list has an index of greatest rating. */
  lemma TiedNonEmpty(ratings: seq<Score>)
    requires |ratings| > 0
    ensures |TiedUpTo(ratings, |ratings|, MaxOf(ratings, |ratings|))| > 0
  {
    var m := MaxOf(ratings, |ratings|);
    MaxOfSpec(ratings, |ratings|);
    TiedUpToSpec(ratings, |ratings|, m);
    var j: int := 0;
    if m != NegInf {
      j :| 0 <= j < |ratings| && ratings[j] == m;
    } else {
      assert !Above(ratings[0], m);
    }
    assert j in TiedUpTo(ratings, |ratings|, m);
  }

  /**
   * The Promise-based picker: with no move, no move and the end-state score; otherwise the
   * node value is the greatest mover-relative rating turned back to white's view, and any
   * random number in [0, 1), and only such a number, picks one of the moves of greatest rating.
   */
  lemma FindBestMoveAndRatingPromiseSpec(b: Board, rate: Board -> Score, rand: real)
    ensures var moves := FindAllMoves(b);
      var ratings := Ratings(b, rate, moves);
      var (move, value) := FindBestMoveAndRatingPromise(b, rate, rand);
      && (|moves| == 0 ==> move == None && value == EndScore(b))
      && (|moves| > 0 ==> value == Times(WhiteMoves(b), MaxOf(ratings, |ratings|)))
      && (|moves| > 0 ==> (move.Some? <==> 0.0 <= rand < 1.0))
      && (move.Some? ==> exists j :: 0 <= j < |moves| && move.value == moves[j] && ratings[j] == MaxOf(ratings, |ratings|))
  {
    var moves := FindAllMoves(b);
    if |moves| > 0 {
      PickTiedSpec(Ratings(b, rate, moves), rand);
    }
  }

  /**
   * Over a nonempty list, the tie pick reports the greatest rating, and picks an index
   * holding it exactly when the random number is in [0, 1).
   */
  lemma PickTiedSpec(ratings: seq<Score>, rand: real)
    requires |ratings| > 0
    ensures var (pick, best) := PickTied(ratings, rand);
      && best == MaxOf(ratings, |ratings|)
      && (pick.Some? <==> 0.0 <= rand < 1.0)
      && (pick.Some? ==> ratings[pick.value] == best)
  {
    var (tied, best) := ReduceAll(ratings);
    TiedNonEmpty(ratings);
    PickIndexRange(rand, |tied|);
    var idx := PickIndex(rand, |tied|);
    if 0 <= idx < |tied| {
      TiedUpToSpec(ratings, |ratings|, best);
      assert tied[idx] in tied;
    }
  }

  /** The first index of a greatest rating is the first index holding the greatest rating. */
  lemma FirstBestIsFirstTied(ratings: seq<Score>, i: nat)
    requires FirstBest(ratings, |ratings|, i) && ratings[i] != NegInf
    ensures ratings[i] == MaxOf(ratings, |ratings|)
    ensures |TiedUpTo(ratings, |ratings|, MaxOf(ratings, |ratings|))| > 0
    ensures TiedUpTo(ratings, |ratings|, MaxOf(ratings, |ratings|))[0] == i
  {
    var m := MaxOf(ratings, |ratings|);
    MaxOfSpec(ratings, |ratings|);
    TiedUpToSpec(ratings, |ratings|, m);
    var j :| 0 <= j < |ratings| && ratings[j] == m;
    AboveOrder(ratings[i], m, m);
    assert !Above(ratings[j], ratings[i]);
    var tied := TiedUpTo(ratings, |ratings|, m);
    assert i in tied;
    var t := tied[0];
    assert t in tied;
    assert t >= i by {
      AboveOrder(ratings[i], ratings[t], ratings[t]);
    }
    assert t <= i by {
      var k :| 0 <= k < |tied| && tied[k] == i;
    }
  }

  /** With some rating above -Infinity, the tie pick with random number 0 is the scan's pick. */
  lemma PickTiedFirst(ratings: seq<Score>)
    requires exists j :: 0 <= j < |ratings| && ratings[j] != NegInf
    ensures PickTied(ratings, 0.0) == ScanAll(ratings)
  {
    var (best, bestRating) := ScanAll(ratings);
    var i := best.value;
    FirstBestIsFirstTied(ratings, i);
    var (tied, max) := ReduceAll(ratings);
    assert PickIndex(0.0, |tied|) == 0;
  }

  /** With every rating -Infinity, the scan picks nothing and the tie pick with random number 0 picks index 0. */
  lemma PickTiedAllNegInf(ratings: seq<Score>)
    requires |ratings| > 0 && forall j :: 0 <= j < |ratings| ==> ratings[j] == NegInf
    ensures ScanAll(ratings).0 == None
    ensures PickTied(ratings, 0.0) == (Some(0), NegInf)
  {
    var (tied, max) := ReduceAll(ratings);
    MaxOfSpec(ratings, |ratings|);
    TiedUpToSpec(ratings, |ratings|, max);
    assert max == NegInf;
    assert 0 in tied;
    assert tied[0] == 0 by {
      var t := tied[0];
      assert t in tied;
      var k :| 0 <= k < |tied| && tied[k] == 0;
    }
    assert PickIndex(0.0, |tied|) == 0;
  }

  /**
   * With some move rated above -Infinity for the mover, the Promise-based picker with
   * random number 0 agrees with the synchronous one on both move and value; with no move at
   * all they agree for any random number.
   */
  lemma PickersAgree(b: Board, rate: Board -> Score, rand: real)
    ensures var ratings := Ratings(b, rate, FindAllMoves(b));
      (exists j :: 0 <= j < |ratings| && ratings[j] != NegInf) ==>
        FindBestMoveAndRatingPromise(b, rate, 0.0) == FindBestMoveAndRating(b, rate)
    ensures |FindAllMoves(b)| == 0 ==>
      FindBestMoveAndRatingPromise(b, rate, rand) == FindBestMoveAndRating(b, rate) == (None, EndScore(b))
  {
    var moves := FindAllMoves(b);
    var ratings := Ratings(b, rate, moves);
    if exists j :: 0 <= j < |ratings| && ratings[j] != NegInf {
      PickTiedFirst(ratings);
      SamePick(b, rate);
    }
  }

  /** The two pickers' answers agree whenever the tie pick with random number 0 agrees with the scan. */
  lemma SamePick(b: Board, rate: Board -> Score)
    ensures var ratings := Ratings(b, rate, FindAllMoves(b));
      |FindAllMoves(b)| > 0 && PickTied(ratings, 0.0) == ScanAll(ratings) ==>
        FindBestMoveAndRatingPromise(b, rate, 0.0) == FindBestMoveAndRating(b, rate)
  {
  }

  /**
   * Where every move rates -Infinity for the mover, the pickers part: the synchronous one
   * finds no move and reports the end-state score, while the Promise-based one with random
   * number 0 plays the first move and reports a loss for the mover.
   */
  lemma PickersDiverge(b: Board, rate: Board -> Score)
    ensures var moves := FindAllMoves(b);
      var ratings := Ratings(b, rate, moves);
      |moves| > 0 && (forall j :: 0 <= j < |ratings| ==> ratings[j] == NegInf) ==>
        && FindBestMoveAndRating(b, rate) == (None, EndScore(b))
        && FindBestMoveAndRatingPromise(b, rate, 0.0) == (Some(moves[0]), Times(WhiteMoves(b), NegInf))
  {
    var ratings := Ratings(b, rate, FindAllMoves(b));
    if |FindAllMoves(b)| > 0 && forall j :: 0 <= j < |ratings| ==> ratings[j] == NegInf {
      PickTiedAllNegInf(ratings);
    }
  }

  // Depth.

  /** `applyDepth`: the evaluator itself at depth 0, else the synchronous search value over depth `d - 1`. */
  function ApplyDepth(rate: Board -> Score, depth: nat): Board -> Score {
    if depth == 0 then rate
    else
      var inner := ApplyDepth(rate, depth - 1);
      (b: Board) => FindBestMoveAndRating(b, inner).1
  }

  /** `applyDepthPromise`, with the default random number 0. */
  function ApplyDepthPromise(rate: Board -> Score, depth: nat): Board -> Score {
    if depth == 0 then rate
    else
      var inner := ApplyDepthPromise(rate, depth - 1);
      (b: Board) => FindBestMoveAndRatingPromise(b, inner, 0.0).1
  }

  /**
   * One more ply of depth values a board by the depth-`d` value of the child the search
   * picks, or by the end-state score when it picks none.
   */
  lemma ApplyDepthSpec(rate: Board -> Score, d: nat, b: Board)
    ensures ApplyDepth(rate, 0) == rate
    ensures var m := PickMoveByRating(b, ApplyDepth(rate, d));
      ApplyDepth(rate, d + 1)(b) ==
        if m.Some? && 0 <= m.value.from < 64 && 0 <= m.value.to < 64
        then ApplyDepth(rate, d)(ChildOf(b, m.value)) else EndScore(b)
    ensures PickMoveByRating(b, ApplyDepth(rate, d)).Some? ==>
      var m := PickMoveByRating(b, ApplyDepth(rate, d)).value;
      0 <= m.from < 64 && 0 <= m.to < 64
  {
    FindBestMoveAndRatingSpec(b, ApplyDepth(rate, d));
  }

  /**
   * One more ply of the Promise-based depth values a board by the greatest mover-relative
   * depth-`d` value among its children, turned back to white's view, or by the end-state
   * score when there is no move.
   */
  lemma ApplyDepthPromiseSpec(rate: Board -> Score, d: nat, b: Board)
    ensures ApplyDepthPromise(rate, 0) == rate
    ensures var moves := FindAllMoves(b);
      var ratings := Ratings(b, ApplyDepthPromise(rate, d), moves);
      ApplyDepthPromise(rate, d + 1)(b) ==
        if |moves| == 0 then EndScore(b) else Times(WhiteMoves(b), MaxOf(ratings, |ratings|))
  {
    FindBestMoveAndRatingPromiseSpec(b, ApplyDepthPromise(rate, d), 0.0);
  }
}
