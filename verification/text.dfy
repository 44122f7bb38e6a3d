/**
 * The text form of a board (`Board.toString` / `Board.fromString` in `src/Chess.ts`, and
 * the identical `toString` / `fromString` of `src/board.ts`): eight rows of eight cells
 * separated by single spaces, a blank line, then "White to move" or "Black to move".
 */
module BoardText {
  import opened BoardState

  predicate IsBlank(c: char) {
    c == ' ' || c == '\n'
  }

  predicate NoBlanks(s: seq<char>) {
    forall k :: 0 <= k < |s| ==> !IsBlank(s[k])
  }

  /** `str.replace(/[\n ]/g, '')`: drops every space and newline, keeping the order. */
  function Flatten(s: string): string {
    if |s| == 0 then []
    else (if IsBlank(s[0]) then [] else [s[0]]) + Flatten(s[1..])
  }

  /** `Flatten` keeps exactly the characters that are not blanks. */
  lemma {:induction false} FlattenSpec(s: string)
    ensures |Flatten(s)| <= |s| && NoBlanks(Flatten(s))
    ensures forall c :: c in Flatten(s) <==> c in s && !IsBlank(c)
  {
    if |s| > 0 {
      FlattenSpec(s[1..]);
      assert forall c :: c in s <==> c == s[0] || c in s[1..];
    }
  }

  lemma {:induction false} FlattenAppend(a: string, b: string)
    ensures Flatten(a + b) == Flatten(a) + Flatten(b)
  {
    if |a| == 0 {
      assert a + b == b;
    } else {
      assert (a + b)[1..] == a[1..] + b;
      FlattenAppend(a[1..], b);
    }
  }

  lemma {:induction false} FlattenNoBlanks(s: string)
    requires NoBlanks(s)
    ensures Flatten(s) == s
  {
    if |s| > 0 {
      FlattenNoBlanks(s[1..]);
    }
  }

  /**
   * `flatStr.charCodeAt(i)` stored into a byte array: the code is kept modulo 256, and a
   * read past the end (NaN) stores 0.
   */
  function ByteAt(flat: string, i: nat): Byte {
    if i < |flat| then ((flat[i] as int) % 256) as char else 0 as char
  }

  /**
   * Parses a board: cells and side byte are the first 65 non-blank characters, and the
   * flag byte is reset to all four castling rights with no en-passant target.
   */
  function FromString(s: string): RawBoard {
    var flat := Flatten(s);
    RawBoard(seq(64, i requires 0 <= i => ByteAt(flat, i)), ByteAt(flat, 64), AllCastleRights)
  }

  /** The first `m` cells of row `i`, separated by single spaces. */
  function RowText(cells: string, i: int, m: nat): (r: string)
    requires |cells| == 64 && 0 <= i < 8 && m <= 8
    ensures |r| == if m == 0 then 0 else 2 * m - 1
  {
    if m == 0 then []
    else RowText(cells, i, m - 1) + (if m - 1 != 0 then " " else "") + [cells[8 * i + m - 1]]
  }

  /** A row's text holds its cells at even offsets and spaces at odd ones. */
  lemma {:induction false} RowTextAt(cells: string, i: int, m: nat)
    requires |cells| == 64 && 0 <= i < 8 && m <= 8
    ensures forall k :: 0 <= k < |RowText(cells, i, m)| ==>
      RowText(cells, i, m)[k] == if k % 2 == 0 then cells[8 * i + k / 2] else ' '
  {
    if m > 0 {
      RowTextAt(cells, i, m - 1);
    }
  }

  /** The first `n` rows, each followed by a newline. */
  function Grid(cells: string, n: nat): (r: string)
    requires |cells| == 64 && n <= 8
    ensures |r| == 16 * n
  {
    if n == 0 then [] else Grid(cells, n - 1) + RowText(cells, n - 1, 8) + "\n"
  }

  /** The grid text holds, at each offset, the character the layout puts there. */
  lemma {:induction false} GridAt(cells: string, n: nat)
    requires |cells| == 64 && n <= 8
    ensures forall k :: 0 <= k < 16 * n ==> Grid(cells, n)[k] == GridChar(cells, k)
  {
    if n > 0 {
      GridAt(cells, n - 1);
      RowTextAt(cells, n - 1, 8);
      var prev := Grid(cells, n - 1);
      var row := RowText(cells, n - 1, 8);
      var r := Grid(cells, n);
      assert r == prev + row + "\n";
      forall k | 0 <= k < 16 * n
        ensures r[k] == GridChar(cells, k)
      {
        if k < 16 * (n - 1) {
          assert r[k] == prev[k];
        } else {
          var t := k - 16 * (n - 1);
          assert k / 16 == n - 1 && k % 16 == t;
          if t < 15 {
            assert r[k] == row[t];
          }
        }
      }
    }
  }

  /** The character at offset `k` of the grid text, read off the layout. */
  function GridChar(cells: string, k: int): char
    requires |cells| == 64 && 0 <= k < 128
  {
    var t := k % 16;
    if t == 15 then '\n' else if t % 2 == 1 then ' ' else cells[8 * (k / 16) + t / 2]
  }

  function SideName(side: Byte): string {
    if side == WhiteToMove then "White" else "Black"
  }

  function SideLine(side: Byte): string {
    SideName(side) + " to move"
  }

  /** Renders the cells and the side to move; the flag byte is not part of the text. */
  function ToString(b: RawBoard): string
    requires |b.cells| == 64
  {
    Grid(b.cells, 8) + "\n" + SideLine(b.side)
  }

  /** Text the parser and the printer agree on: the layout `ToString` produces. */
  predicate WellFormedText(s: string) {
    && |s| == 142
    && (forall k :: 0 <= k < 128 ==>
          if k % 16 == 15 then s[k] == '\n'
          else if k % 2 == 1 then s[k] == ' '
          else !IsBlank(s[k]) && s[k] as int < 256)
    && s[128] == '\n'
    && (s[129..] == "White to move" || s[129..] == "Black to move")
  }

  /** Appending one character to a text appends it to the flattened text unless it is a blank. */
  lemma FlattenSnoc(a: string, c: char)
    ensures Flatten(a + [c]) == if IsBlank(c) then Flatten(a) else Flatten(a) + [c]
  {
    FlattenAppend(a, [c]);
    assert [c][1..] == [];
  }

  lemma SliceJoin(s: string, lo: int, mid: int, hi: int)
    requires 0 <= lo <= mid <= hi <= |s|
    ensures s[lo .. hi] == s[lo .. mid] + s[mid .. hi]
  {
  }

  /** Flattening a row's text adds its last cell to the flattened shorter row. */
  lemma FlattenRowStep(cells: string, i: int, m: nat)
    requires |cells| == 64 && 0 <= i < 8 && 0 < m <= 8 && !IsBlank(cells[8 * i + m - 1])
    ensures Flatten(RowText(cells, i, m)) == Flatten(RowText(cells, i, m - 1)) + [cells[8 * i + m - 1]]
  {
    var prev := RowText(cells, i, m - 1);
    var c := cells[8 * i + m - 1];
    if m - 1 != 0 {
      assert RowText(cells, i, m) == prev + [' '] + [c];
      FlattenSnoc(prev, ' ');
      FlattenSnoc(prev + [' '], c);
    } else {
      assert RowText(cells, i, m) == prev + [c];
      FlattenSnoc(prev, c);
    }
  }

  lemma {:induction false} FlattenRow(cells: string, i: int, m: nat)
    requires |cells| == 64 && 0 <= i < 8 && m <= 8 && NoBlanks(cells)
    ensures Flatten(RowText(cells, i, m)) == cells[8 * i .. 8 * i + m]
  {
    if m > 0 {
      FlattenRow(cells, i, m - 1);
      FlattenRowStep(cells, i, m);
      SliceJoin(cells, 8 * i, 8 * i + m - 1, 8 * i + m);
      assert cells[8 * i + m - 1 .. 8 * i + m] == [cells[8 * i + m - 1]];
    }
  }

  lemma {:induction false} FlattenGrid(cells: string, n: nat)
    requires |cells| == 64 && n <= 8 && NoBlanks(cells)
    ensures Flatten(Grid(cells, n)) == cells[.. 8 * n]
  {
    if n > 0 {
      var prev := Grid(cells, n - 1);
      var row := RowText(cells, n - 1, 8);
      FlattenGrid(cells, n - 1);
      FlattenRow(cells, n - 1, 8);
      assert Grid(cells, n) == (prev + row) + ['\n'];
      FlattenSnoc(prev + row, '\n');
      FlattenAppend(prev, row);
      SliceJoin(cells, 0, 8 * (n - 1), 8 * n);
      assert cells[.. 8 * n] == cells[0 .. 8 * n] && cells[.. 8 * (n - 1)] == cells[0 .. 8 * (n - 1)];
    }
  }

  /** A text starting with a non-blank character flattens to a text starting with it. */
  lemma FlattenHead(s: string)
    requires |s| > 0 && !IsBlank(s[0])
    ensures |Flatten(s)| > 0 && Flatten(s)[0] == s[0]
  {
  }

  /** The printed text flattens to the cells followed by the flattened side line. */
  lemma FlattenText(b: RawBoard)
    requires |b.cells| == 64 && NoBlanks(b.cells)
    ensures Flatten(ToString(b)) == b.cells + Flatten(SideLine(b.side))
  {
    var g := Grid(b.cells, 8);
    assert ToString(b) == (g + ['\n']) + SideLine(b.side);
    FlattenAppend(g + ['\n'], SideLine(b.side));
    FlattenSnoc(g, '\n');
    FlattenGrid(b.cells, 8);
    assert b.cells[.. 64] == b.cells;
  }

  /**
   * Printing then parsing gives back the cells, reads the side as white exactly when it was
   * 'W', and resets the flag byte to all castling rights with no en-passant target.
   */
  lemma ParsePrinted(b: RawBoard)
    requires |b.cells| == 64 && NoBlanks(b.cells)
    ensures FromString(ToString(b)) ==
      RawBoard(b.cells, if b.side == WhiteToMove then WhiteToMove else BlackToMove, AllCastleRights)
  {
    var flat := Flatten(ToString(b));
    FlattenText(b);
    FlattenHead(SideLine(b.side));
    assert flat[64] == SideLine(b.side)[0];
    var r := FromString(ToString(b));
    assert forall i :: 0 <= i < 64 ==> flat[i] == b.cells[i];
    assert r.cells == b.cells;
  }

  /** An engine board always has printable cells, so its text round-trips. */
  lemma ParsePrintedBoard(b: Board)
    ensures FromString(ToString(b)) ==
      RawBoard(b.cells, if b.side == WhiteToMove then WhiteToMove else BlackToMove, AllCastleRights)
  {
    assert NoBlanks(b.cells) by {
      forall k | 0 <= k < 64
        ensures !IsBlank(b.cells[k])
      {
        assert IsCell(b.cells[k]);
      }
    }
    ParsePrinted(b);
  }

  /** The printer always produces well-formed text when no cell is a space or a newline. */
  lemma PrintedIsWellFormed(b: RawBoard)
    requires |b.cells| == 64 && NoBlanks(b.cells)
    ensures WellFormedText(ToString(b))
  {
    var s := ToString(b);
    PrintedGrid(b);
    assert s[129..] == SideLine(b.side);
  }

  lemma PrintedGrid(b: RawBoard)
    requires |b.cells| == 64 && NoBlanks(b.cells)
    ensures |ToString(b)| == 142 && ToString(b)[128] == '\n'
    ensures forall k :: 0 <= k < 128 ==>
      if k % 16 == 15 then ToString(b)[k] == '\n'
      else if k % 2 == 1 then ToString(b)[k] == ' '
      else !IsBlank(ToString(b)[k]) && ToString(b)[k] as int < 256
  {
    var s := ToString(b);
    var g := Grid(b.cells, 8);
    GridAt(b.cells, 8);
    assert forall k :: 0 <= k < 128 ==> s[k] == g[k];
  }

  /** The text offset of cell `i`. */
  function CellOffset(i: int): int {
    16 * (i / 8) + 2 * (i % 8)
  }

  lemma CellOffsetLayout(i: int)
    requires 0 <= i < 64
    ensures 0 <= CellOffset(i) < 128
    ensures CellOffset(i) / 16 == i / 8 && CellOffset(i) % 16 == 2 * (i % 8)
  {
  }

  /** The cells of well-formed text, read at their offsets. */
  function CellsOf(s: string): (r: seq<Byte>)
    requires WellFormedText(s)
    ensures |r| == 64 && NoBlanks(r)
  {
    var r := seq(64, i requires 0 <= i < 64 =>
      CellOffsetLayout(i);
      s[CellOffset(i)] as Byte);
    r
  }

  /** The grid part of well-formed text is the grid of its cells. */
  lemma WellFormedGrid(s: string)
    requires WellFormedText(s)
    ensures Grid(CellsOf(s), 8) == s[.. 128]
  {
    var cells := CellsOf(s);
    var g := Grid(cells, 8);
    GridAt(cells, 8);
    forall k | 0 <= k < 128
      ensures g[k] == s[k]
    {
      var t := k % 16;
      if t % 2 == 0 && t != 15 {
        var i := 8 * (k / 16) + t / 2;
        CellOffsetLayout(i);
        assert i / 8 == k / 16 && i % 8 == t / 2;
        assert CellOffset(i) == k;
      }
    }
  }

  /** Well-formed text is the printed form of its cells and side. */
  lemma WellFormedPrinted(s: string)
    requires WellFormedText(s)
    ensures var side: Byte := if s[129..] == "White to move" then WhiteToMove else BlackToMove;
      ToString(RawBoard(CellsOf(s), side, AllCastleRights)) == s
  {
    var side: Byte := if s[129..] == "White to move" then WhiteToMove else BlackToMove;
    WellFormedGrid(s);
    assert s[129..] == SideLine(side);
    assert s == s[.. 128] + "\n" + s[129..];
  }

  /** Parsing then printing well-formed text gives back the same text. */
  lemma PrintParsed(s: string)
    requires WellFormedText(s)
    ensures ToString(FromString(s)) == s
  {
    var side: Byte := if s[129..] == "White to move" then WhiteToMove else BlackToMove;
    var b := RawBoard(CellsOf(s), side, AllCastleRights);
    WellFormedPrinted(s);
    ParsePrinted(b);
  }
}
