/**
 * The opening position: `Board()` in `src/Chess.ts` and `newGame` in `src/board.ts`, each
 * parsed from a template text that differs only in its indentation.
 */
module StartPosition {
  import opened BoardState
  import opened BoardText

  /** The rows of both templates, row 0 (black's back rank) first. */
  const StartRows: seq<string> :=
    ["RNBQKBNR", "PPPPPPPP", "........", "........", "........", "........", "pppppppp", "rnbqkbnr"]

  /** The rows one after the other. */
  function Join(rows: seq<string>): string {
    if |rows| == 0 then [] else rows[0] + Join(rows[1..])
  }

  /** A row written with one space between neighbouring cells. */
  function Spaced(row: string): string {
    if |row| <= 1 then row else [row[0], ' '] + Spaced(row[1..])
  }

  /** A row indented and ended by a newline. */
  function Line(indent: string, row: string): string {
    indent + Spaced(row) + "\n"
  }

  /** Each row on a line of its own. */
  function Lines(indent: string, rows: seq<string>): string {
    if |rows| == 0 then [] else Line(indent, rows[0]) + Lines(indent, rows[1..])
  }

  /**
   * A template literal: a newline, the indented rows, an empty line, the indented side line
   * with its newline, and the indentation before the closing backquote.
   */
  function Template(indent: string, rows: seq<string>, closing: string): string {
    "\n" + Lines(indent, rows) + "\n" + indent + "White to move\n" + closing
  }

  /** `n` spaces. */
  function Spaces(n: nat): string {
    seq(n, _ => ' ')
  }

  /** `Board()`: the template indented by six spaces and closed after four. */
  function NewBoard(): RawBoard {
    FromString(Template(Spaces(6), StartRows, Spaces(4)))
  }

  /** `newGame`: the template indented by two spaces and closed at the line start. */
  function NewGame(): RawBoard {
    FromString(Template(Spaces(2), StartRows, []))
  }

  predicate AllBlank(s: string) {
    forall k :: 0 <= k < |s| ==> IsBlank(s[k])
  }

  lemma {:induction false} FlattenBlank(s: string)
    requires AllBlank(s)
    ensures Flatten(s) == []
  {
    if |s| > 0 {
      FlattenBlank(s[1..]);
    }
  }

  /** Spacing a row out and flattening it gives the row back. */
  lemma {:induction false} FlattenSpaced(row: string)
    requires NoBlanks(row)
    ensures Flatten(Spaced(row)) == row
  {
    if |row| > 1 {
      var rest := row[1..];
      FlattenSpaced(rest);
      FlattenAppend([row[0], ' '], Spaced(rest));
      FlattenSnoc([row[0]], ' ');
      FlattenNoBlanks([row[0]]);
      assert row == [row[0]] + rest;
    } else {
      FlattenNoBlanks(row);
    }
  }

  /** Every row of `rows` is free of blanks. */
  predicate RowsNoBlanks(rows: seq<string>) {
    forall i :: 0 <= i < |rows| ==> NoBlanks(rows[i])
  }

  /** An indented line flattens to its row. */
  lemma FlattenLine(indent: string, row: string)
    requires AllBlank(indent) && NoBlanks(row)
    ensures Flatten(Line(indent, row)) == row
  {
    var body := indent + Spaced(row);
    FlattenSnoc(body, '\n');
    FlattenAppend(indent, Spaced(row));
    FlattenBlank(indent);
    FlattenSpaced(row);
  }

  /** The indented lines flatten to the rows one after the other. */
  lemma {:induction false} FlattenLines(indent: string, rows: seq<string>)
    requires AllBlank(indent) && RowsNoBlanks(rows)
    ensures Flatten(Lines(indent, rows)) == Join(rows)
  {
    if |rows| > 0 {
      var rest := rows[1..];
      assert RowsNoBlanks(rest) by {
        forall i | 0 <= i < |rest|
          ensures NoBlanks(rest[i])
        {
          assert rest[i] == rows[i + 1];
        }
      }
      FlattenLines(indent, rest);
      FlattenAppend(Line(indent, rows[0]), Lines(indent, rest));
      FlattenLine(indent, rows[0]);
    }
  }

  /** The pieces of a back rank, from column 0 to column 7. */
  function BackRank(col: int): Kind {
    if col == 0 || col == 7 then Rook
    else if col == 1 || col == 6 then Knight
    else if col == 2 || col == 5 then Bishop
    else if col == 3 then Queen
    else King
  }

  /**
   * The standard opening position, square by square: black's back rank and pawns on rows 0
   * and 1, white's pawns and back rank on rows 6 and 7, the rest empty.
   */
  function StandardCell(i: int): Byte {
    var row, col := i / 8, i % 8;
    if row == 0 then Code(BackRank(col), false)
    else if row == 1 then Code(Pawn, false)
    else if row == 6 then Code(Pawn, true)
    else if row == 7 then Code(BackRank(col), true)
    else Empty
  }

  /** A sequence of rows of eight, read as one string: row `r`, column `c` is at `8 * r + c`. */
  lemma {:induction false} JoinAt(rows: seq<string>)
    requires forall r :: 0 <= r < |rows| ==> |rows[r]| == 8
    ensures |Join(rows)| == 8 * |rows|
    ensures forall r, c :: 0 <= r < |rows| && 0 <= c < 8 ==> Join(rows)[8 * r + c] == rows[r][c]
  {
    if |rows| > 0 {
      var rest := rows[1..];
      JoinAt(rest);
      forall r, c | 0 <= r < |rows| && 0 <= c < 8
        ensures Join(rows)[8 * r + c] == rows[r][c]
      {
        if r > 0 {
          assert rows[r] == rest[r - 1];
          assert Join(rows)[8 * r + c] == Join(rest)[8 * (r - 1) + c];
        }
      }
    }
  }

  /** The standard opening position as a sequence of 64 cells. */
  function StartCells(): (r: seq<Byte>)
    ensures |r| == 64 && forall i :: 0 <= i < 64 ==> r[i] == StandardCell(i)
  {
    seq(64, i => StandardCell(i))
  }

  /** Each template row spells out the standard position's row. */
  lemma StartRowSpec(r: int)
    requires 0 <= r < 8
    ensures |StartRows[r]| == 8
    ensures forall c :: 0 <= c < 8 ==> StartRows[r][c] == StandardCell(8 * r + c)
  {
  }

  /** Eight rows of eight that spell out the standard position, row by row. */
  predicate SpellsStart(rows: seq<string>) {
    && |rows| == 8
    && (forall r :: 0 <= r < 8 ==> |rows[r]| == 8)
    && forall r, c :: 0 <= r < 8 && 0 <= c < 8 ==> rows[r][c] == StandardCell(8 * r + c)
  }

  /** Rows that spell out the standard position join to its cells. */
  lemma JoinSpellsStart(rows: seq<string>)
    requires SpellsStart(rows)
    ensures Join(rows) == StartCells()
  {
    JoinAt(rows);
    forall i | 0 <= i < 64
      ensures Join(rows)[i] == StandardCell(i)
    {
      var r, c := i / 8, i % 8;
      assert 0 <= r < 8 && 0 <= c < 8 && i == 8 * r + c;
      assert Join(rows)[8 * r + c] == rows[r][c] == StandardCell(8 * r + c);
    }
  }

  /** The template rows spell out the standard position. */
  lemma StartRowsSpell()
    ensures SpellsStart(StartRows)
  {
    forall r | 0 <= r < 8
      ensures |StartRows[r]| == 8
      ensures forall c :: 0 <= c < 8 ==> StartRows[r][c] == StandardCell(8 * r + c)
    {
      StartRowSpec(r);
    }
  }

  /** A template flattens to its rows followed by the flattened side line. */
  lemma FlattenTemplate(indent: string, rows: seq<string>, closing: string)
    requires AllBlank(indent) && RowsNoBlanks(rows)
    ensures Flatten(Template(indent, rows, closing)) == Join(rows) + Flatten("White to move\n" + closing)
  {
    var lines := Lines(indent, rows);
    var tail := "White to move\n" + closing;
    var head := "\n" + lines + "\n" + indent;
    assert Template(indent, rows, closing) == head + tail;
    FlattenAppend(head, tail);
    FlattenAppend("\n" + lines + "\n", indent);
    FlattenAppend("\n" + lines, "\n");
    FlattenAppend("\n", lines);
    FlattenBlank("\n");
    FlattenBlank(indent);
    FlattenLines(indent, rows);
  }

  /** A template of 64 cells parses to those cells, white to move, and every castling right. */
  lemma ParseTemplate(indent: string, rows: seq<string>, closing: string, cells: seq<Byte>)
    requires AllBlank(indent) && Join(rows) == cells && |cells| == 64 && NoBlanks(cells)
    requires RowsNoBlanks(rows)
    ensures FromString(Template(indent, rows, closing)) == RawBoard(cells, WhiteToMove, AllCastleRights)
  {
    var flat := Flatten(Template(indent, rows, closing));
    FlattenTemplate(indent, rows, closing);
    FlattenHead("White to move\n" + closing);
    assert flat[64] == 'W';
    var r := FromString(Template(indent, rows, closing));
    assert forall i :: 0 <= i < 64 ==> flat[i] == cells[i];
    assert r.cells == cells;
  }

  /** No cell of the standard position is a blank. */
  lemma StandardCellNotBlank(i: int)
    ensures !IsBlank(StandardCell(i))
  {
  }

  /** Rows that spell out the standard position hold no blank. */
  lemma SpellsStartNoBlanks(rows: seq<string>)
    requires SpellsStart(rows)
    ensures RowsNoBlanks(rows) && NoBlanks(StartCells())
  {
    forall r, c | 0 <= r < 8 && 0 <= c < 8
      ensures !IsBlank(rows[r][c])
    {
      StandardCellNotBlank(8 * r + c);
    }
    forall i | 0 <= i < 64
      ensures !IsBlank(StartCells()[i])
    {
      StandardCellNotBlank(i);
    }
  }

  /** `n` spaces are all blank. */
  lemma SpacesBlank(n: nat)
    ensures AllBlank(Spaces(n))
  {
  }

  /** A template over the rows that spell out the standard position parses to it. */
  lemma ParseStartTemplate(indent: string, rows: seq<string>, closing: string)
    requires AllBlank(indent) && SpellsStart(rows)
    ensures FromString(Template(indent, rows, closing)) == RawBoard(StartCells(), WhiteToMove, AllCastleRights)
  {
    JoinSpellsStart(rows);
    SpellsStartNoBlanks(rows);
    ParseTemplate(indent, rows, closing, StartCells());
  }

  /** A template over the template rows parses to the standard position, whatever the indentation. */
  lemma ParseStartRows(indent: string, closing: string)
    requires AllBlank(indent)
    ensures FromString(Template(indent, StartRows, closing)) == RawBoard(StartCells(), WhiteToMove, AllCastleRights)
  {
    StartRowsSpell();
    ParseStartTemplate(indent, StartRows, closing);
  }

  /**
   * `Board()` builds the standard opening position with white to move, all four castling
   * rights and no en-passant target.
   */
  lemma NewBoardSpec()
    ensures NewBoard() == RawBoard(StartCells(), WhiteToMove, AllCastleRights)
  {
    var indent, closing := Spaces(6), Spaces(4);
    SpacesBlank(6);
    ParseStartRows(indent, closing);
    assert NewBoard() == FromString(Template(indent, StartRows, closing));
  }

  /** `newGame` builds the same position as `Board()`. */
  lemma NewGameSpec()
    ensures NewGame() == RawBoard(StartCells(), WhiteToMove, AllCastleRights)
  {
    var indent := Spaces(2);
    SpacesBlank(2);
    ParseStartRows(indent, []);
    assert NewGame() == FromString(Template(indent, StartRows, []));
  }

  /** The two copies agree on the opening position. */
  lemma SameStart()
    ensures NewGame() == NewBoard()
  {
    var start := RawBoard(StartCells(), WhiteToMove, AllCastleRights);
    NewGameSpec();
    NewBoardSpec();
    assert NewGame() == start && NewBoard() == start;
  }
}
