/**
 * Square names (`src/pgn.ts`): `a1`..`h8` against the board's indices, where index 0 is a8
 * and index 63 is h1.
 */
module Pgn {
  import opened Wrappers

  const Files: string := "abcdefgh"
  const Ranks: string := "12345678"

  /** `s.indexOf(c)`: the first position of `c` in `s`, or -1 when it does not occur. */
  function IndexOf(s: string, c: char): int {
    if |s| == 0 then -1
    else if s[0] == c then 0
    else
      var rest := IndexOf(s[1..], c);
      if rest == -1 then -1 else rest + 1
  }

  /** `IndexOf` finds the first occurrence, and -1 exactly when there is none. */
  lemma {:induction false} IndexOfSpec(s: string, c: char)
    ensures -1 <= IndexOf(s, c) < |s|
    ensures IndexOf(s, c) == -1 <==> c !in s
    ensures IndexOf(s, c) >= 0 ==>
      s[IndexOf(s, c)] == c && forall j :: 0 <= j < IndexOf(s, c) ==> s[j] != c
    decreases |s|
  {
    if |s| > 0 && s[0] != c {
      IndexOfSpec(s[1..], c);
      assert forall j :: 1 <= j < |s| ==> s[j] == s[1..][j - 1];
      assert c in s <==> c in s[1..];
    }
  }

  /** The files are the consecutive letters a to h. */
  lemma FilesConsecutive()
    ensures forall k :: 0 <= k < 8 ==> Files[k] as int == 'a' as int + k
  {
  }

  /** The ranks are the consecutive digits 1 to 8. */
  lemma RanksConsecutive()
    ensures forall k :: 0 <= k < 8 ==> Ranks[k] as int == '1' as int + k
  {
  }

  /** In a run of consecutive characters from `base`, a character's position is its distance from `base`. */
  lemma {:induction false} IndexOfConsecutive(s: string, base: int, c: char)
    requires forall k :: 0 <= k < |s| ==> s[k] as int == base + k
    ensures IndexOf(s, c) == if base <= c as int < base + |s| then c as int - base else -1
    decreases |s|
  {
    if |s| > 0 && s[0] != c {
      var rest := s[1..];
      assert forall k :: 0 <= k < |rest| ==> rest[k] == s[k + 1];
      IndexOfConsecutive(rest, base + 1, c);
    }
  }

  /** The file index of a character: its distance from 'a', or -1 outside a..h. */
  lemma FileIndex(c: char)
    ensures IndexOf(Files, c) == if 'a' <= c <= 'h' then c as int - 'a' as int else -1
  {
    FilesConsecutive();
    IndexOfConsecutive(Files, 'a' as int, c);
  }

  /** The rank index of a character: its distance from '1', or -1 outside 1..8. */
  lemma RankIndex(c: char)
    ensures IndexOf(Ranks, c) == if '1' <= c <= '8' then c as int - '1' as int else -1
  {
    RanksConsecutive();
    IndexOfConsecutive(Ranks, '1' as int, c);
  }

  /**
   * `pos.fromPgn(str)`: `None` where the source's assertion on the length fails; otherwise
   * `8 * (7 - rank) + file` with -1 for a character that is not a rank or a file.
   */
  function FromPgn(s: string): (r: Option<int>)
    ensures r.Some? <==> |s| == 2
  {
    if |s| != 2 then None
    else Some(8 * (7 - IndexOf(Ranks, s[1])) + IndexOf(Files, s[0]))
  }

  /** `pos.toPgn(idx)`: `None` where the source's assertion on the range fails. */
  function ToPgn(idx: int): (r: Option<string>)
    ensures r.Some? <==> 0 <= idx < 64
    ensures r.Some? ==> |r.value| == 2 && r.value[0] in Files && r.value[1] in Ranks
  {
    if 0 <= idx < 64 then Some([Files[idx % 8], Ranks[7 - idx / 8]]) else None
  }

  /** A name of a file letter and a rank digit. */
  predicate IsSquareName(s: string) {
    |s| == 2 && s[0] in Files && s[1] in Ranks
  }

  /** The name of file `f` and rank `k` reads as `8 * (7 - k) + f`. */
  lemma FromPgnOf(f: int, k: int)
    requires 0 <= f < 8 && 0 <= k < 8
    ensures FromPgn([Files[f], Ranks[k]]) == Some(8 * (7 - k) + f)
  {
    FilesConsecutive();
    RanksConsecutive();
    FileIndex(Files[f]);
    RankIndex(Ranks[k]);
    var name := [Files[f], Ranks[k]];
    assert name[0] == Files[f] && name[1] == Ranks[k];
  }

  /** Naming an index and reading the name back gives the index. */
  lemma FromToPgn(idx: int)
    requires 0 <= idx < 64
    ensures ToPgn(idx).Some? && FromPgn(ToPgn(idx).value) == Some(idx)
  {
    var file, rank := idx % 8, 7 - idx / 8;
    FromPgnOf(file, rank);
    assert ToPgn(idx).value == [Files[file], Ranks[rank]];
    assert idx == 8 * (7 - rank) + file;
  }

  /** The position of a file or rank character is its distance from the first one. */
  lemma MemberOfConsecutive(s: string, base: int, c: char) returns (k: int)
    requires forall j :: 0 <= j < |s| ==> s[j] as int == base + j
    requires c in s
    ensures k == c as int - base && 0 <= k < |s| && s[k] == c
  {
    k :| 0 <= k < |s| && s[k] == c;
  }

  /** Every square name reads to an index on the board, whose name is the one read. */
  lemma ToFromPgn(s: string)
    requires IsSquareName(s)
    ensures FromPgn(s).Some? && 0 <= FromPgn(s).value < 64
    ensures ToPgn(FromPgn(s).value) == Some(s)
  {
    FilesConsecutive();
    RanksConsecutive();
    var f := MemberOfConsecutive(Files, 'a' as int, s[0]);
    var k := MemberOfConsecutive(Ranks, '1' as int, s[1]);
    assert s == [Files[f], Ranks[k]];
    FromPgnOf(f, k);
    var idx := 8 * (7 - k) + f;
    assert idx % 8 == f && idx / 8 == 7 - k;
  }

  /** The names that read to an index on the board are exactly the square names. */
  lemma FromPgnOnBoard(s: string)
    requires |s| == 2
    ensures 0 <= FromPgn(s).value < 64 && ToPgn(FromPgn(s).value) == Some(s) <==> IsSquareName(s)
  {
    if IsSquareName(s) {
      ToFromPgn(s);
    }
  }

  /** The corners: a8 is index 0, h8 is 7, a1 is 56 and h1 is 63. */
  lemma Corners()
    ensures FromPgn("a8") == Some(0) && FromPgn("h8") == Some(7)
    ensures FromPgn("a1") == Some(56) && FromPgn("h1") == Some(63)
  {
    FromPgnOf(0, 7);
    FromPgnOf(7, 7);
    FromPgnOf(0, 0);
    FromPgnOf(7, 0);
    assert "a8" == [Files[0], Ranks[7]] && "h8" == [Files[7], Ranks[7]];
    assert "a1" == [Files[0], Ranks[0]] && "h1" == [Files[7], Ranks[0]];
  }

  /**
   * Characters outside the files and ranks are not rejected: `i1` reads as h2's index,
   * because the -1 of the unknown file borrows from the rank.
   */
  lemma UncheckedCharacters()
    ensures FromPgn("i1") == FromPgn("h2") == Some(55)
    ensures !IsSquareName("i1")
  {
    FromPgnOf(7, 1);
    assert "h2" == [Files[7], Ranks[1]];
    var name := "i1";
    FileIndex(name[0]);
    RankIndex(name[1]);
    IndexOfSpec(Files, name[0]);
  }
}
