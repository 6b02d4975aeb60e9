/**
 * The pure view of the board: a square grid of cells, its lines (rows,
 * columns, both diagonals), the win test, the blank count and the outcome of
 * an evaluation.
 */
module Grids {

  type Cell = string
  type Grid = seq<seq<Cell>>

  /** The content of a cell nobody has played yet. */
  const Blank: Cell := " "
  /** The winner field of an outcome that names nobody. */
  const Tie: string := "tie"

  /** `n` rows of `n` cells each, with at least one row. */
  predicate Square(g: Grid)
  {
    |g| > 0 && forall r :: 0 <= r < |g| ==> |g[r]| == |g|
  }

  /** A fresh grid: every cell blank. */
  function FreshGrid(n: nat): (g: Grid)
    ensures |g| == n && forall r :: 0 <= r < n ==> |g[r]| == n
    ensures forall r, c :: 0 <= r < n && 0 <= c < n ==> g[r][c] == Blank
  {
    seq(n, r => seq(n, c => Blank))
  }

  /** Two grids of the same shape that agree on every cell are equal. */
  lemma GridExtensionality(g: Grid, h: Grid)
    requires |g| == |h| && forall r :: 0 <= r < |g| ==> |g[r]| == |h[r]|
    requires forall r, c :: 0 <= r < |g| && 0 <= c < |g[r]| ==> g[r][c] == h[r][c]
    ensures g == h
  {
    forall r | 0 <= r < |g| ensures g[r] == h[r] {
      assert forall c :: 0 <= c < |g[r]| ==> g[r][c] == h[r][c];
    }
  }

  /** The grid with `mark` written into cell (r, c) and nothing else changed. */
  function Place(g: Grid, r: nat, c: nat, mark: Cell): (h: Grid)
    requires Square(g) && r < |g| && c < |g|
    ensures Square(h) && |h| == |g|
    ensures forall i, j :: 0 <= i < |g| && 0 <= j < |g| ==>
              h[i][j] == if i == r && j == c then mark else g[i][j]
  {
    g[r := g[r][c := mark]]
  }

  function Column(g: Grid, c: nat): seq<Cell>
    requires Square(g) && c < |g|
  {
    seq(|g|, r requires 0 <= r < |g| => g[r][c])
  }

  function Columns(g: Grid): seq<seq<Cell>>
    requires Square(g)
  {
    seq(|g|, c requires 0 <= c < |g| => Column(g, c))
  }

  /** Cells [i][i], upper left to lower right. */
  function MainDiagonal(g: Grid): seq<Cell>
    requires Square(g)
  {
    seq(|g|, i requires 0 <= i < |g| => g[i][i])
  }

  /** Cells [i][n-1-i], upper right to lower left. */
  function AntiDiagonal(g: Grid): seq<Cell>
    requires Square(g)
  {
    seq(|g|, i requires 0 <= i < |g| => g[i][|g| - 1 - i])
  }

  /**
   * Every line of the grid in the order the evaluation examines them: rows
   * top to bottom, columns left to right, the main diagonal, the anti-diagonal.
   */
  function Lines(g: Grid): (ls: seq<seq<Cell>>)
    requires Square(g)
    ensures |ls| == 2 * |g| + 2
  {
    g + Columns(g) + [MainDiagonal(g), AntiDiagonal(g)]
  }

  /**
   * Line k of the examination order, cell by cell: rows top to bottom, then
   * columns left to right, then [i][i], then [i][n-1-i].
   */
  lemma LineOrder(g: Grid)
    requires Square(g)
    ensures forall k :: 0 <= k < 2 * |g| + 2 ==> |Lines(g)[k]| == |g|
    ensures forall k, i :: 0 <= k < |g| && 0 <= i < |g| ==> Lines(g)[k][i] == g[k][i]
    ensures forall k, i :: 0 <= k < |g| && 0 <= i < |g| ==> Lines(g)[|g| + k][i] == g[i][k]
    ensures forall i :: 0 <= i < |g| ==> Lines(g)[2 * |g|][i] == g[i][i]
    ensures forall i :: 0 <= i < |g| ==> Lines(g)[2 * |g| + 1][i] == g[i][|g| - 1 - i]
  {
  }

  /** Every cell of every line is a cell of the grid. */
  lemma LineCellsAreGridCells(g: Grid, k: nat, i: nat)
    requires Square(g) && k < 2 * |g| + 2 && i < |g|
    ensures exists r, c :: 0 <= r < |g| && 0 <= c < |g| && Lines(g)[k][i] == g[r][c]
  {
    var n := |g|;
    LineOrder(g);
    if k < n {
      assert Lines(g)[k][i] == g[k][i];
    } else if k < 2 * n {
      assert Lines(g)[k][i] == g[i][k - n];
    } else if k == 2 * n {
      assert Lines(g)[k][i] == g[i][i];
    } else {
      assert Lines(g)[k][i] == g[i][n - 1 - i];
    }
  }

  /** A line is won: its first cell is not blank and every cell equals it. */
  predicate Complete(line: seq<Cell>)
    ensures Complete(line) ==> forall i :: 0 <= i < |line| ==> line[i] != Blank
  {
    |line| > 0 && line[0] != Blank && forall i :: 0 <= i < |line| ==> line[i] == line[0]
  }

  /** The win test written with a set, as the source does: one distinct value. */
  lemma CompleteMatchesSetTest(line: seq<Cell>)
    ensures Complete(line) <==> |line| > 0 && line[0] != Blank && |set x | x in line| == 1
  {
    if |line| > 0 {
      var values := set x | x in line;
      assert line[0] in values;
      if forall i :: 0 <= i < |line| ==> line[i] == line[0] {
        assert values == {line[0]};
      } else {
        var i :| 0 <= i < |line| && line[i] != line[0];
        assert line[i] in values;
        assert {line[0], line[i]} <= values;
        assert |{line[0], line[i]}| == 2;
        SubsetSize({line[0], line[i]}, values);
      }
    }
  }

  lemma SubsetSize<T>(a: set<T>, b: set<T>)
    requires a <= b
    ensures |a| <= |b|
  {
    assert b == a + (b - a);
  }

  /** No cell of `g` is blank. */
  predicate Full(g: Grid)
  {
    forall r, c :: 0 <= r < |g| && 0 <= c < |g[r]| ==> g[r][c] != Blank
  }

  /** Number of blank cells in one row (the source's `row.count(" ")`). */
  function RowBlanks(row: seq<Cell>): (count: nat)
    ensures count <= |row|
    ensures count == 0 <==> forall c :: 0 <= c < |row| ==> row[c] != Blank
  {
    if row == [] then 0
    else
      var front := row[..|row| - 1];
      assert forall c :: 0 <= c < |front| ==> front[c] == row[c];
      RowBlanks(front) + (if row[|row| - 1] == Blank then 1 else 0)
  }

  /** Number of blank cells in the grid, summed row by row: zero exactly when no cell is blank. */
  function BlankCount(g: Grid): (count: nat)
    ensures count == 0 <==> Full(g)
  {
    if g == [] then 0
    else
      var front := g[..|g| - 1];
      assert forall r :: 0 <= r < |front| ==> front[r] == g[r];
      BlankCount(front) + RowBlanks(g[|g| - 1])
  }

  lemma {:induction false} RowBlanksAfterWrite(row: seq<Cell>, c: nat, mark: Cell)
    requires c < |row| && row[c] == Blank && mark != Blank
    ensures RowBlanks(row[c := mark]) + 1 == RowBlanks(row)
  {
    var k := |row| - 1;
    if c < k {
      RowBlanksAfterWrite(row[..k], c, mark);
      assert row[c := mark][..k] == row[..k][c := mark];
    } else {
      assert row[c := mark][..k] == row[..k];
    }
  }

  /** Writing a mark into a blank cell removes exactly one blank. */
  lemma {:induction false} BlankCountAfterPlace(g: Grid, r: nat, c: nat, mark: Cell)
    requires Square(g) && r < |g| && c < |g| && g[r][c] == Blank && mark != Blank
    ensures BlankCount(Place(g, r, c, mark)) + 1 == BlankCount(g)
  {
    var h := g[r := g[r][c := mark]];
    assert Place(g, r, c, mark) == h;
    RowsBlankCountAfterWrite(g, r, c, mark);
  }

  lemma {:induction false} RowsBlankCountAfterWrite(g: seq<seq<Cell>>, r: nat, c: nat, mark: Cell)
    requires r < |g| && c < |g[r]| && g[r][c] == Blank && mark != Blank
    ensures BlankCount(g[r := g[r][c := mark]]) + 1 == BlankCount(g)
  {
    var k := |g| - 1;
    var h := g[r := g[r][c := mark]];
    assert BlankCount(g) == BlankCount(g[..k]) + RowBlanks(g[k]);
    assert BlankCount(h) == BlankCount(h[..k]) + RowBlanks(h[k]);
    if r < k {
      RowsBlankCountAfterWrite(g[..k], r, c, mark);
      assert h[..k] == g[..k][r := g[r][c := mark]];
    } else {
      assert h[..k] == g[..k];
      RowBlanksAfterWrite(g[r], c, mark);
    }
  }

  /** What an evaluation reports: the source's pair, or the failed name lookup. */
  datatype Outcome =
    | Reported(over: bool, winner: string)
    | KeyError(mark: Cell)

  /** Report the player whose mark owns a won line. */
  function Announce(mark: Cell, names: map<Cell, string>): (o: Outcome)
    ensures o.Reported? <==> mark in names
    ensures o.Reported? ==> o.over && o.winner == names[mark]
    ensures o.KeyError? ==> o.mark == mark
  {
    if mark in names then Reported(true, names[mark]) else KeyError(mark)
  }

  /** Examine `lines` in order; the first won line decides, else tie or play on. */
  function Scan(lines: seq<seq<Cell>>, names: map<Cell, string>, blanks: nat): (o: Outcome)
    ensures o.KeyError? ==> o.mark != Blank && o.mark !in names
    ensures o.Reported? && !o.over ==>
              o.winner == Tie && blanks > 0 && NoneWon(lines, |lines|)
  {
    if lines == [] then Reported(blanks == 0, Tie)
    else if Complete(lines[0]) then Announce(lines[0][0], names)
    else Scan(lines[1..], names, blanks)
  }

  /** The evaluation of a grid against the mark-to-name lookup. */
  function Evaluate(g: Grid, names: map<Cell, string>): (o: Outcome)
    requires Square(g)
    ensures o.KeyError? ==> o.mark != Blank && o.mark !in names
    ensures o.Reported? && !o.over ==>
              o.winner == Tie && !Full(g)
  {
    Scan(Lines(g), names, BlankCount(g))
  }

  /** One more row of the row pass: its blanks, its diagonal cells and its column. */
  lemma RowPassStep(g: Grid, index: nat)
    requires Square(g) && index < |g|
    ensures BlankCount(g[..index + 1]) == BlankCount(g[..index]) + RowBlanks(g[index])
    ensures MainDiagonal(g)[..index + 1] == MainDiagonal(g)[..index] + [g[index][index]]
    ensures AntiDiagonal(g)[..index + 1] == AntiDiagonal(g)[..index] + [g[index][|g[index]| - index - 1]]
    ensures Columns(g)[..index + 1] == Columns(g)[..index] + [Column(g, index)]
  {
    assert g[..index + 1][..index] == g[..index];
  }

  /** After the row pass the accumulated parts are the whole columns and diagonals. */
  lemma RowPassDone(g: Grid)
    requires Square(g)
    ensures BlankCount(g[..|g|]) == BlankCount(g)
    ensures MainDiagonal(g)[..|g|] == MainDiagonal(g)
    ensures AntiDiagonal(g)[..|g|] == AntiDiagonal(g)
    ensures Columns(g)[..|g|] == Columns(g)
  {
    WholePrefix(g);
    WholePrefix(MainDiagonal(g));
    WholePrefix(AntiDiagonal(g));
    WholePrefix(Columns(g));
  }

  /** The prefix of a sequence as long as the sequence is the sequence. */
  lemma WholePrefix<T>(s: seq<T>)
    ensures s[..|s|] == s
  {
  }

  /** None of the first `k` lines is won. */
  predicate NoneWon(lines: seq<seq<Cell>>, k: nat)
    requires k <= |lines|
  {
    forall j :: 0 <= j < k ==> !Complete(lines[j])
  }

  /** Passing over one more line that is not won. */
  lemma NoneWonStep(lines: seq<seq<Cell>>, k: nat)
    requires k < |lines| && NoneWon(lines, k) && !Complete(lines[k])
    ensures NoneWon(lines, k + 1)
  {
  }

  /** The rows and then the columns lead the examination order. */
  lemma LinesLead(g: Grid)
    requires Square(g)
    ensures forall r :: 0 <= r < |g| ==> Lines(g)[r] == g[r]
    ensures forall c :: 0 <= c < |g| ==> Lines(g)[|g| + c] == Columns(g)[c]
    ensures Lines(g)[2 * |g|] == MainDiagonal(g) && Lines(g)[2 * |g| + 1] == AntiDiagonal(g)
  {
  }

  /** The first won row, with no won row above it, decides. */
  lemma RowWonFirst(g: Grid, names: map<Cell, string>, r: nat)
    requires Square(g) && r < |g| && NoneWon(g, r) && Complete(g[r])
    ensures Evaluate(g, names) == Announce(g[r][0], names)
  {
    LinesLead(g);
    FirstWonLineDecides(g, names, r);
  }

  /** With no won row, the first won column decides. */
  lemma ColumnWonFirst(g: Grid, names: map<Cell, string>, c: nat)
    requires Square(g) && c < |g| && NoneWon(g, |g|)
    requires NoneWon(Columns(g), c) && Complete(Columns(g)[c])
    ensures Evaluate(g, names) == Announce(Columns(g)[c][0], names)
  {
    LinesLead(g);
    var n := |g|;
    forall j | 0 <= j < n + c ensures !Complete(Lines(g)[j]) {
      if j >= n {
        assert Lines(g)[j] == Columns(g)[j - n];
      }
    }
    FirstWonLineDecides(g, names, n + c);
  }

  /** With no won row or column, the main diagonal decides when won. */
  lemma MainDiagonalWonFirst(g: Grid, names: map<Cell, string>)
    requires Square(g) && NoneWon(g, |g|) && NoneWon(Columns(g), |g|)
    requires Complete(MainDiagonal(g))
    ensures Evaluate(g, names) == Announce(MainDiagonal(g)[0], names)
  {
    LinesLead(g);
    var n := |g|;
    forall j | 0 <= j < 2 * n ensures !Complete(Lines(g)[j]) {
      if j >= n {
        assert Lines(g)[j] == Columns(g)[j - n];
      }
    }
    FirstWonLineDecides(g, names, 2 * n);
  }

  /** With no other won line, the anti-diagonal decides when won. */
  lemma AntiDiagonalWonFirst(g: Grid, names: map<Cell, string>)
    requires Square(g) && NoneWon(g, |g|) && NoneWon(Columns(g), |g|)
    requires !Complete(MainDiagonal(g)) && Complete(AntiDiagonal(g))
    ensures Evaluate(g, names) == Announce(AntiDiagonal(g)[0], names)
  {
    LinesLead(g);
    var n := |g|;
    forall j | 0 <= j < 2 * n + 1 ensures !Complete(Lines(g)[j]) {
      if n <= j < 2 * n {
        assert Lines(g)[j] == Columns(g)[j - n];
      }
    }
    FirstWonLineDecides(g, names, 2 * n + 1);
  }

  /** With no won line at all, the blank count alone decides. */
  lemma NoLineWonCount(g: Grid, names: map<Cell, string>)
    requires Square(g) && NoneWon(g, |g|) && NoneWon(Columns(g), |g|)
    requires !Complete(MainDiagonal(g)) && !Complete(AntiDiagonal(g))
    ensures Evaluate(g, names) == Reported(BlankCount(g) == 0, Tie)
  {
    LinesLead(g);
    var n := |g|;
    forall j | 0 <= j < 2 * n + 2 ensures !Complete(Lines(g)[j]) {
      if n <= j < 2 * n {
        assert Lines(g)[j] == Columns(g)[j - n];
      }
    }
    ScanNoneComplete(Lines(g), names, BlankCount(g));
  }

  /** A line that is not won is passed over. */
  lemma ScanSkip(lines: seq<seq<Cell>>, i: nat, names: map<Cell, string>, blanks: nat)
    requires i < |lines| && !Complete(lines[i])
    ensures Scan(lines[i..], names, blanks) == Scan(lines[i + 1..], names, blanks)
  {
    assert lines[i..][0] == lines[i];
    assert lines[i..][1..] == lines[i + 1..];
  }

  /** A won line decides. */
  lemma ScanStop(lines: seq<seq<Cell>>, i: nat, names: map<Cell, string>, blanks: nat)
    requires i < |lines| && Complete(lines[i])
    ensures Scan(lines[i..], names, blanks) == Announce(lines[i][0], names)
  {
    assert lines[i..][0] == lines[i];
  }

  lemma {:induction false} ScanFirstComplete(lines: seq<seq<Cell>>, names: map<Cell, string>, blanks: nat, k: nat)
    requires k < |lines| && Complete(lines[k])
    requires forall j :: 0 <= j < k ==> !Complete(lines[j])
    ensures Scan(lines, names, blanks) == Announce(lines[k][0], names)
  {
    if k > 0 {
      ScanFirstComplete(lines[1..], names, blanks, k - 1);
    }
  }

  lemma {:induction false} ScanNoneComplete(lines: seq<seq<Cell>>, names: map<Cell, string>, blanks: nat)
    requires forall j :: 0 <= j < |lines| ==> !Complete(lines[j])
    ensures Scan(lines, names, blanks) == Reported(blanks == 0, Tie)
  {
    if lines != [] {
      ScanNoneComplete(lines[1..], names, blanks);
    }
  }

  /** Among the won lines up to `k`, the earliest one. */
  lemma {:induction false} EarliestComplete(lines: seq<seq<Cell>>, k: nat) returns (j: nat)
    requires k < |lines| && Complete(lines[k])
    ensures j <= k && Complete(lines[j])
    ensures forall i :: 0 <= i < j ==> !Complete(lines[i])
  {
    if i :| 0 <= i < k && Complete(lines[i]) {
      j := EarliestComplete(lines, i);
    } else {
      j := k;
    }
  }

  /**
   * Order of examination: the first won line, in the order of Lines, alone
   * decides the reported winner.
   */
  lemma FirstWonLineDecides(g: Grid, names: map<Cell, string>, k: nat)
    requires Square(g) && k < 2 * |g| + 2 && Complete(Lines(g)[k])
    requires forall j :: 0 <= j < k ==> !Complete(Lines(g)[j])
    ensures Evaluate(g, names) == Announce(Lines(g)[k][0], names)
  {
    ScanFirstComplete(Lines(g), names, BlankCount(g), k);
  }

  /** Without a won line the game is over exactly when no cell is blank. */
  lemma NoWonLine(g: Grid, names: map<Cell, string>)
    requires Square(g)
    requires forall k :: 0 <= k < 2 * |g| + 2 ==> !Complete(Lines(g)[k])
    ensures Evaluate(g, names) ==
            Reported(forall r, c :: 0 <= r < |g| && 0 <= c < |g| ==> g[r][c] != Blank, Tie)
  {
    ScanNoneComplete(Lines(g), names, BlankCount(g));
  }

  /**
   * A won line reports its owner when every won line belongs to the same mark
   * (the situation of a game played move by move).
   */
  lemma WonLineReportsOwner(g: Grid, names: map<Cell, string>, k: nat, mark: Cell)
    requires Square(g) && k < 2 * |g| + 2 && Complete(Lines(g)[k]) && Lines(g)[k][0] == mark
    requires forall j :: 0 <= j < 2 * |g| + 2 && Complete(Lines(g)[j]) ==> Lines(g)[j][0] == mark
    requires mark in names
    ensures Evaluate(g, names) == Reported(true, names[mark])
  {
    var j := EarliestComplete(Lines(g), k);
    FirstWonLineDecides(g, names, j);
  }

  /** When every non-blank cell holds a known mark, no lookup fails. */
  lemma KnownMarksNeverMiss(g: Grid, names: map<Cell, string>)
    requires Square(g)
    requires forall r, c :: 0 <= r < |g| && 0 <= c < |g| && g[r][c] != Blank ==> g[r][c] in names
    ensures Evaluate(g, names).Reported?
  {
    var ls := Lines(g);
    if k :| 0 <= k < |ls| && Complete(ls[k]) {
      var j := EarliestComplete(ls, k);
      FirstWonLineDecides(g, names, j);
      LineCellsAreGridCells(g, j, 0);
    } else {
      NoWonLine(g, names);
    }
  }

  /** A fresh grid has no winner and play continues. */
  lemma FreshGridOngoing(n: nat, names: map<Cell, string>)
    requires n > 0
    ensures Evaluate(FreshGrid(n), names) == Reported(false, Tie)
  {
    var g := FreshGrid(n);
    LineOrder(g);
    assert forall k :: 0 <= k < 2 * n + 2 ==> Lines(g)[k][0] == Blank;
    NoWonLine(g, names);
    assert g[0][0] == Blank;
  }
}
