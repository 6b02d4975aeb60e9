/**
 * One move attempt: a 1-based position, already parsed (or not), is checked
 * against the range of the board and the occupancy of its cell.
 */
module Moves {
  import opened Options
  import opened Grids

  /**
   * The zero-based index of a position mapped to (row, column) with floor
   * division and remainder; for a positive size Dafny's Euclidean `/` and `%`
   * agree with the source's `//` and `%` on every integer.
   */
  function CellOf(index: int, n: nat): (rc: (int, int))
    requires n > 0
    ensures index == rc.0 * n + rc.1 && 0 <= rc.1 < n
  {
    (index / n, index % n)
  }

  /** The inverse direction: the zero-based index of cell (r, c). */
  function IndexOf(r: nat, c: nat, n: nat): nat
  {
    r * n + c
  }

  /** A positive multiple of `n` is at least `n`. */
  lemma MultipleAtLeast(k: int, n: nat)
    requires k >= 1
    ensures k * n >= n
  {
    assert k * n == (k - 1) * n + n;
  }

  /** Quotient and remainder by `n` are unique. */
  lemma DivModUnique(q: int, m: int, r: int, c: int, n: nat)
    requires 0 <= m < n && 0 <= c < n && q * n + m == r * n + c
    ensures q == r && m == c
  {
    if q > r {
      MultipleAtLeast(q - r, n);
    } else if q < r {
      MultipleAtLeast(r - q, n);
    }
  }

  /** Every index of the board lands on a cell of the grid. */
  lemma CellOfInGrid(index: int, n: nat)
    requires n > 0 && 0 <= index < n * n
    ensures 0 <= CellOf(index, n).0 < n && 0 <= CellOf(index, n).1 < n
  {
  }

  /** From cell to index and back: every cell of the grid has its own index. */
  lemma CellIndexRoundTrip(r: nat, c: nat, n: nat)
    requires n > 0 && r < n && c < n
    ensures IndexOf(r, c, n) < n * n
    ensures CellOf(IndexOf(r, c, n), n) == (r, c)
  {
    var rc := CellOf(r * n + c, n);
    DivModUnique(rc.0, rc.1, r, c, n);
    MultipleAtLeast(n - r, n);
    assert (n - r) * n == n * n - r * n;
  }

  /** From index to cell and back: every index of the board lands on a cell that gives it back. */
  lemma IndexCellRoundTrip(index: int, n: nat)
    requires n > 0 && 0 <= index < n * n
    ensures 0 <= CellOf(index, n).0 < n && 0 <= CellOf(index, n).1 < n
    ensures IndexOf(CellOf(index, n).0, CellOf(index, n).1, n) == index
  {
    CellOfInGrid(index, n);
  }

  /** Two indices of the board that land on the same cell are equal. */
  lemma CellOfInjective(i: int, j: int, n: nat)
    requires n > 0 && 0 <= i < n * n && 0 <= j < n * n
    requires CellOf(i, n) == CellOf(j, n)
    ensures i == j
  {
  }

  /** Position 1 is the upper-left cell and position n*n the lower-right one. */
  lemma CornerPositions(n: nat)
    requires n > 0
    ensures CellOf(1 - 1, n) == (0, 0)
    ensures CellOf(n * n - 1, n) == (n - 1, n - 1)
  {
    CellIndexRoundTrip(n - 1, n - 1, n);
    assert IndexOf(n - 1, n - 1, n) == n * n - 1;
  }

  /** The outcome of one attempt, i.e. which message the dialogue prints. */
  datatype Attempt =
    | Accepted(row: nat, column: nat)
    | NotAPosition      // the text did not parse as an integer
    | OutOfRange        // the index lies outside the board
    | Taken(holder: Cell)   // the cell already holds a mark
    | IndexError        // the cell access ran off the grid (uncaught in the source)

  /** The range guard as the source writes it: `index < 0 or index > max_position` rejects. */
  predicate GuardAsWritten(index: int, maxPosition: nat)
  {
    !(index < 0 || index > maxPosition)
  }

  /** The range guard as intended: exactly the indices of the board pass. */
  predicate Guard(index: int, maxPosition: nat)
  {
    !(index < 0 || index >= maxPosition)
  }

  /** Of the indices the source's guard admits, all but the last land on a row of the grid. */
  lemma AdmittedIndexRow(index: int, n: nat)
    requires n > 0 && 0 <= index <= n * n
    ensures index < n * n ==> CellOf(index, n).0 < n
    ensures index == n * n ==> CellOf(index, n) == (n, 0)
  {
    if index < n * n {
      CellOfInGrid(index, n);
    } else {
      var rc := CellOf(n * n, n);
      DivModUnique(rc.0, rc.1, n, 0, n);
    }
  }

  /**
   * One attempt exactly as the source performs it, off-by-one included: the
   * range message covers positions outside 1..n*n+1, and position n*n+1 runs
   * off the grid.
   */
  function AttemptAsWritten(g: Grid, parsed: Option<int>): (a: Attempt)
    requires Square(g)
    ensures a.NotAPosition? <==> parsed.None?
    ensures a.OutOfRange? <==> parsed.Some? && !(1 <= parsed.value <= |g| * |g| + 1)
    ensures a.IndexError? <==> parsed == Some(|g| * |g| + 1)
    ensures a.Accepted? ==> a.row < |g| && a.column < |g| && g[a.row][a.column] == Blank &&
                            parsed == Some(IndexOf(a.row, a.column, |g|) + 1)
    ensures a.Taken? ==> a.holder != Blank
  {
    var n := |g|;
    match parsed
    case None => NotAPosition
    case Some(position) =>
      var index := position - 1;
      if !GuardAsWritten(index, n * n) then OutOfRange
      else
        AdmittedIndexRow(index, n);
        var (row, column) := CellOf(index, n);
        if row >= n then IndexError
        else if g[row][column] != Blank then Taken(g[row][column])
        else Accepted(row, column)
  }

  /** One attempt with the corrected range guard. */
  function AttemptMove(g: Grid, parsed: Option<int>): (a: Attempt)
    requires Square(g)
    ensures a != IndexError
    ensures a.NotAPosition? <==> parsed.None?
    ensures a.Accepted? ==> a.row < |g| && a.column < |g| && g[a.row][a.column] == Blank &&
                            parsed == Some(IndexOf(a.row, a.column, |g|) + 1)
    ensures a.Taken? ==> a.holder != Blank
    ensures a.OutOfRange? <==> parsed.Some? && !(1 <= parsed.value <= |g| * |g|)
  {
    var n := |g|;
    match parsed
    case None => NotAPosition
    case Some(position) =>
      var index := position - 1;
      if !Guard(index, n * n) then OutOfRange
      else
        CellOfInGrid(index, n);
        var (row, column) := CellOf(index, n);
        if g[row][column] != Blank then Taken(g[row][column])
        else Accepted(row, column)
  }

  /**
   * The position naming cell (r, c) is accepted exactly when that cell is
   * blank, and otherwise reports the mark that holds it.
   */
  lemma AttemptOnCell(g: Grid, r: nat, c: nat)
    requires Square(g) && r < |g| && c < |g|
    ensures AttemptMove(g, Some(IndexOf(r, c, |g|) + 1)) ==
            if g[r][c] == Blank then Accepted(r, c) else Taken(g[r][c])
  {
    CellIndexRoundTrip(r, c, |g|);
  }

  /**
   * Just past the last position the source's guard lets the index through
   * and the row falls off the grid; the corrected guard rejects it.
   */
  lemma PastLastPositionFallsOffGrid(g: Grid)
    requires Square(g)
    ensures GuardAsWritten(|g| * |g|, |g| * |g|) && CellOf(|g| * |g|, |g|) == (|g|, 0)
    ensures AttemptAsWritten(g, Some(|g| * |g| + 1)) == IndexError
    ensures AttemptMove(g, Some(|g| * |g| + 1)) == OutOfRange
  {
    var n := |g|;
    var rc := CellOf(n * n, n);
    DivModUnique(rc.0, rc.1, n, 0, n);
  }

  /** On every other input the source and the corrected guard agree. */
  lemma AttemptsAgreeElsewhere(g: Grid, parsed: Option<int>)
    requires Square(g) && parsed != Some(|g| * |g| + 1)
    ensures AttemptAsWritten(g, parsed) == AttemptMove(g, parsed)
  {
    var n := |g|;
    if parsed.Some? {
      var index := parsed.value - 1;
      assert GuardAsWritten(index, n * n) == Guard(index, n * n);
      if Guard(index, n * n) {
        CellOfInGrid(index, n);
      }
    }
  }

  /** The grid after one attempt by the player holding `mark`. */
  function Play(g: Grid, mark: Cell, parsed: Option<int>): (h: Grid)
    requires Square(g)
    ensures Square(h) && |h| == |g|
  {
    match AttemptMove(g, parsed)
    case Accepted(row, column) => Place(g, row, column, mark)
    case _ => g
  }

  /**
   * A rejected attempt leaves the grid as it was; an accepted one writes the
   * mark into exactly the one previously blank cell it names.
   */
  lemma PlayChangesAtMostOneCell(g: Grid, mark: Cell, parsed: Option<int>)
    requires Square(g)
    ensures !AttemptMove(g, parsed).Accepted? ==> Play(g, mark, parsed) == g
    ensures AttemptMove(g, parsed).Accepted? ==>
              var a := AttemptMove(g, parsed);
              g[a.row][a.column] == Blank && Play(g, mark, parsed)[a.row][a.column] == mark &&
              forall r, c :: 0 <= r < |g| && 0 <= c < |g| && (r, c) != (a.row, a.column) ==>
                Play(g, mark, parsed)[r][c] == g[r][c]
  {
  }

  /** An accepted move by a real mark uses up one blank cell. */
  lemma AcceptedMoveUsesOneBlank(g: Grid, mark: Cell, parsed: Option<int>)
    requires Square(g) && mark != Blank && AttemptMove(g, parsed).Accepted?
    ensures BlankCount(Play(g, mark, parsed)) + 1 == BlankCount(g)
  {
    var a := AttemptMove(g, parsed);
    BlankCountAfterPlace(g, a.row, a.column, mark);
  }
}
