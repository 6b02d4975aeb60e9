/**
 * Concrete plays on a 3-by-3 board, and the guarantee that a game seated by
 * the selection rule never fails to name a winner.
 */
module Scenarios {
  import opened Options
  import opened Players
  import opened Grids
  import opened Moves

  /** Three moves by the O player at positions 1, 2 and 3 win the top row. */
  lemma TopRowWins(names: map<Cell, string>)
    requires "O" in names
    ensures var g := Play(Play(Play(FreshGrid(3), "O", Some(1)), "O", Some(2)), "O", Some(3));
            Evaluate(g, names) == Reported(true, names["O"])
  {
    var g0 := FreshGrid(3);
    AttemptOnCell(g0, 0, 0);
    var g1 := Play(g0, "O", Some(1));
    AttemptOnCell(g1, 0, 1);
    var g2 := Play(g1, "O", Some(2));
    AttemptOnCell(g2, 0, 2);
    var g3 := Play(g2, "O", Some(3));
    assert g3[0] == ["O", "O", "O"];
    assert Lines(g3)[0] == g3[0];
    FirstWonLineDecides(g3, names, 0);
  }

  /**
   * On a 3-by-3 board position 10 is out of range (where the source's own
   * guard lets it through and the cell access fails), unparsable text is not
   * a position, and a second move at position 5 finds the cell taken.
   */
  lemma RejectedInputs(mark: Cell)
    requires mark != Blank
    ensures AttemptMove(FreshGrid(3), Some(10)) == OutOfRange
    ensures AttemptAsWritten(FreshGrid(3), Some(10)) == IndexError
    ensures AttemptMove(FreshGrid(3), None) == NotAPosition
    ensures AttemptMove(FreshGrid(3), Some(5)) == Accepted(1, 1)
    ensures AttemptMove(Play(FreshGrid(3), mark, Some(5)), Some(5)) == Taken(mark)
  {
    var g0 := FreshGrid(3);
    PastLastPositionFallsOffGrid(g0);
    AttemptOnCell(g0, 1, 1);
    AttemptOnCell(Play(g0, mark, Some(5)), 1, 1);
  }

  /**
   * Once the players are seated, every board holding only blanks and the two
   * marks in play is judged without a failed name lookup.
   */
  lemma SeatedGameNamesEveryWinner(choice: string, g: Grid)
    requires Seat(choice).Some? && Square(g)
    requires forall r, c :: 0 <= r < |g| && 0 <= c < |g| ==> g[r][c] in {Blank, "O", "X"}
    ensures Evaluate(g, NameTable(Seat(choice).value.first, Seat(choice).value.second)).Reported?
  {
    KnownMarksNeverMiss(g, NameTable(Seat(choice).value.first, Seat(choice).value.second));
  }
}
