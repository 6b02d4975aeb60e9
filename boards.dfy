/**
 * The board object: a size-by-size array of cells updated in place one move
 * at a time, evaluated for a winner and rendered as text.
 */
module Boards {
  import opened Options
  import opened Players
  import opened Grids
  import opened Moves
  import opened Rendering

  class Board {
    const size: nat
    const maxPosition: nat
    const cells: array2<Cell>

    /** Dimensions fixed at construction; the game's smallest board is 3 by 3. */
    ghost predicate Valid()
    {
      size >= 3 && cells.Length0 == size && cells.Length1 == size && maxPosition == size * size
    }

    /** The cells as a grid of rows. */
    function Snapshot(): (g: Grid)
      reads cells
      requires Valid()
      ensures Square(g) && |g| == size
      ensures forall r, c :: 0 <= r < size && 0 <= c < size ==> g[r][c] == cells[r, c]
    {
      seq(size, r requires 0 <= r < size reads cells =>
        seq(size, c requires 0 <= c < size reads cells => cells[r, c]))
    }

    /** A fresh board: every cell blank. */
    constructor (size: nat := 3)
      requires size >= 3
      ensures Valid() && fresh(cells)
      ensures this.size == size && maxPosition == size * size
      ensures Snapshot() == FreshGrid(size)
    {
      this.size := size;
      this.maxPosition := size * size;
      cells := new Cell[size, size]((r, c) => Blank);
      new;
      GridExtensionality(Snapshot(), FreshGrid(size));
    }

    /**
     * One attempt by `player` with an already-parsed position (None when the
     * text was not an integer); the range guard is the corrected one.
     */
    method TryMove(player: Player, parsed: Option<int>) returns (attempt: Attempt)
      requires Valid()
      modifies cells
      ensures attempt == AttemptMove(old(Snapshot()), parsed)
      ensures Snapshot() == Play(old(Snapshot()), player.mark, parsed)
    {
      ghost var before := Snapshot();
      match parsed
      case None =>
        return NotAPosition;
      case Some(position) =>
        var index := position - 1;
        if index < 0 || index >= maxPosition {
          return OutOfRange;
        }
        CellOfInGrid(index, size);
        var row, column := index / size, index % size;
        if cells[row, column] != Blank {
          return Taken(cells[row, column]);
        }
        cells[row, column] := player.mark;
        attempt := Accepted(row, column);
        GridExtensionality(Snapshot(), Place(before, row, column, player.mark));
    }

    /**
     * The move dialogue driven by a script of parsed inputs: attempts are
     * made in order until one is accepted or the script runs out.
     */
    method MakeMove(player: Player, inputs: seq<Option<int>>) returns (consumed: nat, placed: bool)
      requires Valid()
      modifies cells
      ensures consumed <= |inputs| && (placed ==> consumed > 0) && (!placed ==> consumed == |inputs|)
      ensures forall i :: 0 <= i < consumed && !(placed && i == consumed - 1) ==>
                !AttemptMove(old(Snapshot()), inputs[i]).Accepted?
      ensures placed ==> AttemptMove(old(Snapshot()), inputs[consumed - 1]).Accepted?
      ensures Snapshot() == if placed then Play(old(Snapshot()), player.mark, inputs[consumed - 1]) else old(Snapshot())
    {
      consumed, placed := 0, false;
      while consumed < |inputs| && !placed
        invariant consumed <= |inputs| && (placed ==> consumed > 0)
        invariant forall i :: 0 <= i < consumed && !(placed && i == consumed - 1) ==>
                    !AttemptMove(old(Snapshot()), inputs[i]).Accepted?
        invariant placed ==> AttemptMove(old(Snapshot()), inputs[consumed - 1]).Accepted?
        invariant Snapshot() == if placed then Play(old(Snapshot()), player.mark, inputs[consumed - 1]) else old(Snapshot())
      {
        var attempt := TryMove(player, inputs[consumed]);
        consumed := consumed + 1;
        placed := attempt.Accepted?;
      }
    }

    /** Whether the game is over and who won, judged from the current cells. */
    method CheckForWinner(first: Player, second: Player) returns (result: Outcome)
      requires Valid()
      ensures result == Evaluate(Snapshot(), NameTable(first.View(), second.View()))
    {
      var names := map[first.mark := first.name, second.mark := second.name];
      assert names == NameTable(first.View(), second.View());
      result := Examine(Snapshot(), names);
    }

    /**
     * The evaluation as the source performs it on the rows of the board: one
     * pass over the rows that also counts blanks and gathers the diagonals
     * and columns, then the columns, then the two diagonals.
     */
    static method Examine(board: Grid, names: map<Cell, string>) returns (result: Outcome)
      requires Square(board)
      ensures result == Evaluate(board, names)
    {
      var n := |board|;
      var index, numOpenSpots, diagonal1, diagonal2, columns := RowPass(board);
      if index < n {
        RowWonFirst(board, names, index);
        return Announce(board[index][0], names);
      }

      var colIndex := FirstWon(columns);
      if colIndex < n {
        ColumnWonFirst(board, names, colIndex);
        return Announce(columns[colIndex][0], names);
      }

      if Complete(diagonal1) {
        MainDiagonalWonFirst(board, names);
        return Announce(diagonal1[0], names);
      }
      if Complete(diagonal2) {
        AntiDiagonalWonFirst(board, names);
        return Announce(diagonal2[0], names);
      }

      NoLineWonCount(board, names);
      if numOpenSpots == 0 {
        return Reported(true, Tie);
      }
      return Reported(false, Tie);
    }

    /**
     * The pass over the rows: it stops at the first won row; when no row is
     * won it has counted every blank and gathered both diagonals and every
     * column.
     */
    static method RowPass(board: Grid)
      returns (index: nat, numOpenSpots: nat, diagonal1: seq<Cell>, diagonal2: seq<Cell>, columns: seq<seq<Cell>>)
      requires Square(board)
      ensures index <= |board| && NoneWon(board, index)
      ensures index < |board| ==> Complete(board[index])
      ensures index == |board| ==>
                numOpenSpots == BlankCount(board) && diagonal1 == MainDiagonal(board) &&
                diagonal2 == AntiDiagonal(board) && columns == Columns(board)
    {
      var n := |board|;
      numOpenSpots, diagonal1, diagonal2, columns := 0, [], [], [];
      index := 0;
      while index < n
        invariant 0 <= index <= n
        invariant numOpenSpots == BlankCount(board[..index])
        invariant diagonal1 == MainDiagonal(board)[..index]
        invariant diagonal2 == AntiDiagonal(board)[..index]
        invariant columns == Columns(board)[..index]
        invariant NoneWon(board, index)
      {
        var row := board[index];
        if Complete(row) {
          return;
        }
        NoneWonStep(board, index);
        RowPassStep(board, index);
        numOpenSpots := numOpenSpots + RowBlanks(row);
        diagonal1 := diagonal1 + [row[index]];
        diagonal2 := diagonal2 + [row[|row| - index - 1]];
        columns := columns + [Column(board, index)];
        index := index + 1;
      }
      RowPassDone(board);
    }

    /** The index of the first won line of `lines`, or `|lines|` when none is won. */
    static method FirstWon(lines: seq<seq<Cell>>) returns (k: nat)
      ensures k <= |lines| && NoneWon(lines, k)
      ensures k < |lines| ==> Complete(lines[k])
    {
      k := 0;
      while k < |lines|
        invariant k <= |lines| && NoneWon(lines, k)
      {
        if Complete(lines[k]) {
          return;
        }
        k := k + 1;
      }
    }

    /** The text form, built row by row. */
    method ToString() returns (text: string)
      requires Valid()
      ensures text == Render(Snapshot(), size)
    {
      var board := Snapshot();
      text := Border(size);
      var index := 0;
      while index < |board|
        invariant 0 <= index <= |board|
        invariant text == Render(board[..index], size)
      {
        var row := board[index];
        text := text + "\n" + RowLine(row);
        text := text + "\n" + Border(size);
        RenderSnoc(board, index, size);
        index := index + 1;
      }
      assert board[..|board|] == board;
    }
  }
}
