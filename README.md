# Tic-tac-toe game-state engine in Dafny

A model of the game engine of a terminal tic-tac-toe (`tictactoe.py`). It covers:

- **Player**: a mark, always stored upper-cased, coupled to a display name.
- **Seating rule**: Player 1 picks X or O, and whoever holds O moves first.
- **Board**: a `size` × `size` array of cells. Each cell is the blank `" "` or a mark. A move attempt takes a 1-based position, checks it against the range and the occupancy of the cell, and writes one mark in place.
- **Winner check**: rows, then columns, then the main diagonal, then the anti-diagonal are examined. The first complete line names the winner. A full board with no complete line is a tie. Otherwise play goes on.
- **Text form** of the board.

Modules:

- `Options`: the `Option` type. A position that did not parse is `None`.
- `Players`: `Upper`, the `Player` class, `Seat`, `CreatePlayers` and the mark-to-name lookup `NameTable`.
- `Grids`: the pure view of the board as rows of cells. It holds the lines in examination order, the win test `Complete`, the blank count, `Place`, and `Evaluate`, the specification of the winner check.
- `Moves`: the position arithmetic and one move attempt, both as the source writes it and corrected.
- `Rendering`: the text form and its line layout.
- `Boards`: the `Board` class over an `array2`. Its methods are proved against the functions of `Grids`, `Moves` and `Rendering`.
- `Scenarios`: concrete plays on a 3 × 3 board, and a game seated by the selection rule.

The winner check returns the source's pair `(is_over, winner)` as `Reported(over, winner)`. A complete line whose mark is missing from the lookup raises `KeyError` in Python. The model returns `KeyError(mark)` for that case.

## Model

| member | source | states |
|---|---|---|
| Players.Upper | tictactoe.py:36-38 | The result has the input's length and no lower-case ASCII letter. Each lower-case letter becomes the capital at the same place in the alphabet. Characters that are not lower-case letters are kept. An input that is already upper-case comes back unchanged. |
| Players.Player.constructor | tictactoe.py:25-28 | The new player holds the upper-cased mark and the given name, and keeps the upper-case invariant. |
| Players.Player.GetMark | tictactoe.py:31-33 | Returns the stored mark, which upper-casing leaves unchanged. |
| Players.Player.SetMark | tictactoe.py:36-38 | Stores the upper-cased mark, restores the invariant and leaves the name unchanged. |
| Players.Player.GetName | tictactoe.py:41-43 | Returns the stored name. |
| Players.Player.SetName | tictactoe.py:46-48 | Stores the name and leaves the mark unchanged. |
| Players.Seat | tictactoe.py:227-244 | A seating exists exactly when the upper-cased answer is O or X. The first seat always holds O and the second X. The two names are Player 1 and Player 2. Player 1 sits first exactly when the answer is O. |
| Players.PlayerOneHoldsChoice | tictactoe.py:227-240 | Whichever seat Player 1 gets, it holds the mark they chose, upper-cased. |
| Players.LowerCaseOSeatsPlayerOneFirst | tictactoe.py:227-234 | Answer "o" seats Player 1 first with O and Player 2 second with X. |
| Players.CreatePlayers | tictactoe.py:211-246 | One selection attempt makes two fresh, valid players matching `Seat`, or none when the answer is refused. |
| Players.NameTable | tictactoe.py:142-145 | The lookup's keys are the two marks. The second player's mark maps to the second name. When the marks differ, the first mark maps to the first name. |
| Grids.FreshGrid | tictactoe.py:68 | `n` rows of `n` cells, every cell blank. |
| Grids.Place | tictactoe.py:117 | The grid keeps its shape. Cell (r, c) holds the mark. Every other cell is unchanged. |
| Grids.Lines | tictactoe.py:149-176 | There are 2n+2 lines to examine. |
| Grids.LineOrder | tictactoe.py:158-176 | Cell by cell, line k is row k for k < n, then column k-n, then cell [i][i], then cell [i][n-1-i]. Each line has n cells. |
| Grids.Complete | tictactoe.py:152 | A complete line has no blank cell. |
| Grids.CompleteMatchesSetTest | tictactoe.py:152 | A line is complete exactly when it is non-empty, its first cell is not blank, and the set of its cells has one element. |
| Grids.RowBlanks | tictactoe.py:156 | A row's blank count never exceeds its length, and is zero exactly when the row holds no blank. |
| Grids.BlankCount | tictactoe.py:155-156 | The blank count summed row by row is zero exactly when no cell of the board is blank. |
| Grids.BlankCountAfterPlace | tictactoe.py:116-117 | Writing a non-blank mark into a blank cell lowers the blank count by exactly one. |
| Grids.Announce | tictactoe.py:153 | A known mark reports `(True, its name)`. An unknown mark is the lookup's `KeyError` for that mark. |
| Grids.Scan | tictactoe.py:149-183 | Examining lines in order, a failed lookup names a non-blank mark that has no entry. "Play goes on" is reported only with the tie winner, when blanks remain and none of the examined lines is complete. |
| Grids.Evaluate | tictactoe.py:120-183 | A failed lookup names a non-blank mark missing from the lookup. The game is reported as going on only with the tie winner, and only while some cell is blank. |
| Grids.LinesLead | tictactoe.py:149-176 | In the examination order the rows come first, then the columns, then the main and the anti-diagonal. |
| Grids.RowWonFirst | tictactoe.py:149-153 | A complete row with no complete row above it decides the evaluation. |
| Grids.ColumnWonFirst | tictactoe.py:166-169 | With no complete row, the first complete column decides the evaluation. |
| Grids.MainDiagonalWonFirst | tictactoe.py:172-173 | With no complete row or column, a complete main diagonal decides the evaluation. |
| Grids.AntiDiagonalWonFirst | tictactoe.py:175-176 | With no complete row, column or main diagonal, a complete anti-diagonal decides the evaluation. |
| Grids.NoLineWonCount | tictactoe.py:178-183 | With no complete line at all, the outcome is the tie winner, and the game is over exactly when the blank count is zero. |
| Grids.RowPassStep | tictactoe.py:155-163 | One more row adds its blanks to the count, its diagonal cells to both diagonals, and its column to the columns. |
| Grids.RowPassDone | tictactoe.py:149-163 | After the last row, the running count and lists are the whole blank count, diagonals and columns. |
| Grids.FirstWonLineDecides | tictactoe.py:149-176 | When line k is complete and no earlier line is, the evaluation is the announcement of line k's mark. |
| Grids.NoWonLine | tictactoe.py:178-183 | With no complete line the outcome is `(True, "tie")` when no cell is blank and `(False, "tie")` otherwise. |
| Grids.WonLineReportsOwner | tictactoe.py:149-176 | When every complete line belongs to one known mark, the outcome is `(True, that mark's name)`. This holds for any row, column or diagonal. |
| Grids.KnownMarksNeverMiss | tictactoe.py:142-153 | When every non-blank cell holds a mark in the lookup, the evaluation never raises the lookup error. |
| Grids.FreshGridOngoing | tictactoe.py:64-70 | A fresh board has no winner and the game goes on: `(False, "tie")`. |
| Moves.CellOf | tictactoe.py:109-110 | The index equals row × size + column, and the column lies in [0, size). |
| Moves.CellOfInGrid | tictactoe.py:109-110 | Every index in [0, size²) lands on a cell of the grid. |
| Moves.CellIndexRoundTrip | tictactoe.py:109-110 | Every cell of the grid has an index in [0, size²), and that index maps back to the same cell. |
| Moves.IndexCellRoundTrip | tictactoe.py:109-110 | Every index in [0, size²) maps to a cell of the grid whose index is the original one. |
| Moves.CellOfInjective | tictactoe.py:109-110 | Two board indices that land on the same cell are equal. |
| Moves.CornerPositions | tictactoe.py:99-110 | Position 1 is cell (0, 0). Position size² is cell (size-1, size-1). |
| Moves.AdmittedIndexRow | tictactoe.py:105-110 | Of the indices the source's guard admits, those below size² land on a row of the grid. Index size² lands on row size, column 0. |
| Moves.AttemptAsWritten | tictactoe.py:97-117 | Single attempt with the source's guard. "Not a position" exactly when the text did not parse. "Out of range" exactly for positions outside [1, size²+1]. The index error exactly for position size²+1. An accepted attempt names a blank cell in the grid whose position is the input. A taken cell reports a non-blank holder. |
| Moves.AttemptMove | tictactoe.py:97-117 | Corrected single attempt. It never runs off the grid. "Not a position" exactly when the text did not parse. An accepted attempt names a blank cell in the grid whose position is the input. A position outside [1, size²] is out of range, and only such a position. A taken cell reports a non-blank holder. |
| Moves.AttemptOnCell | tictactoe.py:109-114 | The position of cell (r, c) is accepted exactly when that cell is blank. Otherwise the attempt reports the mark that holds it. |
| Moves.PastLastPositionFallsOffGrid | tictactoe.py:105-110 | Position size²+1 passes the source's guard, maps to row = size, and the as-written attempt runs off the grid. The corrected attempt reports it out of range. |
| Moves.AttemptsAgreeElsewhere | tictactoe.py:105-114 | On every other input the as-written and the corrected attempts agree. |
| Moves.Play | tictactoe.py:112-117 | The grid after an attempt keeps its shape. |
| Moves.PlayChangesAtMostOneCell | tictactoe.py:112-117 | A rejected attempt leaves the grid unchanged. An accepted one writes the mark into exactly the previously blank cell it names, and every other cell is unchanged. |
| Moves.AcceptedMoveUsesOneBlank | tictactoe.py:116-117 | An accepted move by a non-blank mark lowers the blank count by one. |
| Boards.Board.constructor | tictactoe.py:64-70 | The new board has size `size`, `max_position` = size², and every cell blank. |
| Boards.Board.TryMove | tictactoe.py:97-117 | One attempt returns `AttemptMove` of the old cells. The array afterwards is `Play` of the old cells. Size and `max_position` are constants and cannot change. |
| Boards.Board.MakeMove | tictactoe.py:82-117 | Attempts run in order until one is accepted. Every earlier attempt was rejected on the unchanged board. Only the accepted attempt changes the cells. |
| Boards.Board.CheckForWinner | tictactoe.py:120-145 | Reads the board without changing it. The result is `Evaluate` of the cells under the lookup built from both players. |
| Boards.Board.Examine | tictactoe.py:135-183 | The row pass, then the column pass, then the two diagonals, then the running blank count, compute exactly `Evaluate`. |
| Boards.Board.RowPass | tictactoe.py:149-163 | The pass over the rows stops at the first complete row, with no complete row before it. When no row is complete, it has counted every blank and gathered both diagonals and every column. |
| Boards.Board.FirstWon | tictactoe.py:166-169 | The pass over the columns stops at the first complete one, with no complete one before it. It runs to the end only when none is complete. |
| Boards.Board.ToString | tictactoe.py:191-208 | The string built row by row equals `Render` of the cells. |
| Rendering.Repeat | tictactoe.py:200 | `s * k` has length k × \|s\|. |
| Rendering.RepeatBlocks | tictactoe.py:200 | `s * k` is k copies of `s`: the j-th block of \|s\| characters is `s`. |
| Rendering.Border | tictactoe.py:200 | A border line is 4n+1 characters wide and ends with `+`. |
| Rendering.Join | tictactoe.py:204 | Joining no parts gives the empty text. Otherwise the text begins with the first part. |
| Rendering.JoinLength | tictactoe.py:204 | Joining k one-character parts gives k + (k-1) × \|sep\| characters. |
| Rendering.JoinNoNewline | tictactoe.py:204 | Joining parts without newlines, with a separator without newlines, gives a text without newlines. |
| Rendering.JoinSnocTwo | tictactoe.py:204 | Joining two more parts appends the separator and the first, then the separator and the second. |
| Rendering.Layout | tictactoe.py:200-208 | The text has 2n+1 lines. Even lines are the border `"+---" * size + "+"`. Line 2k+1 is row k as `"| " + " \| ".join(row) + " \|"`. |
| Rendering.JoinedLayoutSnoc | tictactoe.py:202-206 | One more row adds a newline, its row line, a newline and a border to the joined layout. |
| Rendering.Render | tictactoe.py:200-208 | The text built row by row is the layout's lines joined by newlines. |
| Rendering.RenderSnoc | tictactoe.py:202-206 | Rendering one more row appends a newline, that row's line, a newline and a border. |
| Rendering.RowLineNoNewline | tictactoe.py:204-205 | A row line holds no newline when none of its cells does. |
| Rendering.RenderNewlines | tictactoe.py:200-208 | When no cell holds a newline, the text holds exactly two newlines per row. |
| Rendering.TwoMoreLines | tictactoe.py:205-206 | Appending two lines without newlines of their own, each after a newline, adds exactly two newlines. |
| Rendering.RowLineWidth | tictactoe.py:204-205 | A row line of n one-character cells is 4n+1 characters wide. |
| Rendering.LineCount | tictactoe.py:200-208 | When no cell holds a newline, no layout line holds one and the text has exactly 2n newlines. |
| Rendering.LineWidth | tictactoe.py:200-208 | With one-character cells every line is 4n+1 characters wide. |
| Scenarios.TopRowWins | tictactoe.py:149-153 | On a fresh 3 × 3 board, O moves at positions 1, 2 and 3 give `(True, O's name)`. |
| Scenarios.RejectedInputs | tictactoe.py:99-114 | On 3 × 3: position 10 is out of range, and the as-written attempt runs off the grid. Unparsable text is not a position. Position 5 is accepted and is then taken by the mover's mark. |
| Scenarios.SeatedGameNamesEveryWinner | tictactoe.py:142-153 | After seating, a board holding only blanks, O and X never hits the lookup error. |

## Left out

- The command-line block (tictactoe.py:258-303) is left out: argument parsing, the turn loop, the final messages and the exit codes. Only its check that the size is at least 3 is kept, as the precondition of `Board`'s constructor.
- Terminal input and output are left out: prompts, error messages, `print(board)`.
- Python's `int()` parsing of the typed text is left out. It accepts whitespace, signs and underscores. The model receives the parse result as `Option<int>`, where `None` is the "not a valid position" branch.
- Boards.Board.MakeMove: the source re-prompts without bound. The model takes a finite script of already-parsed inputs and reports `placed == false` when the script runs out. The source would instead wait for more input.
- Boards.Board.TryMove: uses the corrected range guard (see Findings). The source's guard lets position size²+1 through, and the cell access then fails. `Moves.AttemptAsWritten` models that behaviour.
- Players.Upper: covers only the ASCII letters a-z. Python's `str.upper()` also changes other Unicode letters, and can change a string's length.
- The winner check examines the source's `board` lists through a snapshot (`Board.Snapshot`) passed to `Board.Examine`. The lists are never mutated during the check. The source's single method is split in three: `Board.Examine` calls `Board.RowPass` for the loop over the rows and `Board.FirstWon` for the loop over the columns. Each early `return` of the source becomes the index where that pass stops.
- A player whose mark is not a single character, or is `" "`, is not excluded. The model follows the source there: such a mark is stored and compared like any other.

## Findings

| source | as written | input that shows it | evidently intended | confidence | as-written member | corrected member |
|---|---|---|---|---|---|---|
| tictactoe.py:105 | `index > self.max_position` lets index = size² through; row = index // size is then `size` and `self.board[row]` raises an uncaught IndexError | position 10 on a 3 × 3 board (size²+1) | `index >= self.max_position`, so the input is re-prompted as out of range | high; not executed | Moves.PastLastPositionFallsOffGrid | Moves.AttemptMove |

The prompt at tictactoe.py:88 offers positions 1 to `max_position`. The message at tictactoe.py:106 asks for a number between 1 and `max_position`. Position size²+1 lies outside that range, yet the guard at tictactoe.py:105 lets it through, and tictactoe.py:112 then indexes past the last row. The model follows the code in `Moves.AttemptAsWritten`. `Board.TryMove` uses the corrected guard.
