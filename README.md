# CellsBoard: a verified model of a Game of Life board

This project models the core of CellsBoard in Dafny. CellsBoard is a Conway's Game of Life board:
a rectangular grid of cells, each DEAD (0) or ALIVE (1), that advances one synchronous
generation at a time under the classical B3/S23 rule. A DEAD cell with exactly 3 alive
neighbours is born. An ALIVE cell survives with 2 or 3. Every other cell is DEAD in the next
generation.

The modules follow the two classes of `cells_interaction.py`:

- `Cells` (cell.dfy) is the `Cell` class. It holds the two states, validated construction
  (an invalid state is an `Err(InvalidState(..))` result, modelling the `ValueError`) and the
  one-digit text of a cell.
- `Life` (life.dfy) is the pure side of `CellsBoard`. It defines grids as `seq<seq<int>>`,
  positions, the neighbour list that `findNeighbors` builds, the alive-neighbour count, the
  per-cell rule, and `Next`, one synchronous generation as a function of the previous grid.
- `LifeProperties` (life_properties.dfy) holds the lemmas about `Life`:
  - the neighbour list is exactly the Moore neighbourhood clipped to the board, with no
    repetitions;
  - the neighbour relation is symmetric;
  - a cell has as many neighbours as its 3×3 window has cells on the board, less itself. On a
    board of at least 2×2 that is 3 in a corner, 5 on an edge and 8 inside. On a board with one
    row or one column it is 2 inside, 1 at an end, and 0 on a 1×1 board;
  - the count is the size of the set of alive Moore neighbours;
  - the B3/S23 rule holds in both directions;
  - a generation depends only on the cell's neighbourhood;
  - the all-DEAD grid is a fixed point.
- `Rendering` (rendering.dfy) is the text of a board (`__str__`), with its layout proved
  character by character.
- `Board` (board.dfy) is the `CellsBoard` object: a class whose states live in an `array2<int>`.
  Its neighbour lists live in an `array2<seq<Pos>>` and are wired by the constructor's nested
  loops. `UpdateBoard` takes a snapshot of the states and then rewrites the live array in place
  with nested loops; it is proved to leave exactly `Next` of the old states. `ToString`
  accumulates the printed text row by row.

Neighbours are identified by board coordinates (`Pos`), not by object references. The source
stores lists of `Cell` objects in each cell. `copy.deepcopy` copies those lists along with the
cells, so during an update every list refers to the snapshot's cells. The net effect, which the
model states directly, is that the count reads the pre-update grid.

The comparison `self.board[i][j] != self.board[row][column]` in `findNeighbors` compares `Cell`
objects. `Cell` defines no `__eq__` or `__ne__`, so Python compares identity: the test excludes
only the centre cell itself, not the cells that happen to share its state. The model therefore
uses the plain Moore neighbourhood of up to 8 cells. Reading the line as a filter on equal
*states* would not match how the code behaves.

`findNeighbors` bounds rows by `len(self.board)` and columns by `len(self.board[i])`. On a
rectangular board these are `rows` and `columns`, which is how `Life.FindNeighbors` takes them.

The board's states are an `array2<int>`, and `Valid()` keeps every entry in {0, 1}. Cells
enter the board only through validated construction, so the constructor requires an initial
grid of valid states.

## Model

| member | source | states |
|---|---|---|
| `Cells.NewCell` | cells_interaction.py:10-13 | construction succeeds exactly when the state is DEAD (0) or ALIVE (1); otherwise the result is an `InvalidState` error carrying the rejected value |
| `Cells.CellToString` | cells_interaction.py:19-20 | a cell's text is the one decimal digit of its state |
| `Cells.CellToStringInjective` | cells_interaction.py:19-20 | two valid cells have the same text exactly when they are the same cell |
| `Cells.NewCellRenders` | cells_interaction.py:10-20 | an accepted cell renders as "0" or "1", and that digit read back is the state it was built from |
| `Life.FindNeighbors` | cells_interaction.py:57-67 | every listed neighbour lies on the board, and there are at most 8 |
| `Life.FindNeighborsExact` | cells_interaction.py:59-66 | the list holds exactly the positions within one row and one column of the centre that lie on the board, other than the centre; they come in row-major order, so none repeats |
| `Life.Candidate` | cells_interaction.py:62-65 | one position of the window is kept exactly when it lies on the board and is not the centre; it yields at most one entry |
| `Life.WindowRow` | cells_interaction.py:61-65 | one row of the 3×3 window: exactly its on-board columns other than the centre, left to right, at most 3 |
| `Life.AliveCount` | cells_interaction.py:75-78 | the number of listed neighbours in state ALIVE, never more than the list's length |
| `Life.NextState` | cells_interaction.py:74-84 | the state one pass of the loop body computes for (i, j), read from the previous grid alone; `TransitionRule` and `NextIsLocal` state what it means |
| `Life.Next` | cells_interaction.py:69-84 | one whole generation: every new state is computed from the previous grid. Its meaning is proved in `TransitionRule` (B3/S23 against the Moore set), `NextIsValid` (shape and states kept), `NextIsLocal` (only the window matters) and `AllDeadIsFixed` |
| `Life.Step` | cells_interaction.py:79-84 | a valid state goes to a valid state; the new state is ALIVE exactly when an ALIVE cell has 2 or 3 alive neighbours or a DEAD cell has exactly 3 |
| `LifeProperties.NeighborSymmetric` | cells_interaction.py:59-66 | (i, j) is a neighbour of (r, c) exactly when (r, c) is a neighbour of (i, j) |
| `LifeProperties.NeighborsDistinct` | cells_interaction.py:59-66 | on every board, no position is listed twice and the centre is never its own neighbour |
| `LifeProperties.NeighborCount` | cells_interaction.py:59-66 | the number of neighbours is the size of the 3×3 window clipped to the board, less one |
| `LifeProperties.CornerHasThreeNeighbors` | cells_interaction.py:59-66 | on a board of at least 2×2, each of the four corners has exactly 3 neighbours |
| `LifeProperties.InnerCellHasEightNeighbors` | cells_interaction.py:59-66 | a cell away from every edge has exactly 8 neighbours |
| `LifeProperties.AliveCountIsCardinality` | cells_interaction.py:75-78 | counting a list without repetitions gives the size of the set of its alive positions; `NeighborsDistinct` supplies that fact for every neighbour list |
| `LifeProperties.NeighborCountIsMoore` | cells_interaction.py:75-78 | the count the update uses is the number of alive cells among the Moore neighbours in the grid it reads |
| `LifeProperties.TransitionRule` | cells_interaction.py:74-84 | in the next generation an ALIVE cell is ALIVE exactly with 2 or 3 alive Moore neighbours, a DEAD cell exactly with 3, and every state is again 0 or 1 |
| `LifeProperties.NextIsValid` | cells_interaction.py:72-84 | a generation keeps the grid's shape and keeps every state in {0, 1} |
| `LifeProperties.AliveCountAgrees` | cells_interaction.py:75-78 | two grids that agree on the listed positions give the same count |
| `LifeProperties.NextIsLocal` | cells_interaction.py:71-84 | the next state of a cell depends only on the previous states of that cell and its neighbours, never on the rest of the grid |
| `LifeProperties.AllDeadIsFixed` | cells_interaction.py:79-84 | an all-DEAD grid is unchanged by a generation |
| `Rendering.Join` | cells_interaction.py:54 | `sep.join(parts)`; `JoinSingles` proves where each part and separator lands |
| `Rendering.RowStrings` | cells_interaction.py:48-51 | one string per cell of the row, the decimal digit of its state |
| `Rendering.RowLine` | cells_interaction.py:54 | one printed row is `2 * columns` characters long (1 for an empty row); `RowLineLayout` gives each character |
| `Rendering.RenderRows` | cells_interaction.py:52-54 | the text of the first n rows; `RenderRowsLength` and `RenderRowsPrefix` state its length and order |
| `Rendering.Render` | cells_interaction.py:46-55 | the text `__str__` returns; `RenderLayout`, `RenderLine` and `RenderNoColumns` state it character by character |
| `Rendering.JoinSingles` | cells_interaction.py:54 | joining one-character strings with one separator puts string k at position 2k and the separator between neighbours, 2n−1 characters in all |
| `Rendering.RowLineLayout` | cells_interaction.py:48-54 | a printed row has the digit of cell j at position 2j, a space after every cell but the last, and a closing newline |
| `Rendering.RenderRowsLength` | cells_interaction.py:52-54 | the text of the first n rows is n lines of equal width |
| `Rendering.RenderRowsPrefix` | cells_interaction.py:52-54 | rows are printed in order: the text of the first m rows begins the text of the first n |
| `Rendering.RenderLayout` | cells_interaction.py:46-55 | a board's text has `rows` lines of `2 * columns` characters; line i holds the digit of cell (i, j) at position 2j, spaces between cells, and ends with a newline |
| `Rendering.RenderLine` | cells_interaction.py:52-54 | line i of the text sits at i line widths and is exactly the printed row i |
| `Rendering.RenderNoColumns` | cells_interaction.py:52-54 | a board with rows but no columns prints as one newline per row |
| `Board.CellsBoard.States` | cells_interaction.py:71 | the snapshot is a value with the board's shape that agrees with the live array at every cell |
| `Board.CellsBoard.constructor` | cells_interaction.py:24-39 | the board has the given dimensions and initial states, and each cell's neighbour list is the one `FindNeighbors` gives for its position |
| `Board.CellsBoard.UpdateBoard` | cells_interaction.py:69-84 | after an update the board holds `Next` of the states before it: every cell is computed from the snapshot, not from cells already rewritten; dimensions, neighbour lists and the {0, 1} invariant are kept |
| `Board.CellsBoard.UpdateCell` | cells_interaction.py:74-84 | one pass of the loop body writes the rule's result for that position, read from the snapshot, and leaves every other live cell unchanged |
| `Board.CellsBoard.ToString` | cells_interaction.py:46-55 | the accumulated text equals `Render` of the current states |

## Left out

- Random initialisation (`random.seed`, `random.randint`): the initial states are a constructor parameter instead, because randomness cannot be modelled as a function.
- The `fromFile` construction path: it is unimplemented (a TODO) and leaves the board unset, so there is nothing to model.
- Dimension validation: the source has none. A non-positive count just yields an empty board. The model takes `nat` dimensions and handles the empty board.
- `copy.deepcopy` and its object graph: modelled as an immutable snapshot (`States()` taken before the loops). Aliasing between cells and neighbour lists is replaced by coordinates.
- `__repr__` of both classes: cosmetic text with no behaviour.
- The `__main__` driver (an endless print-and-update loop, `print`, `time.sleep`, `sys`): this is I/O with no termination.
- `Board.CellsBoard.UpdateBoard`: the loop body of lines 74–84 is a separate method, `UpdateCell`, so that each proof stays small. The order of reads and writes is unchanged.
- Concrete pattern examples (the block still life and the blinker oscillator) are not proved. The general rule lemmas cover what they illustrate.
- `Cells.CellToString`: defined only for the two valid states. The Python `str(self.state)` would print any integer, but no `Cell` can hold one.
- Cell states are integers. Python's membership test with `==` would also accept `True` or `1.0` as a state, and `str` would then print "True" or "1.0". The model does not cover states of other types.
- Recursion depth: `copy.deepcopy` at line 71 follows the cells' `neighbors` lists (lines 36-39) from cell to cell, so on a large board it may exceed CPython's recursion limit and raise `RecursionError`. The model's `UpdateBoard` always completes, because interpreter limits are not modelled.
