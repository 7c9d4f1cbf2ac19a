/** The board object: its grid of cells, the neighbour lists wired at construction, update and printing. */
module Board {
  import opened Cells
  import opened Life
  import opened Rendering

  class CellsBoard {
    const rows: nat
    const columns: nat
    /** The state of every cell; the update writes new states into it in place. */
    const board: array2<int>
    /** The neighbour list each cell receives at construction, as board positions. */
    const neighbors: array2<seq<Pos>>

    ghost predicate Valid()
      reads this, board, neighbors
    {
      board.Length0 == rows && board.Length1 == columns &&
      neighbors.Length0 == rows && neighbors.Length1 == columns &&
      (forall i, j :: 0 <= i < rows && 0 <= j < columns ==> IsState(board[i, j])) &&
      (forall i, j :: 0 <= i < rows && 0 <= j < columns ==> neighbors[i, j] == FindNeighbors(rows, columns, i, j))
    }

    /** The current states as a value, row by row: the snapshot the update reads from. */
    function States(): (g: Grid)
      reads this, board
      requires board.Length0 == rows && board.Length1 == columns
      ensures IsGrid(g, rows, columns)
      ensures forall i, j :: 0 <= i < rows && 0 <= j < columns ==> g[i][j] == board[i, j]
    {
      seq(rows, i requires 0 <= i < rows reads board =>
        seq(columns, j requires 0 <= j < columns reads board => board[i, j]))
    }

    /**
     * A board over the given initial states, with each cell's neighbour list set to the
     * positions `FindNeighbors` yields for it.
     */
    constructor (rows: nat, columns: nat, initial: Grid)
      requires ValidGrid(initial, rows, columns)
      ensures Valid()
      ensures this.rows == rows && this.columns == columns
      ensures States() == initial
      ensures fresh(board) && fresh(neighbors)
    {
      this.rows := rows;
      this.columns := columns;
      board := new int[rows, columns]((i: int, j: int) requires 0 <= i < rows && 0 <= j < columns => initial[i][j]);
      neighbors := new seq<Pos>[rows, columns];
      new;
      for row := 0 to rows
        modifies neighbors
        invariant forall i, j :: 0 <= i < row && 0 <= j < columns ==> neighbors[i, j] == FindNeighbors(rows, columns, i, j)
      {
        for column := 0 to columns
          modifies neighbors
          invariant forall i, j :: 0 <= i < rows && 0 <= j < columns && (i < row || (i == row && j < column)) ==>
            neighbors[i, j] == FindNeighbors(rows, columns, i, j)
        {
          neighbors[row, column] := FindNeighbors(rows, columns, row, column);
        }
      }
      assert forall i | 0 <= i < rows :: States()[i] == initial[i];
    }

    /**
     * Advances the board by one generation. Every new state is computed from a snapshot of the
     * board taken before the first write, so the result is the synchronous `Next` of the old states.
     */
    method UpdateBoard()
      requires Valid()
      modifies board
      ensures Valid()
      ensures States() == Next(old(States()), rows, columns)
    {
      var boardCopy := States();
      for row := 0 to rows
        invariant forall i, j :: 0 <= i < rows && 0 <= j < columns ==>
          board[i, j] == if i < row then NextState(boardCopy, rows, columns, i, j) else boardCopy[i][j]
      {
        for column := 0 to columns
          invariant forall i, j :: 0 <= i < rows && 0 <= j < columns ==>
            board[i, j] == if i < row || (i == row && j < column) then NextState(boardCopy, rows, columns, i, j)
                           else boardCopy[i][j]
        {
          UpdateCell(boardCopy, row, column);
        }
      }
      ghost var next := Next(boardCopy, rows, columns);
      assert forall i | 0 <= i < rows :: States()[i] == next[i];
    }

    /**
     * The loop body of the update for one position: the state and the alive-neighbour count are
     * read from the snapshot, and only the live cell at that position is written.
     */
    method UpdateCell(boardCopy: Grid, row: nat, column: nat)
      requires Valid()
      requires IsGrid(boardCopy, rows, columns) && row < rows && column < columns
      requires board[row, column] == boardCopy[row][column]
      modifies board
      ensures Valid()
      ensures board[row, column] == NextState(boardCopy, rows, columns, row, column)
      ensures forall i, j :: 0 <= i < rows && 0 <= j < columns && (i != row || j != column) ==>
        board[i, j] == old(board[i, j])
    {
      var cell := boardCopy[row][column];
      var aliveNeighbors := AliveCount(boardCopy, neighbors[row, column]);
      if cell == ALIVE {
        if aliveNeighbors < 2 || aliveNeighbors > 3 {
          board[row, column] := DEAD;
        }
      } else {
        if aliveNeighbors == 3 {
          board[row, column] := ALIVE;
        }
      }
    }

    /** The printed board: for each row in order, its cells' digits joined by spaces, then a newline. */
    method ToString() returns (boardView: string)
      requires Valid()
      ensures boardView == Render(States(), rows, columns)
    {
      var grid := States();
      var strBoard := seq(rows, i requires 0 <= i < rows => RowStrings(grid[i]));
      boardView := "";
      for i := 0 to rows
        invariant boardView == RenderRows(grid, columns, i)
      {
        boardView := boardView + Join(" ", strBoard[i]) + "\n";
      }
    }
  }
}
