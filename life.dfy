/** The pure side of the board: grids, the Moore neighbourhood, the B3/S23 rule and one generation. */
module Life {
  import opened Cells

  /** A board position, identified by coordinates rather than by the cell object stored there. */
  datatype Pos = Pos(row: int, column: int)

  type Grid = seq<seq<int>>

  /** `g` has `rows` rows of `columns` entries each. */
  predicate IsGrid(g: Grid, rows: nat, columns: nat) {
    |g| == rows && forall i :: 0 <= i < |g| ==> |g[i]| == columns
  }

  /** A rectangular grid whose every entry is a cell state. */
  predicate ValidGrid(g: Grid, rows: nat, columns: nat) {
    IsGrid(g, rows, columns) &&
    forall i, j :: 0 <= i < rows && 0 <= j < columns ==> IsState(g[i][j])
  }

  predicate InBounds(rows: nat, columns: nat, p: Pos) {
    0 <= p.row < rows && 0 <= p.column < columns
  }

  /** Reference definition: `p` is one of the up to eight cells around `centre` on the board. */
  predicate IsNeighbor(rows: nat, columns: nat, centre: Pos, p: Pos) {
    InBounds(rows, columns, p) &&
    centre.row - 1 <= p.row <= centre.row + 1 &&
    centre.column - 1 <= p.column <= centre.column + 1 &&
    p != centre
  }

  /** Lexicographic order on positions, the order in which the window is walked. */
  predicate Before(p: Pos, q: Pos) {
    p.row < q.row || (p.row == q.row && p.column < q.column)
  }

  predicate StrictlyOrdered(ps: seq<Pos>) {
    forall a, b :: 0 <= a < b < |ps| ==> Before(ps[a], ps[b])
  }

  /** Joining two ordered lists, every entry of the first before every entry of the second, keeps the order. */
  lemma ConcatOrdered(a: seq<Pos>, b: seq<Pos>)
    requires StrictlyOrdered(a) && StrictlyOrdered(b)
    requires forall x, y :: x in a && y in b ==> Before(x, y)
    ensures StrictlyOrdered(a + b)
  {
    forall m, n | 0 <= m < n < |a + b| ensures Before((a + b)[m], (a + b)[n]) {
      if n < |a| {
      } else if m < |a| {
        assert (a + b)[m] in a && (a + b)[n] in b;
      } else {
        assert (a + b)[m] == b[m - |a|] && (a + b)[n] == b[n - |a|];
      }
    }
  }

  /** One candidate of the window: kept when it lies on the board and is not the centre itself. */
  function Candidate(rows: nat, columns: nat, centre: Pos, i: int, j: int): (cs: seq<Pos>)
    ensures forall p :: p in cs <==> p == Pos(i, j) && InBounds(rows, columns, p) && p != centre
    ensures |cs| <= 1
  {
    if 0 <= i < rows && 0 <= j < columns && Pos(i, j) != centre then [Pos(i, j)] else []
  }

  /** The candidates of row `i` of the window, columns `column - 1` to `column + 1`. */
  function WindowRow(rows: nat, columns: nat, centre: Pos, i: int): (ws: seq<Pos>)
    ensures forall p :: p in ws <==>
      p.row == i && InBounds(rows, columns, p) &&
      centre.column - 1 <= p.column <= centre.column + 1 && p != centre
    ensures StrictlyOrdered(ws)
    ensures |ws| <= 3
    ensures !(0 <= i < rows) ==> ws == []
  {
    if 0 <= i < rows then
      var left := Candidate(rows, columns, centre, i, centre.column - 1);
      var mid := Candidate(rows, columns, centre, i, centre.column);
      var right := Candidate(rows, columns, centre, i, centre.column + 1);
      ConcatOrdered(left, mid);
      ConcatOrdered(left + mid, right);
      left + mid + right
    else []
  }

  /**
   * The neighbours of (row, column): the window rows `row - 1` to `row + 1`, each restricted to
   * the board and without the centre, walked in row-major order.
   */
  function FindNeighbors(rows: nat, columns: nat, row: int, column: int): (ns: seq<Pos>)
    requires 0 <= row < rows && 0 <= column < columns
    ensures forall k :: 0 <= k < |ns| ==> InBounds(rows, columns, ns[k])
    ensures |ns| <= 8
  {
    var centre := Pos(row, column);
    var above := WindowRow(rows, columns, centre, row - 1);
    var level := WindowRow(rows, columns, centre, row);
    var below := WindowRow(rows, columns, centre, row + 1);
    assert forall k :: 0 <= k < |above + level + below| ==> (above + level + below)[k] in above + level + below;
    above + level + below
  }

  /**
   * The list of neighbours holds exactly the Moore neighbours of (row, column) on the board, each
   * once, in row-major order.
   */
  lemma FindNeighborsExact(rows: nat, columns: nat, row: int, column: int)
    requires 0 <= row < rows && 0 <= column < columns
    ensures forall p :: p in FindNeighbors(rows, columns, row, column) <==> IsNeighbor(rows, columns, Pos(row, column), p)
    ensures StrictlyOrdered(FindNeighbors(rows, columns, row, column))
  {
    var centre := Pos(row, column);
    var above := WindowRow(rows, columns, centre, row - 1);
    var level := WindowRow(rows, columns, centre, row);
    var below := WindowRow(rows, columns, centre, row + 1);
    ConcatOrdered(above, level);
    ConcatOrdered(above + level, below);
    assert FindNeighbors(rows, columns, row, column) == above + level + below;
  }

  /** Whether the cell at `p` is alive in `g`. */
  predicate Alive(g: Grid, p: Pos)
    requires 0 <= p.row < |g| && 0 <= p.column < |g[p.row]|
  {
    g[p.row][p.column] == ALIVE
  }

  predicate AllOnGrid(g: Grid, ps: seq<Pos>) {
    forall k :: 0 <= k < |ps| ==> 0 <= ps[k].row < |g| && 0 <= ps[k].column < |g[ps[k].row]|
  }

  /** How many of the listed positions hold an ALIVE cell. */
  function AliveCount(g: Grid, ps: seq<Pos>): (n: nat)
    requires AllOnGrid(g, ps)
    ensures n <= |ps|
  {
    if ps == [] then 0
    else (if Alive(g, ps[0]) then 1 else 0) + AliveCount(g, ps[1..])
  }

  /** The transition of one cell, branch for branch as the update loop takes it. */
  function Step(state: int, aliveNeighbors: int): (r: int)
    ensures IsState(state) ==> IsState(r)
    ensures IsState(state) ==>
      (r == ALIVE <==> (state == ALIVE && (aliveNeighbors == 2 || aliveNeighbors == 3)) ||
                       (state == DEAD && aliveNeighbors == 3))
  {
    if state == ALIVE then
      if aliveNeighbors < 2 || aliveNeighbors > 3 then DEAD else state
    else
      if aliveNeighbors == 3 then ALIVE else state
  }

  /** The state of (i, j) in the next generation, computed from `g` alone. */
  function NextState(g: Grid, rows: nat, columns: nat, i: int, j: int): (s: int)
    requires IsGrid(g, rows, columns) && 0 <= i < rows && 0 <= j < columns
  {
    Step(g[i][j], AliveCount(g, FindNeighbors(rows, columns, i, j)))
  }

  /** One synchronous generation: every new state is computed from the previous grid. */
  function Next(g: Grid, rows: nat, columns: nat): (h: Grid)
    requires IsGrid(g, rows, columns)
    ensures IsGrid(h, rows, columns)
    ensures forall i, j :: 0 <= i < rows && 0 <= j < columns ==> h[i][j] == NextState(g, rows, columns, i, j)
  {
    seq(rows, i requires 0 <= i < rows =>
      seq(columns, j requires 0 <= j < columns => NextState(g, rows, columns, i, j)))
  }
}
