/** What one generation of the board means, proved about the pure definitions of module Life. */
module LifeProperties {
  import opened Cells
  import opened Life

  // ---------------------------------------------------------------------------------------------
  // The neighbourhood

  /** Being a neighbour is symmetric: (i, j) is a neighbour of (r, c) exactly when (r, c) is one of (i, j). */
  lemma NeighborSymmetric(rows: nat, columns: nat, r: int, c: int, i: int, j: int)
    requires 0 <= r < rows && 0 <= c < columns
    requires 0 <= i < rows && 0 <= j < columns
    ensures Pos(i, j) in FindNeighbors(rows, columns, r, c) <==> Pos(r, c) in FindNeighbors(rows, columns, i, j)
  {
    FindNeighborsExact(rows, columns, r, c);
    FindNeighborsExact(rows, columns, i, j);
    var here, there := FindNeighbors(rows, columns, r, c), FindNeighbors(rows, columns, i, j);
    assert Pos(i, j) in here <==> IsNeighbor(rows, columns, Pos(r, c), Pos(i, j));
    assert Pos(r, c) in there <==> IsNeighbor(rows, columns, Pos(i, j), Pos(r, c));
  }

  /** The entries of a list are pairwise different. */
  predicate NoRepeats(ps: seq<Pos>) {
    forall a, b :: 0 <= a < b < |ps| ==> ps[a] != ps[b]
  }

  /** The centre is never its own neighbour, and no position is listed twice. */
  lemma NeighborsDistinct(rows: nat, columns: nat, r: int, c: int)
    requires 0 <= r < rows && 0 <= c < columns
    ensures NoRepeats(FindNeighbors(rows, columns, r, c))
    ensures Pos(r, c) !in FindNeighbors(rows, columns, r, c)
  {
    var ns := FindNeighbors(rows, columns, r, c);
    FindNeighborsExact(rows, columns, r, c);
    forall a, b | 0 <= a < b < |ns| ensures ns[a] != ns[b] {
      assert Before(ns[a], ns[b]);
    }
  }

  /** How many of the three indices `k - 1`, `k`, `k + 1` lie in `[0, n)`. */
  function Span(k: int, n: nat): (s: nat)
    requires 0 <= k < n
    ensures 1 <= s <= 3
  {
    (if k > 0 then 1 else 0) + 1 + (if k < n - 1 then 1 else 0)
  }

  lemma CandidateLength(rows: nat, columns: nat, centre: Pos, i: int, j: int)
    ensures |Candidate(rows, columns, centre, i, j)| ==
      if 0 <= i < rows && 0 <= j < columns && Pos(i, j) != centre then 1 else 0
  {
  }

  /** A window row on the board holds every on-board column of the window, less the centre in the centre's row. */
  lemma WindowRowLength(rows: nat, columns: nat, centre: Pos, i: int)
    requires 0 <= centre.row < rows && 0 <= centre.column < columns
    requires 0 <= i < rows
    ensures |WindowRow(rows, columns, centre, i)| ==
      Span(centre.column, columns) - (if i == centre.row then 1 else 0)
  {
    CandidateLength(rows, columns, centre, i, centre.column - 1);
    CandidateLength(rows, columns, centre, i, centre.column);
    CandidateLength(rows, columns, centre, i, centre.column + 1);
  }

  /**
   * The number of neighbours is the size of the window clipped to the board, less the centre:
   * 8 for an inner cell, 5 on an edge, 3 in a corner (when the board is at least 2 by 2).
   */
  lemma {:induction false} NeighborCount(rows: nat, columns: nat, r: int, c: int)
    requires 0 <= r < rows && 0 <= c < columns
    ensures |FindNeighbors(rows, columns, r, c)| == Span(r, rows) * Span(c, columns) - 1
  {
    var centre := Pos(r, c);
    var w := Span(c, columns);
    WindowRowLength(rows, columns, centre, r);
    if r > 0 { WindowRowLength(rows, columns, centre, r - 1); }
    if r < rows - 1 { WindowRowLength(rows, columns, centre, r + 1); }
    var above, level, below :=
      WindowRow(rows, columns, centre, r - 1), WindowRow(rows, columns, centre, r), WindowRow(rows, columns, centre, r + 1);
    assert FindNeighbors(rows, columns, r, c) == above + level + below;
    assert |above| == if r > 0 then w else 0;
    assert |below| == if r < rows - 1 then w else 0;
    assert |level| == w - 1;
    SpanTimes(r, rows, w);
  }

  lemma SpanTimes(k: int, n: nat, w: nat)
    requires 0 <= k < n
    ensures Span(k, n) * w == (if k > 0 then w else 0) + w + (if k < n - 1 then w else 0)
  {
    var h := Span(k, n);
    if k > 0 && k < n - 1 {
      assert h == 3;
    } else if k > 0 || k < n - 1 {
      assert h == 2;
    } else {
      assert h == 1;
    }
  }

  lemma CornerHasThreeNeighbors(rows: nat, columns: nat)
    requires rows >= 2 && columns >= 2
    ensures |FindNeighbors(rows, columns, 0, 0)| == 3
    ensures |FindNeighbors(rows, columns, 0, columns - 1)| == 3
    ensures |FindNeighbors(rows, columns, rows - 1, 0)| == 3
    ensures |FindNeighbors(rows, columns, rows - 1, columns - 1)| == 3
  {
    NeighborCount(rows, columns, 0, 0);
    NeighborCount(rows, columns, 0, columns - 1);
    NeighborCount(rows, columns, rows - 1, 0);
    NeighborCount(rows, columns, rows - 1, columns - 1);
  }

  lemma InnerCellHasEightNeighbors(rows: nat, columns: nat, r: int, c: int)
    requires 0 < r < rows - 1 && 0 < c < columns - 1
    ensures |FindNeighbors(rows, columns, r, c)| == 8
  {
    NeighborCount(rows, columns, r, c);
  }

  // ---------------------------------------------------------------------------------------------
  // Counting alive neighbours

  /** The alive cells of the Moore neighbourhood of `centre`, defined directly from the grid. */
  ghost function AliveNeighbors(g: Grid, rows: nat, columns: nat, centre: Pos): set<Pos>
    requires IsGrid(g, rows, columns)
  {
    set i, j | centre.row - 1 <= i <= centre.row + 1 && centre.column - 1 <= j <= centre.column + 1 &&
               IsNeighbor(rows, columns, centre, Pos(i, j)) && g[i][j] == ALIVE :: Pos(i, j)
  }

  /** The listed positions that hold an ALIVE cell. */
  ghost function AliveIn(g: Grid, ps: seq<Pos>): set<Pos>
    requires AllOnGrid(g, ps)
  {
    set k | 0 <= k < |ps| && Alive(g, ps[k]) :: ps[k]
  }

  /** The alive entries of a list are those of its head and those of its tail. */
  lemma AliveInCons(g: Grid, ps: seq<Pos>)
    requires AllOnGrid(g, ps) && ps != []
    ensures AllOnGrid(g, ps[1..])
    ensures AliveIn(g, ps) == (if Alive(g, ps[0]) then {ps[0]} else {}) + AliveIn(g, ps[1..])
  {
    var rest := ps[1..];
    assert forall k :: 0 <= k < |rest| ==> rest[k] == ps[k + 1];
    forall p ensures p in AliveIn(g, ps) <==> p in (if Alive(g, ps[0]) then {ps[0]} else {}) + AliveIn(g, rest) {
      if p in AliveIn(g, ps) {
        var k :| 0 <= k < |ps| && Alive(g, ps[k]) && ps[k] == p;
        if k > 0 { assert rest[k - 1] == p; }
      }
      if p in AliveIn(g, rest) {
        var k :| 0 <= k < |rest| && Alive(g, rest[k]) && rest[k] == p;
        assert ps[k + 1] == p;
      }
    }
  }

  /** The tail of a list without repetitions has none either, and does not hold the head. */
  lemma DistinctTail(ps: seq<Pos>)
    requires NoRepeats(ps) && ps != []
    ensures NoRepeats(ps[1..])
    ensures ps[0] !in ps[1..]
  {
    var rest := ps[1..];
    assert forall k :: 0 <= k < |rest| ==> rest[k] == ps[k + 1];
  }

  /** Over a list without repetitions, the count of alive entries is the size of their set. */
  lemma {:induction false} AliveCountIsCardinality(g: Grid, ps: seq<Pos>)
    requires AllOnGrid(g, ps) && NoRepeats(ps)
    ensures AliveCount(g, ps) == |AliveIn(g, ps)|
  {
    if ps != [] {
      AliveInCons(g, ps);
      DistinctTail(ps);
      AliveCountIsCardinality(g, ps[1..]);
      assert ps[0] !in AliveIn(g, ps[1..]);
    }
  }

  /** The count the update uses is the number of alive cells among the true Moore neighbours. */
  lemma NeighborCountIsMoore(g: Grid, rows: nat, columns: nat, r: int, c: int)
    requires IsGrid(g, rows, columns) && 0 <= r < rows && 0 <= c < columns
    ensures AliveCount(g, FindNeighbors(rows, columns, r, c)) == |AliveNeighbors(g, rows, columns, Pos(r, c))|
  {
    var ns := FindNeighbors(rows, columns, r, c);
    FindNeighborsExact(rows, columns, r, c);
    NeighborsDistinct(rows, columns, r, c);
    AliveCountIsCardinality(g, ns);
    assert AliveIn(g, ns) == AliveNeighbors(g, rows, columns, Pos(r, c)) by {
      forall p ensures p in AliveIn(g, ns) <==> p in AliveNeighbors(g, rows, columns, Pos(r, c)) {
        if p in AliveIn(g, ns) {
          var k :| 0 <= k < |ns| && Alive(g, ns[k]) && ns[k] == p;
          assert p in ns;
        }
        if p in AliveNeighbors(g, rows, columns, Pos(r, c)) {
          assert p in ns;
          var k :| 0 <= k < |ns| && ns[k] == p;
          assert Alive(g, ns[k]);
        }
      }
    }
  }

  // ---------------------------------------------------------------------------------------------
  // The transition rule

  /**
   * B3/S23, stated against the Moore neighbourhood of the previous grid: an ALIVE cell stays ALIVE
   * exactly with 2 or 3 alive neighbours, a DEAD cell becomes ALIVE exactly with 3, and every new
   * state is again DEAD or ALIVE.
   */
  lemma TransitionRule(g: Grid, rows: nat, columns: nat, r: int, c: int)
    requires ValidGrid(g, rows, columns) && 0 <= r < rows && 0 <= c < columns
    ensures var n := |AliveNeighbors(g, rows, columns, Pos(r, c))|;
      var s := Next(g, rows, columns)[r][c];
      IsState(s) &&
      (g[r][c] == ALIVE ==> (s == ALIVE <==> n == 2 || n == 3)) &&
      (g[r][c] == DEAD ==> (s == ALIVE <==> n == 3))
  {
    NeighborCountIsMoore(g, rows, columns, r, c);
  }

  /** A generation keeps the shape of the grid and the two-valued states. */
  lemma NextIsValid(g: Grid, rows: nat, columns: nat)
    requires ValidGrid(g, rows, columns)
    ensures ValidGrid(Next(g, rows, columns), rows, columns)
  {
  }

  /** Two grids that agree on which listed positions are alive give the same count. */
  lemma {:induction false} AliveCountAgrees(g: Grid, h: Grid, ps: seq<Pos>)
    requires AllOnGrid(g, ps) && AllOnGrid(h, ps)
    requires forall k :: 0 <= k < |ps| ==> Alive(g, ps[k]) == Alive(h, ps[k])
    ensures AliveCount(g, ps) == AliveCount(h, ps)
  {
    if ps != [] {
      AliveCountAgrees(g, h, ps[1..]);
    }
  }

  /** `a` lies within one step of `b`. */
  predicate Dist1(a: int, b: int) {
    b - 1 <= a <= b + 1
  }

  /**
   * Update is synchronous: the next state of (r, c) depends only on the previous states of (r, c)
   * and of its neighbours, whatever the rest of the grid holds.
   */
  lemma NextIsLocal(g: Grid, h: Grid, rows: nat, columns: nat, r: int, c: int)
    requires IsGrid(g, rows, columns) && IsGrid(h, rows, columns)
    requires 0 <= r < rows && 0 <= c < columns
    requires forall i, j :: 0 <= i < rows && 0 <= j < columns && Dist1(i, r) && Dist1(j, c) ==> g[i][j] == h[i][j]
    ensures Next(g, rows, columns)[r][c] == Next(h, rows, columns)[r][c]
  {
    var ns := FindNeighbors(rows, columns, r, c);
    FindNeighborsExact(rows, columns, r, c);
    forall k | 0 <= k < |ns| ensures Alive(g, ns[k]) == Alive(h, ns[k]) {
      assert ns[k] in ns;
      assert Dist1(ns[k].row, r) && Dist1(ns[k].column, c);
    }
    AliveCountAgrees(g, h, ns);
    assert Dist1(r, r) && Dist1(c, c);
  }

  // ---------------------------------------------------------------------------------------------
  // Still lifes and oscillators

  function AllDead(rows: nat, columns: nat): (g: Grid)
    ensures ValidGrid(g, rows, columns)
    ensures forall i, j :: 0 <= i < rows && 0 <= j < columns ==> g[i][j] == DEAD
  {
    seq(rows, i => seq(columns, j => DEAD))
  }

  lemma {:induction false} NoneAlive(g: Grid, ps: seq<Pos>)
    requires AllOnGrid(g, ps)
    requires forall k :: 0 <= k < |ps| ==> !Alive(g, ps[k])
    ensures AliveCount(g, ps) == 0
  {
    if ps != [] {
      NoneAlive(g, ps[1..]);
    }
  }

  /** An all-DEAD grid is a fixed point of the update. */
  lemma AllDeadIsFixed(rows: nat, columns: nat)
    ensures Next(AllDead(rows, columns), rows, columns) == AllDead(rows, columns)
  {
    var g := AllDead(rows, columns);
    var h := Next(g, rows, columns);
    forall i, j | 0 <= i < rows && 0 <= j < columns ensures h[i][j] == g[i][j] {
      var ns := FindNeighbors(rows, columns, i, j);
      NoneAlive(g, ns);
    }
    assert forall i | 0 <= i < rows :: h[i] == g[i];
  }
}
