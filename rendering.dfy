/** The text of a board: one line per row, the cells' digits separated by single spaces. */
module Rendering {
  import opened Cells
  import opened Life

  /** `sep.join(parts)`: the parts in order with `sep` between neighbouring parts. */
  function Join(sep: string, parts: seq<string>): string {
    if |parts| == 0 then ""
    else if |parts| == 1 then parts[0]
    else parts[0] + sep + Join(sep, parts[1..])
  }

  /** The strings of the cells of one row. */
  function RowStrings(row: seq<int>): (ss: seq<string>)
    requires forall j :: 0 <= j < |row| ==> IsState(row[j])
    ensures |ss| == |row|
    ensures forall j :: 0 <= j < |row| ==> ss[j] == [Digit(row[j])]
  {
    seq(|row|, j requires 0 <= j < |row| => CellToString(Cell(row[j])))
  }

  /** One printed row: the cells joined by single spaces, then a newline. */
  function RowLine(row: seq<int>): (line: string)
    requires forall j :: 0 <= j < |row| ==> IsState(row[j])
    ensures |line| == LineWidth(|row|)
  {
    JoinSingles(' ', RowStrings(row));
    Join(" ", RowStrings(row)) + "\n"
  }

  /** The text of the first `n` rows, `columns` cells each. */
  function RenderRows(g: Grid, columns: nat, n: nat): string
    requires n <= |g|
    requires forall i :: 0 <= i < n ==> |g[i]| == columns
    requires forall i, j :: 0 <= i < n && 0 <= j < columns ==> IsState(g[i][j])
  {
    if n == 0 then "" else RenderRows(g, columns, n - 1) + RowLine(g[n - 1])
  }

  /** The text of the whole board. */
  function Render(g: Grid, rows: nat, columns: nat): string
    requires ValidGrid(g, rows, columns)
  {
    RenderRows(g, columns, rows)
  }

  /** The length of one printed row of `columns` cells. */
  function LineWidth(columns: nat): (w: nat)
    ensures w >= 1
  {
    if columns == 0 then 1 else 2 * columns
  }

  /**
   * Joining one-character parts puts part `k` at position `2k` and a separator character between;
   * joining no parts gives the empty string.
   */
  lemma {:induction false} JoinSingles(sep: char, parts: seq<string>)
    requires forall k :: 0 <= k < |parts| ==> |parts[k]| == 1
    ensures |Join([sep], parts)| == if |parts| == 0 then 0 else 2 * |parts| - 1
    ensures forall k :: 0 <= k < |parts| ==> Join([sep], parts)[2 * k] == parts[k][0]
    ensures forall k :: 0 <= k < |parts| - 1 ==> Join([sep], parts)[2 * k + 1] == sep
  {
    if |parts| > 1 {
      var rest := parts[1..];
      JoinSingles(sep, rest);
      var s := Join([sep], parts);
      assert s == parts[0] + [sep] + Join([sep], rest);
      forall k | 0 < k < |parts| ensures s[2 * k] == parts[k][0] {
        assert s[2 * k] == Join([sep], rest)[2 * (k - 1)];
        assert rest[k - 1] == parts[k];
      }
      forall k | 0 < k < |parts| - 1 ensures s[2 * k + 1] == sep {
        assert s[2 * k + 1] == Join([sep], rest)[2 * (k - 1) + 1];
      }
    }
  }

  /**
   * A printed row holds the digit of cell `j` at position `2j`, a space after every cell but the
   * last, and ends with a newline.
   */
  lemma RowLineLayout(row: seq<int>)
    requires forall j :: 0 <= j < |row| ==> IsState(row[j])
    ensures forall j :: 0 <= j < |row| ==> RowLine(row)[2 * j] == Digit(row[j])
    ensures forall j :: 0 <= j < |row| - 1 ==> RowLine(row)[2 * j + 1] == ' '
    ensures RowLine(row)[LineWidth(|row|) - 1] == '\n'
  {
    JoinSingles(' ', RowStrings(row));
  }

  /** Line `i` of a board of `n` lines of width `w` ends within the board. */
  lemma {:induction false} LineFits(i: nat, n: nat, w: nat)
    requires i < n
    ensures i * w + w <= n * w
    decreases n - i
  {
    if i + 1 < n {
      LineFits(i + 1, n, w);
    }
    assert (i + 1) * w == i * w + w;
  }

  /** Every printed row has the same width, so the first `n` rows take `n` widths. */
  lemma {:induction false} RenderRowsLength(g: Grid, columns: nat, n: nat)
    requires n <= |g|
    requires forall i :: 0 <= i < n ==> |g[i]| == columns
    requires forall i, j :: 0 <= i < n && 0 <= j < columns ==> IsState(g[i][j])
    ensures |RenderRows(g, columns, n)| == n * LineWidth(columns)
  {
    if n > 0 {
      RenderRowsLength(g, columns, n - 1);
      assert n * LineWidth(columns) == (n - 1) * LineWidth(columns) + LineWidth(columns);
    }
  }

  /** The rows are printed in order: the text of the first `m` rows begins the text of the first `n`. */
  lemma {:induction false} RenderRowsPrefix(g: Grid, columns: nat, m: nat, n: nat)
    requires m <= n <= |g|
    requires forall i :: 0 <= i < n ==> |g[i]| == columns
    requires forall i, j :: 0 <= i < n && 0 <= j < columns ==> IsState(g[i][j])
    ensures RenderRows(g, columns, m) <= RenderRows(g, columns, n)
    decreases n
  {
    if m < n {
      RenderRowsPrefix(g, columns, m, n - 1);
    }
  }

  /**
   * The text of a board has `rows * LineWidth(columns)` characters: line `i` holds the digits of
   * row `i` separated by single spaces and closed by a newline.
   */
  lemma RenderLayout(g: Grid, rows: nat, columns: nat, i: nat, j: nat)
    requires ValidGrid(g, rows, columns)
    requires i < rows && j < columns
    ensures |Render(g, rows, columns)| == rows * LineWidth(columns)
    ensures i * LineWidth(columns) + LineWidth(columns) <= |Render(g, rows, columns)|
    ensures Render(g, rows, columns)[i * LineWidth(columns) + 2 * j] == Digit(g[i][j])
    ensures j < columns - 1 ==> Render(g, rows, columns)[i * LineWidth(columns) + 2 * j + 1] == ' '
    ensures Render(g, rows, columns)[i * LineWidth(columns) + LineWidth(columns) - 1] == '\n'
  {
    var w := LineWidth(columns);
    var text := Render(g, rows, columns);
    RenderLine(g, rows, columns, i);
    RowLineLayout(g[i]);
    assert text[i * w + 2 * j] == RowLine(g[i])[2 * j];
    assert text[i * w + w - 1] == RowLine(g[i])[w - 1];
    if j < columns - 1 {
      assert text[i * w + 2 * j + 1] == RowLine(g[i])[2 * j + 1];
    }
  }

  /** Line `i` of a board's text is the printed row `i`, starting at `i` line widths. */
  lemma RenderLine(g: Grid, rows: nat, columns: nat, i: nat)
    requires ValidGrid(g, rows, columns)
    requires i < rows
    ensures |Render(g, rows, columns)| == rows * LineWidth(columns)
    ensures i * LineWidth(columns) + LineWidth(columns) <= |Render(g, rows, columns)|
    ensures forall k :: 0 <= k < LineWidth(columns) ==>
      Render(g, rows, columns)[i * LineWidth(columns) + k] == RowLine(g[i])[k]
  {
    var w := LineWidth(columns);
    var text := Render(g, rows, columns);
    var upTo := RenderRows(g, columns, i);
    RenderRowsLength(g, columns, rows);
    RenderRowsLength(g, columns, i);
    RenderRowsPrefix(g, columns, i + 1, rows);
    LineFits(i, rows, w);
    assert RenderRows(g, columns, i + 1) == upTo + RowLine(g[i]);
    forall k | 0 <= k < w ensures text[i * w + k] == RowLine(g[i])[k] {
      assert text[|upTo| + k] == RenderRows(g, columns, i + 1)[|upTo| + k];
    }
  }

  /** A board without columns prints as one newline per row, as the empty join at each row gives. */
  lemma RenderNoColumns(g: Grid, rows: nat)
    requires ValidGrid(g, rows, 0)
    ensures Render(g, rows, 0) == seq(rows, _ => '\n')
  {
    RenderRowsNoColumns(g, rows);
  }

  lemma {:induction false} RenderRowsNoColumns(g: Grid, n: nat)
    requires n <= |g|
    requires forall i :: 0 <= i < n ==> |g[i]| == 0
    ensures RenderRows(g, 0, n) == seq(n, _ => '\n')
  {
    if n > 0 {
      RenderRowsNoColumns(g, n - 1);
      assert RowLine(g[n - 1]) == "\n";
      assert seq(n, _ => '\n') == seq(n - 1, _ => '\n') + "\n";
    }
  }
}
