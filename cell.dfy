/** A single cell of the board: a state that is either DEAD (0) or ALIVE (1). */
module Cells {

  const DEAD: int := 0
  const ALIVE: int := 1

  /** The two values a cell may hold. */
  predicate IsState(s: int) {
    s == DEAD || s == ALIVE
  }

  datatype Cell = Cell(state: int)

  /** Constructing a cell from anything but DEAD or ALIVE raises a ValueError. */
  datatype CellError = InvalidState(state: int)

  datatype Result<T> = Ok(value: T) | Err(error: CellError)

  /** Validated construction of a cell. */
  function NewCell(state: int): (r: Result<Cell>)
    ensures r.Ok? <==> state in {DEAD, ALIVE}
    ensures r.Ok? ==> r.value.state == state && IsState(r.value.state)
    ensures r.Err? ==> r.error.state == state
  {
    if state != DEAD && state != ALIVE then Err(InvalidState(state))
    else Ok(Cell(state))
  }

  /** The decimal digit character of a cell state. */
  function Digit(state: int): char
    requires IsState(state)
  {
    ('0' as int + state) as char
  }

  /** The text of a cell: the decimal digit of its state. */
  function CellToString(c: Cell): (s: string)
    requires IsState(c.state)
    ensures s == [Digit(c.state)]
  {
    if c.state == ALIVE then "1" else "0"
  }

  /** Two valid cells render alike only when they hold the same state. */
  lemma CellToStringInjective(c: Cell, d: Cell)
    requires IsState(c.state) && IsState(d.state)
    ensures CellToString(c) == CellToString(d) <==> c == d
  {
    if CellToString(c) == CellToString(d) {
      assert CellToString(c)[0] == CellToString(d)[0];
    }
  }

  /** A cell that construction accepts renders as "0" or "1", and reading the digit back gives its state. */
  lemma NewCellRenders(state: int)
    requires NewCell(state).Ok?
    ensures CellToString(NewCell(state).value) in {"0", "1"}
    ensures CellToString(NewCell(state).value)[0] as int - '0' as int == state
  {
  }
}
