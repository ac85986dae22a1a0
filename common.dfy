/** Small shared datatypes. */
module Common {

  /** A value that may be absent: a missing message field, `undefined`, `NaN` or Python's `None`. */
  datatype Option<+T> = None | Some(value: T)

  /** A grid coordinate; the worker keys its live cells by it. */
  datatype Cell = Cell(x: int, y: int)

  /** One entry of a `stateChanges` message: the cell `(x, y)` is now `alive`. */
  datatype Change = Change(x: int, y: int, alive: bool)

  /** A pattern coordinate `{x, y}` as the pattern tables and the RLE converter produce it. */
  datatype Point = Point(x: int, y: int)

  function CellOf(ch: Change): Cell
  {
    Cell(ch.x, ch.y)
  }
}
