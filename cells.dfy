/** The cell values of a nonogram grid and the line type shared by the board and the solver. */
module Cells {

  /** The state of one grid cell. `Empty` is the unknown state every new board starts in. */
  datatype Cell = Empty | Full | Cleared | Marked

  /** One row or column, as a value: extracting a line copies it out of the grid. */
  type Line = seq<Cell>

  /** The solver's "no result" (a null array in C#). */
  datatype Option<T> = None | Some(value: T)

  /** `c` is `line` with some cells turned Full: every other cell is left as it was,
      and no Cleared cell is covered. */
  predicate Extends(c: Line, line: Line)
  {
    |c| == |line| &&
    forall j :: 0 <= j < |c| ==> c[j] == line[j] || (c[j] == Full && line[j] != Cleared)
  }

  /** No cell at or after position `from` is Full. */
  predicate NoFullFrom(line: Line, from: nat)
  {
    forall j :: from <= j < |line| ==> line[j] != Full
  }
}
