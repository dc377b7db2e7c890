/** One step of the solver's driver (`Solve` in `Nonogram Solver/Solver.cs`) on a line it has
    chosen: copy the line out of the board, solve it against its own clue, and merge the result
    back. The choice of the line by confidence is not part of this model. */
module SolveStep {
  import opened Cells
  import opened NonogramBoard
  import opened LineSolver
  import opened LineSolverProofs

  /** Solves row `y` against its clue and merges the result into the grid, returning the number of
      changed cells; None when the row has no solution, where the C# passes `null` on to `SetRow`
      and fails. Every Full or Cleared cell of the row keeps its value. */
  method SolveRowStep(b: Board, y: nat) returns (changed: Option<nat>)
    requires b.Valid() && y < b.Height() && |b.rowClues[y]| > 0
    modifies b.grid
    ensures SolveLine(old(b.Row(y)), b.rowClues[y]).None? ==> changed.None? && unchanged(b.grid)
    ensures SolveLine(old(b.Row(y)), b.rowClues[y]).Some? ==>
      var solved := SolveLine(old(b.Row(y)), b.rowClues[y]).value;
      b.Row(y) == MergeLine(old(b.Row(y)), solved) &&
      changed == Some(ChangeCount(old(b.Row(y)), solved, b.Width()))
    ensures forall x :: 0 <= x < b.Width() && (old(b.grid[x, y]) == Full || old(b.grid[x, y]) == Cleared) ==>
      b.grid[x, y] == old(b.grid[x, y])
    ensures forall x, y' :: 0 <= x < b.Width() && 0 <= y' < b.Height() && y' != y ==>
      b.grid[x, y'] == old(b.grid[x, y'])
  {
    var line := b.GetRow(y);
    assert line == b.Row(y);
    var solved := SolveSequence(line, b.rowClues[y]);
    if solved.None? {
      return None;
    }
    SolveThenMergeIsMonotone(line, b.rowClues[y]);
    var n := b.SetRow(solved.value, y);
    changed := Some(n);
    forall x | 0 <= x < b.Width()
      ensures b.grid[x, y] == b.Row(y)[x]
    {
    }
  }

  /** The same step for column `x`, solved against the column's clue. */
  method SolveColumnStep(b: Board, x: nat) returns (changed: Option<nat>)
    requires b.Valid() && x < b.Width() && |b.colClues[x]| > 0
    modifies b.grid
    ensures SolveLine(old(b.Column(x)), b.colClues[x]).None? ==> changed.None? && unchanged(b.grid)
    ensures SolveLine(old(b.Column(x)), b.colClues[x]).Some? ==>
      var solved := SolveLine(old(b.Column(x)), b.colClues[x]).value;
      b.Column(x) == MergeLine(old(b.Column(x)), solved) &&
      changed == Some(ChangeCount(old(b.Column(x)), solved, b.Height()))
    ensures forall y :: 0 <= y < b.Height() && (old(b.grid[x, y]) == Full || old(b.grid[x, y]) == Cleared) ==>
      b.grid[x, y] == old(b.grid[x, y])
    ensures forall x', y :: 0 <= x' < b.Width() && 0 <= y < b.Height() && x' != x ==>
      b.grid[x', y] == old(b.grid[x', y])
  {
    var line := b.GetColumn(x);
    assert line == b.Column(x);
    var solved := SolveSequence(line, b.colClues[x]);
    if solved.None? {
      return None;
    }
    SolveThenMergeIsMonotone(line, b.colClues[x]);
    var n := b.SetColumn(solved.value, x);
    changed := Some(n);
    forall y | 0 <= y < b.Height()
      ensures b.grid[x, y] == b.Column(x)[y]
    {
    }
  }
}
