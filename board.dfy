/** The nonogram board: a grid of cells indexed `[x, y]`, its row and column clues, and the
    copy-out / merge-back operations on one line at a time (`Nonogram Solver/Board.cs`). */
module NonogramBoard {
  import opened Cells

  /** Whether merging the incoming cell `inc` over `cur` changes the grid: an incoming Empty
      never overwrites, any other incoming value does when it differs. */
  predicate Changes(cur: Cell, inc: Cell)
  {
    inc != Empty && cur != inc
  }

  /** The grid cell after merging `inc` over `cur`. */
  function MergeCell(cur: Cell, inc: Cell): Cell
  {
    if Changes(cur, inc) then inc else cur
  }

  /** A board line after merging the incoming line over it; the incoming line may be longer,
      only its first `|cur|` cells are read. */
  function MergeLine(cur: Line, inc: Line): Line
    requires |cur| <= |inc|
  {
    seq(|cur|, i requires 0 <= i < |cur| => MergeCell(cur[i], inc[i]))
  }

  /** How many of the first `n` positions the merge changes. */
  function ChangeCount(cur: Line, inc: Line, n: nat): nat
    requires n <= |cur| <= |inc|
  {
    if n == 0 then 0
    else ChangeCount(cur, inc, n - 1) + (if Changes(cur[n - 1], inc[n - 1]) then 1 else 0)
  }

  /** How many of the first `n` positions differ between two lines. */
  function Distance(a: Line, b: Line, n: nat): nat
    requires n <= |a| && n <= |b|
  {
    if n == 0 then 0
    else Distance(a, b, n - 1) + (if a[n - 1] != b[n - 1] then 1 else 0)
  }

  /** The returned count is the number of cells that actually differ between the line before
      and after the merge. */
  lemma {:induction false} ChangeCountIsDistance(cur: Line, inc: Line, n: nat)
    requires n <= |cur| <= |inc|
    ensures ChangeCount(cur, inc, n) == Distance(cur, MergeLine(cur, inc), n)
  {
    if n > 0 {
      ChangeCountIsDistance(cur, inc, n - 1);
    }
  }

  lemma {:induction false} DistanceZero(a: Line, b: Line, n: nat)
    requires n <= |a| && n <= |b|
    ensures Distance(a, b, n) == 0 <==> forall i :: 0 <= i < n ==> a[i] == b[i]
  {
    if n > 0 {
      DistanceZero(a, b, n - 1);
    }
  }

  /** The count is zero exactly when the merge leaves the line as it was. */
  lemma ChangeCountZeroIff(cur: Line, inc: Line)
    requires |cur| <= |inc|
    ensures ChangeCount(cur, inc, |cur|) == 0 <==> MergeLine(cur, inc) == cur
  {
    ChangeCountIsDistance(cur, inc, |cur|);
    DistanceZero(cur, MergeLine(cur, inc), |cur|);
  }

  /** Merging the same line a second time changes nothing and counts nothing. */
  lemma MergeIdempotent(cur: Line, inc: Line)
    requires |cur| <= |inc|
    ensures MergeLine(MergeLine(cur, inc), inc) == MergeLine(cur, inc)
    ensures ChangeCount(MergeLine(cur, inc), inc, |cur|) == 0
  {
    var once := MergeLine(cur, inc);
    assert MergeLine(once, inc) == once;
    ChangeCountZeroIff(once, inc);
  }

  /** A merge never makes a known cell unknown, and leaves every position whose incoming
      cell is Empty untouched. */
  lemma MergeKeepsKnown(cur: Line, inc: Line)
    requires |cur| <= |inc|
    ensures |MergeLine(cur, inc)| == |cur|
    ensures forall i :: 0 <= i < |cur| && cur[i] != Empty ==> MergeLine(cur, inc)[i] != Empty
    ensures forall i :: 0 <= i < |cur| && inc[i] == Empty ==> MergeLine(cur, inc)[i] == cur[i]
  {
  }

  /** Merging a fully known line makes the board line equal to it. */
  lemma MergeFullyKnown(cur: Line, inc: Line)
    requires |cur| == |inc|
    requires forall i :: 0 <= i < |inc| ==> inc[i] != Empty
    ensures MergeLine(cur, inc) == inc
  {
  }

  lemma {:induction false} ChangeCountAllChanged(cur: Line, inc: Line, n: nat)
    requires n <= |cur| <= |inc|
    requires forall i :: 0 <= i < n ==> Changes(cur[i], inc[i])
    ensures ChangeCount(cur, inc, n) == n
  {
    if n > 0 {
      ChangeCountAllChanged(cur, inc, n - 1);
    }
  }

  /** Merging a fully known line into an all-Empty line changes (and counts) every cell. */
  lemma MergeIntoUnknown(cur: Line, inc: Line)
    requires |cur| <= |inc|
    requires forall i :: 0 <= i < |cur| ==> cur[i] == Empty && inc[i] != Empty
    ensures ChangeCount(cur, inc, |cur|) == |cur|
  {
    ChangeCountAllChanged(cur, inc, |cur|);
  }

  class Board {
    /** The cells, indexed `grid[x, y]`: `x` runs over the columns, `y` over the rows. */
    const grid: array2<Cell>
    const rowClues: seq<seq<nat>>
    const colClues: seq<seq<nat>>

    /** The grid has one column per column clue and one row per row clue. */
    ghost predicate Valid()
      reads this
    {
      grid.Length0 == |colClues| && grid.Length1 == |rowClues|
    }

    function Width(): nat
      reads this
    {
      grid.Length0
    }

    function Height(): nat
      reads this
    {
      grid.Length1
    }

    /** Row `y` of the grid as a line. */
    function Row(y: nat): Line
      requires y < Height()
      reads this, grid
    {
      seq(grid.Length0, x requires 0 <= x < grid.Length0 reads grid => grid[x, y])
    }

    /** Column `x` of the grid as a line. */
    function Column(x: nat): Line
      requires x < Width()
      reads this, grid
    {
      seq(grid.Length1, y requires 0 <= y < grid.Length1 reads grid => grid[x, y])
    }

    /** A fresh board: the grid takes its dimensions from the clue tables and every cell
        starts out Empty. */
    constructor (rowClues: seq<seq<nat>>, colClues: seq<seq<nat>>)
      ensures this.rowClues == rowClues && this.colClues == colClues
      ensures Valid() && Width() == |colClues| && Height() == |rowClues|
      ensures fresh(grid)
      ensures forall x, y :: 0 <= x < Width() && 0 <= y < Height() ==> grid[x, y] == Empty
    {
      this.rowClues := rowClues;
      this.colClues := colClues;
      grid := new Cell[|colClues|, |rowClues|]((x, y) => Empty);
    }

    /** A copy of row `y`: cell `x` of the result is `grid[x, y]`. */
    method GetRow(y: nat) returns (row: Line)
      requires y < Height()
      ensures |row| == Width()
      ensures forall x :: 0 <= x < Width() ==> row[x] == grid[x, y]
    {
      row := [];
      var i := 0;
      while i < grid.Length0
        invariant 0 <= i <= grid.Length0
        invariant |row| == i
        invariant forall x :: 0 <= x < i ==> row[x] == grid[x, y]
      {
        row := row + [grid[i, y]];
        i := i + 1;
      }
    }

    /** A copy of column `x`: cell `y` of the result is `grid[x, y]`. */
    method GetColumn(x: nat) returns (column: Line)
      requires x < Width()
      ensures |column| == Height()
      ensures forall y :: 0 <= y < Height() ==> column[y] == grid[x, y]
    {
      column := [];
      var i := 0;
      while i < grid.Length1
        invariant 0 <= i <= grid.Length1
        invariant |column| == i
        invariant forall y :: 0 <= y < i ==> column[y] == grid[x, y]
      {
        column := column + [grid[x, i]];
        i := i + 1;
      }
    }

    /** Merges `line` into row `y` and returns how many cells changed. */
    method SetRow(line: Line, y: nat) returns (changed: nat)
      requires y < Height() && Width() <= |line|
      modifies grid
      ensures Row(y) == MergeLine(old(Row(y)), line)
      ensures changed == ChangeCount(old(Row(y)), line, Width())
      ensures forall x, y' :: 0 <= x < Width() && 0 <= y' < Height() && y' != y ==>
                grid[x, y'] == old(grid[x, y'])
    {
      ghost var before := Row(y);
      changed := 0;
      var i := 0;
      while i < grid.Length0
        invariant 0 <= i <= grid.Length0
        invariant forall x, y' :: 0 <= x < grid.Length0 && 0 <= y' < grid.Length1 && (y' != y || i <= x) ==>
                    grid[x, y'] == old(grid[x, y'])
        invariant forall x :: 0 <= x < i ==> grid[x, y] == MergeCell(before[x], line[x])
        invariant changed == ChangeCount(before, line, i)
      {
        if line[i] != Empty && grid[i, y] != line[i] {
          grid[i, y] := line[i];
          changed := changed + 1;
        }
        i := i + 1;
      }
      assert Row(y) == MergeLine(before, line);
    }

    /** Merges `line` into column `x` and returns how many cells changed. */
    method SetColumn(line: Line, x: nat) returns (changed: nat)
      requires x < Width() && Height() <= |line|
      modifies grid
      ensures Column(x) == MergeLine(old(Column(x)), line)
      ensures changed == ChangeCount(old(Column(x)), line, Height())
      ensures forall x', y :: 0 <= x' < Width() && 0 <= y < Height() && x' != x ==>
                grid[x', y] == old(grid[x', y])
    {
      ghost var before := Column(x);
      changed := 0;
      var i := 0;
      while i < grid.Length1
        invariant 0 <= i <= grid.Length1
        invariant forall x', y :: 0 <= x' < grid.Length0 && 0 <= y < grid.Length1 && (x' != x || i <= y) ==>
                    grid[x', y] == old(grid[x', y])
        invariant forall y :: 0 <= y < i ==> grid[x, y] == MergeCell(before[y], line[y])
        invariant changed == ChangeCount(before, line, i)
      {
        if line[i] != Empty && grid[x, i] != line[i] {
          grid[x, i] := line[i];
          changed := changed + 1;
        }
        i := i + 1;
      }
      assert Column(x) == MergeLine(before, line);
    }
  }

  /** Width and height come from the number of column and row clues: four column clues and
      three row clues give a 4 x 3 grid. */
  method ConstructorScenario() returns (width: nat, height: nat)
    ensures width == 4 && height == 3
  {
    var b := new Board([[1, 2], [3, 4], [5, 6]], [[1, 2], [3, 4], [5, 6], [7, 8]]);
    width, height := b.Width(), b.Height();
  }

  /** Cells written straight into the grid show up in the copies of their row and column. */
  method GetRowAndColumnScenario() returns (row: Line, column: Line)
    ensures row == [Empty, Full, Cleared]
    ensures column == [Cleared, Full, Empty]
  {
    var b := new Board([[1], [1], [1]], [[1], [1], [1]]);
    b.grid[1, 1] := Full;
    b.grid[2, 1] := Cleared;
    b.grid[1, 0] := Cleared;
    row := b.GetRow(1);
    column := b.GetColumn(1);
  }

  /** Merging a known line into an unknown column counts all three cells; merging it into the
      crossing row counts only the two cells the column did not already set; afterwards the row
      and the column both read back as that line. */
  method SetRowAndColumnScenario() returns (b: Board, fresh0: Line, c1: nat, c2: nat, row: Line, column: Line)
    ensures fresh0 == [Empty, Empty, Empty]
    ensures c1 == 3 && c2 == 2
    ensures row == [Full, Full, Cleared] && column == [Full, Full, Cleared]
    ensures b.Width() == 3 && b.Height() == 3 && b.Row(1) == row && b.Column(1) == column
  {
    b := new Board([[1], [1], [1]], [[1], [1], [1]]);
    fresh0 := b.GetRow(1);
    var line := [Full, Full, Cleared];
    assert b.Column(1) == [Empty, Empty, Empty] by {
      assert b.Column(1)[0] == b.Column(1)[1] == b.Column(1)[2] == Empty;
    }
    assert ChangeCount([Empty, Empty, Empty], line, 3) == 3;
    assert MergeLine([Empty, Empty, Empty], line) == line;
    c1 := b.SetColumn(line, 1);
    assert b.grid[1, 1] == b.Column(1)[1] == Full;
    assert b.Row(1) == [Empty, Full, Empty] by {
      assert b.Row(1)[0] == b.grid[0, 1] && b.Row(1)[1] == b.grid[1, 1] && b.Row(1)[2] == b.grid[2, 1];
    }
    assert ChangeCount([Empty, Full, Empty], line, 3) == 2;
    assert MergeLine([Empty, Full, Empty], line) == line;
    c2 := b.SetRow(line, 1);
    row := b.GetRow(1);
    column := b.GetColumn(1);
    assert b.Row(1) == row;
    assert b.Column(1) == column;
  }

  /** On the board left by the scenario above, a line whose only known cell differs (Full to
      Cleared) counts one change in the column and one in the row; its Empty cells leave the
      grid alone. */
  method OverwriteScenario(b: Board) returns (c3: nat, c4: nat)
    requires b.Width() == 3 && b.Height() == 3
    requires b.Row(1) == [Full, Full, Cleared] && b.Column(1) == [Full, Full, Cleared]
    modifies b.grid
    ensures c3 == 1 && c4 == 1
    ensures b.Column(1) == [Cleared, Full, Cleared] && b.Row(1) == [Cleared, Full, Cleared]
  {
    var line := [Cleared, Empty, Empty];
    assert ChangeCount([Full, Full, Cleared], line, 3) == 1;
    assert MergeLine([Full, Full, Cleared], line) == [Cleared, Full, Cleared];
    c3 := b.SetColumn(line, 1);
    assert b.Column(1) == [Cleared, Full, Cleared];
    assert b.grid[1, 0] == b.Column(1)[0] && b.grid[1, 1] == b.Column(1)[1];
    assert b.grid[1, 2] == b.Column(1)[2];
    assert b.Row(1) == [Full, Full, Cleared] by {
      assert b.Row(1)[0] == b.grid[0, 1] && b.Row(1)[1] == b.grid[1, 1] && b.Row(1)[2] == b.grid[2, 1];
    }
    c4 := b.SetRow(line, 1);
    assert b.Column(1) == [Cleared, Full, Cleared] by {
      assert b.Column(1)[0] == b.grid[1, 0] && b.Column(1)[1] == b.grid[1, 1] && b.Column(1)[2] == b.grid[1, 2];
    }
  }
}
