/** The solver tests of `NUnitTests/Test_Solver.cs` replayed on the model: the concrete lines the
    tests build, and what the corrected line solver returns for them. */
module LineSolverExamples {
  import opened Cells
  import opened Runs
  import opened LineSolver
  import opened LineSolverAsWritten
  import opened NonogramBoard

  /** A block of two over three unknown cells can start at 0 or 1; only the middle cell is forced. */
  lemma SolveTwoOfThree()
    ensures Placements([Empty, Empty, Empty], [2], 0, 0) == [[Full, Full, Empty], [Empty, Full, Full]]
    ensures SolveLine([Empty, Empty, Empty], [2]) == Some([Empty, Full, Empty])
  {
    var line: Line := [Empty, Empty, Empty];
    assert [2][0..] == [2] && Sum([2]) == 2 && MinimumLength([2], 0) == 2;
    assert Fits(line, 0, 2) && Fits(line, 1, 2);
    var p0 := PlaceBlock(line, 0, 2).value;
    var p1 := PlaceBlock(line, 1, 2).value;
    assert p0[0] == Full && p0[1] == Full && p0[2] == Empty;
    assert p1[0] == Empty && p1[1] == Full && p1[2] == Full;
    assert p0 == [Full, Full, Empty] && p1 == [Empty, Full, Full];
    assert Placements(line, [2], 0, 2) == [];
    assert Placements(line, [2], 0, 1) == [p1];
    assert Placements(line, [2], 0, 0) == [p0, p1];
    var cands := [p0, p1];
    assert cands[1][0] != cands[0][0] && cands[1][2] != cands[0][2];
    assert SolveLine(line, [2]).value == [Empty, Full, Empty];
  }

  /** The input of `Test_SolveSequence`: the clue {2, 1} on four unknown cells has one filling,
      so every cell is forced. */
  lemma SolveTwoOneOfFour()
    ensures Placements([Empty, Empty, Empty, Empty], [2, 1], 0, 0) == [[Full, Full, Empty, Full]]
    ensures SolveLine([Empty, Empty, Empty, Empty], [2, 1]) == Some([Full, Full, Cleared, Full])
  {
    var line: Line := [Empty, Empty, Empty, Empty];
    var desc: seq<nat> := [2, 1];
    assert desc[0..] == desc && desc[1..] == [1] && [1][1..] == [];
    assert Sum([1]) == 1 && Sum(desc) == 3;
    assert MinimumLength(desc, 0) == 4 && MinimumLength(desc, 1) == 1;
    assert Fits(line, 0, 2);
    var p := PlaceBlock(line, 0, 2).value;
    assert p[0] == Full && p[1] == Full && p[2] == Empty && p[3] == Empty;
    assert p == [Full, Full, Empty, Empty];
    assert Fits(p, 3, 1);
    var q := PlaceBlock(p, 3, 1).value;
    assert q[0] == Full && q[1] == Full && q[2] == Empty && q[3] == Full;
    assert q == [Full, Full, Empty, Full];
    assert Placements(p, desc, 1, 4) == [];
    assert PlacementsAt(p, desc, 1, 3) == [q];
    assert Placements(p, desc, 1, 3) == [q];
    assert Placements(line, desc, 0, 1) == [];
    assert Placements(line, desc, 0, 0) == [q];
    assert SolveLine(line, desc).value == [Full, Full, Cleared, Full];
  }

  /** `Test_ApplyBlock`: the method places a block of two at offset 1 of three unknown cells and
      leaves cell 0 as it was. */
  method ApplyBlockScenario() returns (r: Option<Line>)
    ensures r == Some([Empty, Full, Full])
  {
    r := ApplyBlock([Empty, Empty, Empty], 1, 2);
    var line: Line := [Empty, Empty, Empty];
    assert Fits(line, 1, 2);
    var p := PlaceBlock(line, 1, 2).value;
    assert p[0] == Empty && p[1] == Full && p[2] == Full;
    assert p == [Empty, Full, Full];
  }

  /** `Test_SolveSequence`, with the result the test prints stated as the intended one. */
  method SolveSequenceScenario() returns (r: Option<Line>)
    ensures r == Some([Full, Full, Cleared, Full])
  {
    r := SolveSequence([Empty, Empty, Empty, Empty], [2, 1]);
    SolveTwoOneOfFour();
  }

  /** The copy-versus-alias check of `Test_Formulas`: writing a copy of a line leaves the line
      alone, while a write through a second reference to the same array is seen by the first. */
  /** `Test_SolveSequence` on the code as written: on a line with no known cell the early exit and
      the off-by-one separator of the C# `ApplyBlock` never fire, so it gives the corrected answer. */
  lemma SolveTwoOneOfFourAsWritten()
    ensures SolveSequenceAsWritten([Empty, Empty, Empty, Empty], [2, 1]) == Some([Full, Full, Cleared, Full])
  {
    var line: Line := [Empty, Empty, Empty, Empty];
    var desc: seq<nat> := [2, 1];
    assert desc[0] > 0 && desc[1] > 0;
    AsWrittenCorrectOnUnknownLine(line, desc);
    SolveTwoOneOfFour();
  }

  /** A line taken out of a board is a copy: a later `SetRow` on the board leaves it as it was,
      while an array reached through an alias sees every write. */
  method CloneAndAliasScenario() returns (taken: Line, after: Line, afterAliasWrite: Cell)
    ensures taken == [Empty, Empty, Empty]
    ensures after == [Full, Full, Full]
    ensures afterAliasWrite == Marked
  {
    var b := new Board([[1], [1], [1]], [[1], [1], [1]]);
    taken := b.GetRow(1);
    assert taken == [Empty, Empty, Empty] && b.Row(1) == taken;
    var n := b.SetRow([Full, Full, Full], 1);
    assert b.Row(1) == MergeLine([Empty, Empty, Empty], [Full, Full, Full]);
    assert b.Row(1)[0] == Full && b.Row(1)[1] == Full && b.Row(1)[2] == Full;
    after := b.GetRow(1);
    assert after == [Full, Full, Full];
    var cells := new Cell[3];
    cells[0], cells[1], cells[2] := Full, Full, Empty;
    var alias := cells;
    alias[0] := Marked;
    afterAliasWrite := cells[0];
  }
}
