/** The line primitives of `Nonogram Solver/Solver.cs` exactly as written, next to the corrected
    ones of `LineSolver`, with the inputs on which the two differ. The C# loops are written here as
    recursion over the loop index; the corrected versions used by the rest of the model are the
    methods of `LineSolver`. */
module LineSolverAsWritten {
  import opened Cells
  import opened Runs
  import opened LineSolver
  import opened LineSolverProofs

  /** The fill loop of `ApplyBlock` from iteration `i` on, working on the copy `result`: each pass
      stops at the end of the line, tests the cell at the loop index `i` (not `start + i`) for
      Cleared, and only then makes cell `start + i` Full. */
  function FillAsWritten(result: Line, start: nat, len: nat, i: nat): (r: Option<Line>)
    ensures r.Some? ==> |r.value| == |result|
    ensures r.Some? && i < len ==> start + len <= |result|
    ensures r.Some? ==> forall j :: 0 <= j < |result| ==>
              r.value[j] == (if start + i <= j < start + len then Full else result[j])
    decreases len - i
  {
    if i >= len then Some(result)
    else if i + start >= |result| then None
    else if result[i] == Cleared then None
    else FillAsWritten(result[start + i := Full], start, len, i + 1)
  }

  /** `ApplyBlock` as written: the fill loop, then a test of the cell two places after the block
      (`start + len + 1`) instead of the cell right after it, and no test of the cell before it. */
  function ApplyBlockAsWritten(line: Line, start: nat, len: nat): (r: Option<Line>)
    ensures r.Some? ==> |r.value| == |line|
    ensures r.Some? && len > 0 ==> start + len <= |line|
    ensures r.Some? ==> forall j :: 0 <= j < |line| ==>
              r.value[j] == (if start <= j < start + len then Full else line[j])
  {
    match FillAsWritten(line, start, len, 0)
    case None => None
    case Some(result) =>
      if start + len + 1 < |result| && result[start + len + 1] == Full then None
      else Some(result)
  }

  /** `GenerateCombinations` as written, from offset `s` on: every offset the minimum length allows
      is tried, with no stop after a Full cell. */
  function GenerateCombinationsAsWritten(line: Line, desc: seq<nat>, k: nat, s: nat): (r: seq<Line>)
    requires k < |desc|
    ensures forall c :: c in r ==> |c| == |line|
    decreases |desc| - k, |line| + 1 - s, 1
  {
    if s + MinimumLength(desc, k) - 1 >= |line| then []
    else CombinationsAtAsWritten(line, desc, k, s) + GenerateCombinationsAsWritten(line, desc, k, s + 1)
  }

  /** One pass of that loop as written: place block `k` at `s` and recurse on the next clue entry,
      or keep the line after the last entry with no test of the cells that follow it. */
  function CombinationsAtAsWritten(line: Line, desc: seq<nat>, k: nat, s: nat): (r: seq<Line>)
    requires k < |desc|
    ensures forall c :: c in r ==> |c| == |line|
    decreases |desc| - k, |line| + 1 - s, 0
  {
    match ApplyBlockAsWritten(line, s, desc[k])
    case None => []
    case Some(placed) =>
      if k < |desc| - 1 then GenerateCombinationsAsWritten(placed, desc, k + 1, s + desc[k] + 1)
      else [placed]
  }

  /** `SolveSequence` as written: the strict-equality consensus of the as-written candidates. */
  function SolveSequenceAsWritten(line: Line, desc: seq<nat>): (r: Option<Line>)
    requires |desc| > 0
    ensures r.Some? ==> |r.value| == |line|
  {
    var cands := GenerateCombinationsAsWritten(line, desc, 0, 0);
    if |cands| == 0 then None
    else Some(seq(|line|, i requires 0 <= i < |line| => Consensus(cands, i)))
  }

  /** On three unknown cells both versions place a block of two at offset 1 as the test expects. */
  lemma ApplyBlockAgreesOnTest()
    ensures ApplyBlockAsWritten([Empty, Empty, Empty], 1, 2) == Some([Empty, Full, Full])
    ensures PlaceBlock([Empty, Empty, Empty], 1, 2) == Some([Empty, Full, Full])
  {
    var line: Line := [Empty, Empty, Empty];
    assert line[1 := Full][2 := Full] == [Empty, Full, Full];
    assert FillAsWritten(line[1 := Full], 1, 2, 1) == FillAsWritten([Empty, Full, Full], 1, 2, 2);
    assert FillAsWritten(line, 1, 2, 0) == Some([Empty, Full, Full]);
    assert Fits([Empty, Empty, Empty], 1, 2);
    var r := PlaceBlock([Empty, Empty, Empty], 1, 2).value;
    assert r[0] == Empty && r[1] == Full && r[2] == Full;
    assert r == [Empty, Full, Full];
  }

  /** The Cleared test of Solver.cs:204, first half: it looks at cell `i`, so a block is laid over a
      Cleared cell when cell `i` itself is not Cleared. */
  lemma ApplyBlockCoversCleared()
    ensures ApplyBlockAsWritten([Empty, Empty, Cleared], 1, 2) == Some([Empty, Full, Full])
    ensures PlaceBlock([Empty, Empty, Cleared], 1, 2) == None
  {
    var line: Line := [Empty, Empty, Cleared];
    assert line[1 := Full][2 := Full] == [Empty, Full, Full];
    assert FillAsWritten(line[1 := Full], 1, 2, 1) == FillAsWritten([Empty, Full, Full], 1, 2, 2);
    assert FillAsWritten(line, 1, 2, 0) == Some([Empty, Full, Full]);
    assert line[2] == Cleared;
    assert !Fits(line, 1, 2);
  }

  /** The Cleared test of Solver.cs:204, second half: a block that fits is refused because of a Cleared cell outside it. */
  lemma ApplyBlockRefusesFit()
    ensures ApplyBlockAsWritten([Cleared, Empty, Empty], 1, 2) == None
    ensures PlaceBlock([Cleared, Empty, Empty], 1, 2) == Some([Cleared, Full, Full])
  {
    assert Fits([Cleared, Empty, Empty], 1, 2);
    var r := PlaceBlock([Cleared, Empty, Empty], 1, 2).value;
    assert r[0] == Cleared && r[1] == Full && r[2] == Full;
    assert r == [Cleared, Full, Full];
  }

  /** The neighbour test of Solver.cs:211-212: the cell right after the block is never tested, so a block of two runs straight
      into a Full cell and the line shows a run of three. */
  lemma ApplyBlockMergesRuns()
    ensures ApplyBlockAsWritten([Empty, Empty, Full], 0, 2) == Some([Full, Full, Full])
    ensures RunsOf([Full, Full, Full]) == [3]
    ensures PlaceBlock([Empty, Empty, Full], 0, 2) == None
  {
    assert [Empty, Empty, Full][0 := Full][1 := Full] == [Full, Full, Full];
    RunAt([Full, Full, Full], 0, 3);
  }

  /** The offset loop of Solver.cs:175-189: the generator keeps a placement that leaves a known Full cell outside every
      block, here a line that shows the clue {2} for the clue {1}; the consensus then fails to
      force the second cell Cleared. */
  lemma GenerateLeavesFullUncovered()
    ensures GenerateCombinationsAsWritten([Full, Empty], [1], 0, 0) == [[Full, Empty], [Full, Full]]
    ensures RunsOf([Full, Full]) == [2]
    ensures SolveSequenceAsWritten([Full, Empty], [1]) == Some([Full, Empty])
    ensures Placements([Full, Empty], [1], 0, 0) == [[Full, Empty]]
    ensures SolveLine([Full, Empty], [1]) == Some([Full, Cleared])
  {
    var line: Line := [Full, Empty];
    assert [1][0..] == [1] && Sum([1]) == 1;
    assert MinimumLength([1], 0) == 1;
    assert line[0 := Full] == line;
    assert line[1 := Full] == [Full, Full];
    assert ApplyBlockAsWritten(line, 0, 1) == Some(line);
    assert ApplyBlockAsWritten(line, 1, 1) == Some([Full, Full]);
    RunAt([Full, Full], 0, 2);
    var cands := [[Full, Empty], [Full, Full]];
    assert GenerateCombinationsAsWritten(line, [1], 0, 0) == cands;
    assert cands[1][1] != cands[0][1];
    assert SolveSequenceAsWritten(line, [1]).value == [Full, Empty];
    assert Fits(line, 0, 1);
    var p := PlaceBlock(line, 0, 1).value;
    assert p[0] == Full && p[1] == Empty;
    assert p == line;
    assert Placements(line, [1], 0, 0) == [line];
    assert SolveLine(line, [1]).value == [Full, Cleared];
  }

  /** The Cleared test and the offset loop together: a line with no filling for its clue is
      reported solved, with its Cleared cell turned Full; the corrected solver reports that no
      placement exists. */
  lemma SolveSequenceOverwritesCleared()
    ensures SolveSequenceAsWritten([Empty, Cleared, Empty], [2]) == Some([Cleared, Full, Full])
    ensures SolveLine([Empty, Cleared, Empty], [2]) == None
  {
    var line: Line := [Empty, Cleared, Empty];
    assert [2][0..] == [2] && Sum([2]) == 2;
    assert MinimumLength([2], 0) == 2;
    assert ApplyBlockAsWritten(line, 0, 2) == None;
    assert line[1 := Full][2 := Full] == [Empty, Full, Full];
    assert ApplyBlockAsWritten(line, 1, 2) == Some([Empty, Full, Full]);
    var cands := [[Empty, Full, Full]];
    assert GenerateCombinationsAsWritten(line, [2], 0, 0) == cands;
    assert SolveSequenceAsWritten(line, [2]).value == [Cleared, Full, Full];
    assert !Fits(line, 0, 2) && !Fits(line, 1, 2);
    assert Placements(line, [2], 0, 1) == [];
    assert Placements(line, [2], 0, 0) == [];
  }

  /** Without Cleared cells the fill loop as written is the intended fill: the Cleared test at the
      wrong index can never fire, so only the end of the line stops it. */
  lemma {:induction false} FillWithoutCleared(result: Line, start: nat, len: nat, i: nat)
    requires i <= len && (i < len || start + len <= |result|)
    requires forall j :: 0 <= j < |result| ==> result[j] != Cleared
    ensures FillAsWritten(result, start, len, i) ==
      if start + len <= |result| then
        Some(seq(|result|, j requires 0 <= j < |result| => if start + i <= j < start + len then Full else result[j]))
      else None
    decreases len - i
  {
    if i < len && i + start < |result| {
      var next := result[start + i := Full];
      FillWithoutCleared(next, start, len, i + 1);
      assert seq(|next|, j requires 0 <= j < |next| => if start + i + 1 <= j < start + len then Full else next[j])
          == seq(|result|, j requires 0 <= j < |result| => if start + i <= j < start + len then Full else result[j]);
    } else if i == len {
      assert result == seq(|result|, j requires 0 <= j < |result| => if start + i <= j < start + len then Full else result[j]);
    }
  }

  /** On a line with no Cleared cell and no Full cell from `s - 1` on, `ApplyBlock` as written and
      the corrected placement agree for every block at offset `s` or later. */
  lemma ApplyBlockAgreesWithoutKnown(line: Line, t: nat, len: nat, s: nat)
    requires s <= t && len > 0
    requires forall j :: 0 <= j < |line| ==> line[j] != Cleared
    requires forall j :: 0 <= j < |line| && s <= j + 1 ==> line[j] != Full
    ensures ApplyBlockAsWritten(line, t, len) == PlaceBlock(line, t, len)
  {
    FillWithoutCleared(line, t, len, 0);
    if t + len <= |line| {
      assert Fits(line, t, len);
      var r := PlaceBlock(line, t, len).value;
      assert FillAsWritten(line, t, len, 0) == Some(r);
    }
  }

  /** On such a line the generator as written lists exactly the corrected candidates: with nothing
      known to the right of the scan, the missing stop after a Full cell and the missing tests
      around a block make no difference. */
  lemma {:induction false} GenerateAgreesWithoutKnown(line: Line, desc: seq<nat>, k: nat, s: nat)
    requires k < |desc| && Positive(desc)
    requires forall j :: 0 <= j < |line| ==> line[j] != Cleared
    requires forall j :: 0 <= j < |line| && s <= j + 1 ==> line[j] != Full
    ensures GenerateCombinationsAsWritten(line, desc, k, s) == Placements(line, desc, k, s)
    decreases |desc| - k, |line| + 1 - s, 1
  {
    if s + MinimumLength(desc, k) <= |line| {
      CombinationsAtAgreesWithoutKnown(line, desc, k, s);
      GenerateAgreesWithoutKnown(line, desc, k, s + 1);
      assert !(s < |line| && line[s] == Full);
    }
  }

  lemma {:induction false} CombinationsAtAgreesWithoutKnown(line: Line, desc: seq<nat>, k: nat, s: nat)
    requires k < |desc| && Positive(desc)
    requires forall j :: 0 <= j < |line| ==> line[j] != Cleared
    requires forall j :: 0 <= j < |line| && s <= j + 1 ==> line[j] != Full
    ensures CombinationsAtAsWritten(line, desc, k, s) == PlacementsAt(line, desc, k, s)
    decreases |desc| - k, |line| + 1 - s, 0
  {
    var len := desc[k];
    ApplyBlockAgreesWithoutKnown(line, s, len, s);
    match PlaceBlock(line, s, len)
    case None =>
    case Some(placed) =>
      PlacedWithoutKnown(line, s, len);
      CombinationsAtUnfold(line, desc, k, s, placed);
      if k + 1 < |desc| {
        GenerateAgreesWithoutKnown(placed, desc, k + 1, s + len + 1);
      }
  }

  /** One pass of each generator, unfolded once past a block that the two placements agree on. */
  lemma CombinationsAtUnfold(line: Line, desc: seq<nat>, k: nat, s: nat, placed: Line)
    requires k < |desc|
    requires ApplyBlockAsWritten(line, s, desc[k]) == Some(placed) == PlaceBlock(line, s, desc[k])
    requires k + 1 == |desc| ==> NoFullFrom(line, s + desc[k])
    ensures k + 1 < |desc| ==>
      CombinationsAtAsWritten(line, desc, k, s) == GenerateCombinationsAsWritten(placed, desc, k + 1, s + desc[k] + 1) &&
      PlacementsAt(line, desc, k, s) == Placements(placed, desc, k + 1, s + desc[k] + 1)
    ensures k + 1 == |desc| ==> CombinationsAtAsWritten(line, desc, k, s) == PlacementsAt(line, desc, k, s) == [placed]
  {
  }

  /** Placing a block at `s` on such a line leaves a line of the same kind for the scan that
      resumes after the gap, and no Full cell after the block. */
  lemma PlacedWithoutKnown(line: Line, s: nat, len: nat)
    requires PlaceBlock(line, s, len).Some?
    requires forall j :: 0 <= j < |line| ==> line[j] != Cleared
    requires forall j :: 0 <= j < |line| && s <= j + 1 ==> line[j] != Full
    ensures var p := PlaceBlock(line, s, len).value;
      (forall j :: 0 <= j < |p| ==> p[j] != Cleared) &&
      (forall j :: 0 <= j < |p| && s + len + 1 <= j + 1 ==> p[j] != Full) &&
      NoFullFrom(line, s + len)
  {
  }

  /** On a line with no Full and no Cleared cell, such as the all-Empty lines the solver tests use,
      the code as written is correct: its candidates are exactly the fillings that show the clue,
      and `SolveSequence` as written returns the corrected solved line. */
  lemma AsWrittenCorrectOnUnknownLine(line: Line, desc: seq<nat>)
    requires |desc| > 0 && Positive(desc)
    requires forall j :: 0 <= j < |line| ==> line[j] != Full && line[j] != Cleared
    ensures forall c :: c in GenerateCombinationsAsWritten(line, desc, 0, 0) <==> IsSolution(c, line, desc)
    ensures SolveSequenceAsWritten(line, desc) == SolveLine(line, desc)
  {
    GenerateAgreesWithoutKnown(line, desc, 0, 0);
    forall c ensures c in GenerateCombinationsAsWritten(line, desc, 0, 0) <==> IsSolution(c, line, desc) {
      PlacementsExact(line, desc, c);
    }
  }
}
