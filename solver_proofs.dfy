/** What the line solver guarantees: the generated candidates are exactly the fillings of the
    line that show its clue, and the consensus line forces exactly the cells on which all those
    fillings agree. */
module LineSolverProofs {
  import opened Cells
  import opened Runs
  import opened LineSolver
  import NonogramBoard

  /** `c` is a filling of `line`: it keeps every known cell, turns only unknown cells Full, and
      its runs are the clue `desc`. */
  predicate IsSolution(c: Line, line: Line, desc: seq<nat>)
  {
    Extends(c, line) && RunsOf(c) == desc
  }

  lemma MinimumLengthPositive(desc: seq<nat>, k: nat)
    requires k < |desc| && Positive(desc)
    ensures MinimumLength(desc, k) >= desc[k] > 0
  {
    assert desc[k..][0] == desc[k];
  }

  /** The minimum length is exact: the packed line of the remaining clue entries has that many
      cells and shows those entries. */
  lemma MinimumLengthIsTight(desc: seq<nat>, k: nat)
    requires k < |desc| && Positive(desc)
    ensures |Pack(desc[k..])| == MinimumLength(desc, k)
    ensures RunsOf(Pack(desc[k..])) == desc[k..]
  {
    PackShows(desc[k..]);
  }

  /** No line whose runs from `s` on are the clue entries `k..` is shorter than the minimum
      length: this is why the offset scan can stop once `s + MinimumLength` passes the end. */
  lemma MinimumLengthIsLowerBound(c: Line, s: nat, desc: seq<nat>, k: nat)
    requires s <= |c| && k < |desc|
    requires RunsFrom(c, s) == desc[k..]
    ensures s + MinimumLength(desc, k) <= |c|
  {
    RunsBound(c, s);
  }

  /** The clue {3, 1, 2} needs 8 cells from entry 0, 4 from entry 1 and 2 from entry 2. */
  lemma MinimumLengthExample()
    ensures MinimumLength([3, 1, 2], 0) == 8
    ensures MinimumLength([3, 1, 2], 1) == 4
    ensures MinimumLength([3, 1, 2], 2) == 2
  {
    assert [2][1..] == [] && [1, 2][1..] == [2] && [3, 1, 2][1..] == [1, 2];
    assert Sum([2]) == 2 && Sum([1, 2]) == 3 && Sum([3, 1, 2]) == 6;
    assert [3, 1, 2][2..] == [2] && [3, 1, 2][0..] == [3, 1, 2];
  }

  /** A placed block is a maximal run of exactly `len` cells: the cell before it is not Full and
      the next run starts after it. */
  lemma PlaceBlockMakesRun(line: Line, start: nat, len: nat)
    requires len > 0 && PlaceBlock(line, start, len).Some?
    ensures var r := PlaceBlock(line, start, len).value;
      (start > 0 ==> r[start - 1] != Full) &&
      RunsFrom(r, start) == [len] + RunsFrom(r, start + len)
  {
    RunAt(PlaceBlock(line, start, len).value, start, len);
  }

  /** A block of two placed at offset 1 of three unknown cells fills the last two cells. */
  lemma ApplyBlockExample()
    ensures PlaceBlock([Empty, Empty, Empty], 1, 2) == Some([Empty, Full, Full])
  {
    assert Fits([Empty, Empty, Empty], 1, 2);
    var r := PlaceBlock([Empty, Empty, Empty], 1, 2).value;
    assert |r| == 3 && r[0] == Empty && r[1] == Full && r[2] == Full;
    assert r == [Empty, Full, Full];
  }

  /** Soundness: every candidate shows the clue entries `k..` from its scan offset on. */
  lemma {:induction false} PlacementsSound(line: Line, desc: seq<nat>, k: nat, s: nat, c: Line)
    requires k < |desc| && Positive(desc)
    requires c in Placements(line, desc, k, s)
    ensures s < |line| && |c| == |line|
    ensures RunsFrom(c, s) == desc[k..]
    decreases |desc| - k, |line| + 1 - s, 1
  {
    PlacementsExtend(line, desc, k, s);
    if c in PlacementsAt(line, desc, k, s) {
      PlacementsAtSound(line, desc, k, s, c);
    } else {
      MinimumLengthPositive(desc, k);
      assert c in Placements(line, desc, k, s + 1);
      PlacementsSound(line, desc, k, s + 1, c);
      PlacementsExtend(line, desc, k, s + 1);
      SkipGap(c, s, s + 1);
    }
  }

  lemma {:induction false} PlacementsAtSound(line: Line, desc: seq<nat>, k: nat, s: nat, c: Line)
    requires k < |desc| && Positive(desc)
    requires c in PlacementsAt(line, desc, k, s)
    ensures s < |line| && |c| == |line|
    ensures RunsFrom(c, s) == desc[k..]
    decreases |desc| - k, |line| + 1 - s, 0
  {
    var len := desc[k];
    var r := PlaceBlock(line, s, len).value;
    assert desc[k..] == [len] + desc[k + 1..];
    if k + 1 < |desc| {
      assert c in Placements(r, desc, k + 1, s + len + 1);
      PlacementsSound(r, desc, k + 1, s + len + 1, c);
      PlacementsExtend(r, desc, k + 1, s + len + 1);
      assert c[s + len] == r[s + len];
      SkipGap(c, s + len, s + len + 1);
      RunAt(c, s, len);
    } else {
      assert c == r;
      NoRunsAfter(r, s + len);
      RunAt(r, s, len);
    }
  }

  /** Completeness: every filling that agrees with the line before the scan offset and shows the
      clue entries `k..` from there on is among the candidates. */
  lemma {:induction false} PlacementsComplete(line: Line, desc: seq<nat>, k: nat, s: nat, c: Line)
    requires k < |desc| && Positive(desc)
    requires Extends(c, line) && s <= |c|
    requires forall j :: 0 <= j < s ==> c[j] == line[j]
    requires s > 0 ==> c[s - 1] != Full
    requires RunsFrom(c, s) == desc[k..]
    ensures c in Placements(line, desc, k, s)
    decreases |desc| - k, |line| + 1 - s, 1
  {
    MinimumLengthIsLowerBound(c, s, desc, k);
    assert s < |c|;
    if c[s] != Full {
      SkipGap(c, s, s + 1);
      PlacementsComplete(line, desc, k, s + 1, c);
    } else {
      PlacementsAtComplete(line, desc, k, s, c);
    }
  }

  lemma {:induction false} PlacementsAtComplete(line: Line, desc: seq<nat>, k: nat, s: nat, c: Line)
    requires k < |desc| && Positive(desc)
    requires Extends(c, line) && s < |c| && c[s] == Full
    requires forall j :: 0 <= j < s ==> c[j] == line[j]
    requires s > 0 ==> c[s - 1] != Full
    requires RunsFrom(c, s) == desc[k..]
    ensures c in PlacementsAt(line, desc, k, s)
    decreases |desc| - k, |line| + 1 - s, 0
  {
    var e := RunEnd(c, s);
    assert RunsFrom(c, s) == [e - s] + RunsFrom(c, e);
    assert desc[k..][0] == desc[k] && desc[k..][1..] == desc[k + 1..];
    FilledBlockFits(line, c, s, e);
    var r := PlaceBlock(line, s, desc[k]).value;
    if k + 1 < |desc| {
      assert e < |c|;
      SkipGap(c, e, e + 1);
      PlacementsComplete(r, desc, k + 1, e + 1, c);
    } else {
      NoRunsNoFull(c, e);
      assert c == r;
    }
  }

  /** A maximal Full run of a filling, starting where the filling still agrees with the line,
      is a block that fits there, and placing it gives a line the filling extends. */
  lemma FilledBlockFits(line: Line, c: Line, s: nat, e: nat)
    requires Extends(c, line) && s < e <= |c|
    requires forall j :: 0 <= j < s ==> c[j] == line[j]
    requires s > 0 ==> c[s - 1] != Full
    requires forall j :: s <= j < e ==> c[j] == Full
    requires e < |c| ==> c[e] != Full
    ensures Fits(line, s, e - s)
    ensures Extends(c, PlaceBlock(line, s, e - s).value)
    ensures forall j :: 0 <= j < |c| && (j < e || c[j] != Full) ==> c[j] == PlaceBlock(line, s, e - s).value[j]
  {
  }

  /** The candidates of a whole clue are exactly the fillings of the line that show it. */
  lemma PlacementsExact(line: Line, desc: seq<nat>, c: Line)
    requires |desc| > 0 && Positive(desc)
    ensures c in Placements(line, desc, 0, 0) <==> IsSolution(c, line, desc)
  {
    assert desc[0..] == desc;
    if c in Placements(line, desc, 0, 0) {
      PlacementsExtend(line, desc, 0, 0);
      PlacementsSound(line, desc, 0, 0, c);
    }
    if IsSolution(c, line, desc) {
      PlacementsComplete(line, desc, 0, 0, c);
    }
  }

  /** On candidates that all extend one line, the strict-equality consensus is the intended rule:
      Full when every candidate is Full, Cleared when none is, Empty when they disagree. */
  lemma ConsensusOfExtensions(cands: seq<Line>, line: Line, i: nat)
    requires |cands| > 0 && i < |line|
    requires forall c :: c in cands ==> Extends(c, line)
    requires forall c :: c in cands ==> |c| == |line|
    ensures Consensus(cands, i) == Full <==> forall c :: c in cands ==> c[i] == Full
    ensures Consensus(cands, i) == Cleared <==> forall c :: c in cands ==> c[i] != Full
    ensures Consensus(cands, i) == Empty <==>
      (exists c :: c in cands && c[i] == Full) && (exists c :: c in cands && c[i] != Full)
  {
    assert cands[0] in cands;
    if forall c :: c in cands ==> c[i] == Full {
      assert forall j :: 0 <= j < |cands| ==> cands[j] in cands;
    } else if forall c :: c in cands ==> c[i] != Full {
      assert forall j :: 0 <= j < |cands| ==> cands[j] in cands && cands[j][i] == line[i];
    } else {
      var c1 :| c1 in cands && c1[i] == Full;
      var c2 :| c2 in cands && c2[i] != Full;
      var j1 :| 0 <= j1 < |cands| && cands[j1] == c1;
      var j2 :| 0 <= j2 < |cands| && cands[j2] == c2;
      assert cands[j1][i] != cands[j2][i];
    }
  }

  /** Without that common line the strict rule is weaker than the intended one: a Cleared and an
      Empty candidate cell, neither Full, give an undetermined result. */
  lemma ConsensusStrictEquality()
    ensures Consensus([[Cleared], [Empty]], 0) == Empty
  {
    var cands: seq<Line> := [[Cleared], [Empty]];
    assert cands[1][0] != cands[0][0];
  }

  /** The solver finds no candidate exactly when the line has no filling that shows its clue. */
  lemma SolveLineNone(line: Line, desc: seq<nat>)
    requires |desc| > 0 && Positive(desc)
    ensures SolveLine(line, desc).None? <==> forall c :: !IsSolution(c, line, desc)
  {
    var cands := Placements(line, desc, 0, 0);
    forall c ensures c in cands <==> IsSolution(c, line, desc) {
      PlacementsExact(line, desc, c);
    }
    if |cands| > 0 {
      assert cands[0] in cands;
    }
  }

  /** The solved line forces exactly what every filling agrees on: a cell is Full iff it is Full
      in every filling, Cleared iff it is Full in none, and Empty iff fillings disagree. */
  lemma SolveLineForced(line: Line, desc: seq<nat>)
    requires |desc| > 0 && Positive(desc)
    requires SolveLine(line, desc).Some?
    ensures |SolveLine(line, desc).value| == |line|
    ensures forall i :: 0 <= i < |line| ==>
      var r := SolveLine(line, desc).value;
      (r[i] == Full <==> forall c :: IsSolution(c, line, desc) ==> c[i] == Full) &&
      (r[i] == Cleared <==> forall c :: IsSolution(c, line, desc) ==> c[i] != Full) &&
      (r[i] == Empty <==>
        (exists c :: IsSolution(c, line, desc) && c[i] == Full) &&
        (exists c :: IsSolution(c, line, desc) && c[i] != Full))
  {
    var cands := Placements(line, desc, 0, 0);
    PlacementsExtend(line, desc, 0, 0);
    forall c ensures c in cands <==> IsSolution(c, line, desc) {
      PlacementsExact(line, desc, c);
    }
    forall i | 0 <= i < |line| {
      ConsensusOfExtensions(cands, line, i);
    }
  }

  /** The solved line keeps every known cell of its input: Full stays Full and Cleared stays
      Cleared, so merging it back can never flip a known cell. */
  lemma SolveLineKeepsKnown(line: Line, desc: seq<nat>)
    requires |desc| > 0 && SolveLine(line, desc).Some?
    ensures |SolveLine(line, desc).value| == |line|
    ensures forall i :: 0 <= i < |line| && line[i] == Full ==> SolveLine(line, desc).value[i] == Full
    ensures forall i :: 0 <= i < |line| && line[i] == Cleared ==> SolveLine(line, desc).value[i] == Cleared
  {
    var cands := Placements(line, desc, 0, 0);
    PlacementsExtend(line, desc, 0, 0);
    forall i | 0 <= i < |line| {
      ConsensusOfExtensions(cands, line, i);
    }
  }

  /** Solving a board line and merging the result back (one step of the solver) leaves every
      Full or Cleared cell of the board line as it was. */
  lemma SolveThenMergeIsMonotone(cur: Line, desc: seq<nat>)
    requires |desc| > 0 && SolveLine(cur, desc).Some?
    ensures var merged := NonogramBoard.MergeLine(cur, SolveLine(cur, desc).value);
      |merged| == |cur| &&
      forall i :: 0 <= i < |cur| && (cur[i] == Full || cur[i] == Cleared) ==> merged[i] == cur[i]
  {
    SolveLineKeepsKnown(cur, desc);
  }

  /** No line occurs twice in `cs`. */
  predicate Distinct(cs: seq<Line>)
  {
    forall i, j :: 0 <= i < j < |cs| ==> cs[i] != cs[j]
  }

  lemma DistinctConcat(a: seq<Line>, b: seq<Line>)
    requires Distinct(a) && Distinct(b)
    requires forall x :: x in a ==> x !in b
    ensures Distinct(a + b)
  {
    forall i, j | 0 <= i < j < |a + b| ensures (a + b)[i] != (a + b)[j] {
      if i < |a| && j >= |a| {
        assert (a + b)[i] in a && (a + b)[j] == b[j - |a|];
      }
    }
  }

  /** Every candidate whose first block starts at `s` has cell `s` Full. */
  lemma PlacementsAtFullAt(line: Line, desc: seq<nat>, k: nat, s: nat)
    requires k < |desc| && Positive(desc)
    ensures forall c :: c in PlacementsAt(line, desc, k, s) ==> s < |c| && c[s] == Full
  {
    var p := PlaceBlock(line, s, desc[k]);
    if p.Some? && k + 1 < |desc| {
      PlacementsExtend(p.value, desc, k + 1, s + desc[k] + 1);
    }
  }

  /** The generator lists each candidate once: candidates from different block offsets differ
      in the cell at the smaller offset. */
  lemma {:induction false} PlacementsDistinct(line: Line, desc: seq<nat>, k: nat, s: nat)
    requires k < |desc| && Positive(desc)
    ensures Distinct(Placements(line, desc, k, s))
    decreases |desc| - k, |line| + 1 - s, 1
  {
    if s + MinimumLength(desc, k) <= |line| {
      PlacementsAtDistinct(line, desc, k, s);
      if !(s < |line| && line[s] == Full) {
        MinimumLengthPositive(desc, k);
        PlacementsDistinct(line, desc, k, s + 1);
        PlacementsExtend(line, desc, k, s + 1);
        PlacementsAtFullAt(line, desc, k, s);
        DistinctConcat(PlacementsAt(line, desc, k, s), Placements(line, desc, k, s + 1));
      }
    }
  }

  lemma {:induction false} PlacementsAtDistinct(line: Line, desc: seq<nat>, k: nat, s: nat)
    requires k < |desc| && Positive(desc)
    ensures Distinct(PlacementsAt(line, desc, k, s))
    decreases |desc| - k, |line| + 1 - s, 0
  {
    var p := PlaceBlock(line, s, desc[k]);
    if p.Some? && k + 1 < |desc| {
      PlacementsDistinct(p.value, desc, k + 1, s + desc[k] + 1);
    }
  }

  /** For the clue {0} every candidate is the line itself, and one exists exactly when no cell
      from the scan offset on is Full (and, at the very end, the last cell is not Full). */
  lemma {:induction false} ZeroClueScan(line: Line, s: nat)
    requires s <= |line|
    ensures forall c :: c in Placements(line, [0], 0, s) ==> c == line
    ensures |Placements(line, [0], 0, s)| > 0 <==>
      NoFullFrom(line, s) && (s == |line| && s > 0 ==> line[s - 1] != Full)
    decreases |line| - s
  {
    assert [0][0..] == [0] && Sum([0]) == 0 + Sum([]);
    assert MinimumLength([0], 0) == 0;
    var p := PlaceBlock(line, s, 0);
    if p.Some? {
      assert p.value == line;
    }
    if s < |line| && line[s] != Full {
      ZeroClueScan(line, s + 1);
    }
  }

  /** The clue {0} describes a line with no Full cell: it clears every cell of a line that has
      none, and has no solution on a line that has one. */
  lemma ZeroClue(line: Line)
    ensures SolveLine(line, [0]) == if NoFullFrom(line, 0) then Some(seq(|line|, _ => Cleared)) else None
  {
    ZeroClueScan(line, 0);
    var cands := Placements(line, [0], 0, 0);
    if |cands| > 0 {
      assert cands[0] in cands;
      assert forall j :: 0 <= j < |cands| ==> cands[j] in cands;
      assert SolveLine(line, [0]).value == seq(|line|, _ => Cleared);
    }
  }
}
