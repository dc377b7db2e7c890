/** The line solver of `Nonogram Solver/Solver.cs`: place one block of a clue, enumerate every
    placement of a whole clue over a partly known line, and keep the cells all placements agree on.

    The functions here are the specification; the methods follow the C# loops and recursion and
    are proved equal to them. Placement is the corrected form (see the as-written module). */
module LineSolver {
  import opened Cells
  import opened Runs

  /** The fewest cells still needed by clue entries `k..`: their blocks plus one gap between
      neighbours (`desc.Skip(k).Sum() + desc.Length - 1 - k`). */
  function MinimumLength(desc: seq<nat>, k: nat): int
    requires k <= |desc|
  {
    Sum(desc[k..]) + |desc| - 1 - k
  }

  /** A block of `len` cells can start at `start`: it lies inside the line, covers no Cleared
      cell, and neither the cell before it nor the cell after it is Full. */
  predicate Fits(line: Line, start: nat, len: nat)
  {
    start + len <= |line| &&
    (forall j :: start <= j < start + len ==> line[j] != Cleared) &&
    (start > 0 ==> line[start - 1] != Full) &&
    (start + len < |line| ==> line[start + len] != Full)
  }

  /** The line with cells `start .. start + len - 1` made Full, or None when the block does not fit. */
  function PlaceBlock(line: Line, start: nat, len: nat): (r: Option<Line>)
    ensures r.Some? <==> Fits(line, start, len)
    ensures r.Some? ==> Extends(r.value, line)
    ensures r.Some? ==> forall j :: 0 <= j < |line| ==>
              r.value[j] == (if start <= j < start + len then Full else line[j])
  {
    if Fits(line, start, len) then
      Some(seq(|line|, j requires 0 <= j < |line| => if start <= j < start + len then Full else line[j]))
    else None
  }

  /** `Extends` composes: a candidate of a line extended with one block extends the line. */
  lemma ExtendsTrans(c: Line, r: Line, line: Line)
    requires Extends(c, r) && Extends(r, line)
    ensures Extends(c, line)
  {
  }

  /** The placements of clue entries `k..` over `line` whose block `k` starts exactly at `s`. */
  function PlacementsAt(line: Line, desc: seq<nat>, k: nat, s: nat): seq<Line>
    requires k < |desc|
    decreases |desc| - k, |line| + 1 - s, 0
  {
    match PlaceBlock(line, s, desc[k])
    case None => []
    case Some(placed) =>
      if k + 1 < |desc| then Placements(placed, desc, k + 1, s + desc[k] + 1)
      else if NoFullFrom(line, s + desc[k]) then [placed]
      else []
  }

  /** Every placement of clue entries `k..` over `line` whose first block starts at offset `s`
      or later, in left-to-right order of that block (`GenerateCombinations`). The scan of
      offsets stops after a Full cell, since a block further right would leave it uncovered; the
      last block is accepted only when no Full cell follows it. */
  function Placements(line: Line, desc: seq<nat>, k: nat, s: nat): seq<Line>
    requires k < |desc|
    decreases |desc| - k, |line| + 1 - s, 1
  {
    if s + MinimumLength(desc, k) > |line| then []
    else if s < |line| && line[s] == Full then PlacementsAt(line, desc, k, s)
    else PlacementsAt(line, desc, k, s) + Placements(line, desc, k, s + 1)
  }

  /** Every candidate is the line with some cells made Full, and leaves the cells before the
      scan offset as they were. */
  lemma {:induction false} PlacementsExtend(line: Line, desc: seq<nat>, k: nat, s: nat)
    requires k < |desc|
    ensures forall c :: c in Placements(line, desc, k, s) ==>
              Extends(c, line) && forall j :: 0 <= j < s && j < |line| ==> c[j] == line[j]
    decreases |desc| - k, |line| + 1 - s, 1
  {
    if s + MinimumLength(desc, k) <= |line| {
      PlacementsAtExtend(line, desc, k, s);
      if !(s < |line| && line[s] == Full) {
        PlacementsExtend(line, desc, k, s + 1);
      }
    }
  }

  lemma {:induction false} PlacementsAtExtend(line: Line, desc: seq<nat>, k: nat, s: nat)
    requires k < |desc|
    ensures forall c :: c in PlacementsAt(line, desc, k, s) ==>
              Extends(c, line) && forall j :: 0 <= j < s && j < |line| ==> c[j] == line[j]
    decreases |desc| - k, |line| + 1 - s, 0
  {
    var p := PlaceBlock(line, s, desc[k]);
    if p.Some? && k + 1 < |desc| {
      var placed := p.value;
      PlacementsExtend(placed, desc, k + 1, s + desc[k] + 1);
      forall c | c in Placements(placed, desc, k + 1, s + desc[k] + 1)
        ensures Extends(c, line) && forall j :: 0 <= j < s && j < |line| ==> c[j] == line[j]
      {
        ExtendsTrans(c, placed, line);
      }
    }
  }

  /** The cell every candidate agrees on at position `i`: Full when all are Full, Cleared when
      all hold the same other value, Empty (undetermined) when two candidates differ. */
  function Consensus(cands: seq<Line>, i: nat): Cell
    requires |cands| > 0
    requires forall c :: c in cands ==> i < |c|
  {
    if forall j :: 0 <= j < |cands| ==> cands[j][i] == cands[0][i] then
      (if cands[0][i] == Full then Full else Cleared)
    else Empty
  }

  /** The line solved as far as the clue allows, or None when no placement exists (`SolveSequence`). */
  function SolveLine(line: Line, desc: seq<nat>): Option<Line>
    requires |desc| > 0
  {
    var cands := Placements(line, desc, 0, 0);
    PlacementsExtend(line, desc, 0, 0);
    if |cands| == 0 then None
    else Some(seq(|line|, i requires 0 <= i < |line| => Consensus(cands, i)))
  }

  /** Places one block on a copy of `line`. */
  method ApplyBlock(line: Line, start: nat, len: nat) returns (r: Option<Line>)
    ensures r == PlaceBlock(line, start, len)
  {
    if start + len > |line| {
      return None;
    }
    if start > 0 && line[start - 1] == Full {
      return None;
    }
    var result := new Cell[|line|](j requires 0 <= j < |line| => line[j]);
    var i := 0;
    while i < len
      invariant 0 <= i <= len
      invariant forall j :: 0 <= j < result.Length ==>
                  result[j] == (if start <= j < start + i then Full else line[j])
      invariant forall j :: start <= j < start + i ==> line[j] != Cleared
    {
      if result[start + i] == Cleared {
        return None;
      }
      result[start + i] := Full;
      i := i + 1;
    }
    if start + len < result.Length && result[start + len] == Full {
      return None;
    }
    r := Some(result[..]);
    assert r.value == PlaceBlock(line, start, len).value;
  }

  /** Enumerates the placements of clue entries `k..` from offset `start` on, recursing on the
      clue index for every block that fits. */
  method GenerateCombinations(line: Line, desc: seq<nat>, k: nat, start: nat) returns (combinations: seq<Line>)
    requires k < |desc|
    ensures combinations == Placements(line, desc, k, start)
    decreases |desc| - k, 1
  {
    combinations := [];
    var minimumLength := MinimumLength(desc, k);
    var i := 0;
    while start + i + minimumLength <= |line|
      invariant combinations + Placements(line, desc, k, start + i) == Placements(line, desc, k, start)
      decreases |line| - (start + i)
    {
      var s := start + i;
      var here := CombinationsAt(line, desc, k, s);
      ghost var acc := combinations;
      combinations := combinations + here;
      if s < |line| && line[s] == Full {
        assert Placements(line, desc, k, s) == here;
        return;
      }
      ghost var later := Placements(line, desc, k, s + 1);
      assert Placements(line, desc, k, s) == here + later;
      assert acc + (here + later) == combinations + later;
      i := i + 1;
    }
  }

  /** One pass of the offset loop: place block `k` at `s` and, when it fits, either recurse on
      the next clue entry or, for the last entry, keep the line. */
  method CombinationsAt(line: Line, desc: seq<nat>, k: nat, s: nat) returns (here: seq<Line>)
    requires k < |desc|
    ensures here == PlacementsAt(line, desc, k, s)
    decreases |desc| - k, 0
  {
    here := [];
    var placed := ApplyBlock(line, s, desc[k]);
    if placed.Some? {
      if k < |desc| - 1 {
        here := GenerateCombinations(placed.value, desc, k + 1, s + desc[k] + 1);
      } else if NoFullFrom(line, s + desc[k]) {
        here := [placed.value];
      }
    }
  }

  /** The consensus of the candidates at `index`, scanning them until two differ. */
  method CheckConsensus(cands: seq<Line>, index: nat) returns (r: Cell)
    requires |cands| > 0
    requires forall c :: c in cands ==> index < |c|
    ensures r == Consensus(cands, index)
  {
    var c := cands[0][index];
    var j := 1;
    while j < |cands|
      invariant 1 <= j <= |cands|
      invariant forall j' :: 0 <= j' < j ==> cands[j'][index] == c
    {
      if cands[j][index] != c {
        return Empty;
      }
      j := j + 1;
    }
    r := if c == Full then Full else Cleared;
  }

  /** Generates the candidates of the whole clue and builds the consensus line, or None when
      there is no candidate. */
  method SolveSequence(line: Line, desc: seq<nat>) returns (r: Option<Line>)
    requires |desc| > 0
    ensures r == SolveLine(line, desc)
  {
    var combinations := GenerateCombinations(line, desc, 0, 0);
    PlacementsExtend(line, desc, 0, 0);
    if |combinations| < 1 {
      return None;
    }
    var result := new Cell[|line|](_ => Empty);
    var i := 0;
    while i < |line|
      invariant 0 <= i <= |line|
      invariant forall j :: 0 <= j < i ==> result[j] == Consensus(combinations, j)
    {
      result[i] := CheckConsensus(combinations, i);
      i := i + 1;
    }
    r := Some(result[..]);
    assert r.value == SolveLine(line, desc).value;
  }
}
