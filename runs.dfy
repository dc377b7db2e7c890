/** The clue a filled line actually shows: its maximal runs of Full cells, left to right.
    This is the reference a generated candidate is checked against. */
module Runs {
  import opened Cells

  /** Sum of the run lengths of a clue (the C# `desc.Sum()`). */
  function Sum(d: seq<nat>): nat
  {
    if d == [] then 0 else d[0] + Sum(d[1..])
  }

  /** Every run length of the clue is at least one. */
  predicate Positive(d: seq<nat>)
  {
    forall j :: 0 <= j < |d| ==> d[j] > 0
  }

  /** The first position at or after `i` that is not Full (or the end of the line). */
  function RunEnd(c: Line, i: nat): (e: nat)
    requires i <= |c|
    ensures i <= e <= |c|
    ensures forall j :: i <= j < e ==> c[j] == Full
    ensures e < |c| ==> c[e] != Full
    decreases |c| - i
  {
    if i == |c| || c[i] != Full then i else RunEnd(c, i + 1)
  }

  /** The lengths of the maximal Full runs of `c` that start at or after position `i`. */
  function RunsFrom(c: Line, i: nat): seq<nat>
    requires i <= |c|
    decreases |c| - i
  {
    if i == |c| then []
    else if c[i] != Full then RunsFrom(c, i + 1)
    else
      var e := RunEnd(c, i);
      [e - i] + RunsFrom(c, e)
  }

  /** The clue that the line `c` shows. */
  function RunsOf(c: Line): seq<nat>
  {
    RunsFrom(c, 0)
  }

  /** The shortest line showing clue `d`: its blocks separated by single Cleared cells. */
  function Pack(d: seq<nat>): Line
  {
    if d == [] then []
    else if |d| == 1 then seq(d[0], _ => Full)
    else seq(d[0], _ => Full) + [Cleared] + Pack(d[1..])
  }

  /** A run end is determined by the cells: a Full stretch from `a` to `e` that is followed
      by a non-Full cell (or by the end of the line) ends at `e`. */
  lemma RunEndAt(c: Line, a: nat, e: nat)
    requires a <= e <= |c|
    requires forall j :: a <= j < e ==> c[j] == Full
    requires e < |c| ==> c[e] != Full
    ensures RunEnd(c, a) == e
  {
  }

  /** Cells that are not Full contribute nothing to the clue. */
  lemma {:induction false} SkipGap(c: Line, a: nat, b: nat)
    requires a <= b <= |c|
    requires forall j :: a <= j < b ==> c[j] != Full
    ensures RunsFrom(c, a) == RunsFrom(c, b)
    decreases b - a
  {
    if a < b {
      SkipGap(c, a + 1, b);
    }
  }

  /** A maximal block of `len` Full cells at `a` is the next entry of the clue. */
  lemma RunAt(c: Line, a: nat, len: nat)
    requires len > 0 && a + len <= |c|
    requires forall j :: a <= j < a + len ==> c[j] == Full
    requires a + len < |c| ==> c[a + len] != Full
    ensures RunsFrom(c, a) == [len] + RunsFrom(c, a + len)
  {
    RunEndAt(c, a, a + len);
  }

  /** A line with no Full cell from `from` on shows no further runs. */
  lemma NoRunsAfter(c: Line, from: nat)
    requires from <= |c| && NoFullFrom(c, from)
    ensures RunsFrom(c, from) == []
  {
    SkipGap(c, from, |c|);
  }

  /** A line that shows no further runs from `from` on has no Full cell there. */
  lemma {:induction false} NoRunsNoFull(c: Line, from: nat)
    requires from <= |c| && RunsFrom(c, from) == []
    ensures NoFullFrom(c, from)
    decreases |c| - from
  {
    if from < |c| {
      assert c[from] != Full;
      NoRunsNoFull(c, from + 1);
    }
  }

  /** Runs found after a prefix `a` are exactly the runs of the suffix `b`. */
  lemma RunsShift(a: Line, b: Line, i: nat)
    requires i <= |b|
    ensures RunsFrom(a + b, |a| + i) == RunsFrom(b, i)
  {
    RunsShiftAt(a + b, |a|, b, i);
  }

  /** The same, for a line `c` whose cells from `off` on are those of `b`. */
  lemma {:induction false} RunsShiftAt(c: Line, off: nat, b: Line, i: nat)
    requires i <= |b| && |c| == off + |b|
    requires forall j :: 0 <= j < |b| ==> c[off + j] == b[j]
    ensures RunsFrom(c, off + i) == RunsFrom(b, i)
    decreases |b| - i
  {
    if i < |b| {
      assert c[off + i] == b[i];
      if b[i] != Full {
        RunsShiftAt(c, off, b, i + 1);
        assert RunsFrom(c, off + i) == RunsFrom(c, off + (i + 1));
      } else {
        var e := RunEnd(b, i);
        RunEndShift(c, off, b, i);
        RunsShiftAt(c, off, b, e);
        calc {
          RunsFrom(c, off + i);
          [off + e - (off + i)] + RunsFrom(c, off + e);
          [e - i] + RunsFrom(b, e);
          RunsFrom(b, i);
        }
      }
    }
  }

  /** A run of `b` ends at the matching place of `c`. */
  lemma RunEndShift(c: Line, off: nat, b: Line, i: nat)
    requires i <= |b| && |c| == off + |b|
    requires forall j :: 0 <= j < |b| ==> c[off + j] == b[j]
    ensures RunEnd(c, off + i) == off + RunEnd(b, i)
  {
    var e := RunEnd(b, i);
    forall j | off + i <= j < off + e
      ensures c[j] == Full
    {
      assert c[off + (j - off)] == b[j - off];
    }
    if off + e < |c| {
      assert c[off + e] == b[e];
    }
    RunEndAt(c, off + i, off + e);
  }

  /** Every clue shown by a line needs its blocks plus one gap between neighbours:
      `Sum(R) + |R| - 1` cells, so `Sum(R) + |R| <= |c| - i + 1`. */
  lemma {:induction false} RunsBound(c: Line, i: nat)
    requires i <= |c|
    ensures Sum(RunsFrom(c, i)) + |RunsFrom(c, i)| <= |c| - i + 1
    decreases |c| - i
  {
    if i == |c| {
    } else if c[i] != Full {
      RunsBound(c, i + 1);
    } else {
      var e := RunEnd(c, i);
      var rest := RunsFrom(c, e);
      assert RunsFrom(c, i) == [e - i] + rest;
      assert ([e - i] + rest)[1..] == rest;
      if rest != [] {
        assert e < |c|;
        RunsBound(c, e + 1);
      }
    }
  }

  /** Every entry of a shown clue is positive. */
  lemma {:induction false} RunsPositive(c: Line, i: nat)
    requires i <= |c|
    ensures Positive(RunsFrom(c, i))
    decreases |c| - i
  {
    if i == |c| {
    } else if c[i] != Full {
      RunsPositive(c, i + 1);
    } else {
      RunsPositive(c, RunEnd(c, i));
    }
  }

  /** The packed line shows exactly the clue it was built from, in `Sum(d) + |d| - 1` cells. */
  lemma {:induction false} PackShows(d: seq<nat>)
    requires d != [] && Positive(d)
    ensures RunsOf(Pack(d)) == d
    ensures |Pack(d)| == Sum(d) + |d| - 1
  {
    var block := seq(d[0], _ => Full);
    if |d| == 1 {
      assert Pack(d) == block;
      RunAt(block, 0, d[0]);
      assert d == [d[0]];
    } else {
      var rest := Pack(d[1..]);
      PackShows(d[1..]);
      var c := block + [Cleared] + rest;
      assert Pack(d) == c;
      RunAt(c, 0, d[0]);
      SkipGap(c, d[0], d[0] + 1);
      RunsShift(block + [Cleared], rest, 0);
      assert [d[0]] + d[1..] == d;
    }
  }
}
