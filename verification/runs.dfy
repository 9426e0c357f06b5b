/**
 * The scan of one row or one column that `IsCanEliminate` performs, and the maximal
 * runs it is specified by.  A line is the sequence of cell values along the row or column,
 * the focus is a position on it, and positions are column (or row) numbers.
 */
module Runs {
  import opened Wrappers

  /** The positions lo, lo+1, ..., hi-1 of a line. */
  datatype Run = Run(lo: int, hi: int) {
    function Length(): int {
      hi - lo
    }

    predicate Has(p: int) {
      lo <= p < hi
    }
  }

  /** Every position of the span holds t. */
  predicate AllEqual(line: seq<int>, t: int, lo: int, hi: int)
    requires 0 <= lo && hi <= |line|
  {
    forall j :: lo <= j < hi ==> line[j] == t
  }

  /** A run of t that cannot be extended on either side. */
  predicate Maximal(line: seq<int>, t: int, r: Run) {
    && 0 <= r.lo <= r.hi <= |line|
    && AllEqual(line, t, r.lo, r.hi)
    && (r.lo == 0 || line[r.lo - 1] != t)
    && (r.hi == |line| || line[r.hi] != t)
  }

  /** The start of the stretch of t that ends just before position j. */
  function RunStart(line: seq<int>, t: int, j: int): (lo: int)
    requires 0 <= j <= |line|
    ensures 0 <= lo <= j
    ensures AllEqual(line, t, lo, j)
    ensures lo == 0 || line[lo - 1] != t
    decreases j
  {
    if j > 0 && line[j - 1] == t then RunStart(line, t, j - 1) else j
  }

  /** The end (exclusive) of the stretch of t that starts at position j. */
  function RunEnd(line: seq<int>, t: int, j: int): (hi: int)
    requires 0 <= j <= |line|
    ensures j <= hi <= |line|
    ensures AllEqual(line, t, j, hi)
    ensures hi == |line| || line[hi] != t
    decreases |line| - j
  {
    if j < |line| && line[j] == t then RunEnd(line, t, j + 1) else j
  }

  /** A stretch of t that is bounded on the left is the one RunStart finds. */
  lemma RunStartUnique(line: seq<int>, t: int, j: int, lo: int)
    requires 0 <= lo <= j <= |line|
    requires AllEqual(line, t, lo, j)
    requires lo == 0 || line[lo - 1] != t
    ensures RunStart(line, t, j) == lo
  {
  }

  /** A stretch of t that is bounded on the right is the one RunEnd finds. */
  lemma RunEndUnique(line: seq<int>, t: int, j: int, hi: int)
    requires 0 <= j <= hi <= |line|
    requires AllEqual(line, t, j, hi)
    requires hi == |line| || line[hi] != t
    ensures RunEnd(line, t, j) == hi
  {
  }

  /** The maximal run through position p. */
  function FocusRun(line: seq<int>, p: int): (r: Run)
    requires 0 <= p < |line|
    ensures Maximal(line, line[p], r) && r.Has(p)
  {
    Run(RunStart(line, line[p], p), RunEnd(line, line[p], p))
  }

  /** The maximal run of t that reaches the end of the line (empty when the last cell is not t). */
  function TrailingRun(line: seq<int>, t: int): (r: Run)
    ensures 0 <= r.lo <= r.hi == |line|
    ensures AllEqual(line, t, r.lo, r.hi)
    ensures r.lo == 0 || line[r.lo - 1] != t
  {
    Run(RunStart(line, t, |line|), |line|)
  }

  /**
   * What one axis of the scan keeps: the focus's own run when it has three or more
   * cells, otherwise the run of the focus's type at the end of the line when that one
   * has three or more cells, otherwise nothing.
   */
  function LineMatch(line: seq<int>, p: int): (r: Option<Run>)
    requires 0 <= p < |line|
    ensures r.Some? ==> Maximal(line, line[p], r.value) && r.value.Length() >= 3
    ensures r.Some? && !r.value.Has(p) ==> r.value.hi == |line|
    ensures FocusRun(line, p).Length() >= 3 <==> r.Some? && r.value.Has(p)
  {
    var focus := FocusRun(line, p);
    var tail := TrailingRun(line, line[p]);
    if focus.Length() >= 3 then Some(focus)
    else if tail.Length() >= 3 then Some(tail)
    else None
  }

  /**
   * The end-of-line case reports a run that does not hold the focus: in 1 2 1 1 1 the
   * focus at position 0 has a run of one, yet the three 1s at the end are reported.
   */
  lemma TrailingRunReported()
    ensures LineMatch([1, 2, 1, 1, 1], 0) == Some(Run(2, 5))
  {
  }

  /** A maximal run that holds position p is p's focus run. */
  lemma MaximalIsFocusRun(line: seq<int>, t: int, r: Run, p: int)
    requires Maximal(line, t, r) && r.Has(p) && line[p] == t
    ensures FocusRun(line, p) == r
  {
    RunStartUnique(line, t, p, r.lo);
    RunEndUnique(line, t, p, r.hi);
  }

  /** Every position a line match reports holds the focus's value and lies in a run of three or more. */
  lemma MatchedPosition(line: seq<int>, p: int, q: int)
    requires 0 <= p < |line| && LineMatch(line, p).Some? && LineMatch(line, p).value.Has(q)
    ensures 0 <= q < |line| && line[q] == line[p] && FocusRun(line, q).Length() >= 3
  {
    MaximalIsFocusRun(line, line[p], LineMatch(line, p).value, q);
  }

  /**
   * The loop of the source: walk the line, growing the current stretch of the focus's
   * type; at a break, stop if the stretch has three or more cells and holds the focus,
   * otherwise forget it; at the end keep the stretch only if it has three or more cells.
   */
  method ScanLine(line: seq<int>, p: int) returns (r: Option<Run>)
    requires 0 <= p < |line|
    ensures r == LineMatch(line, p)
  {
    var t := line[p];
    var lo := 0;
    var k := 0;
    while k < |line|
      invariant 0 <= lo <= k <= |line|
      invariant AllEqual(line, t, lo, k)
      invariant lo == 0 || line[lo - 1] != t
      invariant lo <= p || FocusRun(line, p).Length() < 3
      decreases |line| - k
    {
      if line[k] == t {
        k := k + 1;
      } else if k - lo >= 3 && lo <= p < k {
        break;
      } else {
        if lo <= p < k {
          MaximalIsFocusRun(line, t, Run(lo, k), p);
        }
        lo := k + 1;
        k := k + 1;
      }
    }
    if lo <= p {
      MaximalIsFocusRun(line, t, Run(lo, k), p);
    }
    if k == |line| {
      RunStartUnique(line, t, |line|, lo);
    }
    if k - lo >= 3 {
      r := Some(Run(lo, k));
    } else {
      r := None;
    }
  }
}
