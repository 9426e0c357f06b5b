/** Match detection (`IsCanEliminate`, both forms) and the cascade check over queued cells. */
module Matching {
  import opened Wrappers
  import opened Types
  import opened Board
  import opened Runs
  import opened Backend

  /** The cells of a run along row `row`. */
  function RowCells(row: int, run: Option<Run>): set<MapIndex> {
    match run
    case None => {}
    case Some(x) => set c | x.lo <= c < x.hi :: MapIndex(row, c)
  }

  /** The cells of a run along column `col`. */
  function ColumnCells(col: int, run: Option<Run>): set<MapIndex> {
    match run
    case None => {}
    case Some(x) => set r | x.lo <= r < x.hi :: MapIndex(r, col)
  }

  /**
   * The cells the one-cell scan reports for focus i: nothing unless i holds a tile;
   * otherwise what the row scan keeps together with what the column scan keeps.
   */
  function Eliminable(cfg: MapConfig, s: seq<int>, i: MapIndex): set<MapIndex>
    requires Shaped(cfg, s)
  {
    if Inside(cfg, i) && At(cfg, s, i) != Nothing && At(cfg, s, i) != NoElement then
      RowCells(i.row, LineMatch(Row(cfg, s, i.row), i.col)) + ColumnCells(i.col, LineMatch(Column(cfg, s, i.col), i.row))
    else {}
  }

  /** The length of the maximal run of equal values through cell x along its row. */
  function RowRunLength(cfg: MapConfig, s: seq<int>, x: MapIndex): int
    requires Shaped(cfg, s) && Inside(cfg, x)
  {
    FocusRun(Row(cfg, s, x.row), x.col).Length()
  }

  /** The length of the maximal run of equal values through cell x along its column. */
  function ColumnRunLength(cfg: MapConfig, s: seq<int>, x: MapIndex): int
    requires Shaped(cfg, s) && Inside(cfg, x)
  {
    FocusRun(Column(cfg, s, x.col), x.row).Length()
  }

  /**
   * Every reported cell holds the focus's tile, lies in the focus's row or column, and sits
   * in a run of three or more along that line; so a run of exactly two is never reported.
   */
  lemma EliminableRuns(cfg: MapConfig, s: seq<int>, i: MapIndex)
    requires Shaped(cfg, s) && CellsOk(cfg, s)
    ensures forall x :: x in Eliminable(cfg, s, i) ==>
      && Inside(cfg, x) && Inside(cfg, i)
      && At(cfg, s, x) == At(cfg, s, i) && NoElement < At(cfg, s, i) <= cfg.typeCount
      && ((x.row == i.row && RowRunLength(cfg, s, x) >= 3) || (x.col == i.col && ColumnRunLength(cfg, s, x) >= 3))
  {
    if Inside(cfg, i) && At(cfg, s, i) != Nothing && At(cfg, s, i) != NoElement {
      AtOk(cfg, s, i);
      var t := At(cfg, s, i);
      var row := Row(cfg, s, i.row);
      var column := Column(cfg, s, i.col);
      var rr := LineMatch(row, i.col);
      var cr := LineMatch(column, i.row);
      forall x | x in Eliminable(cfg, s, i)
        ensures Inside(cfg, x) && At(cfg, s, x) == t
        ensures (x.row == i.row && RowRunLength(cfg, s, x) >= 3) || (x.col == i.col && ColumnRunLength(cfg, s, x) >= 3)
      {
        if x in RowCells(i.row, rr) {
          MatchedPosition(row, i.col, x.col);
        } else {
          MatchedPosition(column, i.row, x.row);
        }
      }
    }
  }

  /** When the focus's own run along a line has three or more cells, the whole run is reported. */
  lemma EliminableComplete(cfg: MapConfig, s: seq<int>, i: MapIndex)
    requires Shaped(cfg, s) && Inside(cfg, i) && At(cfg, s, i) > NoElement
    ensures RowRunLength(cfg, s, i) >= 3 ==>
      forall c :: FocusRun(Row(cfg, s, i.row), i.col).Has(c) ==> MapIndex(i.row, c) in Eliminable(cfg, s, i)
    ensures ColumnRunLength(cfg, s, i) >= 3 ==>
      forall r :: FocusRun(Column(cfg, s, i.col), i.row).Has(r) ==> MapIndex(r, i.col) in Eliminable(cfg, s, i)
  {
    var row := Row(cfg, s, i.row);
    var column := Column(cfg, s, i.col);
    if RowRunLength(cfg, s, i) >= 3 {
      var rr := LineMatch(row, i.col);
      MaximalIsFocusRun(row, row[i.col], rr.value, i.col);
    }
    if ColumnRunLength(cfg, s, i) >= 3 {
      var cr := LineMatch(column, i.row);
      MaximalIsFocusRun(column, column[i.row], cr.value, i.row);
    }
  }

  /**
   * `IsCanEliminate` for one focus cell: a focus that is off the board or holds no tile gives
   * nothing; otherwise the row and the column through it are scanned.
   */
  method IsCanEliminate(b: State, i: MapIndex) returns (r: Result<bool, Error>, out: set<MapIndex>)
    requires Valid(b)
    ensures !b.initialized ==> r == Failure(NotInitialized) && out == {}
    ensures b.initialized ==> r == Success(out != {}) && out == Eliminable(b.config, b.sprites, i)
    ensures b.initialized && !IsTile(b.config, b.sprites, i) ==> out == {}
  {
    if !b.initialized {
      return Failure(NotInitialized), {};
    }
    if IsValidSprite(b, i) != Success(true) {
      return Success(false), {};
    }
    var rowRun := ScanLine(Row(b.config, b.sprites, i.row), i.col);
    var columnRun := ScanLine(Column(b.config, b.sprites, i.col), i.row);
    out := ColumnCells(i.col, columnRun) + RowCells(i.row, rowRun);
    return Success(out != {}), out;
  }

  /**
   * `IsCanEliminate` for a swapped pair: both cells must hold tiles; equal tiles never match;
   * otherwise the two one-cell results are joined.
   */
  method IsCanEliminatePair(b: State, previous: MapIndex, current: MapIndex) returns (r: Result<bool, Error>, out: set<MapIndex>)
    requires Valid(b)
    ensures !b.initialized ==> r == Failure(NotInitialized) && out == {}
    ensures b.initialized && !(IsTile(b.config, b.sprites, previous) && IsTile(b.config, b.sprites, current)) ==>
              r == Failure(InvalidIndex) && out == {}
    ensures b.initialized && IsTile(b.config, b.sprites, previous) && IsTile(b.config, b.sprites, current) &&
            At(b.config, b.sprites, previous) == At(b.config, b.sprites, current) ==>
              r == Success(false) && out == {}
    ensures b.initialized && IsTile(b.config, b.sprites, previous) && IsTile(b.config, b.sprites, current) &&
            At(b.config, b.sprites, previous) != At(b.config, b.sprites, current) ==>
              && out == Eliminable(b.config, b.sprites, current) + Eliminable(b.config, b.sprites, previous)
              && r == Success(out != {})
  {
    if !b.initialized {
      return Failure(NotInitialized), {};
    }
    var same := IsSameType(b, current, previous);
    if same.Failure? {
      return same, {};
    }
    if same.value {
      return Success(false), {};
    }
    var found;
    r, out := IsCanEliminate(b, current);
    r, found := IsCanEliminate(b, previous);
    out := out + found;
    return Success(out != {}), out;
  }

  /** Adding one more cell's result to the gathered union. */
  lemma Gather(cfg: MapConfig, s: seq<int>, done: set<MapIndex>, index: MapIndex, out: set<MapIndex>, found: set<MapIndex>)
    requires Shaped(cfg, s) && found == Eliminable(cfg, s, index)
    requires forall x :: x in out <==> exists c :: c in done && x in Eliminable(cfg, s, c)
    ensures forall x :: x in out + found <==> exists c :: c in done + {index} && x in Eliminable(cfg, s, c)
  {
  }

  /**
   * `GetMovedSpriteAndCanEliminate`: joins the one-cell results of every queued cell that
   * holds a tile, then empties the queue.
   */
  method GetMovedSpriteAndCanEliminate(b: State) returns (r: Step<bool>, out: set<MapIndex>)
    requires Valid(b)
    ensures !b.initialized ==> r == Step(b, Failure(NotInitialized)) && out == {}
    ensures b.initialized ==>
      && r.state == b.(moved := {}) && Valid(r.state)
      && r.result == Success(out != {})
      && forall x :: x in out <==> exists c :: c in b.moved && x in Eliminable(b.config, b.sprites, c)
  {
    if !b.initialized {
      return Step(b, Failure(NotInitialized)), {};
    }
    out := {};
    var todo := b.moved;
    ghost var done: set<MapIndex> := {};
    while todo != {}
      invariant todo <= b.moved && done == b.moved - todo
      invariant forall x :: x in out <==> exists c :: c in done && x in Eliminable(b.config, b.sprites, c)
      decreases todo
    {
      var index :| index in todo;
      var found: set<MapIndex> := {};
      if At(b.config, b.sprites, index) > NoElement {
        var ok;
        ok, found := IsCanEliminate(b, index);
        if ok != Success(true) {
          found := {};
        }
      } else {
        AtOk(b.config, b.sprites, index);
      }
      assert found == Eliminable(b.config, b.sprites, index);
      Gather(b.config, b.sprites, done, index, out, found);
      TakeOne(b.moved, todo, index);
      out := out + found;
      todo := todo - {index};
      done := done + {index};
    }
    return Step(b.(moved := {}), Success(out != {})), out;
  }
}
