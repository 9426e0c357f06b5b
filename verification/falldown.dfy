/**
 * `FalldownSprite`: refill the spawn row, then let tiles fall and slide into empty cells
 * pass after pass over a growing box until a pass moves nothing.
 */
module Falldown {
  import opened Wrappers
  import opened Types
  import opened Board
  import opened Scopes
  import opened Shortest
  import opened Backend

  /** One move of a tile from `source` into the empty cell `target` (`MoveRoute`). */
  datatype Move = Move(source: MapIndex, target: MapIndex)

  /** One fall notification: a tile arrived at `target` from `source`, the `number`-th of `total`. */
  datatype Fallen = Fallen(source: MapIndex, target: MapIndex, number: nat, total: nat)

  /** A move by one cell down, left or right; never up. */
  predicate OneStep(m: Move) {
    m.target in Neighbours(m.source) && m.target.row >= m.source.row
  }

  /**
   * A move the board allows: a tile that has not moved into place during this fall goes
   * one step down or sideways into an empty playable cell.
   */
  predicate Legal(cfg: MapConfig, s: seq<int>, moved: set<MapIndex>, m: Move)
    requires Shaped(cfg, s)
  {
    && Inside(cfg, m.source) && Inside(cfg, m.target) && OneStep(m)
    && At(cfg, s, m.source) > NoElement && m.source !in moved
    && Playable(cfg, m.target) && At(cfg, s, m.target) == NoElement
  }

  /** The spawn row as the fall uses it: 0 when no cell is playable. */
  function EntryRow(cfg: MapConfig): (r: int)
    requires cfg.height >= 0 && cfg.width >= 0 && |cfg.data| == cfg.height * cfg.width
    ensures r >= 0
  {
    match FirstLine(cfg)
    case None => 0
    case Some(row) => row
  }

  /** The distance from the entry row to c, which the slide rule compares. */
  function Distance(cfg: MapConfig, search: Search, c: MapIndex): int
    requires cfg.height >= 0 && cfg.width >= 0 && |cfg.data| == cfg.height * cfg.width
    requires Inside(cfg, c)
  {
    MulLeq(1, cfg.height, cfg.width);
    CalculateShortest(cfg, search, c)
  }

  /**
   * The sideways rule towards direction d (-1 left, +1 right) for the tile at c: the
   * neighbour `gap` must be an empty playable cell with a hole above it. When the cell
   * beyond the gap is playable, the tile nearer to the entry row (ties go to c) fills the
   * gap; if that is the far tile it must not have moved into place yet.
   */
  function Slide(cfg: MapConfig, search: Search, s: seq<int>, moved: set<MapIndex>, c: MapIndex, d: int): (m: Option<Move>)
    requires Shaped(cfg, s) && Inside(cfg, c) && c.row >= 1 && (d == -1 || d == 1)
    ensures m.Some? ==>
      && m.value.target == MapIndex(c.row, c.col + d)
      && Inside(cfg, m.value.target) && Playable(cfg, m.value.target) && At(cfg, s, m.value.target) == NoElement
      && !Playable(cfg, MapIndex(c.row - 1, c.col + d))
    ensures m.Some? ==> OneStep(m.value) && m.value.source.row == c.row
    ensures m.Some? && m.value.source != c ==>
      && m.value.source == MapIndex(c.row, c.col + 2 * d) && Inside(cfg, m.value.source)
      && At(cfg, s, m.value.source) > NoElement && m.value.source !in moved
      && Distance(cfg, search, c) > Distance(cfg, search, m.value.source)
  {
    var gap := MapIndex(c.row, c.col + d);
    var far := MapIndex(c.row, c.col + 2 * d);
    if Inside(cfg, gap) && Playable(cfg, gap) && !Playable(cfg, MapIndex(c.row - 1, c.col + d)) && At(cfg, s, gap) == NoElement then
      if Inside(cfg, far) && Playable(cfg, far) then
        if Distance(cfg, search, c) <= Distance(cfg, search, far) then Some(Move(c, gap))
        else if At(cfg, s, far) > NoElement && far !in moved then Some(Move(far, gap))
        else None
      else Some(Move(c, gap))
    else None
  }

  /**
   * What one visit of cell c does: a tile that has not moved into place falls into an empty
   * playable cell below it; failing that, below the spawn row it tries to slide left, then right.
   */
  function Decide(cfg: MapConfig, search: Search, entry: int, s: seq<int>, moved: set<MapIndex>, c: MapIndex): (m: Option<Move>)
    requires Shaped(cfg, s) && Inside(cfg, c) && entry >= 0
    ensures m.Some? ==> Legal(cfg, s, moved, m.value)
    ensures m.Some? ==> m.value.source == c || m.value.source.row == c.row
  {
    var down := MapIndex(c.row + 1, c.col);
    if !(At(cfg, s, c) > NoElement && c !in moved) then None
    else if c.row + 1 < cfg.height && Playable(cfg, down) && At(cfg, s, down) == NoElement then Some(Move(c, down))
    else if c.row > entry then
      var left := Slide(cfg, search, s, moved, c, -1);
      if left.Some? then left else Slide(cfg, search, s, moved, c, 1)
    else None
  }

  /** A tile with an empty playable cell below it always falls straight down. */
  lemma FallsStraightDown(cfg: MapConfig, search: Search, entry: int, s: seq<int>, moved: set<MapIndex>, c: MapIndex)
    requires Shaped(cfg, s) && Inside(cfg, c) && entry >= 0
    requires At(cfg, s, c) > NoElement && c !in moved
    requires c.row + 1 < cfg.height && Playable(cfg, MapIndex(c.row + 1, c.col)) && At(cfg, s, MapIndex(c.row + 1, c.col)) == NoElement
    ensures Decide(cfg, search, entry, s, moved, c) == Some(Move(c, MapIndex(c.row + 1, c.col)))
  {
  }

  /** A cell that is empty, a hole, or already moved into place never moves. */
  lemma SettledStays(cfg: MapConfig, search: Search, entry: int, s: seq<int>, moved: set<MapIndex>, c: MapIndex)
    requires Shaped(cfg, s) && Inside(cfg, c) && entry >= 0
    requires At(cfg, s, c) <= NoElement || c in moved
    ensures Decide(cfg, search, entry, s, moved, c).None?
  {
  }

  /**
   * The unreachable sentinel -1 compares as nearest: when no entry cell reaches c and the
   * gap and the far cell qualify, c itself slides into the gap.
   */
  lemma UnreachableSlidesItself(cfg: MapConfig, search: Search, s: seq<int>, moved: set<MapIndex>, c: MapIndex, d: int)
    requires Shaped(cfg, s) && Inside(cfg, c) && c.row >= 1 && (d == -1 || d == 1)
    requires Inside(cfg, MapIndex(c.row, c.col + d)) && Playable(cfg, MapIndex(c.row, c.col + d))
    requires !Playable(cfg, MapIndex(c.row - 1, c.col + d)) && At(cfg, s, MapIndex(c.row, c.col + d)) == NoElement
    requires cfg.width <= |cfg.data| && forall k :: 0 <= k < cfg.width ==> !Candidate(cfg, search, c, k)
    ensures Slide(cfg, search, s, moved, c, d) == Some(Move(c, MapIndex(c.row, c.col + d)))
  {
    MulLeq(1, cfg.height, cfg.width);
    var far := MapIndex(c.row, c.col + 2 * d);
    if Inside(cfg, far) && Playable(cfg, far) {
      UnreachableComparesClosest(cfg, search, c, far);
    }
  }

  /**
   * What the fall has done so far: the board is a rearrangement of `orig` that keeps the
   * board invariant; `moved` holds the targets of `routes`, each a one-step move, each
   * target now holding a tile; no move starts from or ends in an earlier move's target.
   */
  ghost predicate Falling(cfg: MapConfig, orig: seq<int>, s: seq<int>, moved: set<MapIndex>, routes: seq<Move>)
    requires Shaped(cfg, orig)
  {
    FallenBoard(cfg, orig, s, moved) && Routed(moved, routes) && Replayed(cfg, orig, s, routes)
  }

  /** The cells the moves enter. */
  function Targets(routes: seq<Move>): set<MapIndex> {
    set k | 0 <= k < |routes| :: routes[k].target
  }

  /** The moves a run of fall notifications reports, from position `from` on. */
  function MovesOf(events: seq<Fallen>, from: nat): (routes: seq<Move>)
    requires from <= |events|
    ensures |routes| == |events| - from
    ensures forall k :: 0 <= k < |routes| ==> routes[k] == Move(events[from + k].source, events[from + k].target)
  {
    seq(|events| - from, k requires 0 <= k < |events| - from => Move(events[from + k].source, events[from + k].target))
  }

  /** The board after applying the moves in order, each one exchanging the values of its two cells. */
  function Replay(cfg: MapConfig, orig: seq<int>, routes: seq<Move>): (s: seq<int>)
    ensures |s| == |orig|
    decreases |routes|
  {
    if routes == [] then orig
    else
      var prev := Replay(cfg, orig, routes[..|routes| - 1]);
      var m := routes[|routes| - 1];
      var i, j := Flat(m.source, cfg.width), Flat(m.target, cfg.width);
      if 0 <= i < |prev| && 0 <= j < |prev| then prev[i := prev[j]][j := prev[i]] else prev
  }

  /** Every move is legal on the board the moves before it produced, given the cells they entered. */
  ghost predicate LegalRun(cfg: MapConfig, orig: seq<int>, routes: seq<Move>)
    requires Shaped(cfg, orig)
    decreases |routes|
  {
    if routes == [] then true
    else
      var before := routes[..|routes| - 1];
      LegalRun(cfg, orig, before) && Legal(cfg, Replay(cfg, orig, before), Targets(before), routes[|routes| - 1])
  }

  /** The replay half of `Falling`: the board is `orig` with the logged moves applied, each legal in turn. */
  ghost predicate Replayed(cfg: MapConfig, orig: seq<int>, s: seq<int>, routes: seq<Move>)
    requires Shaped(cfg, orig)
  {
    s == Replay(cfg, orig, routes) && LegalRun(cfg, orig, routes)
  }

  /** The log half names its targets: `moved` is exactly the set of cells the moves enter. */
  lemma RoutedTargets(moved: set<MapIndex>, routes: seq<Move>)
    requires Routed(moved, routes)
    ensures moved == Targets(routes)
  {
    forall x
      ensures x in Targets(routes) <==> x in moved
    {
      if x in moved {
        var k :| 0 <= k < |routes| && routes[k].target == x;
      }
    }
  }

  /** The board half of `Falling`: a rearrangement of `orig` in which every moved-into cell holds a tile. */
  ghost predicate FallenBoard(cfg: MapConfig, orig: seq<int>, s: seq<int>, moved: set<MapIndex>)
    requires Shaped(cfg, orig)
  {
    && Shaped(cfg, s) && CellsOk(cfg, s) && multiset(s) == multiset(orig)
    && (forall c :: c in moved ==> Inside(cfg, c) && At(cfg, s, c) > NoElement)
  }

  /** The log half of `Falling`: `moved` holds exactly the targets of `routes`, one-step moves never re-entering a target. */
  ghost predicate Routed(moved: set<MapIndex>, routes: seq<Move>) {
    && |routes| == |moved|
    && (forall k :: 0 <= k < |routes| ==> routes[k].target in moved && OneStep(routes[k]))
    && (forall c :: c in moved ==> exists k :: 0 <= k < |routes| && routes[k].target == c)
    && (forall j, k :: 0 <= j < k < |routes| ==> routes[k].source != routes[j].target && routes[k].target != routes[j].target)
  }

  /** Applying a legal move extends the fall. */
  lemma FallingStep(cfg: MapConfig, orig: seq<int>, s: seq<int>, moved: set<MapIndex>, routes: seq<Move>, m: Move)
    requires Shaped(cfg, orig) && Falling(cfg, orig, s, moved, routes)
    requires Legal(cfg, s, moved, m)
    ensures Falling(cfg, orig, Exchange(cfg, s, m.source, m.target), moved + {m.target}, routes + [m])
  {
    assert m.target !in moved;
    FallenBoardStep(cfg, orig, s, moved, m);
    RoutedStep(moved, routes, m);
    ReplayedStep(cfg, orig, s, moved, routes, m);
  }

  /** Exchanging two cells swaps the values at their offsets. */
  lemma ExchangeSwaps(cfg: MapConfig, s: seq<int>, a: MapIndex, b: MapIndex)
    requires Shaped(cfg, s) && Inside(cfg, a) && Inside(cfg, b)
    ensures 0 <= Flat(a, cfg.width) < |s| && 0 <= Flat(b, cfg.width) < |s|
    ensures Exchange(cfg, s, a, b) == s[Flat(a, cfg.width) := s[Flat(b, cfg.width)]][Flat(b, cfg.width) := s[Flat(a, cfg.width)]]
  {
    FlatBounds(a, cfg.height, cfg.width);
    FlatBounds(b, cfg.height, cfg.width);
  }

  /** A legal move extends the replay by one exchange. */
  lemma ReplayedStep(cfg: MapConfig, orig: seq<int>, s: seq<int>, moved: set<MapIndex>, routes: seq<Move>, m: Move)
    requires Shaped(cfg, orig) && Replayed(cfg, orig, s, routes) && Routed(moved, routes)
    requires Legal(cfg, s, moved, m)
    ensures Replayed(cfg, orig, Exchange(cfg, s, m.source, m.target), routes + [m])
  {
    var routes' := routes + [m];
    assert routes'[..|routes|] == routes;
    assert routes'[|routes|] == m;
    ExchangeSwaps(cfg, s, m.source, m.target);
    RoutedTargets(moved, routes);
  }

  /** A legal move keeps the board half. */
  lemma FallenBoardStep(cfg: MapConfig, orig: seq<int>, s: seq<int>, moved: set<MapIndex>, m: Move)
    requires Shaped(cfg, orig) && FallenBoard(cfg, orig, s, moved)
    requires Legal(cfg, s, moved, m)
    ensures FallenBoard(cfg, orig, Exchange(cfg, s, m.source, m.target), moved + {m.target})
  {
    AtOk(cfg, s, m.source);
    AtOk(cfg, s, m.target);
    ExchangeOk(cfg, s, m.source, m.target);
  }

  /** A one-step move from a cell not yet moved into, into a cell not yet moved into, extends the log. */
  lemma RoutedStep(moved: set<MapIndex>, routes: seq<Move>, m: Move)
    requires Routed(moved, routes)
    requires OneStep(m) && m.source !in moved && m.target !in moved
    ensures Routed(moved + {m.target}, routes + [m])
  {
    RoutesCount(moved, routes, m);
    RoutesInto(moved, routes, m);
    RoutesCover(moved, routes, m);
    RoutesApart(moved, routes, m);
  }

  /** One more route, one more moved cell. */
  lemma RoutesCount(moved: set<MapIndex>, routes: seq<Move>, m: Move)
    requires |routes| == |moved| && m.target !in moved
    ensures |routes + [m]| == |moved + {m.target}|
  {
  }

  /** Every route, the new one included, is one step into a moved cell. */
  lemma RoutesInto(moved: set<MapIndex>, routes: seq<Move>, m: Move)
    requires forall k :: 0 <= k < |routes| ==> routes[k].target in moved && OneStep(routes[k])
    requires OneStep(m)
    ensures forall k :: 0 <= k < |routes + [m]| ==> (routes + [m])[k].target in moved + {m.target} && OneStep((routes + [m])[k])
  {
    var routes' := routes + [m];
    forall k | 0 <= k < |routes'|
      ensures routes'[k].target in moved + {m.target} && OneStep(routes'[k])
    {
      if k < |routes| {
        assert routes'[k] == routes[k];
      }
    }
  }

  /** The new route covers its target; the earlier ones still cover theirs. */
  lemma RoutesCover(moved: set<MapIndex>, routes: seq<Move>, m: Move)
    requires forall c :: c in moved ==> exists k :: 0 <= k < |routes| && routes[k].target == c
    ensures forall c :: c in moved + {m.target} ==> exists k :: 0 <= k < |routes + [m]| && (routes + [m])[k].target == c
  {
    var routes' := routes + [m];
    forall c | c in moved + {m.target}
      ensures exists k :: 0 <= k < |routes'| && routes'[k].target == c
    {
      if c == m.target {
        assert routes'[|routes|].target == c;
      } else {
        var k :| 0 <= k < |routes| && routes[k].target == c;
        assert routes'[k].target == c;
      }
    }
  }

  /** A route from and into cells no earlier route entered keeps the routes apart. */
  lemma RoutesApart(moved: set<MapIndex>, routes: seq<Move>, m: Move)
    requires forall k :: 0 <= k < |routes| ==> routes[k].target in moved
    requires forall j, k :: 0 <= j < k < |routes| ==> routes[k].source != routes[j].target && routes[k].target != routes[j].target
    requires m.source !in moved && m.target !in moved
    ensures forall j, k :: 0 <= j < k < |routes + [m]| ==>
      (routes + [m])[k].source != (routes + [m])[j].target && (routes + [m])[k].target != (routes + [m])[j].target
  {
    var routes' := routes + [m];
    forall j, k | 0 <= j < k < |routes'|
      ensures routes'[k].source != routes'[j].target && routes'[k].target != routes'[j].target
    {
      if k == |routes| {
        assert routes'[j].target in moved;
      } else {
        assert routes'[j] == routes[j] && routes'[k] == routes[k];
      }
    }
  }

  /** One visit of cell c: apply the move `Decide` picks, if any. */
  method Visit(cfg: MapConfig, search: Search, entry: int, orig: seq<int>,
               s: seq<int>, moved: set<MapIndex>, routes: seq<Move>, c: MapIndex)
    returns (s': seq<int>, moved': set<MapIndex>, routes': seq<Move>)
    requires Shaped(cfg, orig) && Inside(cfg, c) && entry >= 0
    requires Falling(cfg, orig, s, moved, routes)
    ensures Falling(cfg, orig, s', moved', routes')
    ensures moved <= moved' && (moved' == moved || |moved'| == |moved| + 1)
    ensures moved' == moved ==> s' == s && routes' == routes && Decide(cfg, search, entry, s, moved, c).None?
    ensures Decide(cfg, search, entry, s, moved, c).Some? ==>
              var m := Decide(cfg, search, entry, s, moved, c).value;
              && Legal(cfg, s, moved, m)
              && s' == Exchange(cfg, s, m.source, m.target) && moved' == moved + {m.target} && routes' == routes + [m]
  {
    var m := Decide(cfg, search, entry, s, moved, c);
    if m.None? {
      return s, moved, routes;
    }
    FallingStep(cfg, orig, s, moved, routes, m.value);
    assert m.value.target !in moved;
    s' := Exchange(cfg, s, m.value.source, m.value.target);
    moved' := moved + {m.value.target};
    routes' := routes + [m.value];
  }

  /** Cells of the box visited before column `col` of row `row`, in row-major order. */
  predicate Visited(box: Scope, row: int, col: int, c: MapIndex) {
    Contains(box, c) && (c.row < row || (c.row == row && c.col < col))
  }

  /** The cells of one row of the box, left to right. */
  method SweepRow(cfg: MapConfig, search: Search, entry: int, orig: seq<int>, box: Scope, row: int,
                  s: seq<int>, moved: set<MapIndex>, routes: seq<Move>)
    returns (s': seq<int>, moved': set<MapIndex>, routes': seq<Move>)
    requires Shaped(cfg, orig) && entry >= 0
    requires Fits(box, cfg.height, cfg.width) && !IsEmpty(box) && box.minRow <= row <= box.maxRow
    requires Falling(cfg, orig, s, moved, routes)
    ensures Falling(cfg, orig, s', moved', routes')
    ensures moved <= moved' && (moved' == moved || |moved'| > |moved|)
    ensures moved' == moved ==> s' == s
    ensures moved' == moved ==> forall c :: Inside(cfg, c) && Visited(box, row, box.maxCol + 1, c) && c.row == row ==>
              Decide(cfg, search, entry, s, moved, c).None?
  {
    s', moved', routes' := s, moved, routes;
    ghost var quiet := true;
    var col := box.minCol;
    while col <= box.maxCol
      invariant box.minCol <= col <= box.maxCol + 1
      invariant Falling(cfg, orig, s', moved', routes') && moved <= moved'
      invariant quiet ==> moved' == moved && s' == s
      invariant !quiet ==> |moved'| > |moved|
      invariant quiet ==> forall c :: Inside(cfg, c) && Visited(box, row, col, c) && c.row == row ==>
                  Decide(cfg, search, entry, s, moved, c).None?
    {
      ghost var before := moved';
      s', moved', routes' := Visit(cfg, search, entry, orig, s', moved', routes', MapIndex(row, col));
      if quiet && moved' == before {
        QuietCell(cfg, search, entry, s, moved, box, row, col);
      }
      quiet := quiet && moved' == before;
      col := col + 1;
    }
  }

  /** A cell without a move extends the stretch of the row known to have none. */
  lemma QuietCell(cfg: MapConfig, search: Search, entry: int, s: seq<int>, moved: set<MapIndex>, box: Scope, row: int, col: int)
    requires Shaped(cfg, s) && entry >= 0 && Inside(cfg, MapIndex(row, col))
    requires forall c :: Inside(cfg, c) && Visited(box, row, col, c) && c.row == row ==> Decide(cfg, search, entry, s, moved, c).None?
    requires Decide(cfg, search, entry, s, moved, MapIndex(row, col)).None?
    ensures forall c :: Inside(cfg, c) && Visited(box, row, col + 1, c) && c.row == row ==> Decide(cfg, search, entry, s, moved, c).None?
  {
    forall c | Inside(cfg, c) && Visited(box, row, col + 1, c) && c.row == row
      ensures Decide(cfg, search, entry, s, moved, c).None?
    {
      if c.col < col {
        assert Visited(box, row, col, c);
      } else {
        assert c == MapIndex(row, col);
      }
    }
  }

  /** A row without a move extends the stretch of the box known to have none. */
  lemma QuietRow(cfg: MapConfig, search: Search, entry: int, s: seq<int>, moved: set<MapIndex>, box: Scope, row: int)
    requires Shaped(cfg, s) && entry >= 0
    requires forall c :: Inside(cfg, c) && Visited(box, row, box.minCol, c) ==> Decide(cfg, search, entry, s, moved, c).None?
    requires forall c :: Inside(cfg, c) && Visited(box, row, box.maxCol + 1, c) && c.row == row ==>
               Decide(cfg, search, entry, s, moved, c).None?
    ensures forall c :: Inside(cfg, c) && Visited(box, row + 1, box.minCol, c) ==> Decide(cfg, search, entry, s, moved, c).None?
  {
    forall c | Inside(cfg, c) && Visited(box, row + 1, box.minCol, c)
      ensures Decide(cfg, search, entry, s, moved, c).None?
    {
      if c.row < row {
        assert Visited(box, row, box.minCol, c);
      } else {
        assert Visited(box, row, box.maxCol + 1, c);
      }
    }
  }

  /**
   * One pass over the box in row-major order. A pass that moves nothing leaves the board
   * as it was and has found no move for any cell of the box.
   */
  method Sweep(cfg: MapConfig, search: Search, entry: int, orig: seq<int>, box: Scope,
               s: seq<int>, moved: set<MapIndex>, routes: seq<Move>)
    returns (s': seq<int>, moved': set<MapIndex>, routes': seq<Move>)
    requires Shaped(cfg, orig) && entry >= 0
    requires Fits(box, cfg.height, cfg.width) && !IsEmpty(box)
    requires Falling(cfg, orig, s, moved, routes)
    ensures Falling(cfg, orig, s', moved', routes')
    ensures moved <= moved' && (moved' == moved || |moved'| > |moved|)
    ensures moved' == moved ==> s' == s
    ensures moved' == moved ==> forall c :: Inside(cfg, c) && Contains(box, c) ==> Decide(cfg, search, entry, s, moved, c).None?
  {
    s', moved', routes' := s, moved, routes;
    ghost var quiet := true;
    var row := box.minRow;
    while row <= box.maxRow
      invariant box.minRow <= row <= box.maxRow + 1
      invariant Falling(cfg, orig, s', moved', routes') && moved <= moved'
      invariant quiet ==> moved' == moved && s' == s
      invariant !quiet ==> |moved'| > |moved|
      invariant quiet ==> forall c :: Inside(cfg, c) && Visited(box, row, box.minCol, c) ==>
                  Decide(cfg, search, entry, s, moved, c).None?
    {
      ghost var before := moved';
      s', moved', routes' := SweepRow(cfg, search, entry, orig, box, row, s', moved', routes');
      if quiet && moved' == before {
        QuietRow(cfg, search, entry, s, moved, box, row);
      }
      quiet := quiet && moved' == before;
      row := row + 1;
    }
  }

  /** A set that grows within the board leaves fewer board cells outside it. */
  lemma Progress(cfg: MapConfig, before: set<MapIndex>, after: set<MapIndex>)
    requires before <= after && |after| > |before|
    requires forall c :: c in after ==> Inside(cfg, c)
    ensures Cells(cfg.height, cfg.width) - after < Cells(cfg.height, cfg.width) - before
  {
    Split(before, after);
    var x :| x in after - before;
    assert x in Cells(cfg.height, cfg.width);
  }

  /** A superset splits into the subset and the rest. */
  lemma Split(before: set<MapIndex>, after: set<MapIndex>)
    requires before <= after
    ensures |after| == |before| + |after - before|
  {
    assert after == before + (after - before);
    assert before * (after - before) == {};
  }

  /** A subset that is not smaller is the same set. */
  lemma SameSize(before: set<MapIndex>, after: set<MapIndex>)
    requires before <= after && |after| <= |before|
    ensures after == before
  {
    Split(before, after);
    assert after - before == {};
  }

  /**
   * The fall loop: widen the box by one ring, sweep it, and repeat while the sweep moved
   * something. It ends with the board settled: no cell of the final box has a move left.
   */
  method Settle(cfg: MapConfig, search: Search, entry: int, orig: seq<int>, box0: Scope)
    returns (s: seq<int>, moved: set<MapIndex>, routes: seq<Move>, box: Scope)
    requires Shaped(cfg, orig) && CellsOk(cfg, orig) && entry >= 0
    requires Fits(box0, cfg.height, cfg.width) && !IsEmpty(box0)
    ensures Falling(cfg, orig, s, moved, routes)
    ensures Fits(box, cfg.height, cfg.width) && !IsEmpty(box)
    ensures forall c :: Contains(box0, c) ==> Contains(box, c)
    ensures forall c :: Inside(cfg, c) && Contains(box, c) ==> Decide(cfg, search, entry, s, moved, c).None?
  {
    s, moved, routes, box := orig, {}, [], box0;
    while true
      invariant Falling(cfg, orig, s, moved, routes)
      invariant Fits(box, cfg.height, cfg.width) && !IsEmpty(box)
      invariant forall c :: Contains(box0, c) ==> Contains(box, c)
      decreases Cells(cfg.height, cfg.width) - moved
    {
      var before := moved;
      var beforeSize := |moved|;
      box := Widen(box, cfg.height, cfg.width);
      s, moved, routes := Sweep(cfg, search, entry, orig, box, s, moved, routes);
      if |moved| <= beforeSize {
        SameSize(before, moved);
        return;
      }
      Progress(cfg, before, moved);
    }
  }

  /** The notifications: each spawned tile arrives in place, then each route in order. */
  function Announce(refreshed: seq<Refresh>, routes: seq<Move>): (events: seq<Fallen>)
    ensures |events| == |refreshed| + |routes|
    ensures forall k :: 0 <= k < |events| ==> events[k].number == k + 1 && events[k].total == |events|
    ensures forall k :: 0 <= k < |refreshed| ==> events[k].source == events[k].target == refreshed[k].index
    ensures forall k :: 0 <= k < |routes| ==>
              events[|refreshed| + k].source == routes[k].source && events[|refreshed| + k].target == routes[k].target
  {
    var total := |refreshed| + |routes|;
    seq(|refreshed|, k requires 0 <= k < |refreshed| => Fallen(refreshed[k].index, refreshed[k].index, k + 1, total)) +
    seq(|routes|, k requires 0 <= k < |routes| => Fallen(routes[k].source, routes[k].target, |refreshed| + k + 1, total))
  }

  /** Tracks every moved cell in the box and queues it for the next match check. */
  method Track(box: Scope, queued: set<MapIndex>, moved: set<MapIndex>, height: int, width: int)
    returns (box': Scope, queued': set<MapIndex>)
    requires Fits(box, height, width) && !IsEmpty(box)
    requires forall c :: c in moved ==> InRange(c, height, width)
    ensures Fits(box', height, width) && !IsEmpty(box')
    ensures forall c :: Contains(box, c) ==> Contains(box', c)
    ensures forall c :: c in moved ==> Contains(box', c)
    ensures queued' == queued + moved
  {
    box', queued' := box, queued;
    var todo := moved;
    while todo != {}
      invariant todo <= moved
      invariant Fits(box', height, width) && !IsEmpty(box')
      invariant forall c :: Contains(box, c) ==> Contains(box', c)
      invariant forall c :: c in moved - todo ==> Contains(box', c)
      invariant queued' == queued + (moved - todo)
      decreases todo
    {
      var index :| index in todo;
      TakeOne(moved, todo, index);
      box' := Update(box', index);
      queued' := queued' + {index};
      todo := todo - {index};
    }
  }

  /**
   * The fall below the spawn row, the tracking of every cell that received a tile, and the
   * notifications: the spawned tiles' arrivals first, then every move in order.
   */
  method Fall(cfg: MapConfig, search: Search, orig: seq<int>, box0: Scope, queued0: set<MapIndex>, refreshed: seq<Refresh>)
    returns (s: seq<int>, moved: set<MapIndex>, box: Scope, queued: set<MapIndex>, events: seq<Fallen>)
    requires Shaped(cfg, orig) && CellsOk(cfg, orig)
    requires Fits(box0, cfg.height, cfg.width) && !IsEmpty(box0)
    ensures Shaped(cfg, s) && CellsOk(cfg, s) && multiset(s) == multiset(orig)
    ensures Fits(box, cfg.height, cfg.width) && !IsEmpty(box)
    ensures forall c :: Contains(box0, c) ==> Contains(box, c)
    ensures |events| == |refreshed| + |moved|
    ensures forall k :: 0 <= k < |events| ==> events[k].number == k + 1 && events[k].total == |events|
    ensures forall k :: 0 <= k < |refreshed| ==> events[k].source == events[k].target == refreshed[k].index
    ensures forall k :: |refreshed| <= k < |events| ==>
      && OneStep(Move(events[k].source, events[k].target))
      && Inside(cfg, events[k].target) && At(cfg, s, events[k].target) > NoElement
      && Contains(box, events[k].target)
    ensures forall j, k :: |refreshed| <= j < k < |events| ==>
      events[k].source != events[j].target && events[k].target != events[j].target
    ensures forall c :: c in queued <==> c in queued0 || exists k :: |refreshed| <= k < |events| && events[k].target == c
    ensures s == Replay(cfg, orig, MovesOf(events, |refreshed|)) && LegalRun(cfg, orig, MovesOf(events, |refreshed|))
    ensures moved == Targets(MovesOf(events, |refreshed|))
    ensures |events| == |refreshed| ==> s == orig
    ensures forall c :: Inside(cfg, c) && Contains(box0, c) ==> Decide(cfg, search, EntryRow(cfg), s, moved, c).None?
  {
    var routes, settled;
    s, moved, routes, settled := Settled(cfg, search, orig, box0);
    box, queued := Track(settled, queued0, moved, cfg.height, cfg.width);
    events := Notify(cfg, s, moved, routes, refreshed);
  }

  /** The notifications for the arrivals and the settled routes, read back as those routes. */
  method Notify(cfg: MapConfig, s: seq<int>, moved: set<MapIndex>, routes: seq<Move>, refreshed: seq<Refresh>)
    returns (events: seq<Fallen>)
    requires Shaped(cfg, s) && |routes| == |moved|
    requires forall k :: 0 <= k < |routes| ==>
      && OneStep(routes[k]) && routes[k].target in moved
      && Inside(cfg, routes[k].target) && At(cfg, s, routes[k].target) > NoElement
    requires forall c :: c in moved ==> exists k :: 0 <= k < |routes| && routes[k].target == c
    requires forall j, k :: 0 <= j < k < |routes| ==> routes[k].source != routes[j].target && routes[k].target != routes[j].target
    ensures |events| == |refreshed| + |moved|
    ensures forall k :: 0 <= k < |events| ==> events[k].number == k + 1 && events[k].total == |events|
    ensures forall k :: 0 <= k < |refreshed| ==> events[k].source == events[k].target == refreshed[k].index
    ensures forall k :: |refreshed| <= k < |events| ==>
      && OneStep(Move(events[k].source, events[k].target))
      && Inside(cfg, events[k].target) && At(cfg, s, events[k].target) > NoElement
    ensures forall j, k :: |refreshed| <= j < k < |events| ==>
      events[k].source != events[j].target && events[k].target != events[j].target
    ensures forall c :: c in moved <==> exists k :: |refreshed| <= k < |events| && events[k].target == c
    ensures MovesOf(events, |refreshed|) == routes
  {
    events := Announce(refreshed, routes);
    AnnouncedRoutes(cfg, s, moved, routes, refreshed);
    MovedAnnounced(refreshed, routes, moved);
    AnnouncedMoves(refreshed, routes);
  }

  /** `Settle` with its invariant spelled out clause by clause, as the notifications need it. */
  method Settled(cfg: MapConfig, search: Search, orig: seq<int>, box0: Scope)
    returns (s: seq<int>, moved: set<MapIndex>, routes: seq<Move>, box: Scope)
    requires Shaped(cfg, orig) && CellsOk(cfg, orig)
    requires Fits(box0, cfg.height, cfg.width) && !IsEmpty(box0)
    ensures Shaped(cfg, s) && CellsOk(cfg, s) && multiset(s) == multiset(orig)
    ensures Fits(box, cfg.height, cfg.width) && !IsEmpty(box)
    ensures forall c :: Contains(box0, c) ==> Contains(box, c)
    ensures |routes| == |moved|
    ensures forall k :: 0 <= k < |routes| ==>
      && OneStep(routes[k]) && routes[k].target in moved
      && Inside(cfg, routes[k].target) && At(cfg, s, routes[k].target) > NoElement
    ensures forall c :: c in moved ==> InRange(c, cfg.height, cfg.width) && exists k :: 0 <= k < |routes| && routes[k].target == c
    ensures forall j, k :: 0 <= j < k < |routes| ==> routes[k].source != routes[j].target && routes[k].target != routes[j].target
    ensures s == Replay(cfg, orig, routes) && LegalRun(cfg, orig, routes) && moved == Targets(routes)
    ensures forall c :: Inside(cfg, c) && Contains(box0, c) ==> Decide(cfg, search, EntryRow(cfg), s, moved, c).None?
  {
    s, moved, routes, box := Settle(cfg, search, EntryRow(cfg), orig, box0);
    RoutedTargets(moved, routes);
  }

  /** The moves read back from the notifications are the routes announced. */
  lemma AnnouncedMoves(refreshed: seq<Refresh>, routes: seq<Move>)
    ensures MovesOf(Announce(refreshed, routes), |refreshed|) == routes
  {
    var moves := MovesOf(Announce(refreshed, routes), |refreshed|);
    assert forall k :: 0 <= k < |routes| ==> moves[k] == routes[k];
  }

  /** The route notifications name exactly the cells moved into. */
  lemma MovedAnnounced(refreshed: seq<Refresh>, routes: seq<Move>, moved: set<MapIndex>)
    requires forall k :: 0 <= k < |routes| ==> routes[k].target in moved
    requires forall c :: c in moved ==> exists k :: 0 <= k < |routes| && routes[k].target == c
    ensures forall c :: c in moved <==>
      exists k :: |refreshed| <= k < |Announce(refreshed, routes)| && Announce(refreshed, routes)[k].target == c
  {
    var events := Announce(refreshed, routes);
    var n := |refreshed|;
    forall c | c in moved
      ensures exists k :: n <= k < |events| && events[k].target == c
    {
      var k :| 0 <= k < |routes| && routes[k].target == c;
      assert events[n + k].target == c;
    }
    forall k | n <= k < |events|
      ensures events[k].target in moved
    {
      assert events[n + (k - n)] == events[k];
    }
  }

  /** The arrival notifications name exactly the spawned cells. */
  lemma ArrivalsAnnounced(refreshed: seq<Refresh>, added: set<MapIndex>, events: seq<Fallen>)
    requires |refreshed| <= |events|
    requires forall k :: 0 <= k < |refreshed| ==> refreshed[k].index in added
    requires forall c :: c in added ==> exists k :: 0 <= k < |refreshed| && refreshed[k].index == c
    requires forall k :: 0 <= k < |refreshed| ==> events[k].target == refreshed[k].index
    ensures forall c :: c in added <==> exists k :: 0 <= k < |refreshed| && events[k].target == c
  {
    forall c | c in added
      ensures exists k :: 0 <= k < |refreshed| && events[k].target == c
    {
      var k :| 0 <= k < |refreshed| && refreshed[k].index == c;
      assert events[k].target == c;
    }
  }

  /** The route notifications follow the routes: one-step moves into distinct cells that now hold tiles. */
  lemma AnnouncedRoutes(cfg: MapConfig, s: seq<int>, moved: set<MapIndex>, routes: seq<Move>, refreshed: seq<Refresh>)
    requires Shaped(cfg, s)
    requires forall k :: 0 <= k < |routes| ==>
      && OneStep(routes[k]) && routes[k].target in moved
      && Inside(cfg, routes[k].target) && At(cfg, s, routes[k].target) > NoElement
    requires forall j, k :: 0 <= j < k < |routes| ==> routes[k].source != routes[j].target && routes[k].target != routes[j].target
    ensures forall k :: |refreshed| <= k < |Announce(refreshed, routes)| ==>
      && OneStep(Move(Announce(refreshed, routes)[k].source, Announce(refreshed, routes)[k].target))
      && Inside(cfg, Announce(refreshed, routes)[k].target)
      && At(cfg, s, Announce(refreshed, routes)[k].target) > NoElement
    ensures forall j, k :: |refreshed| <= j < k < |Announce(refreshed, routes)| ==>
      && Announce(refreshed, routes)[k].source != Announce(refreshed, routes)[j].target
      && Announce(refreshed, routes)[k].target != Announce(refreshed, routes)[j].target
  {
    var events := Announce(refreshed, routes);
    var n := |refreshed|;
    forall k | n <= k < |events|
      ensures OneStep(Move(events[k].source, events[k].target))
      ensures Inside(cfg, events[k].target) && At(cfg, s, events[k].target) > NoElement
    {
      assert events[n + (k - n)] == events[k];
      assert routes[k - n].target in moved;
    }
    forall j, k | n <= j < k < |events|
      ensures events[k].source != events[j].target && events[k].target != events[j].target
    {
      assert events[n + (k - n)] == events[k];
      assert events[n + (j - n)] == events[j];
    }
  }

  /** Queued cells: those queued before, and every notified target, spawned or moved into. */
  lemma QueuedAnnounced(queued0: set<MapIndex>, added: set<MapIndex>, queued: set<MapIndex>, n: nat, events: seq<Fallen>)
    requires n <= |events|
    requires forall c :: c in added <==> exists k :: 0 <= k < n && events[k].target == c
    requires forall c :: c in queued <==> c in queued0 || exists k :: n <= k < |events| && events[k].target == c
    ensures forall c :: c in queued + added <==> c in queued0 || exists k :: 0 <= k < |events| && events[k].target == c
  {
    forall c | c in queued0 || exists k :: 0 <= k < |events| && events[k].target == c
      ensures c in queued + added
    {
      if c !in queued0 {
        var k :| 0 <= k < |events| && events[k].target == c;
        if k < n {
          assert c in added;
        } else {
          assert c in queued;
        }
      }
    }
  }

  /**
   * Everything `FalldownSprite` does after the spawn row was filled (`spawned` is the board
   * then, `added` and `refreshed` what the filling reported).
   */
  method Land(b: State, search: Search, spawned: seq<int>, added: set<MapIndex>, refreshed: seq<Refresh>)
    returns (r: Step<bool>, events: seq<Fallen>)
    requires Valid(b) && b.initialized && !IsEmpty(b.scope)
    requires Shaped(b.config, spawned) && CellsOk(b.config, spawned)
    requires |refreshed| == |added|
    requires forall k :: 0 <= k < |refreshed| ==> refreshed[k].index in added
    requires forall c :: c in added ==> exists k :: 0 <= k < |refreshed| && refreshed[k].index == c
    requires forall c :: c in added ==> Inside(b.config, c)
    requires multiset(spawned)[NoElement] + |added| == multiset(b.sprites)[NoElement]
    requires multiset(spawned)[Nothing] == multiset(b.sprites)[Nothing]
    ensures r.result == Success(events != [])
    ensures r.state.initialized && r.state.config == b.config && Valid(r.state)
    ensures |refreshed| <= |events|
    ensures forall k :: 0 <= k < |events| ==> events[k].number == k + 1 && events[k].total == |events|
    ensures forall k :: 0 <= k < |refreshed| ==> events[k].source == events[k].target == refreshed[k].index
    ensures forall k :: |refreshed| <= k < |events| ==>
      && OneStep(Move(events[k].source, events[k].target))
      && Inside(b.config, events[k].target)
      && At(b.config, r.state.sprites, events[k].target) > NoElement
      && Contains(r.state.scope, events[k].target)
    ensures forall j, k :: |refreshed| <= j < k < |events| ==>
      events[k].source != events[j].target && events[k].target != events[j].target
    ensures forall c :: c in r.state.moved <==> c in b.moved || exists k :: 0 <= k < |events| && events[k].target == c
    ensures forall c :: Contains(b.scope, c) ==> Contains(r.state.scope, c)
    ensures multiset(r.state.sprites)[NoElement] + |refreshed| == multiset(b.sprites)[NoElement]
    ensures multiset(r.state.sprites)[Nothing] == multiset(b.sprites)[Nothing]
    ensures multiset(r.state.sprites) == multiset(spawned)
    ensures r.state.sprites == Replay(b.config, spawned, MovesOf(events, |refreshed|))
    ensures LegalRun(b.config, spawned, MovesOf(events, |refreshed|))
    ensures |events| == |refreshed| ==> r.state.sprites == spawned
    ensures forall c :: Inside(b.config, c) && Contains(b.scope, c) ==>
              Decide(b.config, search, EntryRow(b.config), r.state.sprites, Targets(MovesOf(events, |refreshed|)), c).None?
  {
    var s, moved, box, queued;
    s, moved, box, queued, events := Fall(b.config, search, spawned, b.scope, b.moved, refreshed);
    ArrivalsAnnounced(refreshed, added, events);
    QueuedAnnounced(b.moved, added, queued, |refreshed|, events);
    queued := queued + added;
    r := Step(b.(sprites := s, scope := box, moved := queued), Success(|moved| > 0 || |added| > 0));
  }

  /** The spawn step of the fall, reduced to what the fall needs of it. */
  method SpawnRow(b: State) returns (spawned: seq<int>, added: set<MapIndex>, refreshed: seq<Refresh>)
    requires Valid(b) && b.initialized
    ensures Shaped(b.config, spawned) && CellsOk(b.config, spawned)
    ensures spawned == Fill(b.config, b.sprites, refreshed)
    ensures |refreshed| == |added|
    ensures forall k :: 0 <= k < |refreshed| ==>
      && refreshed[k].index in added
      && Inside(b.config, refreshed[k].index)
      && FirstLine(b.config) == Some(refreshed[k].index.row)
      && At(b.config, b.sprites, refreshed[k].index) == NoElement
      && 1 <= refreshed[k].kind <= b.config.typeCount
    ensures forall c :: c in added ==> Inside(b.config, c) && exists k :: 0 <= k < |refreshed| && refreshed[k].index == c
    ensures forall c :: Inside(b.config, c) && FirstLine(b.config) == Some(c.row) && At(b.config, b.sprites, c) == NoElement ==> c in added
    ensures multiset(spawned)[NoElement] + |added| == multiset(b.sprites)[NoElement]
    ensures multiset(spawned)[Nothing] == multiset(b.sprites)[Nothing]
  {
    var spawn;
    spawn, added, refreshed := AddSpriteToFristLine(b);
    spawned := spawn.state.sprites;
  }

  /**
   * `FalldownSprite`: fill the empty cells of the spawn row, let the board settle, track
   * and queue every cell that received a tile, and announce the arrivals and then the
   * moves. Nothing is created or destroyed except the spawned tiles, and holes stay holes.
   */
  method FalldownSprite(b: State, search: Search) returns (r: Step<bool>, refreshed: seq<Refresh>, events: seq<Fallen>)
    requires Valid(b)
    requires b.initialized ==> !IsEmpty(b.scope)
    ensures !b.initialized ==> r == Step(b, Failure(NotInitialized)) && refreshed == [] && events == []
    ensures b.initialized ==> r.result == Success(events != [])
    ensures b.initialized ==> r.state.initialized && r.state.config == b.config && Valid(r.state)
    ensures b.initialized ==> |refreshed| <= |events|
    ensures b.initialized ==> forall k :: 0 <= k < |events| ==> events[k].number == k + 1 && events[k].total == |events|
    ensures b.initialized ==> forall k :: 0 <= k < |refreshed| ==>
      && events[k].source == events[k].target == refreshed[k].index
      && Inside(b.config, refreshed[k].index)
      && FirstLine(b.config) == Some(refreshed[k].index.row)
      && At(b.config, b.sprites, refreshed[k].index) == NoElement
      && 1 <= refreshed[k].kind <= b.config.typeCount
    ensures b.initialized ==> forall c :: Inside(b.config, c) && FirstLine(b.config) == Some(c.row) && At(b.config, b.sprites, c) == NoElement ==>
      exists k :: 0 <= k < |refreshed| && refreshed[k].index == c
    ensures b.initialized ==> forall k :: |refreshed| <= k < |events| ==>
      && OneStep(Move(events[k].source, events[k].target))
      && Inside(b.config, events[k].target)
      && At(b.config, r.state.sprites, events[k].target) > NoElement
      && Contains(r.state.scope, events[k].target)
    ensures b.initialized ==> forall j, k :: |refreshed| <= j < k < |events| ==>
      events[k].source != events[j].target && events[k].target != events[j].target
    ensures b.initialized ==> forall c :: c in r.state.moved <==> c in b.moved || exists k :: 0 <= k < |events| && events[k].target == c
    ensures b.initialized ==> forall c :: Contains(b.scope, c) ==> Contains(r.state.scope, c)
    ensures b.initialized ==> multiset(r.state.sprites)[NoElement] + |refreshed| == multiset(b.sprites)[NoElement]
    ensures b.initialized ==> multiset(r.state.sprites)[Nothing] == multiset(b.sprites)[Nothing]
    ensures b.initialized ==> multiset(r.state.sprites) == multiset(Fill(b.config, b.sprites, refreshed))
    ensures b.initialized ==>
      && r.state.sprites == Replay(b.config, Fill(b.config, b.sprites, refreshed), MovesOf(events, |refreshed|))
      && LegalRun(b.config, Fill(b.config, b.sprites, refreshed), MovesOf(events, |refreshed|))
    ensures b.initialized ==> forall c :: Inside(b.config, c) && Contains(b.scope, c) ==>
      Decide(b.config, search, EntryRow(b.config), r.state.sprites, Targets(MovesOf(events, |refreshed|)), c).None?
    ensures b.initialized && r.result == Success(false) ==> r.state.sprites == b.sprites && r.state.moved == b.moved
  {
    if !b.initialized {
      return Step(b, Failure(NotInitialized)), [], [];
    }
    var spawned, added;
    spawned, added, refreshed := SpawnRow(b);
    r, events := Land(b, search, spawned, added, refreshed);
    if events == [] {
      assert refreshed == [];
      assert r.state.moved == b.moved;
    }
  }
}
