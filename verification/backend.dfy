/** The board engine (`Backend`): its state, map setup, validity tests, swapping, elimination and spawning. */
module Backend {
  import opened Wrappers
  import opened Types
  import opened Board
  import opened Scopes

  /** The failures the engine raises instead of answering. */
  datatype Error = NotInitialized | InvalidConfiguration | InvalidIndex

  /**
   * The engine's state: whether a map is set, the map, the board, the dirty region and the
   * cells that received a tile since the last cascade check.
   */
  datatype State = State(initialized: bool, config: MapConfig, sprites: seq<int>, scope: Scope, moved: set<MapIndex>)

  /** The state of an engine before any map is set. */
  const Unset: State := State(false, MapConfig(0, 0, 0, []), [], Init(), {})

  /** The state an operation leaves behind, and its answer or error. */
  datatype Step<T> = Step(state: State, result: Result<T, Error>)

  /** `OnRefreshMap(index, kind)`: kind is a tile type, NoElement or Nothing. */
  datatype Refresh = Refresh(index: MapIndex, kind: int)

  /** `OnEliminate(index, number, total)`. */
  datatype Eliminated = Eliminated(index: MapIndex, number: nat, total: nat)

  /** A usable map (one mask entry per cell, a type to draw whenever a cell is playable) and tracking inside it. */
  predicate MapOk(b: State) {
    b.initialized ==>
      && b.config.height >= 0 && b.config.width >= 0
      && |b.config.data| == b.config.height * b.config.width
      && (true in b.config.data ==> b.config.typeCount >= 1)
      && Fits(b.scope, b.config.height, b.config.width)
      && (forall c :: c in b.moved ==> Inside(b.config, c))
  }

  /** What every state the engine reaches satisfies. */
  predicate Valid(b: State) {
    MapOk(b) && (b.initialized ==> Shaped(b.config, b.sprites) && CellsOk(b.config, b.sprites))
  }

  lemma UnsetIsValid()
    ensures Valid(Unset) && !Unset.initialized
  {
  }

  /** A cell that is on the board and holds a tile. */
  predicate IsTile(cfg: MapConfig, s: seq<int>, c: MapIndex)
    requires Shaped(cfg, s)
  {
    Inside(cfg, c) && At(cfg, s, c) > NoElement
  }

  /**
   * A freshly generated board: for every cell in row-major order, a random type in
   * [1, typeCount] when the cell is playable and Nothing otherwise.
   */
  method FreshBoard(config: MapConfig) returns (s: seq<int>)
    requires config.height >= 0 && config.width >= 0 && |config.data| == config.height * config.width
    requires true in config.data ==> config.typeCount >= 1
    ensures Shaped(config, s) && CellsOk(config, s)
    ensures forall k :: 0 <= k < |s| && config.data[k] ==> 1 <= s[k] <= config.typeCount
  {
    s := [];
    var idx := 0;
    while idx < |config.data|
      invariant 0 <= idx <= |config.data| && |s| == idx
      invariant forall k :: 0 <= k < idx ==> (s[k] == Nothing <==> !config.data[k])
      invariant forall k :: 0 <= k < idx && config.data[k] ==> 1 <= s[k] <= config.typeCount
    {
      if config.data[idx] {
        assert true in config.data;
        var t :| 1 <= t <= config.typeCount;
        s := s + [t];
      } else {
        s := s + [Nothing];
      }
      idx := idx + 1;
    }
  }

  /**
   * `ReGeneration` as written: it appends a freshly generated board to the cells already
   * held, so on a board that is already set the first width*height cells keep their values.
   */
  method ReGeneration(b: State) returns (r: Step<()>)
    requires MapOk(b)
    ensures !b.initialized ==> r == Step(b, Failure(NotInitialized))
    ensures b.initialized ==> r.result.Success? && r.state == b.(sprites := r.state.sprites)
    ensures b.initialized ==> |r.state.sprites| == |b.sprites| + |b.config.data|
    ensures b.initialized ==> r.state.sprites[..|b.sprites|] == b.sprites
    ensures b.initialized ==> CellsOk(b.config, r.state.sprites[|b.sprites|..])
    ensures b.initialized && Shaped(b.config, b.sprites) && |b.config.data| > 0 ==> !Shaped(b.config, r.state.sprites)
    ensures b.initialized && b.sprites == [] ==> Valid(r.state) && forall c :: Inside(b.config, c) ==>
              (At(b.config, r.state.sprites, c) == Nothing <==> !Playable(b.config, c)) &&
              (Playable(b.config, c) ==> 1 <= At(b.config, r.state.sprites, c) <= b.config.typeCount)
  {
    if !b.initialized {
      return Step(b, Failure(NotInitialized));
    }
    var generated := FreshBoard(b.config);
    var s := b.sprites + generated;
    assert s[..|b.sprites|] == b.sprites && s[|b.sprites|..] == generated;
    if b.sprites == [] {
      assert s == generated;
      FreshCells(b.config, generated);
    }
    return Step(b.(sprites := s), Success(()));
  }

  /** A generated board, read cell by cell: holes exactly at the non-playable cells, a tile type at every other. */
  lemma FreshCells(config: MapConfig, s: seq<int>)
    requires Shaped(config, s) && CellsOk(config, s)
    requires forall k :: 0 <= k < |s| && config.data[k] ==> 1 <= s[k] <= config.typeCount
    ensures forall c :: Inside(config, c) ==>
              (At(config, s, c) == Nothing <==> !Playable(config, c)) &&
              (Playable(config, c) ==> 1 <= At(config, s, c) <= config.typeCount)
  {
    forall c | Inside(config, c)
      ensures (At(config, s, c) == Nothing <==> !Playable(config, c))
      ensures Playable(config, c) ==> 1 <= At(config, s, c) <= config.typeCount
    {
      FlatBounds(c, config.height, config.width);
    }
  }

  /** Regeneration that replaces the board: every playable cell gets a new type, every hole Nothing. */
  method Regenerate(b: State) returns (r: Step<()>)
    requires MapOk(b)
    ensures !b.initialized ==> r == Step(b, Failure(NotInitialized))
    ensures b.initialized ==> r.result.Success? && r.state == b.(sprites := r.state.sprites) && Valid(r.state)
    ensures b.initialized ==> forall c :: Inside(b.config, c) ==>
              (At(b.config, r.state.sprites, c) == Nothing <==> !Playable(b.config, c)) &&
              (Playable(b.config, c) ==> 1 <= At(b.config, r.state.sprites, c) <= b.config.typeCount)
  {
    if !b.initialized {
      return Step(b, Failure(NotInitialized));
    }
    var generated := FreshBoard(b.config);
    FreshCells(b.config, generated);
    return Step(b.(sprites := generated), Success(()));
  }

  /**
   * `SetMap`: a playable mask whose length is not width*height is refused and nothing
   * changes; otherwise the map is taken, the board generated, the dirty region and the
   * queued cells cleared, and every cell reported.
   */
  method SetMap(b: State, config: MapConfig) returns (r: Step<seq<Refresh>>)
    requires config.height >= 0 && config.width >= 0
    requires |config.data| == config.height * config.width && true in config.data ==> config.typeCount >= 1
    ensures |config.data| != config.height * config.width ==> r == Step(b, Failure(InvalidConfiguration))
    ensures |config.data| == config.height * config.width ==>
      && r.result.Success?
      && Valid(r.state) && r.state.initialized && r.state.config == config
      && r.state.scope == Init() && r.state.moved == {}
      && |r.state.sprites| == config.height * config.width
      && (forall c :: Inside(config, c) ==> (At(config, r.state.sprites, c) == Nothing <==> !Playable(config, c)))
      && (forall c :: Inside(config, c) && Playable(config, c) ==> 1 <= At(config, r.state.sprites, c) <= config.typeCount)
      && Success(r.result.value) == VisitMap(r.state)
  {
    if |config.data| != config.height * config.width {
      return Step(b, Failure(InvalidConfiguration));
    }
    var cleared := State(true, config, [], Init(), {});
    var regenerated := Regenerate(cleared);
    var events := VisitMap(regenerated.state);
    return Step(regenerated.state, events);
  }

  /** `VisitMap`: one report per cell, in row-major order, each carrying that cell's value. */
  function VisitMap(b: State): (r: Result<seq<Refresh>, Error>)
    requires Valid(b)
    ensures !b.initialized ==> r == Failure(NotInitialized)
    ensures b.initialized ==> r.Success? && |r.value| == b.config.height * b.config.width
    ensures b.initialized ==> forall k :: 0 <= k < |r.value| ==>
              Inside(b.config, r.value[k].index) && r.value[k].kind == At(b.config, b.sprites, r.value[k].index)
    ensures b.initialized ==> forall j, k :: 0 <= j < k < |r.value| ==> Less(r.value[j].index, r.value[k].index)
  {
    if !b.initialized then Failure(NotInitialized)
    else
      var cfg := b.config;
      var events := seq(|b.sprites|, k requires 0 <= k < |b.sprites| => Refresh(CellAt(cfg, k), b.sprites[k]));
      VisitMapFacts(cfg, b.sprites, events);
      Success(events)
  }

  /** The cell at offset k of a non-empty board. */
  function CellAt(cfg: MapConfig, k: int): (c: MapIndex)
    requires cfg.height >= 0 && cfg.width >= 0 && 0 <= k < cfg.height * cfg.width
    ensures Inside(cfg, c) && Flat(c, cfg.width) == k
  {
    CellOfFlat(k, cfg.height, cfg.width);
    CellOf(k, cfg.width)
  }

  lemma VisitMapFacts(cfg: MapConfig, s: seq<int>, events: seq<Refresh>)
    requires Shaped(cfg, s) && |events| == |s|
    requires forall k :: 0 <= k < |s| ==> events[k] == Refresh(CellAt(cfg, k), s[k])
    ensures forall k :: 0 <= k < |events| ==> Inside(cfg, events[k].index) && events[k].kind == At(cfg, s, events[k].index)
    ensures forall j, k :: 0 <= j < k < |events| ==> Less(events[j].index, events[k].index)
  {
    forall j, k | 0 <= j < k < |events|
      ensures Less(events[j].index, events[k].index)
    {
      FlatOrder(CellAt(cfg, j), CellAt(cfg, k), cfg.height, cfg.width);
    }
  }

  /** `IsValidSprite`: the cell is on the board and holds a tile. */
  function IsValidSprite(b: State, i: MapIndex): (r: Result<bool, Error>)
    requires Valid(b)
    ensures !b.initialized ==> r == Failure(NotInitialized)
    ensures b.initialized ==> r.Success? && (r.value <==> IsTile(b.config, b.sprites, i))
    ensures b.initialized && r == Success(true) ==> Playable(b.config, i) && At(b.config, b.sprites, i) <= b.config.typeCount
  {
    if !b.initialized then Failure(NotInitialized)
    else if i.col >= 0 && i.row >= 0 && i.col < b.config.width && i.row < b.config.height then
      var t := At(b.config, b.sprites, i);
      AtOk(b.config, b.sprites, i);
      Success(t != Nothing && t != NoElement)
    else Success(false)
  }

  /** The four cells sharing a side with a. */
  function Neighbours(a: MapIndex): set<MapIndex> {
    {MapIndex(a.row - 1, a.col), MapIndex(a.row + 1, a.col), MapIndex(a.row, a.col - 1), MapIndex(a.row, a.col + 1)}
  }

  function Abs(x: int): nat {
    if x < 0 then -x else x
  }

  /** `IsAdjacent`: the two cells share a side. The loops around the test do not affect it. */
  method IsAdjacent(a: MapIndex, b: MapIndex) returns (r: bool)
    ensures r <==> Abs(a.row - b.row) + Abs(a.col - b.col) == 1
    ensures r <==> b in Neighbours(a)
  {
    var row := a.row - 1;
    while row <= a.row + 1
      invariant a.row - 1 <= row <= a.row + 2
      invariant row > a.row - 1 ==> Abs(a.row - b.row) + Abs(a.col - b.col) != 1
    {
      var col := a.col - 1;
      while col <= a.col + 1
        invariant a.col - 1 <= col <= a.col + 2
        invariant col > a.col - 1 ==> Abs(a.row - b.row) + Abs(a.col - b.col) != 1
      {
        if Abs(a.row - b.row) + Abs(a.col - b.col) == 1 {
          return true;
        }
        col := col + 1;
      }
      row := row + 1;
    }
    return false;
  }

  /** Adjacency is symmetric. */
  lemma AdjacentSymmetric(a: MapIndex, b: MapIndex)
    ensures b in Neighbours(a) <==> a in Neighbours(b)
  {
  }

  /** No cell is adjacent to itself or to a diagonal neighbour. */
  lemma DiagonalNotAdjacent(a: MapIndex, dr: int, dc: int)
    requires (dr == 1 || dr == -1) && (dc == 1 || dc == -1)
    ensures MapIndex(a.row + dr, a.col + dc) !in Neighbours(a)
    ensures a !in Neighbours(a)
  {
  }

  /** `IsSameType`: both cells must hold tiles; the answer is whether the tiles are equal. */
  function IsSameType(b: State, x: MapIndex, y: MapIndex): (r: Result<bool, Error>)
    requires Valid(b)
    ensures !b.initialized ==> r == Failure(NotInitialized)
    ensures b.initialized && !(IsTile(b.config, b.sprites, x) && IsTile(b.config, b.sprites, y)) ==> r == Failure(InvalidIndex)
    ensures b.initialized && IsTile(b.config, b.sprites, x) && IsTile(b.config, b.sprites, y) ==>
              r == Success(At(b.config, b.sprites, x) == At(b.config, b.sprites, y))
  {
    if !b.initialized then Failure(NotInitialized)
    else if IsValidSprite(b, x) != Success(true) || IsValidSprite(b, y) != Success(true) then Failure(InvalidIndex)
    else Success(At(b.config, b.sprites, x) == At(b.config, b.sprites, y))
  }

  /**
   * `SwapSprite`: the dirty region is reset first; then both cells must hold tiles, and
   * their values are exchanged.
   */
  function SwapSprite(b: State, x: MapIndex, y: MapIndex): (r: Step<()>)
    requires Valid(b)
    ensures !b.initialized ==> r == Step(b, Failure(NotInitialized))
    ensures b.initialized ==> Valid(r.state) && r.state.scope == Init() && r.state == b.(scope := Init(), sprites := r.state.sprites)
    ensures b.initialized && !(IsTile(b.config, b.sprites, x) && IsTile(b.config, b.sprites, y)) ==>
              r.result == Failure(InvalidIndex) && r.state.sprites == b.sprites
    ensures b.initialized && IsTile(b.config, b.sprites, x) && IsTile(b.config, b.sprites, y) ==>
              && r.result.Success?
              && At(b.config, r.state.sprites, x) == At(b.config, b.sprites, y)
              && At(b.config, r.state.sprites, y) == At(b.config, b.sprites, x)
              && (forall d :: Inside(b.config, d) && d != x && d != y ==> At(b.config, r.state.sprites, d) == At(b.config, b.sprites, d))
  {
    if !b.initialized then Step(b, Failure(NotInitialized))
    else
      var reset := b.(scope := Init());
      if IsValidSprite(b, x) != Success(true) || IsValidSprite(b, y) != Success(true) then Step(reset, Failure(InvalidIndex))
      else
        ExchangeOk(b.config, b.sprites, x, y);
        Step(reset.(sprites := Exchange(b.config, b.sprites, x, y)), Success(()))
  }

  /** Swapping the same two tiles twice restores the board. */
  lemma SwapTwiceRestores(b: State, x: MapIndex, y: MapIndex)
    requires Valid(b) && b.initialized
    requires IsTile(b.config, b.sprites, x) && IsTile(b.config, b.sprites, y)
    ensures SwapSprite(SwapSprite(b, x, y).state, x, y).result.Success?
    ensures SwapSprite(SwapSprite(b, x, y).state, x, y).state.sprites == b.sprites
  {
    var cfg := b.config;
    var once := SwapSprite(b, x, y).state;
    var twice := SwapSprite(once, x, y).state;
    forall k | 0 <= k < |b.sprites|
      ensures twice.sprites[k] == b.sprites[k]
    {
      var c := CellAt(cfg, k);
      assert At(cfg, twice.sprites, c) == At(cfg, b.sprites, c);
    }
  }

  /**
   * What `DoEliminate` has done once it has visited every cell before `upto` in row-major
   * order: the cells of `cells` seen so far are empty, reported in order and inside the
   * dirty region.
   */
  ghost predicate Eliminating(cfg: MapConfig, orig: seq<int>, origScope: Scope, cells: set<MapIndex>, upto: MapIndex,
                              s: seq<int>, scope: Scope, events: seq<Eliminated>, seen: set<MapIndex>)
    requires Shaped(cfg, orig)
  {
    && Shaped(cfg, s)
    && (forall c :: c in seen <==> c in cells && Less(c, upto))
    && (forall c :: Inside(cfg, c) ==> At(cfg, s, c) == if c in seen then NoElement else At(cfg, orig, c))
    && |events| == |seen|
    && (forall k :: 0 <= k < |events| ==> events[k].index in seen && events[k].number == k + 1 && events[k].total == |cells|)
    && (forall j, k :: 0 <= j < k < |events| ==> Less(events[j].index, events[k].index))
    && (forall c :: c in seen ==> Contains(scope, c))
    && (forall c :: Contains(origScope, c) ==> Contains(scope, c))
    && Fits(scope, cfg.height, cfg.width)
    && (AllPlayable(cfg, cells) ==> CellsOk(cfg, s))
  }

  /** Every cell of the set is a playable cell of the board. */
  predicate AllPlayable(cfg: MapConfig, cells: set<MapIndex>)
    requires cfg.height >= 0 && cfg.width >= 0 && |cfg.data| == cfg.height * cfg.width
  {
    forall c :: c in cells ==> Inside(cfg, c) && Playable(cfg, c)
  }

  /** The body of `DoEliminate`'s loop for one cell. */
  method EliminateCell(cfg: MapConfig, orig: seq<int>, origScope: Scope, cells: set<MapIndex>, index: MapIndex,
                       s: seq<int>, scope: Scope, events: seq<Eliminated>, ghost seen: set<MapIndex>)
    returns (s': seq<int>, scope': Scope, events': seq<Eliminated>, ghost seen': set<MapIndex>)
    requires Shaped(cfg, orig) && CellsOk(cfg, orig) && Inside(cfg, index)
    requires Eliminating(cfg, orig, origScope, cells, index, s, scope, events, seen)
    ensures Eliminating(cfg, orig, origScope, cells, MapIndex(index.row, index.col + 1), s', scope', events', seen')
  {
    s', scope', events', seen' := s, scope, events, seen;
    var next := MapIndex(index.row, index.col + 1);
    assert forall c :: Less(c, next) <==> Less(c, index) || c == index;
    if index in cells {
      if AllPlayable(cfg, cells) {
        AtOk(cfg, s, index);
        PutOk(cfg, s, index, NoElement);
      }
      s' := Put(cfg, s, index, NoElement);
      scope' := Update(scope, index);
      events' := events + [Eliminated(index, |events| + 1, |cells|)];
      seen' := seen + {index};
      assert index !in seen;
      forall c | Inside(cfg, c)
        ensures At(cfg, s', c) == if c in seen' then NoElement else At(cfg, orig, c)
      {
      }
      forall j, k | 0 <= j < k < |events'|
        ensures Less(events'[j].index, events'[k].index)
      {
        if k == |events| {
          assert events'[j].index in seen;
        }
      }
    }
  }

  /** Having visited a whole row is having visited everything before the next row. */
  lemma EliminatingNextRow(cfg: MapConfig, orig: seq<int>, origScope: Scope, cells: set<MapIndex>, row: int,
                           s: seq<int>, scope: Scope, events: seq<Eliminated>, seen: set<MapIndex>)
    requires Shaped(cfg, orig) && forall c :: c in cells ==> Inside(cfg, c)
    requires Eliminating(cfg, orig, origScope, cells, MapIndex(row, cfg.width), s, scope, events, seen)
    ensures Eliminating(cfg, orig, origScope, cells, MapIndex(row + 1, 0), s, scope, events, seen)
  {
    assert forall c :: c in cells ==> (Less(c, MapIndex(row, cfg.width)) <==> Less(c, MapIndex(row + 1, 0)));
  }

  /**
   * `DoEliminate`: visits the cells in row-major order, empties each one, grows the dirty
   * region over it and reports it with its 1-based number and the total.
   */
  method DoEliminate(b: State, cells: set<MapIndex>) returns (r: Step<nat>, events: seq<Eliminated>)
    requires Valid(b)
    requires b.initialized ==> forall c :: c in cells ==> Inside(b.config, c)
    ensures !b.initialized ==> r == Step(b, Failure(NotInitialized)) && events == []
    ensures b.initialized ==>
      && r.result == Success(|cells|)
      && r.state == b.(sprites := r.state.sprites, scope := r.state.scope)
      && Shaped(b.config, r.state.sprites)
      && (forall c :: Inside(b.config, c) ==>
            At(b.config, r.state.sprites, c) == if c in cells then NoElement else At(b.config, b.sprites, c))
      && |events| == |cells|
      && (forall k :: 0 <= k < |events| ==> events[k].index in cells && events[k].number == k + 1 && events[k].total == |cells|)
      && (forall j, k :: 0 <= j < k < |events| ==> Less(events[j].index, events[k].index))
      && (forall c :: c in cells ==> Contains(r.state.scope, c))
      && (forall c :: Contains(b.scope, c) ==> Contains(r.state.scope, c))
      && (AllPlayable(b.config, cells) ==> Valid(r.state))
  {
    if !b.initialized {
      return Step(b, Failure(NotInitialized)), [];
    }
    var cfg := b.config;
    var s := b.sprites;
    var scope := b.scope;
    events := [];
    ghost var seen: set<MapIndex> := {};
    var row := 0;
    while row < cfg.height
      invariant 0 <= row <= cfg.height
      invariant Eliminating(cfg, b.sprites, b.scope, cells, MapIndex(row, 0), s, scope, events, seen)
    {
      var col := 0;
      while col < cfg.width
        invariant 0 <= col <= cfg.width
        invariant Eliminating(cfg, b.sprites, b.scope, cells, MapIndex(row, col), s, scope, events, seen)
      {
        s, scope, events, seen := EliminateCell(cfg, b.sprites, b.scope, cells, MapIndex(row, col), s, scope, events, seen);
        col := col + 1;
      }
      EliminatingNextRow(cfg, b.sprites, b.scope, cells, row, s, scope, events, seen);
      row := row + 1;
    }
    assert seen == cells;
    return Step(b.(sprites := s, scope := scope), Success(|events|)), events;
  }

  /** The first playable offset at or after `from`, if there is one. */
  function FirstPlayable(data: seq<bool>, from: nat): (r: Option<nat>)
    requires from <= |data|
    ensures r.Some? ==> from <= r.value < |data| && data[r.value] && forall k :: from <= k < r.value ==> !data[k]
    ensures r.None? ==> forall k :: from <= k < |data| ==> !data[k]
    decreases |data| - from
  {
    if from == |data| then None
    else if data[from] then Some(from)
    else FirstPlayable(data, from + 1)
  }

  /**
   * The spawn row: the row of the first playable cell in row-major order. It is the topmost
   * row that holds a playable cell, and there is none exactly when no cell is playable.
   */
  function FirstLine(cfg: MapConfig): (r: Option<int>)
    requires cfg.height >= 0 && cfg.width >= 0 && |cfg.data| == cfg.height * cfg.width
    ensures r.None? <==> forall c :: Inside(cfg, c) ==> !Playable(cfg, c)
    ensures r.Some? ==>
      && 0 <= r.value < cfg.height
      && (exists c :: Inside(cfg, c) && c.row == r.value && Playable(cfg, c))
      && (forall c :: Inside(cfg, c) && c.row < r.value ==> !Playable(cfg, c))
  {
    match FirstPlayable(cfg.data, 0)
    case None =>
      NothingPlayable(cfg);
      None
    case Some(k) =>
      NothingAbove(cfg, k);
      Some(CellAt(cfg, k).row)
  }

  /** With no playable offset, no cell is playable. */
  lemma NothingPlayable(cfg: MapConfig)
    requires cfg.height >= 0 && cfg.width >= 0 && |cfg.data| == cfg.height * cfg.width
    requires forall k :: 0 <= k < |cfg.data| ==> !cfg.data[k]
    ensures forall c :: Inside(cfg, c) ==> !Playable(cfg, c)
  {
    forall c | Inside(cfg, c)
      ensures !Playable(cfg, c)
    {
      FlatBounds(c, cfg.height, cfg.width);
    }
  }

  /** When k is the first playable offset, no cell in a row above k's row is playable. */
  lemma NothingAbove(cfg: MapConfig, k: int)
    requires cfg.height >= 0 && cfg.width >= 0 && |cfg.data| == cfg.height * cfg.width
    requires 0 <= k < |cfg.data| && cfg.data[k] && forall j :: 0 <= j < k ==> !cfg.data[j]
    ensures Playable(cfg, CellAt(cfg, k))
    ensures forall c :: Inside(cfg, c) && c.row < CellAt(cfg, k).row ==> !Playable(cfg, c)
  {
    var first := CellAt(cfg, k);
    forall c | Inside(cfg, c) && c.row < first.row
      ensures !Playable(cfg, c)
    {
      FlatBounds(c, cfg.height, cfg.width);
      FlatOrder(c, first, cfg.height, cfg.width);
    }
  }

  /**
   * What the spawn loop has done once it has visited the columns before `col` of the spawn
   * row `row`: each empty cell seen so far got a tile type and was reported, in column order.
   */
  ghost predicate Spawning(cfg: MapConfig, orig: seq<int>, row: int, col: int,
                           s: seq<int>, added: set<MapIndex>, refreshed: seq<Refresh>)
    requires Shaped(cfg, orig)
  {
    SpawnedCells(cfg, orig, row, col, s, added) && SpawnReport(cfg, s, added, refreshed) && s == Fill(cfg, orig, refreshed)
  }

  /** The board after writing each report's type into its cell, in report order. */
  function Fill(cfg: MapConfig, s: seq<int>, refreshed: seq<Refresh>): (s': seq<int>)
    requires Shaped(cfg, s)
    ensures Shaped(cfg, s')
    ensures forall c :: Inside(cfg, c) && (forall k :: 0 <= k < |refreshed| ==> refreshed[k].index != c) ==> At(cfg, s', c) == At(cfg, s, c)
    decreases |refreshed|
  {
    if refreshed == [] then s
    else
      var prev := Fill(cfg, s, refreshed[..|refreshed| - 1]);
      var last := refreshed[|refreshed| - 1];
      if Inside(cfg, last.index) then Put(cfg, prev, last.index, last.kind) else prev
  }

  /** The board half of `Spawning`: which cells were filled, and with what. */
  ghost predicate SpawnedCells(cfg: MapConfig, orig: seq<int>, row: int, col: int, s: seq<int>, added: set<MapIndex>)
    requires Shaped(cfg, orig)
  {
    && Shaped(cfg, s) && CellsOk(cfg, s)
    && (forall c :: c in added <==> Inside(cfg, c) && c.row == row && c.col < col && At(cfg, orig, c) == NoElement)
    && (forall c :: Inside(cfg, c) && c !in added ==> At(cfg, s, c) == At(cfg, orig, c))
    && (forall c :: c in added ==> Inside(cfg, c) && 1 <= At(cfg, s, c) <= cfg.typeCount)
    && multiset(s)[NoElement] + |added| == multiset(orig)[NoElement]
    && multiset(s)[Nothing] == multiset(orig)[Nothing]
  }

  /** The report half of `Spawning`: each filled cell reported once with its new type, in order. */
  ghost predicate SpawnReport(cfg: MapConfig, s: seq<int>, added: set<MapIndex>, refreshed: seq<Refresh>)
    requires Shaped(cfg, s)
  {
    && |refreshed| == |added|
    && (forall k :: 0 <= k < |refreshed| ==>
          refreshed[k].index in added && Inside(cfg, refreshed[k].index) && refreshed[k].kind == At(cfg, s, refreshed[k].index))
    && (forall c :: c in added ==> exists k :: 0 <= k < |refreshed| && refreshed[k].index == c)
    && (forall j, k :: 0 <= j < k < |refreshed| ==> Less(refreshed[j].index, refreshed[k].index))
  }

  /** Filling one empty cell of the spawn row with tile type t extends the board half. */
  lemma SpawnCellsOne(cfg: MapConfig, orig: seq<int>, row: int, col: int, s: seq<int>, added: set<MapIndex>, t: int)
    requires Shaped(cfg, orig) && 0 <= row < cfg.height && 0 <= col < cfg.width
    requires SpawnedCells(cfg, orig, row, col, s, added)
    requires At(cfg, s, MapIndex(row, col)) == NoElement && 1 <= t <= cfg.typeCount
    ensures SpawnedCells(cfg, orig, row, col + 1, Put(cfg, s, MapIndex(row, col), t), added + {MapIndex(row, col)})
  {
    var index := MapIndex(row, col);
    var s' := Put(cfg, s, index, t);
    var added' := added + {index};
    AtOk(cfg, s, index);
    PutOk(cfg, s, index, t);
    assert index !in added;
    assert At(cfg, orig, index) == NoElement;
    forall c
      ensures c in added' <==> Inside(cfg, c) && c.row == row && c.col < col + 1 && At(cfg, orig, c) == NoElement
    {
    }
    forall c | Inside(cfg, c) && c !in added'
      ensures At(cfg, s', c) == At(cfg, orig, c)
    {
    }
    FillCounts(cfg, s, index, t);
  }

  /** Filling an empty cell with a tile takes one empty cell off the count and leaves the holes alone. */
  lemma FillCounts(cfg: MapConfig, s: seq<int>, c: MapIndex, v: int)
    requires Shaped(cfg, s) && Inside(cfg, c) && At(cfg, s, c) == NoElement && v >= 1
    ensures multiset(Put(cfg, s, c, v))[NoElement] + 1 == multiset(s)[NoElement]
    ensures multiset(Put(cfg, s, c, v))[Nothing] == multiset(s)[Nothing]
  {
    FlatBounds(c, cfg.height, cfg.width);
    assert s[Flat(c, cfg.width)] in multiset(s);
  }

  /** Reporting the filled cell at the end extends the report half, since it lies after every earlier one. */
  lemma SpawnReportOne(cfg: MapConfig, row: int, col: int, s: seq<int>, added: set<MapIndex>, refreshed: seq<Refresh>, t: int)
    requires Shaped(cfg, s) && 0 <= row < cfg.height && 0 <= col < cfg.width
    requires forall c :: c in added ==> c.row == row && c.col < col
    requires SpawnReport(cfg, s, added, refreshed)
    ensures SpawnReport(cfg, Put(cfg, s, MapIndex(row, col), t), added + {MapIndex(row, col)}, refreshed + [Refresh(MapIndex(row, col), t)])
  {
    var index := MapIndex(row, col);
    assert index !in added;
    assert forall c :: c in added ==> Less(c, index);
    ReportCovers(added, refreshed, Refresh(index, t));
    ReportKinds(cfg, s, added, refreshed, Refresh(index, t));
    ReportOrder(added, refreshed, Refresh(index, t));
  }

  /** A new report entry covers its own cell; the earlier ones still cover theirs. */
  lemma ReportCovers(added: set<MapIndex>, refreshed: seq<Refresh>, e: Refresh)
    requires forall c :: c in added ==> exists k :: 0 <= k < |refreshed| && refreshed[k].index == c
    ensures forall c :: c in added + {e.index} ==> exists k :: 0 <= k < |refreshed + [e]| && (refreshed + [e])[k].index == c
  {
    var refreshed' := refreshed + [e];
    forall c | c in added + {e.index}
      ensures exists k :: 0 <= k < |refreshed'| && refreshed'[k].index == c
    {
      if c == e.index {
        assert refreshed'[|refreshed|].index == c;
      } else {
        var k :| 0 <= k < |refreshed| && refreshed[k].index == c;
        assert refreshed'[k].index == c;
      }
    }
  }

  /** Writing the new entry's type into a fresh cell keeps every reported type equal to the board's. */
  lemma ReportKinds(cfg: MapConfig, s: seq<int>, added: set<MapIndex>, refreshed: seq<Refresh>, e: Refresh)
    requires Shaped(cfg, s) && Inside(cfg, e.index) && e.index !in added
    requires forall k :: 0 <= k < |refreshed| ==>
               refreshed[k].index in added && Inside(cfg, refreshed[k].index) && refreshed[k].kind == At(cfg, s, refreshed[k].index)
    ensures forall k :: 0 <= k < |refreshed + [e]| ==>
              && (refreshed + [e])[k].index in added + {e.index} && Inside(cfg, (refreshed + [e])[k].index)
              && (refreshed + [e])[k].kind == At(cfg, Put(cfg, s, e.index, e.kind), (refreshed + [e])[k].index)
  {
    var refreshed' := refreshed + [e];
    forall k | 0 <= k < |refreshed'|
      ensures refreshed'[k].index in added + {e.index} && Inside(cfg, refreshed'[k].index)
      ensures refreshed'[k].kind == At(cfg, Put(cfg, s, e.index, e.kind), refreshed'[k].index)
    {
      if k < |refreshed| {
        assert refreshed'[k] == refreshed[k];
        assert refreshed[k].index != e.index;
      }
    }
  }

  /** An entry after every reported cell keeps the report in row-major order. */
  lemma ReportOrder(added: set<MapIndex>, refreshed: seq<Refresh>, e: Refresh)
    requires forall k :: 0 <= k < |refreshed| ==> refreshed[k].index in added
    requires forall c :: c in added ==> Less(c, e.index)
    requires forall j, k :: 0 <= j < k < |refreshed| ==> Less(refreshed[j].index, refreshed[k].index)
    ensures forall j, k :: 0 <= j < k < |refreshed + [e]| ==> Less((refreshed + [e])[j].index, (refreshed + [e])[k].index)
  {
    var refreshed' := refreshed + [e];
    forall j, k | 0 <= j < k < |refreshed'|
      ensures Less(refreshed'[j].index, refreshed'[k].index)
    {
      if k == |refreshed| {
        assert refreshed'[j].index in added;
      } else {
        assert refreshed'[j] == refreshed[j] && refreshed'[k] == refreshed[k];
      }
    }
  }

  /** The body of the spawn loop for one column: an empty cell gets a random tile type. */
  method SpawnCell(cfg: MapConfig, orig: seq<int>, row: int, col: int,
                   s: seq<int>, added: set<MapIndex>, refreshed: seq<Refresh>)
    returns (s': seq<int>, added': set<MapIndex>, refreshed': seq<Refresh>)
    requires Shaped(cfg, orig) && 0 <= row < cfg.height && 0 <= col < cfg.width
    requires true in cfg.data ==> cfg.typeCount >= 1
    requires Spawning(cfg, orig, row, col, s, added, refreshed)
    ensures Spawning(cfg, orig, row, col + 1, s', added', refreshed')
  {
    var index := MapIndex(row, col);
    s', added', refreshed' := s, added, refreshed;
    if At(cfg, s, index) == NoElement {
      AtOk(cfg, s, index);
      FlatBounds(index, cfg.height, cfg.width);
      assert cfg.data[Flat(index, cfg.width)];
      var t :| 1 <= t <= cfg.typeCount;
      SpawnCellsOne(cfg, orig, row, col, s, added, t);
      SpawnReportOne(cfg, row, col, s, added, refreshed, t);
      s' := Put(cfg, s, index, t);
      added' := added + {index};
      refreshed' := refreshed + [Refresh(index, t)];
      assert refreshed'[..|refreshed|] == refreshed;
    }
  }

  /**
   * `AddSpriteToFristLine`: in the first row that holds a playable cell, every empty cell
   * gets a random tile type and is reported; nothing else changes. Returns how many were filled.
   */
  method AddSpriteToFristLine(b: State) returns (r: Step<nat>, added: set<MapIndex>, refreshed: seq<Refresh>)
    requires Valid(b)
    ensures !b.initialized ==> r == Step(b, Failure(NotInitialized)) && added == {} && refreshed == []
    ensures b.initialized ==>
      && r.result == Success(|added|)
      && r.state == b.(sprites := r.state.sprites)
      && Valid(r.state)
      && (forall c :: c in added <==>
            Inside(b.config, c) && FirstLine(b.config) == Some(c.row) && At(b.config, b.sprites, c) == NoElement)
      && (forall c :: Inside(b.config, c) && c !in added ==> At(b.config, r.state.sprites, c) == At(b.config, b.sprites, c))
      && (forall c :: c in added ==> Inside(b.config, c) && 1 <= At(b.config, r.state.sprites, c) <= b.config.typeCount)
      && |refreshed| == |added|
      && (forall k :: 0 <= k < |refreshed| ==>
            refreshed[k].index in added && refreshed[k].kind == At(b.config, r.state.sprites, refreshed[k].index))
      && (forall c :: c in added ==> exists k :: 0 <= k < |refreshed| && refreshed[k].index == c)
      && (forall j, k :: 0 <= j < k < |refreshed| ==> Less(refreshed[j].index, refreshed[k].index))
      && multiset(r.state.sprites)[NoElement] + |added| == multiset(b.sprites)[NoElement]
      && multiset(r.state.sprites)[Nothing] == multiset(b.sprites)[Nothing]
    ensures b.initialized ==> r.state.sprites == Fill(b.config, b.sprites, refreshed)
  {
    if !b.initialized {
      return Step(b, Failure(NotInitialized)), {}, [];
    }
    var cfg := b.config;
    var first := FirstPlayable(cfg.data, 0);
    if first.None? {
      return Step(b, Success(0)), {}, [];
    }
    var row := CellAt(cfg, first.value).row;
    var s;
    s, added, refreshed := FillRow(cfg, b.sprites, row);
    return Step(b.(sprites := s), Success(|added|)), added, refreshed;
  }

  /** The spawn loop over one whole row. */
  method FillRow(cfg: MapConfig, orig: seq<int>, row: int) returns (s: seq<int>, added: set<MapIndex>, refreshed: seq<Refresh>)
    requires Shaped(cfg, orig) && 0 <= row < cfg.height
    requires CellsOk(cfg, orig) && (true in cfg.data ==> cfg.typeCount >= 1)
    ensures Spawning(cfg, orig, row, cfg.width, s, added, refreshed)
  {
    s, added, refreshed := orig, {}, [];
    var col := 0;
    while col < cfg.width
      invariant 0 <= col <= cfg.width
      invariant Spawning(cfg, orig, row, col, s, added, refreshed)
    {
      s, added, refreshed := SpawnCell(cfg, orig, row, col, s, added, refreshed);
      col := col + 1;
    }
  }
}
