/**
 * `CalculateShortest`: the shortest path length from the entry row to a cell. The path
 * search itself is a parameter: `search(start, end)` is the length of the path it finds
 * from `start` to `end`, and 0 when it finds none.
 */
module Shortest {
  import opened Types

  /** The path search the engine calls; only the length of its result is used. */
  type Search = (MapIndex, MapIndex) -> nat

  /** The entry cells are the playable cells of row 0; a search from one counts when it finds a path. */
  predicate Candidate(cfg: MapConfig, search: Search, target: MapIndex, col: int)
    requires 0 <= col < cfg.width <= |cfg.data|
  {
    cfg.data[col] && search(MapIndex(0, col), target) > 0
  }

  /**
   * The smallest positive path length from the entry cells at column `col` or later to
   * `target`, or -1 (the all-ones sentinel) when no entry cell reaches it.
   */
  function ShortestFrom(cfg: MapConfig, search: Search, target: MapIndex, col: nat): (r: int)
    requires col <= cfg.width <= |cfg.data|
    ensures r == -1 <==> forall c :: col <= c < cfg.width ==> !Candidate(cfg, search, target, c)
    ensures r != -1 ==> r > 0 && exists c :: col <= c < cfg.width && Candidate(cfg, search, target, c) && search(MapIndex(0, c), target) == r
    ensures forall c :: col <= c < cfg.width && Candidate(cfg, search, target, c) ==> 0 < r <= search(MapIndex(0, c), target)
    decreases cfg.width - col
  {
    if col == cfg.width then -1
    else
      var rest := ShortestFrom(cfg, search, target, col + 1);
      var here := if cfg.data[col] then search(MapIndex(0, col), target) else 0;
      assert here > 0 <==> Candidate(cfg, search, target, col);
      if here > 0 && (rest == -1 || here <= rest) then here else rest
  }

  /** `CalculateShortest`: the minimum over every entry cell, which the min-heap's top gives. */
  function CalculateShortest(cfg: MapConfig, search: Search, target: MapIndex): (r: int)
    requires 0 <= cfg.width <= |cfg.data|
    ensures r == -1 <==> forall c :: 0 <= c < cfg.width ==> !Candidate(cfg, search, target, c)
    ensures r != -1 ==> exists c :: 0 <= c < cfg.width && Candidate(cfg, search, target, c) && search(MapIndex(0, c), target) == r
    ensures forall c :: 0 <= c < cfg.width && Candidate(cfg, search, target, c) ==> 0 < r <= search(MapIndex(0, c), target)
  {
    ShortestFrom(cfg, search, target, 0)
  }

  /**
   * The sentinel is smaller than every real distance: an unreachable cell compares as
   * closest, so it wins every `<=` tie-break against a reachable one.
   */
  lemma UnreachableComparesClosest(cfg: MapConfig, search: Search, a: MapIndex, b: MapIndex)
    requires 0 <= cfg.width <= |cfg.data|
    requires forall c :: 0 <= c < cfg.width ==> !Candidate(cfg, search, a, c)
    ensures CalculateShortest(cfg, search, a) <= CalculateShortest(cfg, search, b)
  {
  }
}
