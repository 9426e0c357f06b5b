/** The row-major board of cell values and the sentinels it uses (Backend.h). */
module Board {
  import opened Types

  /** A cell that is not part of the board (a hole). */
  const Nothing: int := -1

  /** A playable cell that currently holds no tile. */
  const NoElement: int := 0

  /** The two sentinels differ and lie below every tile type, which the `> NoElement` tile tests rely on. */
  lemma SentinelsBelowTiles(t: int)
    requires t >= 1
    ensures Nothing != NoElement
    ensures Nothing < NoElement < t
  {
  }

  /** The board and the playable mask both have one entry per cell. */
  predicate Shaped(cfg: MapConfig, s: seq<int>) {
    && cfg.height >= 0 && cfg.width >= 0
    && |cfg.data| == cfg.height * cfg.width
    && |s| == |cfg.data|
  }

  predicate Inside(cfg: MapConfig, c: MapIndex) {
    InRange(c, cfg.height, cfg.width)
  }

  function At(cfg: MapConfig, s: seq<int>, c: MapIndex): int
    requires Shaped(cfg, s) && Inside(cfg, c)
  {
    FlatBounds(c, cfg.height, cfg.width);
    s[Flat(c, cfg.width)]
  }

  function Playable(cfg: MapConfig, c: MapIndex): bool
    requires cfg.height >= 0 && cfg.width >= 0 && |cfg.data| == cfg.height * cfg.width
    requires Inside(cfg, c)
  {
    FlatBounds(c, cfg.height, cfg.width);
    cfg.data[Flat(c, cfg.width)]
  }

  /** Distinct in-range cells have distinct offsets. */
  lemma FlatInjective(cfg: MapConfig)
    ensures forall a, b :: Inside(cfg, a) && Inside(cfg, b) && Flat(a, cfg.width) == Flat(b, cfg.width) ==> a == b
  {
    forall a, b | Inside(cfg, a) && Inside(cfg, b) && Flat(a, cfg.width) == Flat(b, cfg.width)
      ensures a == b
    {
      FlatOrder(a, b, cfg.height, cfg.width);
    }
  }

  /** Writing one cell changes exactly that cell. */
  function Put(cfg: MapConfig, s: seq<int>, c: MapIndex, v: int): (s': seq<int>)
    requires Shaped(cfg, s) && Inside(cfg, c)
    ensures Shaped(cfg, s')
    ensures At(cfg, s', c) == v
    ensures forall d :: Inside(cfg, d) && d != c ==> At(cfg, s', d) == At(cfg, s, d)
    ensures multiset(s') == multiset(s) - multiset{At(cfg, s, c)} + multiset{v}
  {
    FlatBounds(c, cfg.height, cfg.width);
    PutFrame(cfg, s, c, v);
    s[Flat(c, cfg.width) := v]
  }

  lemma PutFrame(cfg: MapConfig, s: seq<int>, c: MapIndex, v: int)
    requires Shaped(cfg, s) && Inside(cfg, c)
    ensures 0 <= Flat(c, cfg.width) < |s|
    ensures forall d :: Inside(cfg, d) && d != c ==> At(cfg, s[Flat(c, cfg.width) := v], d) == At(cfg, s, d)
  {
    FlatBounds(c, cfg.height, cfg.width);
    forall d | Inside(cfg, d) && d != c
      ensures At(cfg, s[Flat(c, cfg.width) := v], d) == At(cfg, s, d)
    {
      FlatOrder(c, d, cfg.height, cfg.width);
      FlatBounds(d, cfg.height, cfg.width);
      var k, j := Flat(c, cfg.width), Flat(d, cfg.width);
      assert k != j;
      assert s[k := v][j] == s[j];
    }
  }

  /** Exchanging two cells changes nothing else and keeps the multiset of values. */
  function Exchange(cfg: MapConfig, s: seq<int>, a: MapIndex, b: MapIndex): (s': seq<int>)
    requires Shaped(cfg, s) && Inside(cfg, a) && Inside(cfg, b)
    ensures Shaped(cfg, s')
    ensures At(cfg, s', a) == At(cfg, s, b) && At(cfg, s', b) == At(cfg, s, a)
    ensures forall d :: Inside(cfg, d) && d != a && d != b ==> At(cfg, s', d) == At(cfg, s, d)
    ensures multiset(s') == multiset(s)
  {
    var va, vb := At(cfg, s, a), At(cfg, s, b);
    var s1 := Put(cfg, s, a, vb);
    Put(cfg, s1, b, va)
  }

  /**
   * The board invariant: holes hold Nothing and only holes do; a playable cell holds
   * NoElement or a tile type in [1, typeCount].
   */
  predicate CellsOk(cfg: MapConfig, s: seq<int>)
    requires Shaped(cfg, s)
  {
    forall k :: 0 <= k < |s| ==> (s[k] == Nothing <==> !cfg.data[k]) && (cfg.data[k] ==> NoElement <= s[k] <= cfg.typeCount)
  }

  /** The board invariant read at one cell. */
  lemma AtOk(cfg: MapConfig, s: seq<int>, c: MapIndex)
    requires Shaped(cfg, s) && CellsOk(cfg, s) && Inside(cfg, c)
    ensures At(cfg, s, c) == Nothing <==> !Playable(cfg, c)
    ensures Playable(cfg, c) ==> NoElement <= At(cfg, s, c) <= cfg.typeCount
  {
    FlatBounds(c, cfg.height, cfg.width);
  }

  /** Writing a value allowed at a playable cell keeps the board invariant. */
  lemma PutOk(cfg: MapConfig, s: seq<int>, c: MapIndex, v: int)
    requires Shaped(cfg, s) && CellsOk(cfg, s) && Inside(cfg, c) && Playable(cfg, c)
    requires NoElement <= v <= cfg.typeCount
    ensures CellsOk(cfg, Put(cfg, s, c, v))
  {
    FlatBounds(c, cfg.height, cfg.width);
  }

  /** Exchanging two playable cells keeps the board invariant. */
  lemma ExchangeOk(cfg: MapConfig, s: seq<int>, a: MapIndex, b: MapIndex)
    requires Shaped(cfg, s) && CellsOk(cfg, s) && Inside(cfg, a) && Inside(cfg, b)
    requires Playable(cfg, a) && Playable(cfg, b)
    ensures CellsOk(cfg, Exchange(cfg, s, a, b))
  {
    AtOk(cfg, s, a);
    AtOk(cfg, s, b);
    var s1 := Put(cfg, s, a, At(cfg, s, b));
    PutOk(cfg, s, a, At(cfg, s, b));
    PutOk(cfg, s1, b, At(cfg, s, a));
  }

  /** A row of the board, left to right. */
  function Row(cfg: MapConfig, s: seq<int>, r: int): (line: seq<int>)
    requires Shaped(cfg, s) && 0 <= r < cfg.height
    ensures |line| == cfg.width
    ensures forall c :: 0 <= c < cfg.width ==> line[c] == At(cfg, s, MapIndex(r, c))
  {
    seq(cfg.width, c requires 0 <= c < cfg.width => At(cfg, s, MapIndex(r, c)))
  }

  /** A column of the board, top to bottom. */
  function Column(cfg: MapConfig, s: seq<int>, c: int): (line: seq<int>)
    requires Shaped(cfg, s) && 0 <= c < cfg.width
    ensures |line| == cfg.height
    ensures forall r :: 0 <= r < cfg.height ==> line[r] == At(cfg, s, MapIndex(r, c))
  {
    seq(cfg.height, r requires 0 <= r < cfg.height => At(cfg, s, MapIndex(r, c)))
  }

  /** Taking one cell off a work list adds it to the cells done. */
  lemma TakeOne(all: set<MapIndex>, todo: set<MapIndex>, x: MapIndex)
    requires todo <= all && x in todo
    ensures (all - todo) + {x} == all - (todo - {x})
  {
  }

  /** Every cell of a height x width board. */
  function Cells(height: int, width: int): set<MapIndex> {
    set r: int, c: int | 0 <= r < height && 0 <= c < width :: MapIndex(r, c)
  }
}
