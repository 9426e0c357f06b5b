/** Cell coordinates, the map configuration and the row-major order of cells (Types.h). */
module Types {

  /** Coordinate component that marks "no cell selected". */
  const InvalidIndex: int := -1

  /** A cell coordinate. */
  datatype MapIndex = MapIndex(row: int, col: int)

  /** The coordinate a default-constructed index holds. */
  const DefaultIndex: MapIndex := MapIndex(0, 0)

  /** Dimensions, number of tile types and the row-major playable mask of a map. */
  datatype MapConfig = MapConfig(height: int, width: int, typeCount: int, data: seq<bool>)

  /** Row-major strict order: lower row first, then lower column. */
  predicate Less(a: MapIndex, b: MapIndex) {
    if a.row < b.row then true else if a.row == b.row then a.col < b.col else false
  }

  predicate InRange(c: MapIndex, height: int, width: int) {
    0 <= c.row < height && 0 <= c.col < width
  }

  /** Row-major offset of a cell. */
  function Flat(c: MapIndex, width: int): int {
    c.row * width + c.col
  }

  /** The cell at a row-major offset. */
  function CellOf(k: int, width: int): MapIndex
    requires width > 0
  {
    MapIndex(k / width, k % width)
  }

  lemma LessIrreflexive(a: MapIndex)
    ensures !Less(a, a)
  {
  }

  lemma LessTransitive(a: MapIndex, b: MapIndex, c: MapIndex)
    ensures Less(a, b) && Less(b, c) ==> Less(a, c)
  {
  }

  /** Two distinct indices are ordered exactly one way round. */
  lemma LessTotal(a: MapIndex, b: MapIndex)
    ensures a != b ==> (Less(a, b) <==> !Less(b, a))
    ensures Less(a, b) ==> a != b
  {
  }

  /** The sentinel never names a cell of any board, while the default index names the top-left one. */
  lemma SentinelIndices(height: int, width: int)
    ensures forall c: int :: !InRange(MapIndex(InvalidIndex, c), height, width)
    ensures forall r: int :: !InRange(MapIndex(r, InvalidIndex), height, width)
    ensures height > 0 && width > 0 ==> InRange(DefaultIndex, height, width)
  {
  }

  lemma MulLeq(a: int, b: int, w: int)
    requires a <= b && w >= 0
    ensures a * w <= b * w
  {
    assert b * w - a * w == (b - a) * w;
  }

  /** An in-range cell has an offset inside the board. */
  lemma FlatBounds(c: MapIndex, height: int, width: int)
    requires InRange(c, height, width)
    ensures 0 <= Flat(c, width) < height * width
  {
    MulLeq(0, c.row, width);
    MulLeq(c.row + 1, height, width);
    assert (c.row + 1) * width == c.row * width + width;
  }

  /** For in-range cells the row-major order is the order of the offsets. */
  lemma FlatOrder(a: MapIndex, b: MapIndex, height: int, width: int)
    requires InRange(a, height, width) && InRange(b, height, width)
    ensures Less(a, b) <==> Flat(a, width) < Flat(b, width)
    ensures a == b <==> Flat(a, width) == Flat(b, width)
  {
    if a.row < b.row {
      MulLeq(a.row + 1, b.row, width);
      assert (a.row + 1) * width == a.row * width + width;
    } else if b.row < a.row {
      MulLeq(b.row + 1, a.row, width);
      assert (b.row + 1) * width == b.row * width + width;
    }
  }

  /** Offsets and in-range cells are in one-to-one correspondence. */
  lemma CellOfFlat(k: int, height: int, width: int)
    requires width > 0 && 0 <= k < height * width
    ensures InRange(CellOf(k, width), height, width)
    ensures Flat(CellOf(k, width), width) == k
  {
    var q, r := k / width, k % width;
    assert k == q * width + r;
    if q >= height {
      MulLeq(height, q, width);
    }
    if q < 0 {
      MulLeq(q, -1, width);
    }
  }

  lemma FlatCellOf(c: MapIndex, height: int, width: int)
    requires InRange(c, height, width)
    ensures CellOf(Flat(c, width), width) == c
  {
    FlatBounds(c, height, width);
    CellOfFlat(Flat(c, width), height, width);
    FlatOrder(c, CellOf(Flat(c, width), width), height, width);
  }
}
