/** The dirty-region bounding box (`Backend::Scope`) and its widening by one ring. */
module Scopes {
  import opened Types

  datatype Scope = Scope(minRow: int, minCol: int, maxRow: int, maxCol: int)

  /** The reset value: all four bounds at -1, which the box reads as "nothing tracked". */
  function Init(): Scope {
    Scope(-1, -1, -1, -1)
  }

  predicate IsEmpty(s: Scope) {
    s == Init()
  }

  predicate Contains(s: Scope, c: MapIndex) {
    !IsEmpty(s) && s.minRow <= c.row <= s.maxRow && s.minCol <= c.col <= s.maxCol
  }

  /** The box is the reset value or a non-empty rectangle of a height x width board. */
  predicate Fits(s: Scope, height: int, width: int) {
    IsEmpty(s) || (0 <= s.minRow <= s.maxRow < height && 0 <= s.minCol <= s.maxCol < width)
  }

  /** A reset box tracks no cell at all. */
  lemma InitTracksNothing(c: MapIndex, height: int, width: int)
    ensures !Contains(Init(), c)
    ensures Fits(Init(), height, width)
    ensures Init().minRow == -1 && Init().minCol == -1 && Init().maxRow == -1 && Init().maxCol == -1
  {
  }

  /** One lower bound of `update`: -1 means unset, otherwise keep the smaller value. */
  function Lower(bound: int, v: int): int {
    if bound == -1 then v else if v < bound then v else bound
  }

  /** One upper bound of `update`: -1 means unset, otherwise keep the larger value. */
  function Upper(bound: int, v: int): int {
    if bound == -1 then v else if v > bound then v else bound
  }

  /** Grows the box so that it covers `i`. */
  function Update(s: Scope, i: MapIndex): (r: Scope)
    ensures r.minRow <= i.row <= r.maxRow && r.minCol <= i.col <= r.maxCol
    ensures i.row >= 0 && i.col >= 0 ==> Contains(r, i)
    ensures forall height, width :: Fits(s, height, width) && InRange(i, height, width) ==> Fits(r, height, width)
    ensures i.row >= 0 && i.col >= 0 && (IsEmpty(s) || (0 <= s.minRow && 0 <= s.minCol)) ==>
              forall c :: Contains(s, c) ==> Contains(r, c)
  {
    Scope(Lower(s.minRow, i.row), Lower(s.minCol, i.col), Upper(s.maxRow, i.row), Upper(s.maxCol, i.col))
  }

  /** The first update after a reset gives the one-cell box of that cell. */
  lemma UpdateAfterInit(i: MapIndex)
    ensures Update(Init(), i) == Scope(i.row, i.col, i.row, i.col)
  {
  }

  /** Updating twice with the same cell is the same as updating once. */
  lemma UpdateIdempotent(s: Scope, i: MapIndex)
    ensures Update(Update(s, i), i) == Update(s, i)
  {
  }

  /** One ring around the box, whether or not it lies on the board. */
  predicate Near(s: Scope, c: MapIndex) {
    s.minRow - 1 <= c.row <= s.maxRow + 1 && s.minCol - 1 <= c.col <= s.maxCol + 1
  }

  /** The widening step of the fall pass: each side moves out by one unless it is on the board's edge. */
  function Widen(s: Scope, height: int, width: int): (r: Scope)
    requires Fits(s, height, width) && !IsEmpty(s)
    ensures Fits(r, height, width) && !IsEmpty(r)
    ensures forall c :: Contains(r, c) <==> InRange(c, height, width) && Near(s, c)
  {
    Scope(if s.minRow > 0 then s.minRow - 1 else s.minRow,
          if s.minCol > 0 then s.minCol - 1 else s.minCol,
          if s.maxRow < height - 1 then s.maxRow + 1 else s.maxRow,
          if s.maxCol < width - 1 then s.maxCol + 1 else s.maxCol)
  }
}
