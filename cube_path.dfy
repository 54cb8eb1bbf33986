/** The fixed loop an atom walks: the twelve LEDs on the rim of the top
    face (z = 3) of a 4x4x4 cube, in order left -> rear -> right -> front. */
module CubePath {

  /** An LED coordinate (x, y, z), each in 0..3 on the cube. */
  type Position = (int, int, int)

  /** Number of cells on the loop; indices wrap modulo this. */
  const Length: nat := 12

  /** The path table, cell by cell. */
  const Path: seq<Position> := [
    (0, 0, 3), (0, 1, 3), (0, 2, 3), (0, 3, 3),  // left towards rear
    (1, 3, 3), (2, 3, 3), (3, 3, 3),             // rear towards right
    (3, 2, 3), (3, 1, 3), (3, 0, 3),             // right towards front
    (2, 0, 3), (1, 0, 3)
  ]

  predicate IsIndex(i: int) {
    0 <= i < Length
  }

  /** A cell on the border of the 4x4 top face. */
  predicate OnRim(p: Position) {
    0 <= p.0 <= 3 && 0 <= p.1 <= 3 && p.2 == 3 &&
    (p.0 == 0 || p.0 == 3 || p.1 == 0 || p.1 == 3)
  }

  function Dist(a: int, b: int): nat {
    if a <= b then b - a else a - b
  }

  /** Two cells that differ by 1 in exactly one coordinate. */
  predicate Neighbours(p: Position, q: Position) {
    Dist(p.0, q.0) + Dist(p.1, q.1) + Dist(p.2, q.2) == 1
  }

  /** The cell stored at index i of the table. */
  function Cell(i: int): (p: Position)
    requires IsIndex(i)
    ensures OnRim(p)
    ensures p in Path
  {
    Path[i]
  }

  /** Consecutive cells are neighbours, including the closing step 11 -> 0,
      so the table describes a closed walk along the edge. */
  lemma PathIsClosedWalk()
    ensures |Path| == Length
    ensures forall i :: IsIndex(i) ==> Neighbours(Cell(i), Cell((i + 1) % Length))
  {
  }

  /** No cell is visited twice within one loop. */
  lemma PathIsSimple()
    ensures forall i, j :: IsIndex(i) && IsIndex(j) && i != j ==> Cell(i) != Cell(j)
  {
  }

  /** Every cell of the rim lies on the path: the loop covers the whole edge. */
  lemma PathCoversRim(p: Position)
    requires OnRim(p)
    ensures exists i :: IsIndex(i) && Cell(i) == p
  {
    var (x, y, _) := p;
    var i :=
      if x == 0 then y
      else if y == 3 then 3 + x
      else if x == 3 then 9 - y
      else 12 - x;
    assert Cell(i) == p;
  }
}
