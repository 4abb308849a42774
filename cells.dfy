/**
 * Board cells and the 8-neighbourhood the agent reasons about.
 *
 * A cell is the pair `(x, y)` the agent passes around.  The agent bounds the
 * first coordinate by the board width and the second by the board height.
 */
module Cells {

  type Cell = (int, int)

  /** The eight offsets, in the order the agent enumerates them. */
  const Dirs: seq<(int, int)> :=
    [(0, 1), (0, -1), (1, 0), (-1, 0), (1, 1), (1, -1), (-1, 1), (-1, -1)]

  /** `a` and `b` are distinct and differ by at most one in each coordinate. */
  predicate Adjacent(a: Cell, b: Cell)
  {
    a != b && -1 <= a.0 - b.0 <= 1 && -1 <= a.1 - b.1 <= 1
  }

  /** The bounds test of the agent: `x` against `width`, `y` against `height`. */
  predicate InBounds(c: Cell, width: int, height: int)
  {
    0 <= c.0 < width && 0 <= c.1 < height
  }

  /** Reference definition of the clipped 8-neighbourhood of `cell`. */
  function Neighbors(cell: Cell, width: int, height: int): set<Cell>
  {
    set x, y | cell.0 - 1 <= x <= cell.0 + 1 && cell.1 - 1 <= y <= cell.1 + 1
                && (x, y) != cell && 0 <= x < width && 0 <= y < height :: (x, y)
  }

  /** `cell` moved by the offset `d`. */
  function Shift(cell: Cell, d: (int, int)): Cell
  {
    (cell.0 + d.0, cell.1 + d.1)
  }

  /** The cells reached from `cell` by the first `k` offsets of `Dirs` that stay in bounds. */
  function ClippedShifts(cell: Cell, width: int, height: int, k: nat): set<Cell>
    requires k <= |Dirs|
  {
    set j | 0 <= j < k && InBounds(Shift(cell, Dirs[j]), width, height) :: Shift(cell, Dirs[j])
  }

  /** The index in `Dirs` of a non-zero offset within one step. */
  lemma DirIndex(dx: int, dy: int) returns (j: nat)
    requires -1 <= dx <= 1 && -1 <= dy <= 1 && (dx, dy) != (0, 0)
    ensures j < |Dirs| && Dirs[j] == (dx, dy)
  {
    j := if dx == 0 then (if dy == 1 then 0 else 1)
         else if dy == 0 then (if dx == 1 then 2 else 3)
         else if dx == 1 then (if dy == 1 then 4 else 5)
         else (if dy == 1 then 6 else 7);
  }

  /** Membership in the neighbourhood, stated cell by cell. */
  lemma NeighborsMembership(cell: Cell, width: int, height: int, c: Cell)
    ensures c in Neighbors(cell, width, height) <==> Adjacent(c, cell) && InBounds(c, width, height)
  {
    if Adjacent(c, cell) && InBounds(c, width, height) {
      var (x, y) := c;
      assert (x, y) in Neighbors(cell, width, height);
    }
  }

  /** Walking the eight offsets of `Dirs` and clipping gives exactly the neighbourhood. */
  lemma NeighborsByDirs(cell: Cell, width: int, height: int)
    ensures Neighbors(cell, width, height) == ClippedShifts(cell, width, height, |Dirs|)
  {
    var nb := Neighbors(cell, width, height);
    var cs := ClippedShifts(cell, width, height, |Dirs|);
    forall c | c in nb ensures c in cs {
      NeighborsMembership(cell, width, height, c);
      var j := DirIndex(c.0 - cell.0, c.1 - cell.1);
      assert Shift(cell, Dirs[j]) == c;
    }
    forall c | c in cs ensures c in nb {
      var j :| 0 <= j < |Dirs| && InBounds(Shift(cell, Dirs[j]), width, height) && Shift(cell, Dirs[j]) == c;
      NeighborsMembership(cell, width, height, c);
    }
  }

  /** Each offset adds at most one cell. */
  lemma {:induction false} ClippedShiftsCard(cell: Cell, width: int, height: int, k: nat)
    requires k <= |Dirs|
    ensures |ClippedShifts(cell, width, height, k)| <= k
  {
    if k > 0 {
      ClippedShiftsCard(cell, width, height, k - 1);
      var prev := ClippedShifts(cell, width, height, k - 1);
      var d := Shift(cell, Dirs[k - 1]);
      assert ClippedShifts(cell, width, height, k) <= prev + {d};
      SubsetCard(ClippedShifts(cell, width, height, k), prev + {d});
    }
  }

  /**
   * Every neighbour lies on the board, is adjacent to `cell` (so is never
   * `cell` itself), and there are at most eight of them.
   */
  lemma NeighborsBounded(cell: Cell, width: int, height: int)
    ensures forall c :: c in Neighbors(cell, width, height) ==> InBounds(c, width, height) && Adjacent(c, cell)
    ensures cell !in Neighbors(cell, width, height)
    ensures |Neighbors(cell, width, height)| <= 8
  {
    forall c | c in Neighbors(cell, width, height)
      ensures InBounds(c, width, height) && Adjacent(c, cell)
    {
      NeighborsMembership(cell, width, height, c);
    }
    NeighborsByDirs(cell, width, height);
    ClippedShiftsCard(cell, width, height, |Dirs|);
  }

  /** A subset is no larger than its superset. */
  lemma SubsetCard<T>(a: set<T>, b: set<T>)
    requires a <= b
    ensures |a| <= |b|
  {
    assert b == a + (b - a);
  }
}
