/**
 * The environment, `Minesweeper`, over a given board.  A board is a list of
 * rows; a cell `(i, j)` is row `i`, column `j`, so here the first coordinate
 * is bounded by the height and the second by the width.
 */
module Game {
  import opened Cells

  /** The cells of `board` that hold a mine. */
  function MineCells(board: seq<seq<bool>>): set<Cell>
  {
    set i, j | 0 <= i < |board| && 0 <= j < |board[i]| && board[i][j] :: (i, j)
  }

  class Minesweeper {
    const height: int
    const width: int
    const board: seq<seq<bool>>
    const mines: set<Cell>

    /** `height` rows of `width` cells, and `mines` lists exactly the mined ones. */
    ghost predicate Valid()
    {
      && |board| == height
      && (forall i :: 0 <= i < |board| ==> |board[i]| == width)
      && mines == MineCells(board)
    }

    /** A game on a given board, in place of the random placement. */
    constructor FromBoard(height: int, width: int, board: seq<seq<bool>>)
      requires |board| == height && forall i :: 0 <= i < |board| ==> |board[i]| == width
      ensures Valid()
      ensures this.height == height && this.width == width && this.board == board
    {
      this.height := height;
      this.width := width;
      this.board := board;
      this.mines := MineCells(board);
    }

    /** Whether the cell on the board holds a mine. */
    function IsMine(cell: Cell): (r: bool)
      requires Valid() && 0 <= cell.0 < height && 0 <= cell.1 < width
      ensures r <==> cell in mines
    {
      var (i, j) := cell;
      assert board[i][j] ==> (i, j) in MineCells(board);
      board[i][j]
    }

    /** The mines among the first rows and columns visited by `NearbyMines`. */
    ghost function Counted(cell: Cell, i: int, j: int): set<Cell>
      requires Valid()
    {
      set x, y | cell.0 - 1 <= x <= cell.0 + 1 && cell.1 - 1 <= y <= cell.1 + 1
                 && (x < i || (x == i && y < j))
                 && (x, y) != cell && 0 <= x < height && 0 <= y < width && board[x][y] :: (x, y)
    }

    /**
     * The number of mines within one row and one column of `cell`, the cell
     * itself excluded: the mines of its neighbourhood, at most eight.
     */
    method NearbyMines(cell: Cell) returns (count: int)
      requires Valid()
      ensures count == |Neighbors(cell, height, width) * mines|
      ensures 0 <= count <= 8
    {
      count := 0;
      var i := cell.0 - 1;
      while i < cell.0 + 2
        invariant cell.0 - 1 <= i <= cell.0 + 2
        invariant count == |Counted(cell, i, cell.1 - 1)|
      {
        var j := cell.1 - 1;
        while j < cell.1 + 2
          invariant cell.1 - 1 <= j <= cell.1 + 2
          invariant count == |Counted(cell, i, j)|
        {
          CountedStep(cell, i, j);
          if (i, j) != cell && 0 <= i < height && 0 <= j < width && board[i][j] {
            count := count + 1;
          }
          j := j + 1;
        }
        CountedRow(cell, i);
        i := i + 1;
      }
      NearbyIsNeighbourMines(cell);
      NeighborsBounded(cell, height, width);
      SubsetCard(Neighbors(cell, height, width) * mines, Neighbors(cell, height, width));
    }

    lemma CountedStep(cell: Cell, i: int, j: int)
      requires Valid() && cell.0 - 1 <= i <= cell.0 + 1 && cell.1 - 1 <= j <= cell.1 + 1
      ensures (i, j) !in Counted(cell, i, j)
      ensures Counted(cell, i, j + 1) ==
        if (i, j) != cell && 0 <= i < height && 0 <= j < width && board[i][j]
        then Counted(cell, i, j) + {(i, j)} else Counted(cell, i, j)
    {
    }

    lemma CountedRow(cell: Cell, i: int)
      requires Valid()
      ensures Counted(cell, i + 1, cell.1 - 1) == Counted(cell, i, cell.1 + 2)
    {
    }

    lemma NearbyIsNeighbourMines(cell: Cell)
      requires Valid()
      ensures Counted(cell, cell.0 + 2, cell.1 - 1) == Neighbors(cell, height, width) * mines
    {
      forall c | c in Neighbors(cell, height, width) * mines
        ensures c in Counted(cell, cell.0 + 2, cell.1 - 1)
      {
        NeighborsMembership(cell, height, width, c);
        var (x, y) := c;
        assert board[x][y];
      }
    }
  }

  /**
   * On a board of one row and two columns the two neighbourhoods of the
   * corner differ: the agent looks at a cell off the board.
   */
  lemma NonSquareBoardDisagrees()
    ensures Neighbors((0, 0), 1, 2) == {(0, 1)}
    ensures Neighbors((0, 0), 2, 1) == {(1, 0)}
  {
    assert (0, 1) in Neighbors((0, 0), 1, 2);
    assert (1, 0) in Neighbors((0, 0), 2, 1);
  }
}
