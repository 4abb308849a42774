/**
 * The agent playing against the environment: each played cell is reported
 * with the count `Minesweeper.nearby_mines` gives for it.
 */
module Play {
  import opened Cells
  import opened Sentences
  import opened Knowledge
  import opened Soundness
  import opened Game

  /** A fresh agent knows nothing, so everything it knows is true of any board. */
  lemma InitiallyConsistent(board: set<Cell>)
    ensures Consistent(KB({}, {}, {}, []), board)
  {
  }

  /**
   * Plays `moves` in order from `kb`, each with the number of mines around it
   * on `game`; stops at the first observation that does not end `Ok`.  The
   * player's neighbourhood bounds the first coordinate of a cell by `xBound`
   * and the second by `yBound`.  A player built with the game's sizes, as
   * written, uses `(game.width, game.height)`; one that bounds coordinates
   * the way the game does uses `(game.height, game.width)`.
   */
  ghost function Replay(kb: KB, moves: seq<Cell>, game: Minesweeper, xBound: int, yBound: int): (Status, KB)
    requires game.Valid()
    decreases |moves|
  {
    if moves == [] then (Ok, kb)
    else
      var count := |Neighbors(moves[0], game.height, game.width) * game.mines|;
      var (status, kb') := Observe(kb, moves[0], count, xBound, yBound);
      if status != Ok then (status, kb') else Replay(kb', moves[1..], game, xBound, yBound)
  }

  /**
   * When the player bounds coordinates the way the game does, playing cells
   * that hold no mine, each reported with its true count, keeps everything
   * the player knows true of the board and never stops on a contradiction;
   * when no cell is played twice, every observation succeeds.  This holds on
   * boards of any shape.
   */
  lemma {:induction false} ReplaySound(kb: KB, moves: seq<Cell>, game: Minesweeper, xBound: int, yBound: int)
    requires game.Valid() && xBound == game.height && yBound == game.width
    requires Consistent(kb, game.mines)
    requires forall i :: 0 <= i < |moves| ==> moves[i] !in game.mines
    ensures var (status, kb') := Replay(kb, moves, game, xBound, yBound);
      (status == Ok || status == DuplicateMove) && Consistent(kb', game.mines)
    ensures (forall i :: 0 <= i < |moves| ==> moves[i] !in kb.movesMade) &&
            (forall i, j :: 0 <= i < j < |moves| ==> moves[i] != moves[j])
            ==> Replay(kb, moves, game, xBound, yBound).0 == Ok
    decreases |moves|
  {
    if moves != [] {
      var cell := moves[0];
      var count := |Neighbors(cell, game.height, game.width) * game.mines|;
      ObserveSound(kb, cell, count, xBound, yBound, game.mines);
      var (status, kb') := Observe(kb, cell, count, xBound, yBound);
      if status == Ok {
        ReplaySound(kb', moves[1..], game, xBound, yBound);
        if cell !in kb.movesMade {
          ObserveRecordsMove(kb, cell, count, xBound, yBound);
          assert kb'.movesMade == kb.movesMade + {cell};
        }
      } else if cell !in kb.movesMade {
        ObserveRecordsMove(kb, cell, count, xBound, yBound);
      }
    }
  }

  /**
   * The player as written, on a square board: there its bounds coincide
   * with the game's, so its play is sound.
   */
  lemma SquareReplaySound(kb: KB, moves: seq<Cell>, game: Minesweeper)
    requires game.Valid() && game.height == game.width
    requires Consistent(kb, game.mines)
    requires forall i :: 0 <= i < |moves| ==> moves[i] !in game.mines
    ensures var (status, kb') := Replay(kb, moves, game, game.width, game.height);
      (status == Ok || status == DuplicateMove) && Consistent(kb', game.mines)
  {
    ReplaySound(kb, moves, game, game.width, game.height);
  }

  /**
   * The player as written, on a board of one row and two columns with a mine
   * in the second column: the game reports one mine around the corner, the
   * player takes the cell below the corner, which is off the board, as its
   * only neighbour, and records a sentence that is false of the board.
   */
  lemma NonSquareReplayUnsound(game: Minesweeper)
    requires game.Valid() && game.board == [[false, true]]
    ensures var (status, kb') := Replay(KB({}, {}, {}, []), [(0, 0)], game, game.width, game.height);
      && game.mines == {(0, 1)}
      && status == Ok
      && kb'.knowledge == [Sentence({(1, 0)}, 1)]
      && !Consistent(kb', game.mines)
  {
    assert |game.board[0]| == 2;
    assert game.height == 1 && game.width == 2;
    assert (0, 1) in MineCells(game.board);
    assert game.mines == {(0, 1)};
    NonSquareBoardDisagrees();
    var kb0 := KB({}, {}, {}, []);
    var kb1 := Played(kb0, (0, 0));
    assert kb1 == KB({(0, 0)}, {}, {(0, 0)}, []);
    assert |Neighbors((0, 0), 1, 2) * game.mines| == 1;
    var r := Residual({(1, 0)}, kb1.safes, kb1.mines, 1);
    assert r == Sentence({(1, 0)}, 1);
    assert |r.cells| != 0;
    assert Observe(kb0, (0, 0), 1, 2, 1) == (Ok, Deduce(kb1, (0, 0), r));
    assert StripCell(kb1.knowledge + [r], (0, 0), 0) == [r];
    assert r.cells * game.mines == {};
    assert !Holds(r, game.mines);
    var kb' := Replay(kb0, [(0, 0)], game, game.width, game.height).1;
    assert kb'.knowledge[0] == r;
  }
}
