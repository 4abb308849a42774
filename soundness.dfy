/**
 * Soundness of the deduction: when every fact the agent holds is true of
 * the hidden mine set, and the environment reports the true number of mines
 * around a safe cell, `add_knowledge` keeps every fact true and never hits
 * one of its contradiction errors.
 */
module Soundness {
  import opened Cells
  import opened Sentences
  import opened Knowledge

  /** Everything the agent knows is true of the mine set `board`. */
  ghost predicate Consistent(kb: KB, board: set<Cell>)
  {
    && kb.mines <= board
    && kb.safes !! board
    && forall i :: 0 <= i < |kb.knowledge| ==> Holds(kb.knowledge[i], board)
  }

  /** A knowledge base that is true of some mine set never calls a cell both safe and a mine. */
  lemma ConsistentDisjoint(kb: KB, board: set<Cell>)
    requires Consistent(kb, board)
    ensures kb.mines !! kb.safes
  {
  }

  lemma EmptyByCard(s: set<Cell>)
    requires |s| == 0
    ensures s == {}
  {
    forall x | x in s ensures false {
      SubsetCard({x}, s);
    }
  }

  lemma DisjointUnionCard(a: set<Cell>, b: set<Cell>)
    requires a !! b
    ensures |a + b| == |a| + |b|
  {
    assert (a + b) - b == a;
  }

  lemma MarkSafesConsistent(kb: KB, d: set<Cell>, board: set<Cell>)
    requires Consistent(kb, board) && d !! board
    ensures Consistent(MarkSafesKB(kb, d), board)
  {
    var kb' := MarkSafesKB(kb, d);
    forall i | 0 <= i < |kb'.knowledge| ensures Holds(kb'.knowledge[i], board) {
      ClearSafesHolds(kb.knowledge[i], d, board);
    }
  }

  lemma MarkSafeConsistent(kb: KB, c: Cell, board: set<Cell>)
    requires Consistent(kb, board) && c !in board
    ensures Consistent(MarkSafeKB(kb, c), board)
  {
    var kb' := MarkSafeKB(kb, c);
    forall i | 0 <= i < |kb'.knowledge| ensures Holds(kb'.knowledge[i], board) {
      MarkSafeHolds(kb.knowledge[i], c, board);
    }
  }

  lemma MarkMineConsistent(kb: KB, c: Cell, board: set<Cell>)
    requires Consistent(kb, board) && c in board
    ensures Consistent(MarkMineKB(kb, c), board)
  {
    var kb' := MarkMineKB(kb, c);
    forall i | 0 <= i < |kb'.knowledge| ensures Holds(kb'.knowledge[i], board) {
      MarkMineHolds(kb.knowledge[i], c, board);
    }
  }

  /**
   * The residual sentence of a truthful observation is true: the mines
   * among the neighbours are the known mines plus those left in the residual.
   */
  lemma ResidualHolds(nb: set<Cell>, safes: set<Cell>, mines: set<Cell>, count: int, board: set<Cell>)
    requires mines <= board && safes !! board && count == |nb * board|
    ensures Holds(Residual(nb, safes, mines, count), board)
  {
    var r := Residual(nb, safes, mines, count);
    var known := nb * mines - safes;
    assert nb * board == (r.cells * board) + known;
    DisjointUnionCard(r.cells * board, known);
  }

  /** If the cells of `rest` hold exactly `d` mines, the pass step on them keeps the knowledge true. */
  lemma SubtractConsistent(kb: KB, rest: set<Cell>, d: int, board: set<Cell>)
    requires Consistent(kb, board) && |rest * board| == d
    ensures Consistent(Subtract(kb, rest, d), board)
  {
    if d == 0 {
      EmptyByCard(rest * board);
      assert rest !! board by {
        forall x | x in rest ensures x !in board {
          assert x in board ==> x in rest * board;
        }
      }
      MarkSafesConsistent(kb, rest, board);
    } else if d == 1 {
      if |rest| == 1 {
        var c :| c in rest && Subtract(kb, rest, d) == MarkMineKB(kb, c);
        assert c in board by {
          if c !in board {
            SubsetCard(rest * board, rest - {c});
          }
        }
        MarkMineConsistent(kb, c, board);
      }
    }
  }

  /** The mines of a set split over a subset and the cells outside it. */
  lemma SplitCount(small: set<Cell>, big: set<Cell>, board: set<Cell>)
    requires small <= big
    ensures |(big - small) * board| == |big * board| - |small * board|
  {
    assert big * board == ((big - small) * board) + (small * board);
    DisjointUnionCard((big - small) * board, small * board);
  }

  /** One pass step from a true sentence and a true new sentence keeps the knowledge true. */
  lemma InferConsistent(kb: KB, nb: set<Cell>, count: int, sen: Sentence, board: set<Cell>)
    requires Consistent(kb, board) && Holds(sen, board) && |nb * board| == count
    ensures Consistent(InferFrom(kb, nb, count, sen), board)
  {
    if sen.count != 0 {
      var common := nb * sen.cells;
      if |common| == |nb| {
        CommonCardIsSubset(nb, sen.cells);
        assert sen.cells - common == sen.cells - nb;
        SplitCount(nb, sen.cells, board);
        SubtractConsistent(kb, sen.cells - common, sen.count - count, board);
      } else if |common| == |sen.cells| {
        assert common == sen.cells * nb;
        CommonCardIsSubset(sen.cells, nb);
        assert nb - common == nb - sen.cells;
        SplitCount(sen.cells, nb, board);
        SubtractConsistent(kb, nb - common, count - sen.count, board);
      }
    }
  }

  /** The whole pass keeps the knowledge true. */
  lemma {:induction false} PassConsistent(kb0: KB, nb: set<Cell>, count: int, i: nat, board: set<Cell>)
    requires i <= |kb0.knowledge| && Consistent(kb0, board) && |nb * board| == count
    ensures Consistent(Pass(kb0, nb, count, i), board)
  {
    if i > 0 {
      PassConsistent(kb0, nb, count, i - 1, board);
      var kb := Pass(kb0, nb, count, i - 1);
      InferConsistent(kb, nb, count, kb.knowledge[i - 1], board);
    }
  }

  /**
   * Soundness of `add_knowledge`: from knowledge true of `board`, a safe
   * cell with the true count of mines around it either is rejected as a
   * repeated move or is accepted, and the knowledge stays true.  The two
   * contradiction errors cannot happen.
   */
  lemma ObserveSound(kb: KB, cell: Cell, count: int, width: int, height: int, board: set<Cell>)
    requires Consistent(kb, board) && cell !in board
    requires count == |Neighbors(cell, width, height) * board|
    ensures var (status, kb') := Observe(kb, cell, count, width, height);
      (status == Ok || status == DuplicateMove) && Consistent(kb', board)
  {
    if cell !in kb.movesMade {
      var kb1 := Played(kb, cell);
      MarkSafeConsistent(kb.(movesMade := kb.movesMade + {cell}), cell, board);
      var nb := Neighbors(cell, width, height);
      if count == 0 {
        EmptyByCard(nb * board);
        MarkSafesConsistent(kb1, nb, board);
      } else {
        var r := Residual(nb, kb1.safes, kb1.mines, count);
        ResidualHolds(nb, kb1.safes, kb1.mines, count, board);
        assert r.count >= 0;
        if |r.cells| == 0 {
          EmptyByCard(r.cells);
          assert r.cells * board == {};
        } else {
          var m := |kb1.knowledge|;
          SelfEliminationRedundant(kb, cell, r, width, height);
          var kb2 := kb1.(knowledge := StripCell(kb1.knowledge + [r], cell, m));
          assert kb2.knowledge == kb1.knowledge + [r];
          assert Consistent(kb2, board);
          PassConsistent(kb2, r.cells, r.count, m, board);
        }
      }
    }
  }

  /** Truthful play keeps `safes` and `mines` apart. */
  lemma ObserveKeepsDisjoint(kb: KB, cell: Cell, count: int, width: int, height: int, board: set<Cell>)
    requires Consistent(kb, board) && cell !in board
    requires count == |Neighbors(cell, width, height) * board|
    ensures Observe(kb, cell, count, width, height).1.mines !! Observe(kb, cell, count, width, height).1.safes
  {
    ObserveSound(kb, cell, count, width, height, board);
  }
}
