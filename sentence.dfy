/**
 * A sentence of the agent's knowledge base: "exactly `count` of `cells` are
 * mines".  The agent updates a sentence in place; no sentence is shared
 * outside the knowledge list, so an update is modelled here as a function
 * that returns the updated sentence, which the owner stores back.
 */
module Sentences {
  import opened Cells

  datatype Sentence = Sentence(cells: set<Cell>, count: int)

  /** The sentence is true of the mine set `board`. */
  ghost predicate Holds(s: Sentence, board: set<Cell>)
  {
    |s.cells * board| == s.count
  }

  /** Python's `__eq__`: the same cells and the same count. */
  predicate Same(a: Sentence, b: Sentence)
  {
    a.cells == b.cells && a.count == b.count
  }

  lemma SameIsEquality(a: Sentence, b: Sentence)
    ensures Same(a, b) <==> a == b
  {
  }

  /** All cells are mines when there are as many mines as cells. */
  function KnownMines(s: Sentence): (r: set<Cell>)
    ensures r <= s.cells
    ensures r != {} ==> r == s.cells && |s.cells| == s.count
    ensures |s.cells| == s.count ==> r == s.cells
  {
    if |s.cells| == s.count then s.cells else {}
  }

  /** As written, the query tests for an empty cell set, so it never names a safe cell. */
  function KnownSafes(s: Sentence): (r: set<Cell>)
    ensures r == {}
  {
    if |s.cells| == 0 then s.cells else {}
  }

  /** The query as its documentation describes it: with no mines left, every cell is safe. */
  function KnownSafesIntended(s: Sentence): (r: set<Cell>)
    ensures r <= s.cells
    ensures r != {} ==> r == s.cells && s.count == 0
    ensures s.count == 0 ==> r == s.cells
  {
    if s.count == 0 then s.cells else {}
  }

  /** A cell known to be a mine leaves the sentence and takes one mine with it. */
  function MarkMine(s: Sentence, c: Cell): (r: Sentence)
    ensures c !in r.cells
    ensures c in s.cells ==> r.cells == s.cells - {c} && r.count == s.count - 1
    ensures c !in s.cells ==> r == s
  {
    if c in s.cells then Sentence(s.cells - {c}, s.count - 1) else s
  }

  /** A cell known to be safe leaves the sentence; the count is kept. */
  function MarkSafe(s: Sentence, c: Cell): (r: Sentence)
    ensures r.cells == s.cells - {c} && r.count == s.count
  {
    if c in s.cells then Sentence(s.cells - {c}, s.count) else s
  }

  lemma MarkMineIdempotent(s: Sentence, c: Cell)
    ensures MarkMine(MarkMine(s, c), c) == MarkMine(s, c)
  {
  }

  lemma MarkSafeIdempotent(s: Sentence, c: Cell)
    ensures MarkSafe(MarkSafe(s, c), c) == MarkSafe(s, c)
  {
  }

  /**
   * Soundness of `KnownMines`: on any mine set the sentence is true of,
   * every cell it reports is a mine.
   */
  lemma KnownMinesSound(s: Sentence, board: set<Cell>)
    requires Holds(s, board)
    ensures KnownMines(s) <= board
  {
    if |s.cells| == s.count {
      var hit := s.cells * board;
      assert s.cells == hit + (s.cells - hit);
      assert s.cells - hit == {};
    }
  }

  /**
   * Soundness of the intended `KnownSafes`: on any mine set the sentence is
   * true of, no cell it reports is a mine.
   */
  lemma KnownSafesIntendedSound(s: Sentence, board: set<Cell>)
    requires Holds(s, board)
    ensures KnownSafesIntended(s) !! board
  {
    if s.count == 0 {
      forall c | c in s.cells ensures c !in board {
        if c in board {
          SubsetCard({c}, s.cells * board);
        }
      }
    }
  }

  /** As written, `KnownSafes` misses safe cells that the intended query reports. */
  lemma KnownSafesMissesSafeCell()
    ensures var s := Sentence({(0, 0)}, 0);
      Holds(s, {}) && KnownSafes(s) == {} && KnownSafesIntended(s) == {(0, 0)}
  {
    var s := Sentence({(0, 0)}, 0);
    assert s.cells * {} == {};
  }

  /** Removing a safe cell keeps the sentence true. */
  lemma MarkSafeHolds(s: Sentence, c: Cell, board: set<Cell>)
    requires Holds(s, board) && c !in board
    ensures Holds(MarkSafe(s, c), board)
  {
    assert (s.cells - {c}) * board == s.cells * board;
  }

  /** Removing a mine keeps the sentence true. */
  lemma MarkMineHolds(s: Sentence, c: Cell, board: set<Cell>)
    requires Holds(s, board) && c in board
    ensures Holds(MarkMine(s, c), board)
  {
    if c in s.cells {
      assert (s.cells - {c}) * board == (s.cells * board) - {c};
    }
  }

  /** Removing a set of safe cells keeps the sentence true. */
  lemma ClearSafesHolds(s: Sentence, d: set<Cell>, board: set<Cell>)
    requires Holds(s, board) && d !! board
    ensures Holds(Sentence(s.cells - d, s.count), board)
  {
    assert (s.cells - d) * board == s.cells * board;
  }
}
