/**
 * The agent's knowledge base as a value, and the effect of each step of
 * `MinesweeperAI` on it.  The class in module Agent is proved to compute
 * exactly these functions; the properties of the deduction are proved here
 * and in module Soundness.
 */
module Knowledge {
  import opened Cells
  import opened Sentences

  /** Moves made, cells known to be mines, cells known to be safe, and the sentences. */
  datatype KB = KB(movesMade: set<Cell>, mines: set<Cell>, safes: set<Cell>, knowledge: seq<Sentence>)

  /**
   * How an observation ends.  The agent stops the process on the three
   * failures; here they are results.
   */
  datatype Status = Ok | DuplicateMove | NegativeCount | EmptySetHasMines

  /** `c` is a mine: record it and take it out of every sentence. */
  function MarkMineKB(kb: KB, c: Cell): (r: KB)
    ensures r.movesMade == kb.movesMade && r.safes == kb.safes && r.mines == kb.mines + {c}
    ensures |r.knowledge| == |kb.knowledge|
    ensures forall i :: 0 <= i < |r.knowledge| ==> r.knowledge[i] == MarkMine(kb.knowledge[i], c)
    ensures forall i :: 0 <= i < |r.knowledge| ==> c !in r.knowledge[i].cells
  {
    var ks := kb.knowledge;
    kb.(mines := kb.mines + {c}, knowledge := seq(|ks|, i requires 0 <= i < |ks| => MarkMine(ks[i], c)))
  }

  /** Every cell of `d` is safe: record them and take them out of every sentence. */
  function MarkSafesKB(kb: KB, d: set<Cell>): (r: KB)
    ensures r.movesMade == kb.movesMade && r.mines == kb.mines && r.safes == kb.safes + d
    ensures |r.knowledge| == |kb.knowledge|
    ensures forall i :: 0 <= i < |r.knowledge| ==>
              r.knowledge[i].cells == kb.knowledge[i].cells - d && r.knowledge[i].count == kb.knowledge[i].count
  {
    var ks := kb.knowledge;
    kb.(safes := kb.safes + d, knowledge := seq(|ks|, i requires 0 <= i < |ks| => Sentence(ks[i].cells - d, ks[i].count)))
  }

  /** `c` is safe: record it and take it out of every sentence, counts unchanged. */
  function MarkSafeKB(kb: KB, c: Cell): (r: KB)
    ensures r.movesMade == kb.movesMade && r.mines == kb.mines && r.safes == kb.safes + {c}
    ensures |r.knowledge| == |kb.knowledge|
    ensures forall i :: 0 <= i < |r.knowledge| ==> r.knowledge[i] == MarkSafe(kb.knowledge[i], c)
    ensures forall i :: 0 <= i < |r.knowledge| ==> c !in r.knowledge[i].cells
  {
    var ks := kb.knowledge;
    kb.(safes := kb.safes + {c}, knowledge := seq(|ks|, i requires 0 <= i < |ks| => MarkSafe(ks[i], c)))
  }

  lemma MarkMineKBIdempotent(kb: KB, c: Cell)
    ensures MarkMineKB(MarkMineKB(kb, c), c) == MarkMineKB(kb, c)
  {
    var once := MarkMineKB(kb, c);
    var twice := MarkMineKB(once, c);
    assert twice.knowledge == once.knowledge;
  }

  lemma MarkSafeKBIdempotent(kb: KB, c: Cell)
    ensures MarkSafeKB(MarkSafeKB(kb, c), c) == MarkSafeKB(kb, c)
  {
    var once := MarkSafeKB(kb, c);
    var twice := MarkSafeKB(once, c);
    assert twice.knowledge == once.knowledge;
  }

  /** Marking the cells of a set safe one at a time, in any order, adds up to marking the set. */
  lemma MarkSafesStep(kb: KB, d: set<Cell>, c: Cell)
    ensures MarkSafeKB(MarkSafesKB(kb, d), c) == MarkSafesKB(kb, d + {c})
  {
    var lhs := MarkSafeKB(MarkSafesKB(kb, d), c);
    var rhs := MarkSafesKB(kb, d + {c});
    forall i | 0 <= i < |lhs.knowledge| ensures lhs.knowledge[i] == rhs.knowledge[i] {
      assert kb.knowledge[i].cells - d - {c} == kb.knowledge[i].cells - (d + {c});
    }
    assert lhs.knowledge == rhs.knowledge;
  }

  lemma MarkSafesEmpty(kb: KB)
    ensures MarkSafesKB(kb, {}) == kb
  {
    forall i | 0 <= i < |kb.knowledge| ensures MarkSafesKB(kb, {}).knowledge[i] == kb.knowledge[i] {
      assert kb.knowledge[i].cells - {} == kb.knowledge[i].cells;
    }
    assert MarkSafesKB(kb, {}).knowledge == kb.knowledge;
  }

  /** Python's `sen.cells.remove(cell)` on every sentence before index `m` that holds `cell`. */
  function StripCell(ks: seq<Sentence>, cell: Cell, m: nat): (r: seq<Sentence>)
    ensures |r| == |ks|
    ensures forall i :: 0 <= i < |ks| ==> r[i] == if i < m then MarkSafe(ks[i], cell) else ks[i]
  {
    seq(|ks|, i requires 0 <= i < |ks| => if i < m then MarkSafe(ks[i], cell) else ks[i])
  }

  /**
   * The sentence built from the neighbours `nb` of a played cell with `count`
   * mines around it: known safes and known mines leave, each known mine
   * lowers the count.  A cell in both sets counts as safe.
   */
  function Residual(nb: set<Cell>, safes: set<Cell>, mines: set<Cell>, count: int): (r: Sentence)
    ensures r.cells <= nb && r.cells !! safes && r.cells !! mines
    ensures forall c :: c in nb && c !in safes && c !in mines ==> c in r.cells
    ensures r.count == count - |nb * mines - safes|
  {
    Sentence(nb - safes - mines, count - |(nb * mines) - safes|)
  }

  /**
   * What one pass step does with a pair of sentences where `small` is
   * contained in `big`, `rest` being the cells of `big` outside `small` and
   * `d` the difference of their counts.
   */
  ghost function Subtract(kb: KB, rest: set<Cell>, d: int): (r: KB)
    ensures r.movesMade == kb.movesMade && kb.mines <= r.mines && kb.safes <= r.safes
    ensures |r.knowledge| >= |kb.knowledge|
  {
    if d == 0 then MarkSafesKB(kb, rest)
    else if d == 1 then
      if |rest| == 1 then var c :| c in rest; MarkMineKB(kb, c) else kb
    else kb.(knowledge := kb.knowledge + [Sentence(rest, d)])
  }

  /** With a single cell left over and one mine more, that cell is the mine. */
  lemma SubtractSingleMine(kb: KB, rest: set<Cell>, c: Cell)
    requires |rest| == 1 && c in rest
    ensures Subtract(kb, rest, 1) == MarkMineKB(kb, c)
  {
    forall x | x in rest ensures x == c {
      if x != c {
        SubsetCard({x, c}, rest);
      }
    }
  }

  /**
   * One step of the inference pass: the new sentence's frozen cells `nb` and
   * count `count` against the current value of a pre-existing sentence `sen`.
   */
  ghost function InferFrom(kb: KB, nb: set<Cell>, count: int, sen: Sentence): (r: KB)
    ensures r.movesMade == kb.movesMade && kb.mines <= r.mines && kb.safes <= r.safes
    ensures |r.knowledge| >= |kb.knowledge|
  {
    if sen.count == 0 then kb
    else
      var common := nb * sen.cells;
      if |common| == |nb| then Subtract(kb, sen.cells - common, sen.count - count)
      else if |common| == |sen.cells| then Subtract(kb, nb - common, count - sen.count)
      else kb
  }

  /**
   * The inference pass after its first `i` steps: step `j` reads sentence `j`
   * as the earlier steps have left it.
   */
  ghost function Pass(kb0: KB, nb: set<Cell>, count: int, i: nat): (r: KB)
    requires i <= |kb0.knowledge|
    ensures r.movesMade == kb0.movesMade && kb0.mines <= r.mines && kb0.safes <= r.safes
    ensures |r.knowledge| >= |kb0.knowledge|
    decreases i
  {
    if i == 0 then kb0
    else
      var kb := Pass(kb0, nb, count, i - 1);
      InferFrom(kb, nb, count, kb.knowledge[i - 1])
  }

  /** The cell is played: it becomes a move made and is marked safe. */
  function Played(kb: KB, cell: Cell): (r: KB)
  {
    MarkSafeKB(kb.(movesMade := kb.movesMade + {cell}), cell)
  }

  /**
   * `add_knowledge(cell, count)` on a board of the given size: the status it
   * ends with and the state it leaves.
   */
  ghost function Observe(kb: KB, cell: Cell, count: int, width: int, height: int): (Status, KB)
  {
    if cell in kb.movesMade then (DuplicateMove, kb)
    else Settle(Played(kb, cell), cell, Neighbors(cell, width, height), count)
  }

  /** The rest of an observation once the cell is played, `nb` being its neighbours. */
  ghost function Settle(kb1: KB, cell: Cell, nb: set<Cell>, count: int): (Status, KB)
  {
    if count == 0 then (Ok, MarkSafesKB(kb1, nb))
    else
      var r := Residual(nb, kb1.safes, kb1.mines, count);
      if r.count < 0 then (NegativeCount, kb1)
      else if |r.cells| == 0 then (if r.count > 0 then (EmptySetHasMines, kb1) else (Ok, kb1))
      else (Ok, Deduce(kb1, cell, r))
  }

  /**
   * Appends the residual sentence `r`, takes the played cell out of the
   * sentences before it, and runs the inference pass over those sentences.
   */
  ghost function Deduce(kb1: KB, cell: Cell, r: Sentence): (kb': KB)
  {
    var m := |kb1.knowledge|;
    Pass(kb1.(knowledge := StripCell(kb1.knowledge + [r], cell, m)), r.cells, r.count, m)
  }

  /** Python's length test on the intersection is a containment test. */
  lemma CommonCardIsSubset(a: set<Cell>, b: set<Cell>)
    ensures |a * b| == |a| <==> a <= b
  {
    if |a * b| == |a| {
      forall x | x in a ensures x in b {
        if x !in b {
          SubsetCard({x}, a - b);
        }
      }
    }
  }

  /** A re-played cell fails before anything changes. */
  lemma ObserveDuplicate(kb: KB, cell: Cell, count: int, width: int, height: int)
    requires cell in kb.movesMade
    ensures Observe(kb, cell, count, width, height) == (DuplicateMove, kb)
  {
  }

  /**
   * A fresh cell ends as a move made and as a known safe, nothing known is
   * forgotten, and no sentence is removed.
   */
  lemma ObserveRecordsMove(kb: KB, cell: Cell, count: int, width: int, height: int)
    requires cell !in kb.movesMade
    ensures var (status, kb') := Observe(kb, cell, count, width, height);
      && status != DuplicateMove
      && kb'.movesMade == kb.movesMade + {cell}
      && cell in kb'.safes && kb.safes <= kb'.safes && kb.mines <= kb'.mines
      && |kb'.knowledge| >= |kb.knowledge|
  {
  }

  /** With no mine around the cell, every neighbour becomes safe and no sentence is added. */
  lemma ObserveZero(kb: KB, cell: Cell, width: int, height: int)
    requires cell !in kb.movesMade
    ensures var (status, kb') := Observe(kb, cell, 0, width, height);
      && status == Ok
      && Neighbors(cell, width, height) <= kb'.safes
      && |kb'.knowledge| == |kb.knowledge|
      && forall i :: 0 <= i < |kb'.knowledge| ==> kb'.knowledge[i].cells !! Neighbors(cell, width, height)
  {
  }

  /**
   * With mines around the cell, the outcome is decided by the residual
   * sentence: a negative count or mines in an empty set fail, an empty set
   * with no mines adds nothing, anything else appends the residual sentence
   * and runs the pass over the sentences that were there before it.
   */
  lemma ObserveResidual(kb: KB, cell: Cell, count: int, width: int, height: int)
    requires cell !in kb.movesMade && count != 0
    ensures var kb1 := Played(kb, cell);
      var r := Residual(Neighbors(cell, width, height), kb1.safes, kb1.mines, count);
      var (status, kb') := Observe(kb, cell, count, width, height);
      && (status == NegativeCount <==> r.count < 0)
      && (status == EmptySetHasMines <==> r.count > 0 && r.cells == {})
      && (status == Ok <==> (r.count == 0 && r.cells == {}) || (r.count >= 0 && r.cells != {}))
      && (status != Ok ==> kb' == kb1)
      && (status == Ok && r.cells == {} ==> kb' == kb1)
      && (status == Ok && r.cells != {} ==> |kb'.knowledge| >= |kb.knowledge| + 1)
      && (status == Ok && r.cells != {} ==>
            kb' == Pass(kb1.(knowledge := kb1.knowledge + [r]), r.cells, r.count, |kb.knowledge|))
  {
    var kb1 := Played(kb, cell);
    var r := Residual(Neighbors(cell, width, height), kb1.safes, kb1.mines, count);
    if r.cells == {} {
      assert |r.cells| == 0;
    } else {
      assert |r.cells| != 0;
      SelfEliminationRedundant(kb, cell, r, width, height);
    }
  }

  /**
   * The self-elimination loop changes nothing: marking the played cell safe
   * already took it out of every sentence, and the residual sentence is made
   * of neighbours, never of the cell itself.
   */
  lemma SelfEliminationRedundant(kb: KB, cell: Cell, r: Sentence, width: int, height: int)
    requires r.cells <= Neighbors(cell, width, height)
    ensures var kb1 := Played(kb, cell);
      StripCell(kb1.knowledge + [r], cell, |kb1.knowledge|) == kb1.knowledge + [r]
  {
    NeighborsBounded(cell, width, height);
    var kb1 := Played(kb, cell);
    var ks := kb1.knowledge + [r];
    assert StripCell(ks, cell, |kb1.knowledge|) == ks;
  }

  /**
   * The pass leaves untouched a sentence that has no mines left, and draws
   * nothing from a pair where neither cell set contains the other.
   */
  lemma InferSkips(kb: KB, nb: set<Cell>, count: int, sen: Sentence)
    requires sen.count == 0 || (!(nb <= sen.cells) && !(sen.cells <= nb))
    ensures InferFrom(kb, nb, count, sen) == kb
  {
    CommonCardIsSubset(nb, sen.cells);
    CommonCardIsSubset(sen.cells, nb);
    assert nb * sen.cells == sen.cells * nb;
  }

  /**
   * When the new cells `nb` lie inside a sentence with mines, the difference
   * `d` of the counts decides: 0 makes the cells outside `nb` safe, 1 with a
   * single cell outside makes that cell a mine, 1 with several cells outside
   * does nothing, and any other difference (negative ones included) appends
   * the sentence (cells outside `nb`, `d`).
   */
  lemma InferWhenNewInside(kb: KB, nb: set<Cell>, count: int, sen: Sentence)
    requires sen.count != 0 && nb <= sen.cells
    ensures var d := sen.count - count;
      var rest := sen.cells - nb;
      var r := InferFrom(kb, nb, count, sen);
      && (d == 0 ==> r == MarkSafesKB(kb, rest) && rest <= r.safes)
      && (d == 1 && |rest| == 1 ==> exists c :: rest == {c} && r == MarkMineKB(kb, c))
      && (d == 1 && |rest| != 1 ==> r == kb)
      && (d != 0 && d != 1 ==> r.knowledge == kb.knowledge + [Sentence(rest, d)] && r.safes == kb.safes && r.mines == kb.mines)
  {
    CommonCardIsSubset(nb, sen.cells);
    var common := nb * sen.cells;
    assert common == nb;
    var rest := sen.cells - nb;
    if sen.count - count == 1 && |rest| == 1 {
      var c :| c in rest;
      assert rest == {c} by {
        forall x | x in rest ensures x == c {
          if x != c {
            SubsetCard({x, c}, rest);
          }
        }
      }
    }
  }

  /**
   * When a sentence with mines lies inside the new cells (and not the other
   * way round), the same rules apply with the roles swapped.
   */
  lemma InferWhenOldInside(kb: KB, nb: set<Cell>, count: int, sen: Sentence)
    requires sen.count != 0 && sen.cells <= nb && !(nb <= sen.cells)
    ensures var d := count - sen.count;
      var rest := nb - sen.cells;
      var r := InferFrom(kb, nb, count, sen);
      && (d == 0 ==> r == MarkSafesKB(kb, rest) && rest <= r.safes)
      && (d == 1 && |rest| == 1 ==> exists c :: rest == {c} && r == MarkMineKB(kb, c))
      && (d == 1 && |rest| != 1 ==> r == kb)
      && (d != 0 && d != 1 ==> r.knowledge == kb.knowledge + [Sentence(rest, d)] && r.safes == kb.safes && r.mines == kb.mines)
  {
    CommonCardIsSubset(nb, sen.cells);
    CommonCardIsSubset(sen.cells, nb);
    var common := nb * sen.cells;
    assert common == sen.cells;
    var rest := nb - sen.cells;
    if count - sen.count == 1 && |rest| == 1 {
      var c :| c in rest;
      assert rest == {c} by {
        forall x | x in rest ensures x == c {
          if x != c {
            SubsetCard({x, c}, rest);
          }
        }
      }
    }
  }
}
