/**
 * The playing agent, `MinesweeperAI`: its state and the methods that update
 * it.  Each state-changing method is proved to leave exactly the state that
 * the corresponding function of module Knowledge describes.
 */
module Agent {
  import opened Cells
  import opened Sentences
  import opened Knowledge

  datatype Option<T> = None | Some(value: T)

  class MinesweeperAI {
    const height: int
    const width: int
    var movesMade: set<Cell>
    var mines: set<Cell>
    var safes: set<Cell>
    var knowledge: seq<Sentence>

    /** The agent's state as a value. */
    function State(): KB
      reads this
    {
      KB(movesMade, mines, safes, knowledge)
    }

    constructor (height: int, width: int)
      ensures this.height == height && this.width == width
      ensures State() == KB({}, {}, {}, [])
    {
      this.height := height;
      this.width := width;
      movesMade := {};
      mines := {};
      safes := {};
      knowledge := [];
    }

    /** Records `cell` as a mine and tells every sentence. */
    method MarkMine(cell: Cell)
      modifies this
      ensures State() == MarkMineKB(old(State()), cell)
      ensures mines == old(mines) + {cell} && safes == old(safes) && movesMade == old(movesMade)
      ensures forall i :: 0 <= i < |knowledge| ==> cell !in knowledge[i].cells
    {
      mines := mines + {cell};
      var i := 0;
      while i < |knowledge|
        invariant 0 <= i <= |knowledge| == |old(knowledge)|
        invariant forall j :: 0 <= j < i ==> knowledge[j] == Sentences.MarkMine(old(knowledge)[j], cell)
        invariant forall j :: i <= j < |knowledge| ==> knowledge[j] == old(knowledge)[j]
        invariant mines == old(mines) + {cell} && safes == old(safes) && movesMade == old(movesMade)
      {
        knowledge := knowledge[i := Sentences.MarkMine(knowledge[i], cell)];
        i := i + 1;
      }
    }

    /** Records `cell` as safe and tells every sentence. */
    method MarkSafe(cell: Cell)
      modifies this
      ensures State() == MarkSafeKB(old(State()), cell)
      ensures safes == old(safes) + {cell} && mines == old(mines) && movesMade == old(movesMade)
      ensures forall i :: 0 <= i < |knowledge| ==> cell !in knowledge[i].cells
    {
      safes := safes + {cell};
      var i := 0;
      while i < |knowledge|
        invariant 0 <= i <= |knowledge| == |old(knowledge)|
        invariant forall j :: 0 <= j < i ==> knowledge[j] == Sentences.MarkSafe(old(knowledge)[j], cell)
        invariant forall j :: i <= j < |knowledge| ==> knowledge[j] == old(knowledge)[j]
        invariant safes == old(safes) + {cell} && mines == old(mines) && movesMade == old(movesMade)
      {
        knowledge := knowledge[i := Sentences.MarkSafe(knowledge[i], cell)];
        i := i + 1;
      }
    }

    /** `for c in d: self.mark_safe(c)`, in whatever order the set yields its cells. */
    method MarkSafes(d: set<Cell>)
      modifies this
      ensures State() == MarkSafesKB(old(State()), d)
    {
      MarkSafesEmpty(State());
      var todo := d;
      while todo != {}
        invariant todo <= d
        invariant State() == MarkSafesKB(old(State()), d - todo)
        decreases |todo|
      {
        var c :| c in todo;
        ghost var before := State();
        MarkSafe(c);
        MarkSafesStep(old(State()), d - todo, c);
        assert (d - todo) + {c} == d - (todo - {c});
        todo := todo - {c};
      }
      assert d - todo == d;
    }

    /** The neighbours of `cell` on the board, walking the eight offsets of `Dirs`. */
    method FindNeighbors(cell: Cell) returns (nb: set<Cell>)
      ensures nb == Neighbors(cell, width, height)
      ensures forall c :: c in nb ==> InBounds(c, width, height) && Adjacent(c, cell)
      ensures cell !in nb && |nb| <= 8
    {
      nb := {};
      for k := 0 to |Dirs|
        invariant nb == ClippedShifts(cell, width, height, k)
      {
        var (dx, dy) := Dirs[k];
        var x := cell.0 + dx;
        var y := cell.1 + dy;
        if x < 0 || x >= width || y < 0 || y >= height {
          continue;
        }
        nb := nb + {(x, y)};
      }
      NeighborsByDirs(cell, width, height);
      NeighborsBounded(cell, width, height);
    }

    /**
     * The first loop of the residual computation: collects the neighbours of
     * known status and lowers the count once per known mine (a cell in both
     * sets is taken as safe).
     */
    method SortNeighbours(nb: set<Cell>, count: int) returns (removed: set<Cell>, rcount: int)
      ensures removed == nb * (safes + mines)
      ensures rcount == count - |nb * mines - safes|
    {
      removed := {};
      rcount := count;
      var todo := nb;
      ghost var seen: set<Cell> := {};
      ghost var counted: set<Cell> := {};
      while todo != {}
        invariant seen + todo == nb && seen !! todo
        invariant forall x :: x in removed <==> x in seen && (x in safes || x in mines)
        invariant forall x :: x in counted <==> x in seen && x in mines && x !in safes
        invariant rcount == count - |counted|
        decreases |todo|
      {
        var c :| c in todo;
        if c in safes {
          removed := removed + {c};
        } else if c in mines {
          removed := removed + {c};
          rcount := rcount - 1;
          counted := counted + {c};
        }
        todo := todo - {c};
        seen := seen + {c};
      }
      assert seen == nb;
      assert counted == nb * mines - safes;
    }

    /**
     * The residual sentence of an observation: the neighbours of known
     * status are collected, then taken out one by one.
     */
    method ResidualOf(nb: set<Cell>, count: int) returns (cells: set<Cell>, rcount: int)
      ensures Sentence(cells, rcount) == Residual(nb, safes, mines, count)
      ensures cells <= nb && cells !! safes && cells !! mines
    {
      var removed;
      removed, rcount := SortNeighbours(nb, count);
      cells := nb;
      var rest := removed;
      while rest != {}
        invariant rest <= removed
        invariant cells == nb - (removed - rest)
        decreases |rest|
      {
        var c :| c in rest;
        cells := cells - {c};
        rest := rest - {c};
      }
      assert cells == nb - safes - mines;
    }

    /**
     * Takes the played cell out of each of the first `m` sentences that still
     * hold it.  (The source also lowers the count there when the observed
     * count is `None`; an observed count is a number, so that never happens
     * and is not modelled.)
     */
    method RemovePlayed(cell: Cell, m: nat)
      requires m <= |knowledge|
      modifies this
      ensures knowledge == StripCell(old(knowledge), cell, m)
      ensures movesMade == old(movesMade) && mines == old(mines) && safes == old(safes)
    {
      var i := 0;
      while i < m
        invariant 0 <= i <= m && |knowledge| == |old(knowledge)|
        invariant forall j :: 0 <= j < i ==> knowledge[j] == Sentences.MarkSafe(old(knowledge)[j], cell)
        invariant forall j :: i <= j < |knowledge| ==> knowledge[j] == old(knowledge)[j]
        invariant movesMade == old(movesMade) && mines == old(mines) && safes == old(safes)
      {
        var sen := knowledge[i];
        if cell in sen.cells {
          knowledge := knowledge[i := Sentence(sen.cells - {cell}, sen.count)];
        }
        i := i + 1;
      }
    }

    /**
     * What the pass does with `rest` and the count difference `d` once one
     * of the two sentences is found inside the other.
     */
    method Conclude(rest: set<Cell>, d: int)
      modifies this
      ensures State() == Subtract(old(State()), rest, d)
    {
      if d == 0 {
        MarkSafes(rest);
      } else if d == 1 {
        if |rest| == 1 {
          var c :| c in rest;
          SubtractSingleMine(State(), rest, c);
          MarkMine(c);
        }
      } else {
        knowledge := knowledge + [Sentence(rest, d)];
      }
    }

    /** One step of the inference pass, against the current value of sentence `i`. */
    method InferStep(nb: set<Cell>, count: int, i: nat)
      requires i < |knowledge|
      modifies this
      ensures State() == InferFrom(old(State()), nb, count, old(knowledge)[i])
    {
      var sen := knowledge[i];
      if sen.count == 0 {
        return;
      }
      var common := nb * sen.cells;
      if |common| == |nb| {
        Conclude(sen.cells - common, sen.count - count);
      } else if |common| == |sen.cells| {
        Conclude(nb - common, count - sen.count);
      }
    }

    /**
     * `add_knowledge(cell, count)`: the environment reports `count` mines
     * around the safe cell `cell`.
     */
    method AddKnowledge(cell: Cell, count: int) returns (status: Status)
      modifies this
      ensures (status, State()) == Observe(old(State()), cell, count, width, height)
    {
      if cell in movesMade {
        return DuplicateMove;
      }
      movesMade := movesMade + {cell};
      MarkSafe(cell);
      ghost var kb1 := State();
      assert kb1 == Played(old(State()), cell);
      var nb := FindNeighbors(cell);

      if count == 0 {
        MarkSafes(nb);
        return Ok;
      }

      var cells, rcount := ResidualOf(nb, count);
      if rcount < 0 {
        return NegativeCount;
      }
      if |cells| == 0 {
        if rcount > 0 {
          return EmptySetHasMines;
        }
        return Ok;
      }

      Deduce(cell, Sentence(cells, rcount));
      return Ok;
    }

    /**
     * The last part of `add_knowledge`: appends the residual sentence `r`,
     * takes the played cell out of the sentences before it, and runs the
     * inference pass of `r` against each of those sentences.
     */
    method Deduce(cell: Cell, r: Sentence)
      modifies this
      ensures State() == Knowledge.Deduce(old(State()), cell, r)
    {
      knowledge := knowledge + [r];
      var m := |knowledge| - 1;
      RemovePlayed(cell, m);

      ghost var kb2 := State();
      var i := 0;
      while i < m
        invariant 0 <= i <= m <= |kb2.knowledge|
        invariant State() == Pass(kb2, r.cells, r.count, i)
      {
        InferStep(r.cells, r.count, i);
        i := i + 1;
      }
    }

    /** A known-safe cell not yet played, if there is one.  Changes nothing. */
    method MakeSafeMove() returns (move: Option<Cell>)
      ensures move.Some? ==> move.value in safes && move.value !in movesMade
      ensures move.None? <==> safes <= movesMade
    {
      var todo := safes;
      while todo != {}
        invariant todo <= safes
        invariant safes - todo <= movesMade
        decreases |todo|
      {
        var c :| c in todo;
        if c !in movesMade {
          return Some(c);
        }
        todo := todo - {c};
      }
      return None;
    }

    /** A known mine not yet played, if there is one.  Changes nothing. */
    method MakeMineMove() returns (move: Option<Cell>)
      ensures move.Some? ==> move.value in mines && move.value !in movesMade
      ensures move.None? <==> mines <= movesMade
    {
      var todo := mines;
      while todo != {}
        invariant todo <= mines
        invariant mines - todo <= movesMade
        decreases |todo|
      {
        var c :| c in todo;
        if c !in movesMade {
          return Some(c);
        }
        todo := todo - {c};
      }
      return None;
    }
  }
}
