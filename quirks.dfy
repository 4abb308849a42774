/**
 * Behaviours of the inference pass that follow from its code, shown on
 * small knowledge bases.
 */
module Quirks {
  import opened Cells
  import opened Sentences
  import opened Knowledge
  import opened Soundness

  // The played cell, its five neighbours on a board two wide and three high,
  // and the knowledge base before the observation.
  const P: Cell := (1, 1)
  const A: Cell := (0, 0)
  const B: Cell := (0, 1)
  const C: Cell := (0, 2)
  const D: Cell := (1, 0)
  const E: Cell := (1, 2)
  const S1: Sentence := Sentence({A, B, C}, 3)
  const S2: Sentence := Sentence({C, D}, 1)
  const Before: KB := KB({}, {}, {}, [S1, S2])

  lemma ExampleNeighbours()
    ensures Neighbors(P, 2, 3) == {A, B, C, D, E}
  {
    forall x | x in Neighbors(P, 2, 3) ensures x in {A, B, C, D, E} {
      NeighborsMembership(P, 2, 3, x);
    }
    forall x | x in {A, B, C, D, E} ensures x in Neighbors(P, 2, 3) {
      NeighborsMembership(P, 2, 3, x);
    }
  }

  lemma ExampleIsTrue()
    ensures Consistent(Before, {A, B, C})
  {
    assert S1.cells * {A, B, C} == {A, B, C};
    assert S2.cells * {A, B, C} == {C};
  }

  lemma ExamplePlayed()
    ensures Played(Before, P) == KB({P}, {}, {P}, [S1, S2])
  {
    var kb1 := Played(Before, P);
    assert kb1.knowledge[0] == S1;
    assert kb1.knowledge[1] == S2;
    assert kb1.knowledge == [S1, S2];
  }

  lemma ExampleResidual()
    ensures Residual({A, B, C, D, E}, {P}, {}, 3) == Sentence({A, B, C, D, E}, 3)
  {
    assert {A, B, C, D, E} * {} - {P} == {};
    assert {A, B, C, D, E} - {P} - {} == {A, B, C, D, E};
  }

  /** The observation settles on the residual sentence: all five neighbours, 3. */
  lemma ExampleSettles()
    ensures Observe(Before, P, 3, 2, 3) ==
      (Ok, Deduce(KB({P}, {}, {P}, [S1, S2]), P, Sentence({A, B, C, D, E}, 3)))
  {
    ExampleNeighbours();
    ExamplePlayed();
    ExampleResidual();
  }

  /** The residual sentence is appended and the pass runs over the two older sentences. */
  lemma ExampleReachesPass()
    ensures Deduce(KB({P}, {}, {P}, [S1, S2]), P, Sentence({A, B, C, D, E}, 3)) ==
      Pass(KB({P}, {}, {P}, [S1, S2, Sentence({A, B, C, D, E}, 3)]), {A, B, C, D, E}, 3, 2)
  {
    var kb1 := KB({P}, {}, {P}, [S1, S2]);
    var r := Sentence({A, B, C, D, E}, 3);
    ExampleNeighbours();
    SelfEliminationRedundant(Before, P, r, 2, 3);
    ExamplePlayed();
    assert StripCell(kb1.knowledge + [r], P, 2) == [S1, S2, r];
  }

  lemma ExamplePass()
    ensures var kb := Pass(KB({P}, {}, {P}, [S1, S2, Sentence({A, B, C, D, E}, 3)]), {A, B, C, D, E}, 3, 2);
      && |kb.knowledge| == 4 && kb.knowledge[3] == Sentence({A, B, D, E}, 2)
      && D in kb.safes && E in kb.safes
  {
    var nb := {A, B, C, D, E};
    var kb2 := KB({P}, {}, {P}, [S1, S2, Sentence(nb, 3)]);
    // First step: {A, B, C} = 3 lies inside the neighbours, with the same count.
    InferWhenOldInside(kb2, nb, 3, S1);
    assert nb - S1.cells == {D, E};
    var kb3 := MarkSafesKB(kb2, {D, E});
    assert Pass(kb2, nb, 3, 1) == kb3;
    var s2 := kb3.knowledge[1];
    assert s2.cells == {C} && s2.count == 1;
    // Second step: what is left of {C, D} = 1 lies inside the frozen neighbours.
    InferWhenOldInside(kb3, nb, 3, s2);
    assert nb - s2.cells == {A, B, D, E};
  }

  /**
   * The pass keeps comparing against the neighbour set as it was when the
   * residual sentence was built.  Here the first sentence makes two of those
   * neighbours safe, and the second then yields a derived sentence that
   * still holds both of them, although they are known safe.  The knowledge
   * base before the observation is true of the board, so this happens in
   * truthful play: every sentence stays true, but not every sentence is
   * free of known cells.
   */
  lemma DerivedSentenceKeepsKnownSafes()
    ensures var (status, kb') := Observe(Before, P, 3, 2, 3);
      && Consistent(Before, {A, B, C})
      && Neighbors(P, 2, 3) == {A, B, C, D, E}
      && status == Ok
      && |kb'.knowledge| == 4
      && kb'.knowledge[3] == Sentence({A, B, D, E}, 2)
      && D in kb'.safes && E in kb'.safes
  {
    ExampleIsTrue();
    ExampleNeighbours();
    ExampleSettles();
    ExampleReachesPass();
    ExamplePass();
  }

  /**
   * Nothing checks the count of a derived sentence: when the knowledge does
   * not match the board, the pass appends a sentence with a negative count.
   * Here a residual sentence with no mines left (all of its mines were
   * already known) meets an older sentence that claims a mine among two of
   * its cells.
   */
  lemma DerivedCountMayBeNegative(kb: KB)
    ensures var a, b, c := (0, 0), (0, 1), (0, 2);
      InferFrom(kb, {a, b, c}, 0, Sentence({a, b}, 1)).knowledge == kb.knowledge + [Sentence({c}, -1)]
  {
    var a, b, c := (0, 0), (0, 1), (0, 2);
    InferWhenOldInside(kb, {a, b, c}, 0, Sentence({a, b}, 1));
    assert {a, b, c} - {a, b} == {c};
  }
}
