# Minesweeper AI: a verified model

`minesweeper.py` holds three parts:

- a Minesweeper environment, which answers how many mines lie around a cell;
- the `Sentence` of propositional knowledge, "exactly `count` of these `cells` are mines";
- `MinesweeperAI`, a player that records what it has learnt and draws conclusions from it.

The player stores its moves made, its known mines, its known safe cells and a list of sentences.
Each time the environment reports the count around a played cell, `add_knowledge` does four things:

1. it marks the cell safe;
2. it builds a new sentence from the unknown neighbours;
3. it compares that sentence with each older sentence;
4. it then marks cells safe, marks cells as mines, or appends derived sentences.

The model is arranged in modules:

- **Cells** (`cells.dfy`) holds cells, the eight directions and the neighbourhood of a cell on a board.
- **Sentences** (`sentence.dfy`) holds the sentence as a value, with its queries and updates, and the meaning of a sentence on a hidden mine set (`Holds`).
- **Knowledge** (`knowledge.dfy`) holds the player's state as a value, `KB`, and one function per step:
  - marking a cell safe or a mine;
  - building the residual sentence of an observation;
  - one inference step (`InferFrom`) and the whole pass (`Pass`);
  - a whole observation (`Observe`, which goes through `Settle` and `Deduce`).
- **Agent** (`agent.dfy`) holds the class `MinesweeperAI`. Its fields are updated in place. Each state-changing method is proved to leave exactly the state that the matching function of Knowledge describes.
- **Soundness** (`soundness.dfy`) proves soundness. Suppose every fact the player holds is true of the hidden mine set, and the environment reports the true count around a cell that holds no mine. Then `add_knowledge` never reaches one of its contradiction exits, and every fact stays true.
- **Game** (`game.dfy`) holds the environment over a given board, `is_mine` and `nearby_mines`.
- **Play** (`play.dfy`) links the player to the environment over a whole sequence of moves.
- **Quirks** (`quirks.dfy`) holds small concrete knowledge bases that show behaviours which follow from the code.

Where the code and the player's documented intent differ, the model follows the code:

- **The pass uses the neighbour set as it was.**
  - The inference pass compares every older sentence with the neighbour set and count from when the new sentence was built.
  - It does not use the new sentence as earlier steps of the same pass have updated it.
  - So a derived sentence can still contain cells that the same pass has just marked safe (`Quirks.DerivedSentenceKeepsKnownSafes`).
  - Every sentence stays true, but sentences are not always free of known cells.
- **The two parts use different axes.**
  - `find_neighbors` bounds the first coordinate by the width and the second by the height.
  - The environment bounds the row (first) by the height and the column (second) by the width.
  - The two agree only on square boards (`Game.NonSquareBoardDisagrees`).
  - On other boards the player can record a false sentence. This is a bug, and it is listed under Findings.
  - `Play.ReplaySound` is stated for a player whose bounds match the game's. `Play.SquareReplaySound` applies it to the player as written on square boards.
- **`known_safes` tests for an empty cell set, not for a zero count.** See Findings.

## Model

| member | source | states |
|---|---|---|
| Sentences.SameIsEquality | minesweeper.py:98-99 | `__eq__` holds exactly when two sentences are the same value |
| Sentences.KnownMines | minesweeper.py:104-111 | the result is inside the cells; it is non-empty only if the cell count equals the mine count; then it is all the cells |
| Sentences.KnownMinesSound | minesweeper.py:104-111 | on any mine set that the sentence is true of, every reported cell is a mine |
| Sentences.KnownSafes | minesweeper.py:114-121 | as written, the result is always empty |
| Sentences.KnownSafesIntended | minesweeper.py:114-121 | corrected query: the result is inside the cells; it is non-empty only with a zero count; with a zero count it is all the cells |
| Sentences.KnownSafesIntendedSound | minesweeper.py:114-121 | on any mine set that the sentence is true of, no cell reported by the corrected query is a mine |
| Sentences.KnownSafesMissesSafeCell | minesweeper.py:118-121 | a true sentence `{(0,0)} = 0` whose only cell the as-written query misses and the corrected one reports |
| Sentences.MarkMine | minesweeper.py:123-130 | the cell leaves the sentence; if it was there, the count drops by one; otherwise the sentence is unchanged |
| Sentences.MarkSafe | minesweeper.py:133-139 | the cell leaves the sentence and the count is kept |
| Sentences.MarkMineIdempotent | minesweeper.py:123-130 | marking the same mine twice is the same as marking it once |
| Sentences.MarkSafeIdempotent | minesweeper.py:133-139 | marking the same safe cell twice is the same as marking it once |
| Sentences.MarkMineHolds | minesweeper.py:123-130 | removing a real mine keeps a true sentence true |
| Sentences.MarkSafeHolds | minesweeper.py:133-139 | removing a really safe cell keeps a true sentence true |
| Sentences.ClearSafesHolds | minesweeper.py:228-230 | removing a set of safe cells keeps a true sentence true |
| Cells.NeighborsMembership | minesweeper.py:185-195 | a cell is a neighbour exactly when it is adjacent to the played cell and inside the bounds |
| Cells.NeighborsByDirs | minesweeper.py:146 | the neighbourhood is the set of in-bounds shifts along the eight directions of `dirs` |
| Cells.NeighborsBounded | minesweeper.py:185-195 | every neighbour is in bounds and adjacent; the cell is not its own neighbour; there are at most eight |
| Knowledge.MarkMineKB | minesweeper.py:165-174 | the cell joins the mines; every sentence is marked; no sentence still holds the cell; nothing else changes |
| Knowledge.MarkSafeKB | minesweeper.py:176-183 | the cell joins the safes; every sentence is marked; no sentence still holds the cell; nothing else changes |
| Knowledge.MarkSafesKB | minesweeper.py:228-230 | the cells join the safes and leave every sentence; the counts are kept |
| Knowledge.MarkMineKBIdempotent | minesweeper.py:165-174 | marking a mine twice is the same as marking it once |
| Knowledge.MarkSafeKBIdempotent | minesweeper.py:176-183 | marking a safe cell twice is the same as marking it once |
| Knowledge.MarkSafesStep | minesweeper.py:228-230 | marking one more cell safe after a set extends the set; the order of the loop does not matter |
| Knowledge.MarkSafesEmpty | minesweeper.py:228-230 | marking no cell changes nothing |
| Knowledge.StripCell | minesweeper.py:257-262 | the played cell leaves each of the first `m` sentences; the rest are unchanged |
| Knowledge.Residual | minesweeper.py:232-240 | the residual cells are exactly the neighbours that are neither known safe nor known mine; the count drops once per known mine that is not also known safe |
| Knowledge.Subtract | minesweeper.py:272-290 | a conclusion keeps the moves made, forgets no mine or safe, and removes no sentence |
| Knowledge.SubtractSingleMine | minesweeper.py:276-278 | with one cell left over and a difference of one, that cell becomes a mine |
| Knowledge.InferFrom | minesweeper.py:264-290 | one pass step keeps the moves made, forgets no mine or safe, and removes no sentence |
| Knowledge.Pass | minesweeper.py:264-290 | the whole pass keeps the moves made, forgets no mine or safe, and removes no sentence |
| Knowledge.CommonCardIsSubset | minesweeper.py:271-281 | comparing the size of the intersection with the size of a set is a containment test |
| Knowledge.InferSkips | minesweeper.py:264-290 | a sentence with no mines left, or one that neither contains nor is contained in the neighbours, changes nothing |
| Knowledge.InferWhenNewInside | minesweeper.py:271-280 | with the neighbours inside the sentence, the count difference decides: 0 marks the rest safe; 1 with a single cell left marks it a mine; 1 with several cells left does nothing; any other difference appends (rest, difference) |
| Knowledge.InferWhenOldInside | minesweeper.py:281-290 | the same four outcomes with the roles swapped, when the sentence lies strictly inside the neighbours |
| Knowledge.ObserveDuplicate | minesweeper.py:213-215 | a cell already played is rejected and nothing changes |
| Knowledge.ObserveRecordsMove | minesweeper.py:213-222 | a fresh cell becomes a move made and a known safe; no known mine, safe or sentence is lost |
| Knowledge.ObserveZero | minesweeper.py:227-230 | a zero count makes every neighbour safe and removes the neighbours from every sentence; no sentence is added |
| Knowledge.ObserveResidual | minesweeper.py:232-254 | the status is fixed by the residual: a negative count fails; mines with no cell fail; no cell and no mine adds nothing; otherwise the residual sentence is appended and the pass runs over the sentences that were there before it, the played cell already gone from them |
| Knowledge.SelfEliminationRedundant | minesweeper.py:257-262 | the loop that takes the played cell out of the older sentences changes nothing |
| Agent.MinesweeperAI.constructor | minesweeper.py:149-163 | the sizes are recorded, and nothing is known |
| Agent.MinesweeperAI.MarkMine | minesweeper.py:165-174 | the new state is `MarkMineKB` of the old one; only the mines grow; no sentence holds the cell |
| Agent.MinesweeperAI.MarkSafe | minesweeper.py:176-183 | the new state is `MarkSafeKB` of the old one; only the safes grow; no sentence holds the cell |
| Agent.MinesweeperAI.MarkSafes | minesweeper.py:228-230 | marking each cell of a set safe, in any order, leaves `MarkSafesKB` of the old state |
| Agent.MinesweeperAI.FindNeighbors | minesweeper.py:185-195 | the result is the neighbourhood: in bounds, adjacent, without the cell, at most eight |
| Agent.MinesweeperAI.SortNeighbours | minesweeper.py:232-238 | the removed cells are the neighbours known safe or known mine; the count drops by the number of known mines that are not also known safe |
| Agent.MinesweeperAI.ResidualOf | minesweeper.py:232-240 | the cells and count left are the `Residual` sentence, disjoint from the known cells |
| Agent.MinesweeperAI.RemovePlayed | minesweeper.py:257-262 | the played cell leaves each of the older sentences; the sets are unchanged |
| Agent.MinesweeperAI.Conclude | minesweeper.py:272-290 | the new state is `Subtract` of the old one |
| Agent.MinesweeperAI.InferStep | minesweeper.py:264-290 | one iteration of the pass leaves `InferFrom` of the old state, read against the current sentence |
| Agent.MinesweeperAI.Deduce | minesweeper.py:254-290 | appending, self-elimination and the whole pass leave `Knowledge.Deduce` of the old state |
| Agent.MinesweeperAI.AddKnowledge | minesweeper.py:198-290 | the status and the new state are exactly `Observe` of the old state |
| Agent.MinesweeperAI.MakeSafeMove | minesweeper.py:295-306 | a result is a known safe cell not yet played; there is no result exactly when every known safe cell is played |
| Agent.MinesweeperAI.MakeMineMove | minesweeper.py:308-311 | a result is a known mine not yet played; there is no result exactly when every known mine is played |
| Soundness.ConsistentDisjoint | minesweeper.py:159-160 | knowledge true of some mine set never calls a cell both safe and a mine |
| Soundness.MarkSafesConsistent | minesweeper.py:228-230 | marking really safe cells keeps the knowledge true |
| Soundness.MarkSafeConsistent | minesweeper.py:176-183 | marking a really safe cell keeps the knowledge true |
| Soundness.MarkMineConsistent | minesweeper.py:165-174 | marking a real mine keeps the knowledge true |
| Soundness.ResidualHolds | minesweeper.py:232-240 | the residual sentence of a truthful count is true |
| Soundness.SubtractConsistent | minesweeper.py:272-290 | a conclusion drawn from a true difference keeps the knowledge true |
| Soundness.SplitCount | minesweeper.py:271-290 | the mines outside a contained set number the difference of the two counts |
| Soundness.InferConsistent | minesweeper.py:264-290 | one pass step from true sentences keeps the knowledge true |
| Soundness.PassConsistent | minesweeper.py:264-290 | the whole pass keeps the knowledge true |
| Soundness.ObserveSound | minesweeper.py:198-290 | with true knowledge, a mine-free cell and its true count, the status is `Ok` or a repeated move, never a contradiction, and the knowledge stays true |
| Soundness.ObserveKeepsDisjoint | minesweeper.py:198-290 | truthful play never calls a cell both safe and a mine |
| Game.Minesweeper.FromBoard | minesweeper.py:10-23 | the game is given its sizes and board, and the mines are the board's mined cells |
| Game.Minesweeper.IsMine | minesweeper.py:51-53 | a cell on the board is reported as a mine exactly when it is one |
| Game.Minesweeper.NearbyMines | minesweeper.py:55-78 | the count is the number of mines among the cell's neighbours, at most eight |
| Game.NonSquareBoardDisagrees | minesweeper.py:185-195 | on a board of one row and two columns, the player and the game give the corner different neighbours |
| Play.InitiallyConsistent | minesweeper.py:156-163 | a fresh player's knowledge is true of every board |
| Play.ReplaySound | minesweeper.py:198-290 | with the player bounding coordinates as the game does, on a board of any shape, mine-free cells played with their true counts never stop on a contradiction and keep the knowledge true; with no repeated cell, every move is accepted |
| Play.SquareReplaySound | minesweeper.py:185-195 | the player as written, on a square board, plays soundly |
| Play.NonSquareReplayUnsound | minesweeper.py:191 | the player as written, on the one-row board `[[False, True]]`, accepts the corner with count 1 and records the false sentence `{(1,0)} = 1` |
| Quirks.ExampleNeighbours | minesweeper.py:185-195 | the centre of the second column of a board two wide and three high has five neighbours |
| Quirks.ExampleIsTrue | minesweeper.py:87-96 | the example knowledge is true of the mine set {(0,0), (0,1), (0,2)} |
| Quirks.ExamplePlayed | minesweeper.py:218-222 | playing the centre cell records it and leaves the sentences as they were |
| Quirks.ExampleResidual | minesweeper.py:232-240 | the residual sentence of the example is all five neighbours with count 3 |
| Quirks.ExampleSettles | minesweeper.py:227-254 | the example observation passes every check and goes on to the pass |
| Quirks.ExampleReachesPass | minesweeper.py:254-262 | the residual sentence is appended and self-elimination changes nothing |
| Quirks.ExamplePass | minesweeper.py:264-290 | the first step marks (1,0) and (1,2) safe; the second still appends a sentence holding both |
| Quirks.DerivedSentenceKeepsKnownSafes | minesweeper.py:264-290 | in truthful play, a derived sentence can hold cells already marked safe by the same pass |
| Quirks.DerivedCountMayBeNegative | minesweeper.py:281-290 | nothing checks a derived count: a pair of sentences can append a sentence with count -1 |

## Left out

- Random mine placement (minesweeper.py:25-31) is left out. The game is built from a given board instead, because randomness cannot be modelled as a function.
- `Minesweeper.print`, `Sentence.__str__` and the diagnostic `print` calls in `add_knowledge` (36-49, 101-102, 214, 244, 249, 270) are left out because they are output only.
- `exit(1)` on a repeated move, a negative count, or mines in an empty set is modelled as a `Status` result. The state is as it was at the exit. For a repeated move it is unchanged. For the two contradictions, the cell is already recorded as played and marked safe (218-222). The model does not stop the process.
- The default sizes `height=8, width=8` of both constructors (10, 149) and the default `mines=8` are left out. Dafny has no default arguments, so the sizes are always given; the number of mines follows from the given board.
- `Minesweeper.won` and `mines_found` (34, 80-84) are left out because nothing in the player reads or updates them.
- `make_random_move` (313-328) is left out. It draws random cells until one is fresh.
- The `safe_marking` dictionary (147, 221, 229, 274, 284) is left out. It only records why a cell was marked, and it is never read.
- Python's negative indexes are left out. `is_mine` on a negative coordinate would read from the other end of a row; `Game.Minesweeper.IsMine` requires a cell on the board.
- Sentences are updated in place in the source. Here a sentence is a value and the list entry is replaced. No sentence is referenced from outside the knowledge list, so this changes nothing.
- The `count is None` decrement in the self-elimination loop (261-262) is left out. An observed count is always a number, so it never runs.
- The order in which Python iterates a set is left out. Loops over sets choose any element, so every proved property holds for every order.
- Agent.MinesweeperAI.AddKnowledge: its `ensures` states only that the result equals `Knowledge.Observe`. Its properties are proved as lemmas about `Observe` (the `Knowledge.Observe*` lemmas and `Soundness.ObserveSound`).

## Findings

| source | as written | input that shows it | evidently intended | confidence | as-written member | corrected member |
|---|---|---|---|---|---|---|
| minesweeper.py:118-119 | `known_safes` returns the cells only when the cell set is empty, so it never names a cell | the true sentence `{(0,0)} = 0` | return all cells when the count is 0, as the docstring says | high; not executed | Sentences.KnownSafes | Sentences.KnownSafesIntended |
| minesweeper.py:191 | `find_neighbors` bounds the first coordinate by the width and the second by the height, while the game (74) bounds the row by the height and the column by the width | board `[[False, True]]` (one row, two columns), cell `(0,0)` reported with 1 mine: the player records `{(1,0)} = 1`, which is false | bound the first coordinate by the height and the second by the width, as the game does | high; not executed | Play.NonSquareReplayUnsound | Play.ReplaySound |
