# Reward track advisor and sugar-glass altar optimiser, in Dafny

This project models the computational core of a small game helper web
application and proves properties of it. The application has two tools.

**The reward track.** A token moves along squares 0 to 16, and each square
carries a reward level. Each turn the player picks one of three moves:
- choice 1 moves 3 to 6 squares;
- choice 2 moves −3 to +2 squares and has limited uses;
- choice 3 moves 0 to 4 squares and has limited uses.

The application computes, for each choice, the probability of ending the
game on a square with the best reward, then marks one choice as the best.

**The altar page.** A 7×7 altar board has a fixed open 5×3 core, and the
player opens and closes cells around it. Pieces of sugar glass (a rarity,
a size, an attribute or role tag, and a shape) are placed on the open
cells to maximise a score. The score has a per-cell base and a bonus for
each of the role's attributes that reaches 9, 12, 15, 18 or 21 cells. Two
bounded backtracking searches look for a good layout: the page's own, and
a separate strategic optimiser.

Modules, in dependency order:

- `Wrappers` (wrappers.dfy): `Option`.
- `Lists` (lists.dfy): a stable sort by lexicographic key, filtering, and
  distinctness of keys. These are the list operations the JavaScript
  sources use (`sort` with a comparator, `filter`, `includes`, id sets).
- `RewardDp` (reward_dp.dfy): the probability table of the reward track.
  - `Value`, `Branch`, `PartialSum` and `Outcome` are the specification:
    the optimal probability and each choice's expectation.
  - The imperative four-dimensional table fill is proved to compute exactly
    these values.
  - Lemmas cover the bounds, the terminal and absorbing cases, the
    "best of the branches" recurrence, and monotonicity in remaining uses.
    They also show that an extra turn can lower the probability when an
    early square already holds the best reward (`TurnsCanHurt`). When
    only square 16 holds the best reward, an extra turn never lowers the
    probability (`MonotoneInTurns`).
- `ChoiceAdvice` (choice_advice.dfy): turns the three probabilities into
  the rows shown to the player, and picks the one marked best. A limited
  choice near the maximum is preferred, then the one with more uses left,
  then the lower index.
- `AltarBoard` (altar_board.dfy): the board, 4-neighbour adjacency, and
  path connectivity. It includes the breadth-first connectivity check
  (proved equal to connectivity), the click rule, and the "open all" and
  "close all" fixed-point loops with their termination measures.
- `Pieces` (pieces.dfy): rarities and their points, the role attributes,
  the rarities offered per size, the drawing-to-offsets shape conversion,
  the threshold bonus and the score.
- `Layout` (layout.dfy):
  - translating a shape to an anchor, and the placement test;
  - the mutable set of used cells (a class, with `Place` and `Remove`);
  - safe layouts: no overlap, every cell open.
- `PageSearch` (page_search.dfy): the page's partition of pieces and its
  bounded backtracking search (a class holding the best layout, the best
  score and the node counter).
- `Strategy` (strategy.dfy): the strategic optimiser's partition and its
  target plan:
  - the unique piece;
  - per-attribute fills up to 21 cells;
  - the efficiency order and the partial fills;
  - the final fill of the remaining cells;
  - the upper bound used to prune.
- `StrategicSearch` (strategic_search.dfy): the optimiser's budgeted
  backtracking (a class), the second phase, and the post-processing
  first-fit fill. `FindBestCombination` puts them together as the
  program does and proves the safety of the final layout:
  - no overlap, every cell open;
  - at most one unique piece in the search's layout, which the final
    layout extends with unused pieces;
  - every piece from the input, no id twice;
  - the reported score is the layout's score.

  Post-processing has no unique check, so the final layout can hold two
  unique pieces (see "## Findings"). `FindBestCombinationOneUnique` runs
  the same search with the check added and proves at most one.

Integers are unbounded, and probabilities are exact rationals (`real`).
The source's double-precision arithmetic is therefore modelled exactly. No
result depends on rounding except the 1e-9 tie tolerance, which is kept as
an exact constant.

## Model

| member | source | states |
|---|---|---|
| RewardDp.NextPos | src/App.jsx:423-448 | a landing square never passes 16; a move past 16 stops at 16; choice 2 also floors at 0, while choices 1 and 3 leave a negative square as it is |
| RewardDp.Clamp | src/App.jsx:464 | the start square is clamped into 0..16 and unchanged when already inside |
| RewardDp.MaxOf | src/App.jsx:377 | the best reward is an element of the reward array and no element exceeds it |
| RewardDp.Value | src/App.jsx:410-458 | every table entry (the optimal probability for turns, square and remaining uses) lies in [0, 1] |
| RewardDp.Branch | src/App.jsx:421-456 | each choice's expectation over its uniform moves lies in [0, 1] |
| RewardDp.PartialSum | src/App.jsx:422-428 | after k of a choice's moves the running sum lies between 0 and k times the move weight |
| RewardDp.Outcome | src/App.jsx:423-427 | the probability read for one landing (terminal indicator at 16, else the previous layer) lies in [0, 1] |
| RewardDp.Expectation | src/App.jsx:466-509 | the accumulation loop over a choice's moves returns exactly that choice's expectation from the filled table |
| RewardDp.Landing | src/App.jsx:472-476 | one landing reads the terminal indicator at square 16 and otherwise the previous turn's entry with the choice's uses decremented |
| RewardDp.ComputeCell | src/App.jsx:414-458 | one cell of the table is the terminal indicator at square 16 and otherwise the best of the enabled choices, i.e. the optimal probability |
| RewardDp.FillTerminalLayer | src/App.jsx:402-408 | after the first loop nest every entry of layer 0 is the terminal indicator |
| RewardDp.FillLayer | src/App.jsx:410-461 | each later layer is filled from the previous one so that every entry equals the optimal probability |
| RewardDp.CalculateBestRewardProbability | src/App.jsx:376-516 | choice 1 is always reported; choices 2 and 3 are reported exactly when their uses are positive. With no turns each reported value is the indicator of the capped start square holding the best reward; otherwise it is the choice's expectation at the clamped square |
| RewardDp.WeightsSumToOne | src/App.jsx:428-453 | the move weights 1/4, 1/6 and 1/5 times the number of moves each make 1 |
| RewardDp.TerminalCases | src/App.jsx:397-417 | with no turns left, or on square 16 whatever the turns, the value is the indicator of that square holding the best reward |
| RewardDp.ValueIsMaxOfBranches | src/App.jsx:419-458 | the table entry is at least every enabled choice's expectation and equal to one of them |
| RewardDp.ReportedMaxIsValue | src/App.jsx:466-515 | the largest of the reported probabilities is the table entry for the clamped start square |
| RewardDp.BranchAtLeast | src/App.jsx:421-456 | a choice's expectation is at least its weight times the outcome of any one of its moves |
| RewardDp.ScenarioFromStart | src/App.jsx:421-429 | when square 16 holds the best reward, choice 1 from square 0 with three turns wins with probability at least 1/64 (6, 6, then 4) |
| RewardDp.ScenarioAtLastSquare | src/App.jsx:380-504 | starting on square 16 when it holds the best reward: with no turns every offered choice reports 1; with turns left choices 1 and 3 report 1 and choice 2 at least 1/2 |
| RewardDp.MonotoneInTurns | src/App.jsx:410-458 | when only square 16 holds the best reward, one more turn never lowers the optimal probability |
| RewardDp.TurnsCanHurt | src/App.jsx:410-458 | when square 0 holds the best reward but no square 3 to 6 does, it is certain with no turns and impossible with one forced move: more turns can hurt |
| RewardDp.TurnsCanHurtExample | src/App.jsx:397-400 | such a reward array exists (best reward on squares 0 and 16 only) |
| RewardDp.MonotoneInUses | src/App.jsx:432-456 | more remaining uses of choices 2 and 3 never lower the optimal probability |
| ChoiceAdvice.DisabledRows | src/App.jsx:131-136 | after game over, or with no moves left, all three rows are disabled with that reason and none is marked |
| ChoiceAdvice.CandidatesFrom | src/App.jsx:190-192 | the candidates are exactly the offered rows |
| ChoiceAdvice.MaxProbability | src/App.jsx:215 | the maximum is some candidate's probability and no candidate's is larger |
| ChoiceAdvice.Top | src/App.jsx:216-218 | the top candidates are exactly those within 1e-9 of the maximum |
| ChoiceAdvice.Priority | src/App.jsx:220-222 | the priority candidates are exactly the top ones for choices 2 and 3 |
| ChoiceAdvice.PickHighestRemain | src/App.jsx:224-232 | the reduction returns a listed row with the most uses left, and the lowest index among those with that many |
| ChoiceAdvice.PickLowestIndex | src/App.jsx:234-238 | the reduction returns the lowest listed index |
| ChoiceAdvice.MarkBest | src/App.jsx:245-254 | exactly the chosen row is marked, every other mark is cleared, nothing else changes |
| ChoiceAdvice.MaxOffered | src/App.jsx:215 | the largest offered probability is attained and bounds every offered row |
| ChoiceAdvice.BestIndexChoice | src/App.jsx:188-243 | no row is chosen iff none is offered; the chosen row is within 1e-9 of the maximum; a limited choice near the maximum wins over choice 1, then the one with more uses left, then the lower index; with no limited choice near the maximum the lowest index wins |
| ChoiceAdvice.BestIndexIgnoresMarks | src/App.jsx:188-243 | the tie-break reads only each row's choice and status, so marking a row does not change the choice |
| ChoiceAdvice.AdviseMarksOne | src/App.jsx:205-254 | with an offered row exactly one row is marked and it is offered; with none, no row is marked; choices and statuses are unchanged |
| ChoiceAdvice.MapResultsOffered | src/App.jsx:147-186 | choice 1 is offered with its probability; choices 2 and 3 are offered iff their uses remain, and are otherwise disabled for exhausted uses |
| ChoiceAdvice.AdviseChoices | src/App.jsx:130-254 | the rows for a game state: disabled after game over or with no moves; otherwise each offered probability is the choice's expectation at the clamped square with the effective moves, and exactly one row is marked best, the one the tie-break `BestIndex` chooses on the rows shown |
| AltarBoard.InitialBoard | src/PuzzlePage.jsx:65-81 | the initial board is a 7×7 grid whose open cells are exactly the core (rows 2 to 4, columns 1 to 5) |
| AltarBoard.SetCell | src/PuzzlePage.jsx:332-344 | writing one cell of the board copy sets that cell and changes no other |
| AltarBoard.Neighbour | src/PuzzlePage.jsx:259-264 | each of the four directions gives an adjacent cell |
| AltarBoard.AdjacentIsNeighbour | src/PuzzlePage.jsx:259-264 | every adjacent cell is one of the four directions |
| AltarBoard.HasAdjacentOpen | src/PuzzlePage.jsx:258-279 | true iff some in-bounds 4-neighbour is open |
| AltarBoard.OpenKeepsConnected | src/PuzzlePage.jsx:335-341 | opening a closed cell next to an open one keeps a connected board connected |
| AltarBoard.OpenCellsRowMajor | src/PuzzlePage.jsx:283-291 | the collected cells are exactly the open cells, in row-major order |
| AltarBoard.IsAllConnected | src/PuzzlePage.jsx:281-324 | the breadth-first search answers true iff every two open cells are joined by a path of open cells (true with no open cells) |
| AltarBoard.SearchOutcome | src/PuzzlePage.jsx:320-323 | the visited count equals the open count iff the board is connected |
| AltarBoard.CloseThenReopen | src/PuzzlePage.jsx:410-416 | the tentative close followed by the revert restores the board |
| AltarBoard.OpeningShrinksClosed | src/PuzzlePage.jsx:371-375 | opening a cell lowers the number of closed cells by one |
| AltarBoard.ClosingShrinksOpen | src/PuzzlePage.jsx:410-413 | closing a cell lowers the number of open cells by one |
| AltarBoard.InitialValid | src/PuzzlePage.jsx:65-81 | the initial board is valid: connected, with the core open |
| AltarBoard.CellClick | src/PuzzlePage.jsx:327-352 | core cells never change; a closed cell opens iff it has an open neighbour; an open cell closes iff the board stays connected; an accepted click flips just that cell, a rejected one changes nothing; validity is kept |
| AltarBoard.SaturatedIsFull | src/PuzzlePage.jsx:355-383 | with the core open and no closed cell next to an open one, every cell is open |
| AltarBoard.OpenAll | src/PuzzlePage.jsx:355-383 | only opens cells outside the core; ends with no closed cell next to an open one; reports a change iff the board changed; keeps validity; with the core open, opens all 49 cells |
| AltarBoard.OpenSweep | src/PuzzlePage.jsx:363-377 | one pass only opens cells, keeps connectivity, and either opens something (fewer closed cells) or finds the board saturated |
| AltarBoard.CloseAll | src/PuzzlePage.jsx:386-424 | only closes cells outside the core; ends when no cell can be closed without disconnecting; a connected board stays connected; reports a change iff the board changed |
| AltarBoard.CloseSweep | src/PuzzlePage.jsx:392-418 | one pass keeps connectivity, reverting every close that disconnects, and either closes something (fewer open cells) or finds nothing closable |
| AltarBoard.OpenOutsideCore | src/PuzzlePage.jsx:395-405 | the cells to check are exactly the open cells outside the core, in row-major order |
| Pieces.RarityScore | src/PuzzlePage.jsx:47-52 | each rarity's points per cell lie between 30 and 250 |
| Pieces.RarityOrder | src/PuzzlePage.jsx:637-639 | the rarity ranks are 1 to 4 |
| Pieces.OrderAgreesWithScore | src/PuzzlePage.jsx:47-52 | the rank order and the points order agree, and distinct rarities have distinct ranks |
| Pieces.AllAttributesComplete | src/PuzzlePage.jsx:55 | the attribute list holds all seven attributes |
| Pieces.JobAttributes | src/PuzzlePage.jsx:58-62 | every role has at least two attributes |
| Pieces.AttributeHasOneRole | src/PuzzlePage.jsx:58-62 | every attribute belongs to exactly one role |
| Pieces.AvailableRarities | src/PuzzlePage.jsx:1577-1588 | the offered rarities are non-empty and in ascending rank; unique is offered iff the size is not 1 to 5; size 8 offers only unique |
| Pieces.RowOnesProperties | src/PuzzlePage.jsx:87-91 | the scan of one row collects exactly its 1 entries, in column order |
| Pieces.RawCoordsProperties | src/PuzzlePage.jsx:86-92 | the scan collects exactly the 1 entries of the drawing, in row-major order |
| Pieces.MinRow | src/PuzzlePage.jsx:95 | the minimum row is attained and is at most every row |
| Pieces.MinCol | src/PuzzlePage.jsx:96 | the minimum column is attained and is at most every column |
| Pieces.Shape2DToCoords | src/PuzzlePage.jsx:84-98 | the conversion loop returns the normalised offsets of the drawing's 1 entries |
| Pieces.ShapeCoordsCoverOnes | src/PuzzlePage.jsx:84-98 | every 1 entry yields its shifted offset |
| Pieces.ShapeCoordsFromOnes | src/PuzzlePage.jsx:84-98 | every offset comes from a 1 entry, shifted by the minima |
| Pieces.ShapeCoordsDistinct | src/PuzzlePage.jsx:84-98 | the offsets are pairwise distinct |
| Pieces.ShapeCoordsAnchored | src/PuzzlePage.jsx:93-97 | a non-empty result has minimum row 0 and minimum column 0, and no negative offset |
| Pieces.ShapeCoordsEmpty | src/PuzzlePage.jsx:94 | the result is empty iff the drawing has no 1 entry |
| Pieces.ThresholdBonus | src/PuzzlePage.jsx:519-524 | the bonus of one attribute is a multiple of 265 between 0 and 1325 |
| Pieces.FiveThresholds | src/PuzzlePage.jsx:519-524 | the bonus is 265 for each of 9, 12, 15, 18 and 21 reached |
| Pieces.ThresholdBonusValues | src/PuzzlePage.jsx:519-524 | 21 cells or more give 1325, 8 give 0, 9 and 11 give 265, 12 gives 530, 20 gives 1060 |
| Pieces.ThresholdBonusMonotone | src/PuzzlePage.jsx:519-524 | more cells never give less bonus |
| Pieces.CalculateScore | src/PuzzlePage.jsx:494-534 | the base is the sum of points times size; only 1 to 5-cell pieces count for attributes; the bonus sums the role attributes' threshold bonuses; the total is base plus bonus |
| Pieces.ScoreAppend | src/PuzzlePage.jsx:502-509 | one more piece adds its points times size to the base and its size to its attribute's count when it has 1 to 5 cells |
| Pieces.BonusOverBounds | src/PuzzlePage.jsx:517-526 | the bonus over listed attributes is at most 1325 per role attribute and zero with no pieces |
| Pieces.BonusScoreBounds | src/PuzzlePage.jsx:514-526 | the total bonus is between 0 and 1325 times the number of role attributes, and zero with no pieces |
| Layout.Translate | src/PuzzlePage.jsx:540-542 | the translated shape has one cell per offset |
| Layout.UsedCells.Place | src/PuzzlePage.jsx:559-569 | placing adds exactly the translated cells to the used set and returns them |
| Layout.UsedCells.Remove | src/PuzzlePage.jsx:572-577 | removing deletes exactly the given cells from the used set |
| Layout.RemoveUndoesPlace | src/PuzzlePage.jsx:559-577 | removing a placement that was allowed restores the used set |
| Layout.CanPlacePiece | src/PuzzlePage.jsx:537-556 | true iff the piece has a shape and every translated cell is inside the 7×7 grid, open, and not used |
| Layout.SafeCellsOpen | src/PuzzlePage.jsx:545-548 | every cell of a safe layout is open |
| Layout.ExtendSafe | src/PuzzlePage.jsx:537-569 | appending an allowed placement keeps the layout safe and adds exactly its cells |
| Layout.UniqueCountAppend | src/PuzzlePage.jsx:973 | one more piece adds one to the unique count exactly when it is unique |
| PageSearch.PartitionSplits | src/PuzzlePage.jsx:618-645 | a piece with a shape is role-matching or not, never both, and in one of them iff its size is 8 or at most 5; both lists are sorted by rarity then size, descending |
| PageSearch.Anchors | src/PuzzlePage.jsx:941-946 | the anchors are exactly the open cells where the piece can be placed |
| PageSearch.PossiblePositions | src/PuzzlePage.jsx:941-946 | the collection loop returns those anchors in open-cell order |
| PageSearch.SortedAnchors | src/PuzzlePage.jsx:941-954 | the same anchors ordered by Manhattan distance to (3, 3) |
| PageSearch.PlaceStep | src/PuzzlePage.jsx:963-974 | placing the next piece at an allowed anchor keeps the layout safe and raises the unique count only for a unique piece |
| PageSearch.BacktrackSearch.Backtrack | src/PuzzlePage.jsx:915-976 | the best score never falls, the best layout changes only for a strictly higher score, the node counter grows and stays bounded, and the best layout stays safe with at most one unique piece |
| PageSearch.BacktrackSearch.RecordLayout | src/PuzzlePage.jsx:922-928 | at the end of the pieces the layout replaces the best one exactly when its total is strictly higher |
| PageSearch.BacktrackSearch.TryPositions | src/PuzzlePage.jsx:958-975 | trying the first anchors in turn keeps the best layout safe with at most one unique piece, never lowers the best score, replaces the best layout only for a higher score, and keeps the node counter within its bound |
| PageSearch.BacktrackSearch.PlaceAt | src/PuzzlePage.jsx:963-974 | placing on a fresh copy of the used cells and recursing keeps the best layout safe, counts at least one node, and never lowers the best score |
| PageSearch.SolveWithBacktracking | src/PuzzlePage.jsx:895-981 | the returned layout is safe, holds at most one unique piece, takes every piece from the input and, with distinct ids, none twice |
| Strategy.MatchingPieces | src/puzzle_algorithm.js:33-38 | the role pieces are exactly the shaped pieces that are 8-cell for the role or for all roles, or 1 to 5-cell with a role attribute |
| Strategy.NonMatchingPieces | src/puzzle_algorithm.js:41-47 | the leftover pieces are exactly the shaped pieces that are not 8-cell and not role pieces |
| Strategy.PartitionProperties | src/puzzle_algorithm.js:33-47 | no leftover piece has 8 cells; no piece is in both lists; a shaped piece is in one of them iff it is not an 8-cell piece of another role |
| Strategy.PartitionDistinct | src/puzzle_algorithm.js:33-47 | with distinct ids in the input, the two lists together hold distinct ids |
| Strategy.GreedyFillFits | src/puzzle_algorithm.js:227-257 | a greedy fill never takes the cell count past its cap |
| Strategy.GreedyFillFrom | src/puzzle_algorithm.js:227-257 | a greedy fill takes pieces only from its input, and none twice |
| Strategy.GreedyRejected | src/puzzle_algorithm.js:231 | a piece that the stopping fill passes over would not have fit after the pieces it kept |
| Strategy.GreedyNothingFits | src/puzzle_algorithm.js:227-257 | when no piece fits the cells left, the fill is empty |
| Strategy.ScanBestFirstMax | src/puzzle_algorithm.js:179-194 | the scan keeps the first candidate of strictly largest value, or nothing when no value exceeds the start |
| Strategy.ScanBestAppend | src/puzzle_algorithm.js:179-194 | scanning two lists in turn is scanning their concatenation |
| Strategy.ChooseUnique | src/puzzle_algorithm.js:171-201 | the chosen unique piece is the first of largest points times size, the role's own 8-cell pieces scanned before the all-role ones, and it is an 8-cell role piece |
| Strategy.CappedCellsIsMin | src/puzzle_algorithm.js:90-98 | the capped cell count is the total size cut at 21 |
| Strategy.ChainBonus | src/puzzle_algorithm.js:261-266 | the else-if bonus chain equals 265 per threshold reached |
| Strategy.AttributePriority | src/puzzle_algorithm.js:79-112 | an attribute's priority record counts at most 21 cells, scores each counted cell, and adds the threshold bonus |
| Strategy.TwoPassProperties | src/puzzle_algorithm.js:221-258 | the two filling passes keep at most 21 cells, take only the attribute's pieces, none twice, and amount to one greedy pass |
| Strategy.InfoIsWellChosen | src/puzzle_algorithm.js:207-277 | an attribute's record lists its unused pieces within 21 cells and scores them with the bonus |
| Strategy.AttributeTarget | src/puzzle_algorithm.js:208-277 | the loop builds exactly that record for one attribute |
| Strategy.FillPass | src/puzzle_algorithm.js:227-257 | one pass appends the greedy fill and keeps the cells, base score and high-rarity cells in step |
| Strategy.AttributeTargets | src/puzzle_algorithm.js:207-277 | one well-chosen record per role attribute, in the role's order, no attribute twice |
| Strategy.JobAttributesDistinct | src/PuzzlePage.jsx:58-62 | a role's attribute list has no repeats |
| Strategy.IdSetAppend | src/puzzle_algorithm.js:332-335 | the ids of two lists joined are the union of their ids |
| Strategy.AddPieces | src/puzzle_algorithm.js:352-357 | adding a block appends it to the targets, its ids to the used ids, and its size to the used cells |
| Strategy.PartialFill | src/puzzle_algorithm.js:315-323 | the partial fill is the non-stopping greedy fill of the attribute's pieces into the cells left |
| Strategy.PursueTargets | src/puzzle_algorithm.js:300-369 | the loop over attributes in efficiency order builds exactly the plan, and keeps used cells and ids in step |
| Strategy.PursueBounds | src/puzzle_algorithm.js:300-369 | stage 3 only extends the targets and never takes their size past the open cells (or the size already used) |
| Strategy.PursueSources | src/puzzle_algorithm.js:300-369 | every target added comes from some attribute's record |
| Strategy.PursueTargetCells | src/puzzle_algorithm.js:326-350 | every attribute target set in stage 3 belongs to a listed attribute and is at most 21 cells |
| Strategy.PursueDistinct | src/puzzle_algorithm.js:300-369 | with distinct role-piece ids, stage 3 adds no id twice |
| Strategy.RaiseAllProperties | src/puzzle_algorithm.js:399-405 | raising targets changes no key, caps a raised target at 30, and never lowers one |
| Strategy.FillRemaining | src/puzzle_algorithm.js:371-417 | stage 4 adds the greedy fill of the unused role pieces into the cells left and raises the targets for each |
| Strategy.FillAndRaise | src/puzzle_algorithm.js:387-406 | the fill loop adds exactly the non-stopping greedy fill and raises the targets piece by piece |
| Strategy.RaiseTarget | src/puzzle_algorithm.js:399-405 | one piece raises its attribute's target by its size, up to 30, when the attribute has one |
| Strategy.CalculateOptimalStrategy | src/puzzle_algorithm.js:159-432 | the plan holds the chosen unique piece first, takes only role pieces, none twice, never more cells than are open (besides the unique piece), targets only role attributes with at most 30 cells, and ends with the stage-4 pieces |
| Strategy.StageOne | src/puzzle_algorithm.js:171-201 | stage 1 starts the targets with the chosen unique piece, if any |
| Strategy.PlanAttributes | src/puzzle_algorithm.js:205-417 | stages 2 to 4 only extend the targets, within the open cells, with role pieces and no id twice |
| Strategy.PursueAttributes | src/puzzle_algorithm.js:205-369 | stages 2 and 3 only extend the targets, within the open cells, and each target is at most 21 cells |
| Strategy.FillCells | src/puzzle_algorithm.js:371-417 | stage 4 appends role pieces within the cells left, no id twice, and keeps every target at most 30 |
| Strategy.StageThree | src/puzzle_algorithm.js:280-369 | stage 3 in efficiency order extends the targets within the open cells, with role pieces, no id twice, and targets of at most 21 |
| Strategy.StageFour | src/puzzle_algorithm.js:371-417 | the stage-4 pieces fit the cells left, are unused role pieces, and the raised targets stay at most 30 |
| Strategy.UpperBound | src/puzzle_algorithm.js:437-477 | the bound computed by the loop is the current score plus the estimated pieces' points and their attributes' bonus |
| Strategy.EstimateScore | src/puzzle_algorithm.js:442-461 | the estimate loop adds each taken piece's points and its size to its role attribute's count |
| Strategy.AddAttributeCells | src/puzzle_algorithm.js:455-458 | a 1 to 5-cell role piece adds its size to its attribute's count |
| Strategy.EstimateWithin | src/puzzle_algorithm.js:448-461 | the estimate never uses more than the cells left and takes at most one unique piece, none if one is already placed |
| Strategy.EstimateFrom | src/puzzle_algorithm.js:448-461 | the estimate takes only remaining pieces |
| Strategy.UpperBoundAtLeastCurrent | src/puzzle_algorithm.js:437-477 | the bound is never below the current score, and equals it when no pieces or no cells remain |
| Strategy.ImprovementNotPruned | src/puzzle_algorithm.js:524-529 | a branch whose bound beats the best score is never pruned |
| StrategicSearch.NearThresholdRange | src/puzzle_algorithm.js:603-607 | a count within 3 of 9, 12, 15, 18 or 21 is exactly a count from 6 to 24 |
| StrategicSearch.AnchorLimit | src/puzzle_algorithm.js:596-613 | the number of anchors tried is 5, 7, 8, 10 or all of them, never more than are available or than 10, and at least 5 when there are 5 |
| StrategicSearch.TenAnchorsOnlyNearThreshold | src/puzzle_algorithm.js:598-611 | ten anchors are tried only for a 1 to 5-cell role piece that brings its attribute within 3 of a threshold |
| StrategicSearch.ImprovementSurvives | src/puzzle_algorithm.js:510-534 | a layout that beats the best score is never pruned |
| StrategicSearch.Search.Backtrack | src/puzzle_algorithm.js:503-548 | the best score never falls, the best layout changes only for a strictly higher score, every call counts a node and returns at once past 1000000, and the best score is at least the current layout's when the node budget is not spent |
| StrategicSearch.Search.Record | src/puzzle_algorithm.js:531-544 | the current layout replaces the best one exactly when its score is strictly higher, and otherwise nothing changes |
| StrategicSearch.Search.Branch | src/puzzle_algorithm.js:550-572 | the skip of a second unique piece or of a role piece whose attribute target is met, followed by placement, keeps the best layout safe, never lowers the best score, and keeps the node counter within its bound |
| StrategicSearch.Search.Place | src/puzzle_algorithm.js:574-653 | collecting and sorting the anchors, trying the allowed number of them and then the optional skip keeps the best layout safe, never lowers the best score, and keeps the node counter within its bound |
| StrategicSearch.Search.TryAnchors | src/puzzle_algorithm.js:616-639 | the anchors are tried in order; the loop stops early only once the node budget is spent; the best score never falls |
| StrategicSearch.Search.PlaceAt | src/puzzle_algorithm.js:621-638 | placing on a fresh copy of the used cells, updating the counts and recursing keeps the best layout safe, counts at least one node, and never lowers the best score |
| StrategicSearch.FirstFitIndex | src/puzzle_algorithm.js:823-824 | the first open cell, in row-major order, where the piece fits; no earlier cell fits |
| StrategicSearch.FindFirstFit | src/puzzle_algorithm.js:823-845 | the scan over the open cells stops at that first fitting cell |
| StrategicSearch.FillNextSafe | src/puzzle_algorithm.js:820-851 | one fill step keeps the layout safe and either leaves it alone or appends the piece; with the unique guard it never brings the unique count above one; a piece is appended only when the used cells plus its size stay within the open cells, and it adds at most its shape's cells |
| StrategicSearch.FillKeepsSafe | src/puzzle_algorithm.js:820-851 | the whole fill keeps the layout safe, only appends pieces of its input, and with the unique guard keeps at most one unique piece |
| StrategicSearch.FillWithinTotal | src/puzzle_algorithm.js:820-845 | the cell budget of the whole fill: when no shape has more cells than its piece's size, the used cells never exceed the open-cell count, or the count already used if that was higher |
| StrategicSearch.FillNextDistinct | src/puzzle_algorithm.js:820-851 | one fill step adds only its own piece and keeps ids distinct when that id is unused |
| StrategicSearch.FillKeepsDistinct | src/puzzle_algorithm.js:794-851 | a fill of unused pieces with distinct ids keeps the layout's ids distinct |
| StrategicSearch.FirstFitLoop | src/puzzle_algorithm.js:820-851 | the loop over the pieces builds exactly the first-fit fill, keeps the used cells in step, and counts the pieces and points added |
| StrategicSearch.FillOne | src/puzzle_algorithm.js:820-848 | one iteration of that loop performs one fill step and keeps the counters in step |
| StrategicSearch.PlaceFirstFit | src/puzzle_algorithm.js:820-845 | a piece is added at its first fitting cell exactly when it fits the cell count, and otherwise nothing changes |
| StrategicSearch.NoNonMatchingTargets | src/puzzle_algorithm.js:488-495 | every target piece is a role piece, so the second phase has nothing to place |
| StrategicSearch.PhaseTwo | src/puzzle_algorithm.js:702-776 | the second phase only appends leftover target pieces to a safe first-phase layout; its score is never lower, and a changed layout has a strictly higher score |
| StrategicSearch.PhaseTwoFill | src/puzzle_algorithm.js:715-771 | the second phase's loop returns either the first-phase layout or its first-fit fill with the leftover targets sorted by points, the fill only when its score is strictly higher; the result is safe |
| StrategicSearch.PostOrderProperties | src/puzzle_algorithm.js:794-815 | the post-processing order holds exactly the unused pieces of both lists; pieces that fit the cells left come first, then role pieces |
| StrategicSearch.PostProcess | src/puzzle_algorithm.js:783-865 | post-processing fills the cells left with the unused pieces in that order, with the unique guard as a parameter (off as in the program), and the score is rescored from the result |
| StrategicSearch.FillLeftCells | src/puzzle_algorithm.js:817-858 | the fill of the cells left, guarded or not as the parameter says, and its rescoring |
| StrategicSearch.PostFillProperties | src/puzzle_algorithm.js:783-851 | the post-processed layout is safe, keeps the search's layout as its prefix, adds only unused pieces of either list and keeps ids distinct; with the unique guard it holds at most one unique piece |
| StrategicSearch.PostFillAllowsSecondUnique | src/puzzle_algorithm.js:820-845 | on the fully open board, post-processing as written puts a second unique piece on a search layout that already holds one; with the guard it does not |
| StrategicSearch.SearchTargets | src/puzzle_algorithm.js:662-666 | the first phase, searching from the empty layout with zero counts, returns a safe layout with at most one unique piece, drawn from the targets in order, whose score is the returned non-negative score |
| StrategicSearch.FindBestCombination | src/puzzle_algorithm.js:4-865 | the final layout is safe, takes every piece from the input and, with distinct ids, none twice; the search's layout is its prefix with at most one unique piece, and every later piece was unused; the score returned is the layout's score |
| StrategicSearch.FindBestCombinationOneUnique | src/puzzle_algorithm.js:820-845 | with the unique guard added to post-processing, the final layout also holds at most one unique piece |
| StrategicSearch.SearchAndFill | src/puzzle_algorithm.js:656-865 | the search then post-processing, guarded or not: the properties of both entry points, the unique bound when guarded |
| StrategicSearch.SearchOutcome | src/puzzle_algorithm.js:656-865 | the final layout is safe, extends the search's layout with unused pieces only, takes its pieces from the input and none twice; with the guard it has at most one unique piece |

## Left out

- Rendering, themes, colours, help text, and the React state and effect wiring are left out. They are user interface only.
- Browser side effects are left out: `localStorage`, `alert`/`confirm` and `setTimeout`. A rejected click is returned as an unchanged board plus a reason value (`ClickOutcome`).
- The `console.log` diagnostics are left out. They have no behaviour.
- The wall-clock budgets (`Date.now()` and `MAX_TIME`) are left out because they are not deterministic. The node counters (100000 and 1000000) are kept.
- `game.js` is not part of this model. The reward array, the move limit of the mode, the position and the uses left are parameters of `ChoiceAdvice.AdviseChoices`.
- The tie-break repeated in the probability tool (src/App.jsx:592-658) is the same selection. The same `ChoiceAdvice` functions model it.
- Floating point is modelled with exact rationals and integers:
  - The move weights 0.25, 1/6 and 0.2 are exact.
  - The tie tolerance is exactly 1e-9.
  - The 95% pruning threshold is `20 * bound < 19 * best`.
  - The `toFixed` display is left out.
- The page's other search routines are left out: the branch-and-bound solver, which is never called, the A* search, and `calculateOptimalTarget` with its attempt loop. Only `solveWithBacktracking` and the partition feeding it are modelled.
- Piece ids are given naturals; their creation from the clock is left out. Distinctness of ids is a hypothesis where a result depends on it.
- The `expectedScore` fields of the strategy are left out. They are reporting only and do not steer the search.
- `PageSearch.BacktrackSearch.Backtrack`, `StrategicSearch.Search.Backtrack` and `StrategicSearch.FindBestCombination`: no optimality is stated. Both searches are heuristic and bounded, so only safety, monotone best scores and the node budget are proved.
- `StrategicSearch.FindBestCombination` does not run the second phase. Every target piece is a role piece (`StrategicSearch.NoNonMatchingTargets`), so its guard is never true. The phase is modelled on its own (`StrategicSearch.PhaseTwo`).
- `StrategicSearch.Search.Backtrack` computes the first-phase flag once, when the search is built; the source recomputes the same value at every node.
- The count of used cells after the first phase is modelled as the size of the set of placed cells. On a safe layout, which has no overlap, this equals the source's sum of placed-cell list lengths.
- Attribute counts iterate over the role's attributes, not over the entries of the count object. The object holds every attribute, and only role attributes earn a bonus, so the result is the same.
- Membership tests written with `includes` on object lists (`matchingPieces.includes(p)`) are modelled as value membership.
- StrategicSearch.FillWithinTotal: takes as a hypothesis that no shape has more cells than its piece's size. The shape table (`PIECE_SHAPES`, src/PuzzlePage.jsx:101) that gives each size its shapes is not part of this model, and pieces carry their size and shape separately.
- The piece ordering `sortedPieces` (src/puzzle_algorithm.js:125-153) is left out. It is built and only logged. Its in-place sort of the non-role pieces by rarity, then size, does not change the later post-processing order, whose key already orders by rarity and size.
- The mutable `bestAttributeCounts` of the optimiser is not kept; it is recomputable from the best layout by `Pieces.CalculateScore`.

## Findings

| source | as written | input that shows it | evidently intended | confidence | as-written member | corrected member |
|---|---|---|---|---|---|---|
| src/puzzle_algorithm.js:820-845 | post-processing adds any unused piece that fits the cell count and some open cell, with no check on unique pieces | all 49 cells open (what "open all" gives); the search's layout is a Dealer unique 2×4 piece on rows 2 and 3, columns 0 to 3; the unused all-roles unique 2×4 piece is then placed at (0, 0) on rows 0 and 1, giving two unique pieces | at most one unique piece in the final layout, as the backtracking enforces | not executed | StrategicSearch.PostFillAllowsSecondUnique | StrategicSearch.FindBestCombinationOneUnique |
