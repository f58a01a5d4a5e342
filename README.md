# Minesweeper solver engine, modelled in Dafny

This project models the engine of a Minesweeper bot and proves properties of the model. It has two parts:

- the `Grid` class of `minesweeper.js`: board state, mine placement, reveal with flood fill, flagging, periphery regions and the exhaustive probability computation;
- the move policy of `engine.js`: the random opening move, the two local deduction rules, the probabilistic "tank" move and the dispatch between them.

Both sources are imperative. The model is too: `Board.Grid` is a class whose methods update its fields in place, and the engine's functions are methods that take the grid.

## Modules

- `Cells` (cells.dfy) holds coordinates and the fixed visiting orders of the static iterators:
  - `forEachNeighbor`, `forEachInSquare` and `forEachCrossNeighbor`;
  - `forWholeGrid`, which runs column by column, x outermost;
  - the per-square order of `isValidConfiguration`;
  - the source's row flip `height - y - 1`.
- `Counter` (counter.dfy) models `nextPermutation` as a little-endian binary counter, and `numMinesInConfig`.
- `Probability` (probability.dfy) holds probabilities as pairs `Ratio(mineCount, totalConfigs)`.
  - JavaScript's `===` and `<=` on the quotient are modelled exactly. A zero denominator is JavaScript's NaN, which equals nothing and compares false.
  - It also defines the best-guess scan, and the per-cell tallies and their meaning.
- `Marks` (marks.dfy) models the scratch layer as values:
  - the unmarking and configuration-marking rules;
  - the indicator checks of `isValidConfiguration`;
  - the verdict of every enumerated configuration;
  - the probability `computeProbabilities` assigns, and what it means.
- `Board` (board.dfy) is the `Grid` class itself.
  - It holds three `array2<int>` layers `master`, `display` and `periphery`, indexed `[x, y]`.
  - It holds `flags`, `squaresLeft` and `firstPop`, plus the globals `gameOver` and `gameWin`.
  - The random stream is the field `rand`.
- `Engine` (engine.dfy) holds `makeRandomMove`, `makeBasicSolverMove`, `makeTankSolverMove` and `makeBestMove`.

## Invariants

The invariants the methods keep are these:

- `Valid`, the bookkeeping invariant:
  - `squaresLeft` is the number of unrevealed cells;
  - every revealed cell shows its ground truth;
  - before the first pop the board is empty and nothing is revealed.
- `Truthful`: every non-mine ground-truth cell holds the number of adjacent mines.
- `FlagBook`: `flags` plus the number of flagged cells is the mine count.
- `MarksOK`: marks 1, 2 and 100 lie only on hidden unflagged cells, and -1 only on indicators.

## Source quirks

The source's quirks are modelled as written:

- **Row flip.** Cell (x, y) is stored at row `height - y - 1`. `Cells.StorageRowInvolution` proves this flip is a bijection, so the model indexes `[x, y]` directly.
- **Retry draw.** `makeRandomMove` redraws `y` scaled by the width (engine.js:11). The retry loop only runs when the first draw hits a revealed cell. That cannot happen while `firstPop` holds, and `makeBestMove` only calls the random move then.
- **Truncation.** The cut of a region to 15 cells resets the start cell's mark, not the dropped cell's.
- **Clearing -1 marks.** `applyConfiguration` clears every -1 mark each time it runs, once per region square.
- **Skipped indicators.** Indicators next to both a 1-mark and a 2-mark are skipped by the check.
- **Win check.** The win check only runs on the indicator branch of `pop`.
- **Flag toggling.** `flag` toggles, so a tank candidate of probability 1 met twice is flagged and then unflagged.
- **Out-of-bounds flag.** `flag` out of bounds still decrements `flags`.

## Model

| member | source | states |
|---|---|---|
| Cells.Neighbors | minesweeper.js:498-506 | eight distinct cells, exactly those adjacent to (x, y), the cell itself excluded |
| Cells.Square | minesweeper.js:508-514 | nine distinct cells, exactly the 3x3 block around (x, y) |
| Cells.Cross | minesweeper.js:516-521 | four distinct cells, exactly the orthogonal neighbours |
| Cells.CheckOrder | minesweeper.js:279-281 | the four orthogonal neighbours, in the order the configuration check meets them |
| Cells.AdjacentSymmetric | minesweeper.js:498-506 | b is a neighbour of a exactly when a is a neighbour of b |
| Cells.WholeGridExact | minesweeper.js:523-529 | the whole-grid scan visits every in-bounds cell exactly once and nothing else |
| Cells.CellsCard | minesweeper.js:28 | the board has width * height cells, the initial `squaresLeft` |
| Cells.StorageRowInvolution | minesweeper.js:407-440 | the storage row flip maps [0, height) onto itself and is its own inverse |
| Cells.CountInDistinct | minesweeper.js:157-175 | counting the cells of a distinct list that lie in a set gives the size of their intersection |
| Cells.GridCount | minesweeper.js:383-391 | counting over the whole grid gives the size of any on-board set |
| Cells.SelectFacts | minesweeper.js:393-401 | keeping the scanned cells that lie in a set keeps exactly those cells, without repeats |
| Counter.NextPermutation | minesweeper.js:313-327 | the flag returned and the new configuration are the counter step `Next` of the old one |
| Counter.NextIncrements | minesweeper.js:313-327 | the step adds one to the configuration read little-endian; it returns false exactly when all entries were true, and then all entries are false |
| Counter.NextAt | minesweeper.js:315-324 | a run of trues ending in a false becomes falses ending in a true, the rest untouched, and the step returns true |
| Counter.NextAllTrue | minesweeper.js:315-326 | all-true wraps to all-false and the step returns false |
| Counter.FromValueValue | minesweeper.js:313-327 | reading back the k-th configuration gives k, for every k below 2^n |
| Counter.ValueFromValue | minesweeper.js:313-327 | every configuration is the configuration of its own value |
| Counter.AllFalseValue | minesweeper.js:342-345 | the initial all-false configuration is configuration 0 and holds no mine |
| Counter.StepFromValue | minesweeper.js:347-351 | from configuration k, the do-while goes on to configuration k + 1 exactly while k + 1 < 2^n |
| Counter.EnumerationExact | minesweeper.js:347-351 | the 2^n configurations visited are pairwise different and every boolean vector of length n is one of them |
| Counter.CountTrueBound | minesweeper.js:261-269 | a configuration holds no more mines than it has entries |
| Counter.NumMinesInConfig | minesweeper.js:261-269 | the count returned is the number of true entries |
| Probability.LessEqTrans | engine.js:64-65 | `<=` on probabilities is transitive |
| Probability.LessEqTotal | engine.js:64-65 | any two probabilities that are numbers compare one way or the other |
| Probability.BelowHundred | engine.js:33 | every probability that is a number is `<=` the initial minimum 100 |
| Probability.ScanInvariant | engine.js:52-68 | finishing the minimum scan from any consistent midpoint gives the last candidate of lowest probability, or none when every probability left is NaN and none was chosen |
| Probability.GuessIsLastMinimal | engine.js:64-67 | the guess is none exactly when every probability is NaN; otherwise it is a number, no candidate's is lower, and every later candidate's is strictly higher |
| Probability.FlattenAppend | engine.js:52-53 | visiting the regions of a + b visits a's candidates, then b's |
| Probability.FlattenAt | engine.js:52-53 | region r's candidates are visited consecutively, directly after those of the regions before it |
| Probability.TallyBounds | minesweeper.js:329-336 | a cell's mine count is at most the number of accepted configurations; it is 0 exactly when no accepted configuration mines it, and equal exactly when all do |
| Probability.MineTallySnoc | minesweeper.js:329-336 | judging one more configuration adds one to a cell's count exactly when it is accepted and mines the cell |
| Probability.TallyMeaning | minesweeper.js:347-355 | for any acceptance rule, the probability lies in [0, 1]; it is NaN exactly when nothing is accepted, 0 exactly when something is accepted and nothing accepted mines the cell, and 1 exactly when something is accepted and everything accepted mines it |
| Marks.Unmark | minesweeper.js:225-229 | marks 100 and 2 become 1, -1 becomes 0, every other value stays |
| Marks.UnmarkIdempotent | minesweeper.js:223-231 | unmarking twice is unmarking once |
| Marks.ApplyMarkFacts | minesweeper.js:233-242 | a cell outside the region keeps its mark; a region cell gets 100 if its configuration entry is true and 2 if it is false, whatever was there |
| Marks.AppliedIdempotent | minesweeper.js:233-242 | applying a configuration twice is applying it once |
| Marks.AppliedStable | minesweeper.js:233-242 | the applied layer depends only on the unmarked values outside the region |
| Marks.AppliedMines | minesweeper.js:233-242 | after applying, the cells marked 100 are exactly the region cells whose entry is true |
| Marks.SameChoices | minesweeper.js:244-255 | the double-indicator test and the configured mines depend only on the marks 1, 2 and 100 |
| Marks.AcceptsMeaning | minesweeper.js:270-299 | a configuration is accepted exactly when it holds at most `flags` mines and every orthogonal neighbour of every region cell passes the indicator check over the applied layer |
| Marks.ProbabilityMeaning | minesweeper.js:347-355 | a region cell's probability lies in [0, 1]; it is NaN exactly when no configuration is accepted, 0 exactly when some are and none mines the cell, and 1 exactly when some are and all do |
| Marks.EmptyRegionTotal | minesweeper.js:340-351 | over an empty region exactly one configuration is judged, accepted exactly when `flags` is not negative |
| Board.Scale | minesweeper.js:55-56 | `Math.floor(r * n)` lies in [0, n) for r in [0, 1) |
| Board.Grid.constructor | minesweeper.js:22-46 | `flags` is the mine count, every square is left, the opening phase holds, and every cell is empty, hidden and unmarked; all invariants hold |
| Board.Grid.IsValidMineLoc | minesweeper.js:64-72 | a location is valid exactly when it is outside the 3x3 block around the first pop |
| Board.Grid.SetMasterMine | minesweeper.js:437-440 | an in-bounds cell becomes a mine and nothing else changes; out of bounds nothing changes |
| Board.Grid.IncrementIndicator | minesweeper.js:442-445 | an empty or indicator cell goes up by one; a mine or an off-board cell is untouched |
| Board.Grid.IncrementNeighbors | minesweeper.js:76 | every non-mine neighbour goes up by one, nothing else changes and the mines stay |
| Board.Grid.BumpStep | minesweeper.js:76 | one neighbour of the mine goes up by one unless it is a mine, on top of those already bumped |
| Board.Grid.SetMine | minesweeper.js:74-77 | one new mine at (x, y), its non-mine neighbours go up by one, and every non-mine cell still counts its adjacent mines |
| Board.Grid.MinePlaced | minesweeper.js:74-77 | after a placement every non-mine cell counts its adjacent mines again |
| Board.Grid.DrawCell | minesweeper.js:55-56 | two values leave the stream and scale to an on-board cell |
| Board.Grid.AddMine | minesweeper.js:54-62 | a placed mine is on the board, outside the safe block and not on a mine already; when the stream runs out nothing is placed |
| Board.Grid.GenerateMines | minesweeper.js:48-52 | no mine in the safe block, at most `mines` placed, each placement a new mine, and the counts stay true; fewer than `mines` are placed only when the stream has run out |
| Board.Grid.CheckFirstPop | minesweeper.js:98-103 | the first pop lays mines clear of its block on a board still concealed, all `mines` of them unless the stream runs out, and ends the opening phase; later pops leave the ground truth and the stream alone |
| Board.Grid.SetPopped | minesweeper.js:105-111 | the cell shows its ground truth, one fewer square is left, and nothing else changes |
| Board.Grid.Pop | minesweeper.js:80-96 | a cell that is not hidden, unflagged and on the board leaves everything unchanged; otherwise it becomes visible, an empty one with every in-bounds neighbour revealed or flagged and any other with endCheck's exact cases; every changed cell was hidden and now shows its ground truth; the game ends only by the win or by a newly shown mine, and every newly shown mine ends it; the opening pop lays all mines unless the stream runs out |
| Board.Grid.PopLater | minesweeper.js:80-96 | pop once the mines are laid, with the same promises as Pop, the empty-cell flood and endCheck's exact cases included, and neither the ground truth nor the stream touched |
| Board.Grid.RevealCell | minesweeper.js:83-95 | a hidden unflagged cell is revealed; an empty one ends with every in-bounds neighbour revealed or flagged, any other goes through endCheck's exact cases; the game ends only by the win or by a newly shown mine |
| Board.Grid.RevealEmpty | minesweeper.js:85-86 | a revealed empty cell shows 0 and ends with every in-bounds neighbour revealed or flagged; every other changed cell was hidden and shows its ground truth; the game ends only by the win or by a newly shown mine |
| Board.Grid.RevealOther | minesweeper.js:87-94 | one square fewer is left; a mine ends the game, otherwise the game is won exactly when as many squares as mines are left, and otherwise the game flags stay |
| Board.Grid.EndCheck | minesweeper.js:87-94 | a mine sets game over; otherwise, when the squares left equal the mines, game over and win are set; otherwise nothing changes |
| Board.Grid.Flood | minesweeper.js:86 | after popping every neighbour of an empty cell, all its in-bounds neighbours are revealed or flagged; every changed cell was hidden and shows its ground truth; the game ends only by the win or by a newly shown mine |
| Board.Grid.PopFresh | minesweeper.js:149-151 | a hidden unflagged cell is popped: it leaves the hidden unflagged cells, which only shrink, and the board stays revealed from the same layer |
| Board.Grid.SetFlagged | minesweeper.js:123-126 | the cell shows a flag and `flags` drops by one |
| Board.Grid.SetUnflagged | minesweeper.js:128-131 | the cell shows hidden and `flags` rises by one |
| Board.Grid.Flag | minesweeper.js:113-121 | an in-bounds hidden cell toggles between hidden and flagged and `flags` moves by one the opposite way, preserving `flags + #flagged == mines`; a visible cell is unchanged |
| Board.Grid.FlagIfHiddenUnflagged | minesweeper.js:138-141 | a hidden unflagged cell becomes flagged and reports so; anything else is untouched |
| Board.Grid.FlagAdjacentSquares | minesweeper.js:135-144 | exactly the hidden unflagged neighbours become flagged, `flags` drops by their number, and the result says whether there were any |
| Board.Grid.FlagStep | minesweeper.js:137-142 | one neighbour of the loop carries the loop state on: the neighbours seen so far that were hidden and unflagged are flagged, and the result says whether there was one |
| Board.Grid.PopStep | minesweeper.js:148-153 | after one neighbour, no hidden unflagged cell is left among the neighbours visited; a skipped neighbour changes nothing; every changed cell was hidden and shows its ground truth |
| Board.Grid.PopNeighbours | minesweeper.js:148-153 | after the loop no neighbour is hidden and unflagged; a move names a hidden unflagged neighbour; with none, nothing has changed; the flags are those of the starting display |
| Board.Grid.PopAdjacentSquares | minesweeper.js:146-155 | no hidden unflagged neighbour is left, and the result says whether there was any |
| Board.Grid.NumAdjacentSquares | minesweeper.js:157-165 | the number of in-bounds hidden neighbours, flagged ones included |
| Board.Grid.NumAdjacentFlags | minesweeper.js:167-175 | the number of in-bounds flagged neighbours |
| Board.Grid.IsPeriphery | minesweeper.js:177-188 | true exactly for a hidden unflagged cell with both a hidden unflagged and a visible orthogonal neighbour |
| Board.Grid.AddToPeriphery | minesweeper.js:191-206 | the region grows by the cell and then by more distinct hidden unflagged cells, exactly those newly marked 1; the cell ends marked 1 and each orthogonal indicator -1, and every indicator the call marks -1 has every hidden unflagged neighbour marked 1 |
| Board.Grid.PushMarked | minesweeper.js:192-193 | the cell is appended and marked 1 |
| Board.Grid.CrossStep | minesweeper.js:194-205 | one orthogonal cell of the cross loop carries the search state on: the region grows by exactly the cells newly marked 1, the orthogonal indicators visited so far are marked -1, and every indicator newly marked -1 has every hidden unflagged neighbour marked 1 |
| Board.Grid.VisitIndicator | minesweeper.js:194-205 | an orthogonal indicator ends marked -1; the cells that join the region are exactly those newly marked 1, and every indicator the call marks -1 has every hidden unflagged neighbour marked 1 |
| Board.Grid.CheckIndicator | minesweeper.js:196-203 | an indicator not yet marked -1 is marked, and afterwards every hidden unflagged neighbour of it, and of every indicator marked -1 on the way, is marked 1; the region grows by exactly the cells newly marked 1 |
| Board.Grid.MarkChecked | minesweeper.js:197 | the indicator becomes checked, no cell leaves or joins the unmarked cells, and no other mark changes |
| Board.Grid.NbStep | minesweeper.js:198-202 | one neighbour of the indicator carries the search state on: a hidden unflagged neighbour not marked 1 is added, and the neighbours visited so far are reached |
| Board.Grid.UnapplyConfiguration | minesweeper.js:223-231 | every mark is unmarked |
| Board.Grid.ApplyConfiguration | minesweeper.js:233-242 | the scratch layer becomes the unmarked layer with the region's cells marked 100 or 2 as the configuration says |
| Board.Grid.IsDoublePeripheryIndicator | minesweeper.js:244-255 | true exactly when some neighbour is marked 1 and some neighbour is marked 2 |
| Board.Grid.NumAdjacentConfigMines | minesweeper.js:302-310 | the number of neighbours marked 100 or flagged |
| Board.Grid.SetChecked | minesweeper.js:286 | the indicator is marked checked and nothing else changes |
| Board.Grid.CheckCell | minesweeper.js:284-290 | the check of one orthogonal cell passes exactly when the cell-level check over the layer passes |
| Board.Grid.CheckSquare | minesweeper.js:277-295 | one square's four checks pass exactly when the square passes over the applied layer |
| Board.Grid.CheckNextCell | minesweeper.js:279-295 | the checks of a square's cells, one at a time, agree with the cell-level checks |
| Board.Grid.IsValidConfiguration | minesweeper.js:260-300 | the verdict is the acceptance of the configuration over the layer it started from: too many mines are rejected, and an accepted configuration has every checked indicator's value equal to its configured mines plus flags |
| Board.Grid.CheckNextSquare | minesweeper.js:275-297 | the squares, checked one after another, agree with the square-level checks |
| Board.Grid.JudgeConfiguration | minesweeper.js:348 | each verdict of the do-while is the one over the layer the computation started from |
| Board.Grid.AddToCount | minesweeper.js:329-335 | every cell's count goes up by one exactly when the configuration mines it |
| Board.Grid.Quotients | minesweeper.js:353-355 | every region cell gets the pair (its count, the number of accepted configurations) |
| Board.Grid.CountRound | minesweeper.js:347-351 | one round of the do-while moves the tallies from the first k configurations to the first k + 1 |
| Board.Grid.Tally | minesweeper.js:348-351 | a verdict is added to the tallies and the counter steps to the next configuration |
| Board.Grid.ComputeProbabilities | minesweeper.js:312-356 | every region cell gets its probability over all 2^n configurations, judged against the marks the computation started from; afterwards every mark outside the region unmarks to the same value as before |
| Board.Grid.ClearPeripheryGrid | minesweeper.js:358-362 | every mark becomes 0 |
| Board.Grid.GrowRegion | minesweeper.js:209-215 | the region starts at (x, y) and has 1 to 15 distinct hidden unflagged cells, none marked 1 before; the start cell's orthogonal indicators end at -1, and every indicator newly marked -1 has every hidden unflagged neighbour other than the start cell marked 1; without the cut the region is exactly the cells newly marked 1, and with it the start cell is back at 0 |
| Board.Grid.SearchRegion | minesweeper.js:209-215 | GrowRegion's region, with the marks it leaves taken as a layer that satisfies the same promises |
| Board.Grid.CutRegion | minesweeper.js:212-215 | a region of more than 15 cells is cut to its first 15 and the start cell's mark reset to 0; a shorter one and every other mark stay |
| Board.Grid.GetPeriphery | minesweeper.js:208-220 | GrowRegion's region, each cell with the probability computeProbabilities finds over the marks m the search left, in [0, 1]; against the marks it started from, m marks 1 only hidden unflagged cells and -1 only indicators, holds the search's reach, and without the cut marks 1 exactly the region's cells; the marks it leaves unmark as m outside the region |
| Board.Grid.GetPeripheries | minesweeper.js:364-373 | every region has 1 to 15 distinct hidden unflagged cells and starts at a periphery cell, the start cells in ascending scan order; region k is what the search from its first cell leaves against the marks pre[k] it started from, and is priced over the marks ms[k] that search left; pre[0] is the cleared marks and each later pre[k] unmarks as ms[k - 1] outside region k - 1; no region is returned exactly when no cell is on the periphery |
| Board.Grid.ShapedRegion | minesweeper.js:368-369 | a region started at a periphery cell still marked 0 is shaped as above and is what the search from that cell leaves against the marks before the call, priced over the marks m that search left; the marks it leaves unmark as m outside the region |
| Board.Grid.VisitStart | minesweeper.js:367-371 | a region starting at (x, y) is appended exactly when (x, y) is on the periphery and still marked 0, together with the marks its search left and the marks before it as the marks that search started from; otherwise the regions and the marks are unchanged; every region stays shaped, priced and the result of its search, the start marks stay chained, and the start cells ascending |
| Board.Grid.AddRegion | minesweeper.js:368-369 | at a periphery cell still marked 0 the region grown there is appended with the marks its search left and the marks before it, and every invariant of the scan is kept |
| Board.Grid.SearchedSnoc | minesweeper.js:368-369 | appending a region that its search left keeps every region the result of its search |
| Board.ChainSnoc | minesweeper.js:364-373 | appending a search whose start marks unmark as the previous search left them outside the previous region keeps the start marks chained |
| Board.Grid.LastLinks | minesweeper.js:364-373 | the marks left as the last search left them are marks the next search may start from |
| Board.Grid.ScanColumn | minesweeper.js:367-371 | one column of the scan keeps every region shaped, priced, ascending and the result of its search from chained start marks; the list stays empty only while no scanned cell is on the periphery |
| Board.Grid.PopRemainingSquares | minesweeper.js:375-381 | no hidden unflagged cell is left and the flags stay; once the mines are laid, every changed cell was hidden and shows its ground truth |
| Board.Grid.PopColumn | minesweeper.js:376-380 | after column x, no hidden unflagged cell is left in columns up to x |
| Board.Grid.PopScanAt | minesweeper.js:377-379 | one scan step leaves (x, y) not hidden unflagged |
| Board.Grid.PopRemainingAt | minesweeper.js:377-379 | a scan step before the mines are laid leaves (x, y) not hidden unflagged, the hidden unflagged cells only shrink and the flags stay |
| Board.Grid.PopLaterAt | minesweeper.js:377-379 | a scan step once the mines are laid does the same and keeps the board revealed from the starting display |
| Board.Grid.NumRemainingSquares | minesweeper.js:383-391 | the number of hidden unflagged cells |
| Board.Grid.CountInColumn | minesweeper.js:385-389 | the count runs on through one more column |
| Board.Grid.GetRemainingSquaresAsPeriphery | minesweeper.js:393-401 | one region holding exactly the hidden unflagged cells, in scan order and without repeats, each with probability 0 |
| Board.Grid.RemainingInColumn | minesweeper.js:395-399 | the selection runs on through one more column |
| Board.Grid.NoMoreFlags | minesweeper.js:403-405 | true exactly when `flags` is 0; with the flag bookkeeping, exactly when as many cells are flagged as there are mines |
| Engine.Draw | engine.js:10-11 | two values leave the stream and scale by the given bounds |
| Engine.PopCell | minesweeper.js:80-96 | a pop as the solver calls it: a hidden unflagged cell becomes visible, the cell ends not hidden unflagged, and no flag is added or removed; every cell keeps its display value or was hidden and now shows its ground truth; once the mines were laid the ground truth is unchanged; the counters move as one reveal allows, and a mine shown on a formerly hidden cell ends the game |
| Engine.MakeRandomMove | engine.js:6-14 | it pops only a cell that was not visible; while the opening phase holds, the first draw is popped; when the stream runs out nothing but the stream changes; no flag is added or removed; the rest of the board changes only as PopCell allows |
| Engine.MakeBasicSolverMove | engine.js:16-29 | no move is made exactly when every cell of the board it started from is idle, that is, every indicator where a rule applies has no hidden unflagged neighbour; then the board is unchanged; otherwise the hidden unflagged cells strictly shrink; the flag bookkeeping is kept |
| Engine.BasicStep | engine.js:18-27 | one cell of the scan carries the sweep state on: a move so far exactly when the hidden unflagged cells changed; with none, the board is unchanged and every scanned cell was idle on the starting display; with one, a witness cell on the board was not idle; the flag bookkeeping is kept |
| Engine.BasicAt | engine.js:19-25 | where the flag rule applies on the old display, exactly the hidden unflagged neighbours become flagged, with one flag fewer for each; where the pop rule applies instead, the board is revealed from the old display with its flags kept and no hidden unflagged neighbour left; elsewhere nothing changes; no move exactly when the cell is idle |
| Engine.RuleAt | engine.js:19-25 | the flag rule is chosen exactly when the indicator shows as many hidden neighbours as its number; the pop rule exactly when it does not but shows as many flagged neighbours; no rule otherwise |
| Engine.FlagAround | engine.js:21-22 | exactly the hidden unflagged neighbours become flagged, nothing else changes on the display, and `flags` drops by their number; no move exactly when the cell is idle, and then nothing changes |
| Engine.PopAround | engine.js:23-24 | the board is revealed from the old display with its flags kept and no hidden unflagged neighbour left; no move exactly when the cell is idle, and then nothing changes |
| Engine.FlagRuleSound | engine.js:20-21 | when an indicator equals its hidden-neighbour count and every mine is hidden, all its hidden neighbours are mines |
| Engine.PopRuleSound | engine.js:22-23 | when an indicator equals its flagged-neighbour count and every flag is on a mine, none of its hidden unflagged neighbours is a mine |
| Engine.BasicRulesSound | engine.js:19-25 | on the display the solver reads, where the flag rule applies and every mine is hidden, every hidden neighbour is a mine; where the pop rule applies and every flag is on a mine, no hidden unflagged neighbour is a mine |
| Engine.MakeTankSolverMove | engine.js:31-76 | the regions are those getPeripheries promises, none exactly when no cell was on the periphery, region k priced over the marks ms[k] and the display and flags the move started from, the marks pre[k] each search started from chained as getPeripheries leaves them; the final guess is the scan's last minimal candidate over them and ends up not hidden unflagged; the flag bookkeeping is kept |
| Engine.FindRegions | engine.js:41 | getPeripheries changes only the marks; the regions lie on the board, are shaped, priced over the current display and flags, each the result of its search from chained start marks, and are none exactly when no cell is on the periphery |
| Engine.PlayRegions | engine.js:52-75 | the scan and the final pop: the guess is the scan's last minimal candidate and ends up not hidden unflagged |
| Engine.ScanPeripheries | engine.js:52-69 | the candidate chosen by the loops is the guess over all candidates in visiting order; with on-board regions the flag bookkeeping is kept |
| Engine.RegionStep | engine.js:53-68 | one pass of the outer loop carries the scan state from region r's first candidate to the next region's; with on-board regions the flag bookkeeping is kept |
| Engine.TankRegion | engine.js:53-68 | the inner loop carries the scan state over one region; when the region is on the board and the flag bookkeeping held, it still holds |
| Engine.TankSquare | engine.js:54-67 | probability 0 pops a hidden unflagged cell, the rest of the board changing only as PopCell allows; probability 1 toggles its flag and changes no other cell, no ground truth and no counter; any other leaves the board alone; the scan state advances by one; an on-board candidate keeps the flag bookkeeping |
| Engine.PopBest | engine.js:75 | the chosen cell ends up not hidden unflagged, the rest of the board changing only as PopCell allows; with no choice the board is unchanged; no flag is added or removed |
| Engine.ShapedInUnit | minesweeper.js:353-355 | every candidate probability of the regions lies in [0, 1] |
| Engine.ShapedInBoard | minesweeper.js:364-373 | every candidate of the regions getPeripheries promises is a cell of the board |
| Engine.TankGuessMeaning | engine.js:64-67 | over the regions, the guess is the last candidate of lowest probability, and there is none exactly when every probability is NaN |
| Engine.MakeBestMove | engine.js:78-92 | the random move exactly in the opening phase, and then the first drawn cell was hidden and, when it was unflagged, ends up visible; the basic move exactly when some cell of the old board is not idle, and then the hidden unflagged cells strictly shrink; otherwise the pop-everything move exactly when `flags` was 0, leaving no hidden unflagged cell, and the tank move exactly when it was not; the flag bookkeeping is kept |

## Left out

- **Rendering, the p5.js glue, the timer and mouse input.** These are `setup`, `draw*`, `setInterval`, `mousePressed` and the `perform*Move` functions. They are user interface code around the engine.
- **`console.log` output.** It is not part of the engine's state.
- **The `thinking` flag of engine.js.** It is only a re-entrancy guard for the timer, so it is dropped.
- **`Math.random`.** It becomes the supplied stream `Grid.rand` of values in [0, 1), and each draw takes two values. When fewer than two remain, `addMine` places nothing and `makeRandomMove` pops nothing. The unbounded retry recursion of `addMine` is thus bounded by the stream.
- **Floating-point probabilities.** A probability is the exact pair (mine count, configurations), compared as rationals; a zero denominator stands for NaN. JavaScript's `<=` on the rounded quotients could tie where the exact comparison does not.
- **The final pop when no candidate exists.** The source dereferences a null `bestMove` there; the model skips the pop.
- **The endgame fallback in engine.js:38-42.** It is commented out, so `GetRemainingSquaresAsPeriphery` has no caller in the model either.
- **Shared array objects.** The regions are sequences of values. The source pushes the same objects into the list and then writes their `probability` in place; nothing else reads them.
- Board.Grid.ComputeProbabilities: requires the region to be hidden and the marks consistent. Its only caller, getPeriphery, establishes both.
- Board.Grid.IsValidConfiguration: the contract describes the marks left afterwards only as "checked over" the applied layer. It does not say which indicators end at -1.
- Board.Grid.SetMine: requires an in-bounds cell that is not yet a mine. Its only caller, addMine, guarantees both.
- Board.Grid.GetPeripheries: ties the marks a later search starts from to the marks the search before left only outside the region before. Inside that region they hold the configuration computeProbabilities applied last, and the contract does not say which one that is.
- Board.Grid.GetPeripheries: does not state that regions are disjoint, because they need not be.
- Board.Grid.GetPeripheries: states exactly when the list is empty, not which cells start its regions. Whether a periphery cell is still marked 0 at its turn depends on the regions grown before it, so the per-cell rule is stated by Board.Grid.VisitStart.
- Engine.MakeTankSolverMove: states that the start marks of the searches chain, but not that each region is the result of its search. That fact is about the display the move started from, which the contract could name only through the arrays' old state; Engine.FindRegions states it before any cell is played.
- Engine.MakeTankSolverMove: does not state which cells the probability 0 and 1 branches pop or flag over the whole loop. That is stated per candidate by Engine.TankSquare, because the flag toggle makes the cumulative effect depend on repeated candidates.
- Engine.MakeBasicSolverMove: when a move is made, does not state which cells the whole sweep flagged or popped. Each indicator reads the display that the cells before it left, so the effect is stated per cell by Engine.BasicAt. The sweep itself states the no-move fixpoint and that the hidden unflagged cells strictly shrink. It does not state that the moves are sound under the true mine layout; that is Engine.BasicRulesSound, over the same rule predicates.
- Engine.MakeRandomMove: redraws `y` scaled by the width, as engine.js:11 does. The contract does not say where a redraw lands, only that the popped cell was not visible.
