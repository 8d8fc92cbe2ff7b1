# Fruit game: the match-3 grid engine

This project models the grid engine of the browser game `FruitGame` (game.js). The board is an 8×8 array of fruits. Each fruit is one of eight palette kinds, worth 10, 15, …, 45 points.

The player selects a cell and then an adjacent one, and the two fruits are exchanged. If neither cell now lies in a horizontal or vertical run of three or more fruits of one kind, the fruits are exchanged back. Otherwise:
- the reported cells score the sum of their points times the length of the report;
- the reported cells are emptied;
- in every column the remaining fruits fall to the bottom, keeping their order;
- the emptied top rows receive fresh fruits;
- a row-major rescan picks the first cell that matches, and the whole round repeats on that cell's report.

A new board is filled at random. Every cell that matches is then re-rolled, pass after pass, until a pass finds none.

The model has two layers.
- **The reference definitions are pure functions over values.**
  - `Board`: cells, positions, adjacency, the exchange, columns.
  - `Matching`: `checkMatches` and the first-match rescan.
  - `Scoring`: the score formula, clearing and the level.
  - `Gravity`: gravity and refill.
  - `Generation`: `generateFruits` and `removeInitialMatches`.
  - `Engine`: the cascade and the swap attempt.
  - Properties of these functions are proved as lemmas and as their `ensures`.
- **The class `Game.FruitGame` is the imperative form the source has.**
  - The class holds the board as an `array2<Cell>` updated in place, and the score, level, selection and fruit supply as fields.
  - Every loop of the source is a `while` or `for` loop with its invariants.
  - Each method is proved to leave exactly the state its reference function computes from the old state.
  - Its invariant `Valid()` ties the array to a ghost value of the board. It also keeps `level == Level(score)` and a selection that lies on the board.

`Math.random` becomes an injected supply `supply: nat -> Kind` together with a counter `drawn`. The n-th fruit drawn has kind `supply(n)`. Generation, refill and re-rolling are therefore deterministic functions of the supply and the counter.

Three details of the code are kept as written:
- The rescan after `dropFruits` processes only the report of the first matching cell in row-major order (the `break`s at game.js:259 and 262). It does not process the union of all matches.
- A swap scores the concatenation of the two endpoint reports (game.js:155). A cell reported by both endpoints is counted twice, both in the sum and in the length.
- `checkMatches` returns its `Set` as an array in insertion order: the horizontal run first, then the new cells of the vertical run. The model keeps that order as a sequence without repeats.

The timers of the source are not modelled. Each callback runs at once, in the order in which the source schedules it.

## Model

| member | source | states |
|---|---|---|
| Board.Points | game.js:16-25 | a palette entry is worth between 10 and 45 points, a multiple of five |
| Board.IsAdjacent | game.js:131-134 | true exactly when the positions are one apart in one coordinate and equal in the other; identical and diagonal positions are rejected |
| Board.SwapExact | game.js:146-147 | the exchange puts the old cell of `q` at `p` and the old cell of `p` at `q`, and leaves every other cell unchanged |
| Board.SwapInvolution | game.js:154-159 | exchanging the same pair back restores the board |
| Board.SwapSymmetric | game.js:146-147 | the order of the two endpoints does not matter |
| Board.SwapFull | game.js:146-147 | a board with no empty cell has none after an exchange |
| Matching.RunStart | game.js:168-172 | the backward scan stops at the start of the same-kind segment ending at `i`: every cell it passes has the kind, and the cell before it does not or is off the board |
| Matching.RunEnd | game.js:173-177 | the forward scan stops at the end of the same-kind segment starting at `i`, with the same two guarantees |
| Matching.RunAt | game.js:168-177 | on a known maximal same-kind segment [a, b) through `i`, the two scans return exactly a and b |
| Matching.LineMatchIff | game.js:168-183 | index `j` shares with `i` a same-kind segment of at least three cells exactly when the two scans from `i` span at least three cells and cover `j` |
| Matching.Matches | game.js:163-202 | every reported position is on the board and holds the kind of (r, c) |
| Matching.MatchesExact | game.js:166-199 | a position is reported exactly when it lies in a same-kind horizontal segment of at least three cells in row r through c, or in such a vertical segment in column c through r |
| Matching.MatchesSize | game.js:163-202 | a report is empty or has at least three positions |
| Matching.MatchesCenter | game.js:163-202 | a non-empty report contains (r, c) |
| Matching.MatchesDistinct | game.js:164-201 | a report lists no position twice |
| Matching.MatchesEmptyIff | game.js:181-199 | a report is empty exactly when both runs through (r, c) are shorter than three |
| Matching.AddAllMembers | game.js:181 | adding a run's cells to the set keeps the old members and adds exactly the run's cells |
| Matching.AddAllDistinct | game.js:181 | adding to a set without repeats gives a set without repeats |
| Matching.NoMatchStep | game.js:253-261 | no cell matches from (r, c) onwards exactly when (r, c) does not match and no cell matches from the next one onwards |
| Matching.FirstMatchNone | game.js:251-264 | the rescan comes back empty exactly when no cell from its start onwards matches |
| Matching.FirstMatchIsFirst | game.js:253-263 | a non-empty rescan returns the report of some cell (i, j); no earlier cell in row-major order has a non-empty report |
| Matching.FirstMatchListed | game.js:255-257 | the rescan's list names on-board cells that hold fruits |
| Scoring.SumPoints | game.js:208 | the sum over a list of n cells lies between 10n and 45n |
| Scoring.Gain | game.js:205-209 | the score gain of a list is zero exactly when the list is empty, and lies between 10n² and 45n² for n cells |
| Scoring.SumPointsAppend | game.js:155 | the sum over the two concatenated endpoint reports is the sum of their sums, so a cell in both counts twice |
| Scoring.ThreeOfFirstKind | game.js:17 | three fruits of the first palette entry score 90 |
| Scoring.ClearExact | game.js:218-220 | clearing empties exactly the listed cells and leaves every other cell unchanged |
| Scoring.Level | game.js:390 | level l is the one with 1000 (l - 1) <= score < 1000 l |
| Scoring.LevelMonotone | game.js:390 | a higher score never has a lower level |
| Gravity.NonEmpty | game.js:233 | the fruits of a column, no more cells than the column has, all of them fruits |
| Gravity.NonEmptyAppend | game.js:232-242 | the fruits of two stacked column parts are the fruits of each, in order |
| Gravity.CompactKeepsFruits | game.js:230-242 | gravity keeps the column's length and its fruits in their top-to-bottom order |
| Gravity.CompactPacked | game.js:230-242 | after gravity no empty cell lies below a fruit |
| Gravity.CompactIdempotent | game.js:230-242 | gravity applied to a compacted column moves nothing |
| Gravity.GravityExample | game.js:230-242 | the column [A, empty, B, empty, C] falls to [empty, empty, A, B, C] |
| Gravity.FallingStep | game.js:232-241 | one row of the bottom-up scan keeps the scan invariant: untouched rows above, an empty gap, then the fruits seen so far in order below the cursor |
| Gravity.FallingDone | game.js:231-242 | at the end of the scan the column is compacted and the cursor is the lowest row left empty, or -1 when none is |
| Gravity.SettleAgreesWithCompact | game.js:245-247 | after refill each cell keeps the fruit gravity put there or, where gravity left a hole, holds the next fresh fruit, the lowest hole first |
| Gravity.SettleColumnSettles | game.js:230-247 | the refilled column holds every old fruit, in order, against the bottom, and fruits above them |
| Gravity.SettlesFull | game.js:245-247 | a settled column has no empty cell |
| Gravity.FallThenRefill | game.js:230-247 | gravity then refill of the rows it emptied is the settled column |
| Gravity.DropFromColumns | game.js:230-248 | `dropFruits` from column c onwards leaves earlier columns unchanged and settles every later one |
| Gravity.DropFull | game.js:228-248 | after `dropFruits` no cell of the board is empty |
| Generation.PassFrom | game.js:69-76 | a pass that re-rolls nothing changes neither the board nor the supply counter, and the flag once set stays set |
| Generation.PassFull | game.js:69-76 | a pass keeps a full board full |
| Generation.PassStep | game.js:71-74 | a pass that re-rolls nothing found no match at its first cell |
| Generation.PassClean | game.js:66-77 | a pass that re-rolls nothing has seen no matching cell, so the board it leaves is match-free |
| Generation.Repair | game.js:65-78 | repair keeps a full board full; on success no cell of the board matches |
| Generation.FreshGrid | game.js:38-44 | the freshly filled board is 8×8 and has no empty cell |
| Generation.Generate | game.js:37-47 | a generated board is full; on success no cell of it matches |
| Engine.Cascade | game.js:251-263 | the cascade leaves a full board, raises the score by at least the first list's gain, and when it reports settled no cell matches |
| Engine.AfterRound | game.js:256-262 | what follows a round keeps the board full and the score from falling, and when it reports settled no cell matches |
| Engine.Attempt | game.js:136-161 | a swap is accepted exactly when an endpoint matches after the exchange; a rejected swap leaves the state as it was; an accepted one raises the score; a settled outcome leaves no match |
| Game.AddEach | game.js:181 | the loop of `add` calls yields the insertion-ordered set of the old members plus the new items |
| Game.FruitGame.constructor | game.js:2-31 | score 0, level 1, no selection, and the board `generateFruits` produces from the start of the supply, which is full |
| Game.FruitGame.CreateRandomFruit | game.js:49-50 | the fruit drawn is the next entry of the supply, and the counter advances by one |
| Game.FruitGame.ScanLeft | game.js:168-172 | the leftward loop stops one cell before the start of the same-kind segment, having collected the cells from there to (row, col) |
| Game.FruitGame.ScanRight | game.js:173-177 | the rightward loop extends the run to the end of the same-kind segment |
| Game.FruitGame.ScanRow | game.js:166-177 | the horizontal loops collect exactly the maximal same-kind segment of the row through (row, col) |
| Game.FruitGame.ScanUp | game.js:185-189 | the upward loop stops one cell above the start of the same-kind segment of the column |
| Game.FruitGame.ScanDown | game.js:190-194 | the downward loop extends the run to the end of that segment |
| Game.FruitGame.ScanColumn | game.js:184-194 | the vertical loops collect exactly the maximal same-kind segment of the column through (row, col) |
| Game.FruitGame.CheckMatches | game.js:163-202 | `checkMatches` returns the reference report of (row, col) |
| Game.FruitGame.FindFirstMatch | game.js:252-263 | the nested loops with their `break`s return the report of the first matching cell in row-major order, or nothing |
| Game.FruitGame.SumOfPoints | game.js:208 | the reduction returns the sum of the listed fruits' points |
| Game.FruitGame.ClearCells | game.js:218-220 | the clearing loop leaves the board cleared at exactly the listed cells |
| Game.FruitGame.ProcessMatches | game.js:204-220 | the score rises by the sum of the points times the length of the list, the level follows the score, and the listed cells are emptied; an empty list changes nothing |
| Game.FruitGame.FallColumn | game.js:231-242 | the bottom-up loop leaves the column compacted and the cursor on the lowest row left empty, or -1 when none is |
| Game.FruitGame.RefillColumn | game.js:245-247 | rows from the cursor up to 0 receive fresh fruits, lowest first, and the counter advances by their number |
| Game.FruitGame.DropColumn | game.js:230-248 | one column of `dropFruits` leaves the settled column and advances the counter by its number of holes |
| Game.FruitGame.DropFruits | game.js:228-248 | the column loop leaves the board and the counter exactly as gravity and refill define them |
| Game.FruitGame.CascadeRound | game.js:251-263 | one round leaves the state of `processMatches` then `dropFruits` on the old state, returns the rescan of the new board, and is a step of the reference cascade whatever the fuel |
| Game.FruitGame.ResolveCascade | game.js:204-264 | the chain of `processMatches`, `dropFruits` and the rescan ends in the state and settled flag of the reference cascade |
| Game.FruitGame.ContinueCascade | game.js:256-262 | after a rescan the chain stops or goes on exactly as the reference says |
| Game.FruitGame.SwapCells | game.js:146-147 | the array exchange leaves the board exchanged at the two positions |
| Game.FruitGame.SwapFruits | game.js:136-161 | the swap leaves the board full, with the state, acceptance and settled flag of the reference attempt |
| Game.FruitGame.HandleClick | game.js:90-101 | a click off the board changes nothing; the first click selects; the second swaps when adjacent, and clears the selection either way |
| Game.FruitGame.RerollCell | game.js:71-74 | a matching cell gets the next fruit of the supply, the counter advances by one and the flag is set; otherwise board, counter and flag are unchanged |
| Game.FruitGame.RerollRow | game.js:70-75 | the board, counter and flag after the row loop are those of the reference pass over that row |
| Generation.PassRow | game.js:70-75 | the pass over one row changes no other row |
| Generation.PassFromRow | game.js:69-76 | a pass is its run over the rest of the current row followed by the pass from the next row |
| Game.FruitGame.RemovalPass | game.js:68-76 | one pass over the board is the reference pass, flag included |
| Game.FruitGame.RemoveInitialMatches | game.js:65-78 | the `while` loop ends in the board, counter and success flag of the reference repair; on success no cell matches |
| Game.FruitGame.FillGrid | game.js:38-44 | the filling loops leave the fresh board drawn in row-major order, and 64 fruits drawn |
| Game.FruitGame.GenerateFruits | game.js:37-47 | filling then repair gives the reference generated board, which is full |
| Game.FruitGame.Reset | game.js:403-413 | score 0, level 1, no selection, and a newly generated board |
| Findings.Callback | game.js:150-160 | the timer callback of `swapFruits` as written hands the reports to `processMatches` exactly when an endpoint matches; otherwise it calls `swapFruits` with the endpoints exchanged |
| Findings.TwoCycle | game.js:154-159 | two chain states, each the successor of the other, alternate for ever |
| Findings.AsWrittenOscillates | game.js:154-159 | when no endpoint matches before or after the exchange, the chain as written flips between the exchanged board and the original board for ever and never reaches `processMatches` |
| Findings.CheckerSettled | game.js:163-202 | no cell of the checkerboard matches |
| Findings.CheckerSwapQuiet | game.js:150-153 | after exchanging (0, 0) and (0, 1) of the checkerboard, neither endpoint matches |
| Findings.CheckerOscillates | game.js:154-159 | that adjacent swap, on a settled board, starts a chain that reaches `processMatches` after no number of callbacks |
| Findings.CheckerRejected | game.js:154-159 | with the revert done once, the same swap is rejected and leaves the state unchanged |

## Left out

- Rendering, particles, animation easing and hover scaling (game.js:104-129, 267-386) are presentation only. The fruit fields `x`, `y`, `targetX`, `targetY`, `scale` and `rotation` are gone with them.
- The fruit objects' own `row` and `col` fields are not modelled. The source keeps them equal to the fruit's array position: on creation, on an exchange, and when a fruit falls. Clearing by `fruits[fruit.row][fruit.col]` therefore clears the listed position.
- The mouse-position-to-cell mapping of `handleClick` (game.js:83-88) is left out. `HandleClick` takes grid coordinates.
- The `isPlaying` and `isPaused` guard of `handleClick`, and `start` and `pause`, are left out. They are flags set by buttons outside the engine.
- `setTimeout` delays (game.js:150, 223, 251) are not modelled, and neither are clicks arriving while a timer is pending. Each callback runs at once.
- `Math.random` is replaced by the injected supply `supply` and the counter `drawn`.
- DOM writes in `updateScore` and `reset`, the event listeners that `init` installs, its animation loop and the global wiring are left out. `updateScore` is kept as its level formula. The constructor keeps `init`'s call of `generateFruits`.
- `generateFruits` builds new row arrays. The model allocates the board once and overwrites every cell of it. No other object holds a reference to the rows, so nothing observable differs.
- Game.FruitGame.ResolveCascade: the source's cascade has no bound. The model runs at most `fuel + 1` rounds. When the fuel runs out it reports `settled` false and promises nothing about remaining matches.
- Game.FruitGame.RemoveInitialMatches: the source loops until a pass finds nothing, which ends only with probability one. The model runs at most `fuel` passes. Match-freedom is promised only when `ok` is true.
- Game.FruitGame.SwapFruits: it models the revert done once. The as-written revert, which never ends, is modelled in module Findings.

## Findings

| source | as written | input that shows it | evidently intended | confidence | as-written member | corrected member |
|---|---|---|---|---|---|---|
| game.js:154-159 | on a swap where no endpoint matches, the callback calls `swapFruits(pos2, pos1)`; that call exchanges the fruits back and schedules the same check, which on the restored board finds no match and exchanges them again, so the two fruits swap back and forth every 300 ms for ever | the checkerboard of kinds 0 and 1 (no cell matches), select (0, 0), then click (0, 1) | exchange the two cells back once, with no further check, and leave the board as it was | high, not executed | Findings.AsWrittenOscillates | Engine.Attempt |
