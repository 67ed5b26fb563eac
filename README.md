# zsweep engine in Dafny

A verified model of the two algorithmic parts of zsweep, a keyboard-driven minesweeper:

- the minesweeper engine of `src/lib/minesweeper.ts`, with these operations:
  - grid construction;
  - mine placement around a safe first click, plus the computation of neighbour counts;
  - the recursive reveal cascade;
  - the 3BV score, the least number of clicks that clears a board;
- the vim key interpreter of `src/lib/game/input/vim.ts`, which maps a key name to a game action or to no action.

The grid is an `array2<Cell>` whose cells are records. The source's `grid[r][c].field = …` changes one field of a cell object in place; the model writes a copy of the record with that field changed (`g[r, c] := g[r, c].(isMine := true)`). The two agree because no cell object is shared between two positions, which `createGrid` guarantees; aliasing between positions is not modelled (see "## Left out").

Every state-changing operation is a method with a `modifies` clause. Each such method is proved to leave the grid equal to a function of its old contents:
- `Reveal` for the reveal cascade;
- `Scatter`, `WithMines` and `Numbered` for mine placement.

`BoardOf(g)` is the abstraction used in those proofs: the contents of `g` as a map from position to cell. What the source promises is then proved about those functions.

Reachability is an explicit notion (module `ZeroPaths`). A zero path is a walk over adjacent cells of an allowed set, in which every cell but the last belongs to a given set of zero cells. The two operations use different zero cells:
- the reveal cascade continues only through safe cells with count 0 (`Zeros`), over the closed, unflagged cells; it opens exactly the cells such a path from the target leads to;
- the 3BV flood fill continues through every cell with count 0, mine or not (`Blanks`), over the whole board, as `calculate3BV` does; it marks exactly the cells such a path from an opening's first cell leads to.

Modules:

| file | module | contents |
|---|---|---|
| `Wrappers.dfy` | `Wrappers` | `Option`, standing for a `null` result |
| `Grid.dfy` | `Grid` | `Cell`, `DIRECTIONS`, `createGrid`, board views, neighbour counts |
| `ZeroPaths.dfy` | `ZeroPaths` | zero paths and what they reach |
| `MinePlacement.dfy` | `MinePlacement` | `placeMines`: safe zone, mine scattering, numbering |
| `Reveal.dfy` | `RevealCascade` | `revealCell` and the proofs about the cascade |
| `Scoring.dfy` | `Scoring` | `calculate3BV`: openings, flood fill, both scans |
| `Vim.dfy` | `Vim` | `VimAction` and `handleVimKey` |

## Model

| member | source | states |
|---|---|---|
| Grid.CreateGrid | src/lib/minesweeper.ts:24-35 | a fresh grid of `rows` x `cols` cells (a negative length counts as 0); each cell's `row`/`col` equals its index, and it is not a mine, not open, not flagged, with count 0 |
| Grid.EmptyBoardIsConsistent | src/lib/minesweeper.ts:24-35 | on the board `createGrid` builds there are no mines, nothing open or flagged, every cell is a zero cell, and every count is exact |
| Grid.ShiftIsAdjacent | src/lib/minesweeper.ts:12-21 | each of the eight `DIRECTIONS` leads to a Moore neighbour, and distinct directions lead to distinct neighbours |
| Grid.AdjacentIsShift | src/lib/minesweeper.ts:12-21 | every Moore neighbour is reached by one of the `DIRECTIONS` |
| Grid.CountAroundIsMooreMines | src/lib/minesweeper.ts:72-78 | counting the in-bounds mines over the eight directions gives exactly the number of neighbouring mines, which is at most 8 |
| Grid.ExactCountsMakeZerosMineFree | src/lib/minesweeper.ts:67-81 | when the counts are exact, no safe cell counted 0 touches a mine |
| MinePlacement.SafeZoneOf | src/lib/minesweeper.ts:43-53 | the loop over `DIRECTIONS` builds the first click plus its in-bounds Moore neighbours; the click is kept even when out of bounds |
| MinePlacement.SafeZone | src/lib/minesweeper.ts:43-53 | definition (no contract): the first click plus its in-bounds Moore neighbours; the loop `SafeZoneOf` is proved to compute it |
| MinePlacement.Scatter | src/lib/minesweeper.ts:56-64 | definition (no contract): the mines after the rejection loop has consumed the draws, taking a draw only when it is not a mine and not in the safe zone, until `mines` are placed; its properties are `ScatterPlaces` |
| MinePlacement.WithMines | src/lib/minesweeper.ts:62 | the board with `isMine` set on the given cells; the set of positions is unchanged |
| MinePlacement.AddMine | src/lib/minesweeper.ts:62-63 | one accepted draw: the grid goes from the old board with mines `mines` to the old board with mines `mines + {(r, c)}`, and nothing else changes |
| MinePlacement.ScatterPlaces | src/lib/minesweeper.ts:56-64 | with enough usable draws, the rejection loop adds exactly `mines` new mines (none when `mines` ≤ 0), and keeps the old mines; each new mine is one of the draws and lies outside the safe zone |
| MinePlacement.ScatterMines | src/lib/minesweeper.ts:56-64 | the `while` loop turns into mines exactly the cells of `Scatter` over the draws, and touches nothing else |
| MinePlacement.CountAdjacentMines | src/lib/minesweeper.ts:71-78 | the count equals the number of in-bounds Moore neighbours that are mines |
| MinePlacement.NumberCell | src/lib/minesweeper.ts:69-79 | numbering one more cell, in row-major order, extends the numbering pass by that cell; a mine keeps its count, and a safe cell gets its exact count of neighbouring mines |
| MinePlacement.NumberRow | src/lib/minesweeper.ts:68-80 | the inner loop numbers every cell of row `r`, in order |
| MinePlacement.Numbered | src/lib/minesweeper.ts:67-81 | the board after the numbering pass; the set of positions is unchanged; its properties are in `PlacementSpec` |
| MinePlacement.NumberCells | src/lib/minesweeper.ts:67-81 | the nested loops leave the grid equal to `Numbered` of its old contents |
| MinePlacement.Placed | src/lib/minesweeper.ts:38-82 | definition (no contract): the board after `placeMines`, that is, the scattered mines from the safe zone of the first click, then numbering |
| MinePlacement.PlaceMines | src/lib/minesweeper.ts:38-82 | the grid ends as `Placed`: the scattered mines, then the numbering pass |
| MinePlacement.PlacementSpec | src/lib/minesweeper.ts:38-82 | the properties listed after this table |
| RevealCascade.Reveal | src/lib/minesweeper.ts:84-111 | `revealCell` on board values, with its two flags; the set of positions is unchanged, and the closed cells only shrink, which is what makes the recursion terminate; its properties are the reveal lemmas below |
| RevealCascade.Spread | src/lib/minesweeper.ts:100-108 | the first `k` rounds of the cascade's `forEach` on board values; the set of positions is unchanged and the closed cells only shrink |
| RevealCascade.RevealCell | src/lib/minesweeper.ts:84-111 | the grid and the returned flags end exactly as `Reveal` of the old contents |
| RevealCascade.RevealAround | src/lib/minesweeper.ts:100-108 | the `forEach` over `DIRECTIONS` leaves the grid as `Spread` over all eight directions |
| RevealCascade.RevealNeighbour | src/lib/minesweeper.ts:101-106 | an in-bounds neighbour is revealed recursively (its flags are discarded); an out-of-bounds one changes nothing |
| RevealCascade.SpreadStep | src/lib/minesweeper.ts:101-107 | a helper for the loop of `RevealAround`, not a property: it unfolds `Spread` by one round, which reveals the next neighbour in `DIRECTIONS` order when it is in bounds |
| RevealCascade.RevealFlags | src/lib/minesweeper.ts:89-110 | see the reveal list after this table |
| RevealCascade.RevealIdempotent | src/lib/minesweeper.ts:91 | revealing the same cell again changes nothing and returns `gameOver = false`, `win = false` |
| RevealCascade.RevealOnlyOpens | src/lib/minesweeper.ts:84-111 | a reveal changes only `isOpen` fields, and only from closed to open |
| RevealCascade.RevealPreserves | src/lib/minesweeper.ts:84-111 | see the reveal list after this table |
| RevealCascade.RevealKeeps | src/lib/minesweeper.ts:84-111 | the mines, the flags and the count-0 cells are unchanged; the cells a reveal may still open are the old ones minus those now open |
| RevealCascade.RevealSound | src/lib/minesweeper.ts:98-108 | every cell a reveal newly opens is reached from the target by a zero path over the closed, unflagged cells |
| RevealCascade.RevealComplete | src/lib/minesweeper.ts:98-108 | every closed, unflagged cell a zero path from the target reaches is open afterwards |
| RevealCascade.RevealReaches | src/lib/minesweeper.ts:98-108 | see the reveal list after this table |
| RevealCascade.RevealOpensNoMine | src/lib/minesweeper.ts:98-108 | on a board with exact counts, revealing a safe cell opens no mine |
| ZeroPaths.ReachAvoidsMines | src/lib/minesweeper.ts:100-107 | when no zero cell touches a mine, a zero path from a safe cell never ends on a mine |
| Scoring.Flood | src/lib/minesweeper.ts:129-148 | definition (no contract): the cells a zero path through count-0 cells (mine or not) leads to from the start; `FloodFill` is proved to mark exactly these |
| Scoring.Leaders | src/lib/minesweeper.ts:124-128 | definition (no contract): the safe count-0 cells that no earlier such cell reaches, in row-major order; `LeaderIffUnmarked` proves them to be the cells the test at line 126 accepts |
| Scoring.Openings | src/lib/minesweeper.ts:121-151 | definition (no contract): the cells the floods of all leaders mark |
| Scoring.ThreeBV | src/lib/minesweeper.ts:115-163 | definition (no contract): one click per opening plus one per safe cell outside every opening; `Calculate3BV` is proved to compute it |
| Scoring.PushNeighbours | src/lib/minesweeper.ts:137-146 | the `dr`/`dc` loops keep the old stack as a prefix; they push only unmarked in-bounds neighbours of the current cell, and every such neighbour ends up marked or on the stack |
| Scoring.Mark | src/lib/minesweeper.ts:133 | marking adds exactly the current cell to the visited set |
| Scoring.FloodRound | src/lib/minesweeper.ts:131-147 | one pop, mark and push round keeps the flood-fill invariant `FloodInv`; it marks a new cell or shortens the stack, so the loop terminates |
| Scoring.FloodInvDone | src/lib/minesweeper.ts:130-148 | once the stack is empty, the marked cells are the old ones plus exactly the flood of the start |
| Scoring.FloodFill | src/lib/minesweeper.ts:129-148 | on a marking that is closed under spreading, the flood fill adds exactly the cells its start reaches through count-0 cells (mine or not) |
| Scoring.LeaderIffUnmarked | src/lib/minesweeper.ts:126 | a safe count-0 cell starts a new opening exactly when no earlier opening has marked it |
| Scoring.ScanCell | src/lib/minesweeper.ts:124-149 | after cell (r, c), `bbb` counts the openings found so far, and the marked cells are the floods of those openings |
| Scoring.ScanRow | src/lib/minesweeper.ts:123-150 | the same, after row `r` |
| Scoring.CountOpenings | src/lib/minesweeper.ts:121-151 | phase 1 counts the openings, and marks exactly the cells they uncover |
| Scoring.CountRow | src/lib/minesweeper.ts:155-159 | the inner loop of phase 2 adds the unmarked safe cells of row `r` |
| Scoring.CountUnmarked | src/lib/minesweeper.ts:153-160 | phase 2 counts the safe cells that no opening marked |
| Scoring.Calculate3BV | src/lib/minesweeper.ts:115-163 | the result is `ThreeBV` of the grid, and the grid is not written |
| Scoring.ThreeBVBounds | src/lib/minesweeper.ts:115-163 | 0 ≤ 3BV ≤ the number of safe cells; 3BV ≥ 1 when some cell is safe; 3BV equals the number of safe cells when no safe cell has count 0 |
| Scoring.ZerosInOpenings | src/lib/minesweeper.ts:121-151 | every safe count-0 cell lies in some opening |
| Scoring.LeadersSeparate | src/lib/minesweeper.ts:126-148 | no opening reaches another opening's first cell, so no opening is counted twice |
| Scoring.OneLeaderPerZero | src/lib/minesweeper.ts:126-148 | every safe count-0 cell lies in exactly one opening |
| Scoring.OpeningsOrderFree | src/lib/minesweeper.ts:121-151 | the cells the openings cover do not depend on the scan order: they are the floods from all safe count-0 cells |
| Scoring.OpeningCountOrderFree | src/lib/minesweeper.ts:121-151 | the number of openings does not depend on the scan order either: every set of safe count-0 cells that do not reach one another and whose floods cover every safe count-0 cell has exactly as many members as there are leaders, and the score is that number plus the safe cells outside the floods of all zero cells |
| Scoring.SingleOpening | src/lib/minesweeper.ts:115-163 | a board whose safe cells are all reached from one zero cell scores 1 |
| Scoring.ThreeBVReadsMinesAndCounts | src/lib/minesweeper.ts:115-163 | the score depends only on `isMine` and `neighborCount`, and not on open or flag state |
| Vim.HandleVimKey | src/lib/game/input/vim.ts:22-60 | a key yields an action exactly when it is a digit key 1-9 or one of the named keys; the action then lists that key under `KeysFor`, and a digit key yields `Digit` carrying the key |
| Vim.HandleVimKeyInverse | src/lib/game/input/vim.ts:25-59 | `handleVimKey(key)` is `a` exactly when the table `KeysFor(a)` lists the key |
| Vim.DigitKeys | src/lib/game/input/vim.ts:23-26 | the digit keys are exactly "1" to "9"; "0" is not one: it yields `Zero` and never a `Digit` action |
| Vim.DollarIsOnlyLongMove | src/lib/game/input/vim.ts:35-54 | `$` is the only key that yields a `MoveCursor` whose delta is not a unit step |

`MinePlacement.PlacementSpec` states these properties of the board `placeMines` leaves:
- only `isMine` and `neighborCount` change, and `isOpen`, `isFlagged`, `row` and `col` stay as they were;
- the old mines stay;
- exactly `mines` new mines are placed (none when `mines` ≤ 0), each of them drawn and none in the safe zone;
- every safe cell records its exact number of neighbouring mines, which lies in 0..8;
- a mine keeps the count it had.

Three reveal lemmas cover several properties each:
- `RevealCascade.RevealFlags`:
  - `win` is never true;
  - `gameOver` holds exactly when the target is a closed, unflagged mine;
  - on an open or flagged cell the board is unchanged;
  - when the game is over, only the mine was opened.
- `RevealCascade.RevealPreserves`:
  - `isMine`, `isFlagged`, `neighborCount`, `row` and `col` never change;
  - no cell is closed;
  - the target is open afterwards unless it is flagged.
- `RevealCascade.RevealReaches`: the newly opened cells are exactly the cells a zero path from the target reaches over the closed, unflagged cells. This means two things:
  - unflagged cells reachable through zero cells, and their border, are opened;
  - nothing else is.

## Left out

- `Math.random`: the two draws in each round of the mine loop are a caller-supplied sequence `draws` of in-bounds cells. When `rows` and `cols` are positive, `Math.floor(Math.random() * rows)` always gives an in-bounds row, and the column draw gives an in-bounds column.
- MinePlacement.PlaceMines: on a grid with rows but no columns, the source draws column 0 and `grid[r][0].isMine` at line 60 throws a `TypeError` as soon as `mines > 0`. The model does not cover this error path: it requires the draws to be in bounds and to hold `mines` usable cells, which no draw sequence can meet on such a grid when `mines > 0`. With `mines <= 0` the model covers this grid, as the source does.
- MinePlacement.PlaceMines: requires that the draws hold at least `mines` distinct cells outside the safe zone that are not mines yet. When fewer free cells exist than `mines`, the source loops forever; with a finite draw sequence the model needs this precondition to finish.
- MinePlacement.PlaceMines and Scoring.Calculate3BV require a grid with at least one row. The source reads `grid[0].length` and fails on an empty grid.
- RevealCascade.RevealCell requires (r, c) in bounds. Outside the grid the source throws a `TypeError`: at line 89 when `r` is out of range (`grid[r]` is undefined), at line 91 when only `c` is (`cell` is undefined). The requires excludes this error path.
- The `grid` field `revealCell` returns is the same reference as its input, so it is not modelled. The recursive calls' results are discarded in the source and in the model.
- The recursion of `revealCell` is three mutually recursive methods: `RevealCell`, the `forEach` loop (`RevealAround`) and one round of it (`RevealNeighbour`). They terminate on the number of closed cells.
- RevealCascade.RevealCell: the model's recursion has no depth limit. The source's recursive cascade (lines 101-106) nests one call per cell of a zero region, and on a large opening it can exceed the JavaScript call stack, which throws a `RangeError`. That error path is not modelled.
- `Cell[][]` is a rectangular `array2`. Ragged rows and cells shared between positions (aliasing) are not modelled.
- Board extent in `createGrid`: the dimensions are integers. A fractional length, which `Array.from` would truncate, is not modelled. `Grid.CreateGrid` builds a grid of any size, whereas `Array.from({ length: n })` throws a `RangeError` when `n` is 2^32 or more.
- JavaScript numbers are IEEE doubles; the model uses unbounded integers. Every count here (mines placed, neighbour counts, the 3BV total) is at most the number of cells, far below 2^53, so the two agree. Fractional inputs are not modelled: `mines` is an integer. A fractional count such as `mines = 2.5` would make the loop at line 56 place 3 mines.
- The safe zone's string keys `"r,c"` are modelled as pairs. The encoding is injective on integers.
- The regular expression `/^[1-9]$/` is modelled as "a single character from '1' to '9'". Keys are sequences of characters; UTF-16 code units and case folding play no part.
- Up-front validation of the mine count against the free cells is not modelled: `placeMines` performs none, and the model follows the code.
