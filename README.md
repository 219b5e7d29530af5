# Falling blocks — a Dafny model of the App simulation

The App component draws a grid of 15 rows and 20 columns. Groups of five
blocks spawn in random columns, fall at a constant 0.05 rows per frame, and
are discarded once they leave the grid. This project models that simulation:

- the block record `{col, y, color}` and the constants;
- `spawnBlockGroup`: five blocks in one column, with rows 4, 3, 2, 1, 0 and one palette colour;
- one animation frame: advance every block, cull those with `y >= ROWS`, and
  (behind a random gate) spawn in a random column unless that column is
  blocked;
- the component's `blocks` state cell, as a class whose `Animate` method
  performs one frame.

`falling_blocks.dfy` (module `FallingBlocks`) holds the pure functions and the
lemmas about them. `app.dfy` (module `App`) holds the class `Simulation`. Its
`blocks` field is the React state. Its methods are proved against the pure
functions.

Rows are exact `real`s, so `FALL_SPEED` is exactly `0.05`. `Math.random` is
replaced by explicit sample parameters. The column and colour samples are
required to lie in `[0, 1)`, which is what `Math.random` returns; they are
scaled and floored into an index. The gate sample is only compared with
0.99, so the model accepts any real there, which includes every value
`Math.random` can return. The program draws the column
sample only when the spawn gate fires, and the colour sample only when a
spawn happens; the model always takes all three samples (gate, column,
colour) for a frame and ignores the ones it does not use. `Math.floor(r * n)`
is Dafny's `.Floor`.

Two notes on the code:

- The comment at src/App.jsx:19 says a new group starts "off-screen (stacked
  above the grid)", but `-i+4` gives rows 4 down to 0, so no row is ever
  negative. `StepKeepsInGrid` proves `0 <= y < ROWS` for every live block.
- The code makes at most one spawn attempt per frame. `SecondSpawnRejected`
  models a second attempt by applying the guarded spawn `Admit` twice.

## Model

| member | source | states |
|---|---|---|
| FallingBlocks.ScaledIndex | src/App.jsx:36 | `Math.floor(r * n)` for a sample `r` in `[0,1)` is an index in `[0, n)` and is the floor of `r * n` |
| FallingBlocks.ColumnOf | src/App.jsx:36 | the sampled column always lies in `[0, COLS)` |
| FallingBlocks.PickColor | src/App.jsx:16 | the spawn colour is `COLORS[k]` for some index `k` from 0 up to, not including, the palette length |
| FallingBlocks.MakeGroup | src/App.jsx:17-21 | a new group has exactly `GROUP_SIZE` blocks, all in column `col`, all of the given colour, all with rows in `[0, 4]` |
| FallingBlocks.GroupShape | src/App.jsx:17-21 | a group has exactly `GROUP_SIZE` blocks; all have column `col` and the one chosen colour; block `i` has row `4 - i`; the set of rows is exactly {0,1,2,3,4}; every row is below `GROUP_SIZE` |
| FallingBlocks.Advance | src/App.jsx:31 | the list keeps its length; each block's `y` grows by `FALL_SPEED`; `col` and `color` are unchanged |
| FallingBlocks.AdvanceIsShift | src/App.jsx:31 | advancing equals an independent index-wise definition of moving every block down by `FALL_SPEED` |
| FallingBlocks.Cull | src/App.jsx:32 | the result holds only blocks with `y < ROWS`; each such block occurs exactly as often as in the input; blocks with `y >= ROWS` are gone; the result is a subsequence of the input, so order is kept and nothing is added |
| FallingBlocks.CullUnique | src/App.jsx:32 | `Cull` is the only subsequence of the input that keeps exactly the blocks with `y < ROWS`, so it is the order-preserving filter |
| FallingBlocks.CullKeepsAll | src/App.jsx:32 | the cull removes nothing if and only if every block has `y < ROWS` |
| FallingBlocks.CullNone | src/App.jsx:32 | a list whose blocks are all at or past the bottom culls to empty |
| FallingBlocks.CullShift | src/App.jsx:30-32 | a culled block never comes back: culling before a further downward move changes nothing after the next cull |
| FallingBlocks.Update | src/App.jsx:30-32 | after advance and cull every block has `y < ROWS`, the list is a subsequence of the advanced input, and it is no longer than the input |
| FallingBlocks.UpdateSpec | src/App.jsx:30-32 | after advance and cull, every block has `y < ROWS`; the list is a subsequence of the advanced input and no longer than the input; an advanced block survives if and only if its new row is below `ROWS` |
| FallingBlocks.ColumnBlocked | src/App.jsx:38 | the front-to-back scan of the list is true if and only if some block in the column has a row below `GROUP_SIZE` |
| FallingBlocks.ColumnBlockedAppend | src/App.jsx:38 | the column guard on a concatenation is the disjunction of the guard on each part |
| FallingBlocks.Admit | src/App.jsx:38-40 | the guarded spawn appends exactly `GROUP_SIZE` blocks when the column is free and nothing when it is blocked; the old list is an unchanged prefix; the new blocks are in column `col` with rows below `GROUP_SIZE`; afterwards the column is blocked |
| FallingBlocks.SecondSpawnRejected | src/App.jsx:38-39 | a second guarded spawn in the same column, before any advance, leaves the list unchanged |
| FallingBlocks.Step | src/App.jsx:28-44 | a frame yields advance+cull, optionally followed by one new group in the sampled column; it spawns if and only if the gate sample exceeds 0.99 and the sampled column is not blocked after the cull |
| FallingBlocks.QuietStep | src/App.jsx:35 | a frame whose gate sample is at most 0.99 is only advance+cull |
| FallingBlocks.UpdateKeepsInGrid | src/App.jsx:30-32 | advance and cull keep every block's column in `[0, COLS)` and its row in `[0, ROWS)` |
| FallingBlocks.StepKeepsInGrid | src/App.jsx:28-44 | a frame keeps every block on the grid: column in `[0, COLS)` and row in `[0, ROWS)` |
| FallingBlocks.DropIsLinear | src/App.jsx:31 | `Drop(n)`, the total fall that `DriftIsShiftedCull` applies after `n` frames, equals `n * FALL_SPEED` |
| FallingBlocks.Drift | src/App.jsx:28-44 | `n` frames whose gate does not fire never lengthen the list, and after at least one such frame every block has `y < ROWS` |
| FallingBlocks.DriftIsShiftedCull | src/App.jsx:30-32 | `n` frames without a spawn equal one move of `n * FALL_SPEED` rows followed by one cull: every block falls at constant speed and is removed on the first frame its row reaches `ROWS` |
| FallingBlocks.GroupGoneAfter300 | src/App.jsx:17-32 | a group spawned alone on an empty grid is gone after 300 or more frames without a spawn |
| FallingBlocks.GroupIntactBefore220 | src/App.jsx:17-32 | for fewer than 220 frames all five blocks of such a group are still present, each moved down by exactly the frames' drop |
| FallingBlocks.SpawnTwiceInSevenScenario | src/App.jsx:35-40 | two guarded spawns in column 7 of an empty grid leave exactly five blocks, not ten |
| App.Simulation.constructor | src/App.jsx:11 | the component starts with an empty block list, which is on the grid |
| App.Simulation.SpawnBlockGroup | src/App.jsx:15-23 | the block list becomes the old list followed by the new group; the column is then blocked; the grid invariant is kept when the column is in range |
| App.Simulation.Animate | src/App.jsx:27-44 | the new block list is `Step` of the old one for the frame's samples, and the grid invariant is kept |

## Left out

- Rendering: the grid cells and the block styling (opacity fade, transform,
  shadow, animation), and `CELL_SIZE`, which only sizes the layout. This is
  presentation only.
- Frame scheduling: `requestAnimationFrame`, `cancelAnimationFrame` and the
  `animationRef` bookkeeping. Each call of `Animate` is one frame; whatever
  calls it in a loop is the host's concern.
- `Math.random`: each sample is a parameter. The column and colour samples
  are constrained to `[0, 1)`; the gate sample may be any real.
- React hook semantics. The source calls `setBlocks` for the spawn from inside
  the frame's state updater, so that append is queued and runs after the
  updater. The model applies only the net effect: advance+cull, then the
  appended group. Repeated updater calls in development mode are not modelled.
- IEEE-754 arithmetic. Rows are exact reals. Repeated float additions of 0.05
  may differ slightly from `n * 0.05`, so in the running program the frame on
  which a block is culled may be one later or earlier than in the model. The
  scenario lemmas (`GroupGoneAfter300`, `GroupIntactBefore220`) are about the
  exact-arithmetic model only.
