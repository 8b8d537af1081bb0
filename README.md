# cellularust: a verified model of the simulation core

cellularust runs Conway's Game of Life on a fixed 100 x 100 grid of
booleans. The user steps through the generations in a window. The whole
program is one file, `src/main.rs`. This project models its simulation
core in Dafny:

- **Grid addressing** (`grid.dfy`, module `Grid`). `get_x_y` turns a flat
  index into `(i % CELL_WIDTH, i / CELL_HEIGHT)`. `get_idx` turns a pair
  back into `y * CELL_HEIGHT + x`. The two only round-trip because the
  grid is square.
- **usize arithmetic** (`usize.dfy`, module `Usize`). Rust's
  `overflowing_sub`, `overflowing_add` and `wrapping_sub` on a 64-bit
  `usize`, with the wrap-around written out modulo 2^64.
- **Generation tick** (`generation.dfy`, module `Generation`).
  `cell_generation_tick` sweeps the cells in index order.
  - For each cell it pushes up to eight candidate indices, guarded by the
    overflow flags.
  - It counts the live candidates whose index is below the grid length.
  - It applies the hard-coded Conway rule and writes the result back into
    the same array.
  - Cells below `i` therefore already hold next-generation values when
    cell `i` reads them.

  The specification is a recursive function `Partial`, whose step
  `SweepStep` is one iteration. `Tick` is the full sweep.
  `CellGenerationTick`, an imperative method on an array, is proved to
  compute `Tick`.
- **Seeder** (`seeder.dfy`, module `Seeder`). `seed_cells` starts from an
  all-dead array. Every cell that passes the `wrapping_sub` box test gets
  the next random draw. The random source is a stream `rng: nat -> bool`,
  where `rng(k)` is the outcome of the `k`-th `gen_bool` call.
- **History and navigation** (`navigation.dfy`, module `Navigation`).
  `main` keeps three variables: the vector of snapshots, the cursor
  `skip_index` and the play flag `should_play`. The model extracts them
  into the class `History`. It has the methods:
  - `PlayTick`: the timed advance.
  - `Right` and `Left`: the arrow keys.
  - `Toggle`: the Space key.

  The snapshot limit is a constructor parameter. `get_next_skip_index`
  is a clamp.

What the code does that a reader might not expect:

- The sweep updates the array in place, so when cell `i` counts its
  neighbours, the cells below `i` already hold their new values and the
  cells from `i` on still hold their old ones.
- The seed box is columns and rows 1 to 50: the `wrapping_sub` test
  excludes column and row 0 and everything past 50.
- A right-edge cell's `x + 1` candidate is `get_idx(100, y)`, the first
  cell of the next row, and it is counted as a neighbour.
- The survival and birth rule is written into the sweep itself.
- At the newest snapshot, Right pushes a new generation but leaves the
  cursor's number unchanged. Without an eviction the cursor still shows
  the old newest grid; after an eviction the same number names the new
  generation. The play tick instead moves the cursor to the newest
  snapshot.

## Model

| member | source | states |
|---|---|---|
| Usize.OverflowingSub | src/main.rs:40-43 | the result is the difference modulo 2^64, a `usize`, and the flag is set exactly when the true difference is not a `usize` |
| Usize.OverflowingAdd | src/main.rs:40-43 | the result is the sum modulo 2^64, a `usize`, and the flag is set exactly when the true sum is not a `usize` |
| Usize.WrappingSub | src/main.rs:100-101 | the result is the difference modulo 2^64 and is a `usize` |
| Grid.GetXY | src/main.rs:27-29 | the pair is the row-major decomposition of the index: a column below the width and a row with `row * width + column == i` |
| Grid.GetIdx | src/main.rs:31-33 | for an in-range column, dividing the index by the width gives back the row and the remainder gives back the column |
| Grid.IndexRoundTrip | src/main.rs:12-33 | every index below 10000 maps to in-range coordinates, and `get_idx` of those coordinates is the index again |
| Grid.CoordRoundTrip | src/main.rs:12-33 | every in-range pair maps to an index below 10000, and `get_x_y` of it is the pair again |
| Grid.PastRightEdge | src/main.rs:31-33 | `get_idx(100, y)` equals `get_idx(0, y + 1)`: one past the right edge aliases the next row's first cell |
| Generation.Push | src/main.rs:40-70 | the guard of push `k` holds exactly when the neighbour at the `k`-th offset has `usize` coordinates, and then that neighbour is the pair pushed |
| Generation.CandidateCoordsUnrolled | src/main.rs:40-70 | the guarded pushes yield, in source order, exactly the pairs whose `usize` arithmetic did not wrap |
| Generation.CandidateCoordsMoore | src/main.rs:40-70 | a pair is a candidate iff it is a Moore neighbour of `(x, y)`, other than `(x, y)` itself, with both coordinates `usize` values |
| Generation.CandidateCount | src/main.rs:40-70 | an in-grid cell has 8 candidates inside, 5 on the left or top edge and 3 at the origin, so at most 8 |
| Generation.NoUnderflowCandidates | src/main.rs:40-70 | at `x == 0` no candidate has `x` above 1, and at `y == 0` no candidate has `y` above 1: the wrapped value is never pushed |
| Generation.IndicesUpToCoords | src/main.rs:45-70 | after the first `n` pushes, every pushed index is `get_idx` of the pair pushed at the same position |
| Generation.CandidatesAreIndices | src/main.rs:45-70 | each candidate index is `get_idx` of the candidate pair at the same position, and at most 10100 |
| Generation.Candidates | src/main.rs:45-70 | there is one candidate index per candidate pair, so at most 8 |
| Generation.OriginCandidates | src/main.rs:40-70 | cell `(0, 0)` has exactly the candidates `get_idx(1,0)`, `get_idx(0,1)` and `get_idx(1,1)`, that is 1, 100 and 101 |
| Generation.BottomRowDropped | src/main.rs:56-57 | on the bottom row a `y + 1` candidate has an index at or past 10000, so line 73 skips it |
| Generation.RightEdgeWraps | src/main.rs:50-51 | on the right edge, `get_idx(0, y + 1)` is a candidate of row `y`, and it is inside the grid above the bottom row |
| Generation.CountLive | src/main.rs:72-78 | the count is at most the number of indices |
| Generation.CountLiveNone | src/main.rs:72-78 | with no live in-grid cell among the indices, the count is 0 |
| Generation.CountLivePositive | src/main.rs:72-78 | one live in-grid cell among the indices makes the count at least 1 |
| Generation.CountLiveReadsOnly | src/main.rs:72-78 | the count depends only on the cells at the indices that are below the grid length |
| Generation.LiveCount | src/main.rs:37-78 | the live count of any cell is at most 8 |
| Generation.RightEdgeCounted | src/main.rs:72-78 | a live `(0, y + 1)` is counted by the right-edge cell of row `y` |
| Generation.NextState | src/main.rs:80-91 | a live cell survives iff its count is 2 or 3; a dead cell is born iff its count is exactly 3 |
| Generation.SweepStep | src/main.rs:37-91 | one iteration keeps the grid length |
| Generation.SweepStepOthers | src/main.rs:80-91 | one iteration changes no cell but its own |
| Generation.Partial | src/main.rs:36-91 | every intermediate grid of the loop keeps the grid length |
| Generation.Tick | src/main.rs:35-93 | the returned grid has the input's length |
| Generation.PartialUntouched | src/main.rs:36-80 | after `i` iterations every cell at index `i` or above still holds its input value, so line 80 reads the original state |
| Generation.PartialFrozen | src/main.rs:36-91 | once iteration `k` has written cell `k`, no later iteration changes it |
| Generation.PartialIsMixed | src/main.rs:36-91 | after `i` iterations the grid is the result's first `i` cells followed by the input's remaining cells |
| Generation.TickCell | src/main.rs:72-91 | each result cell is the rule applied to the input state and to the count read from the already-updated lower cells and the original higher cells |
| Generation.SweepEquationsPartial | src/main.rs:35-93 | a grid that satisfies every cell's sweep equation is the sweep's grid at every step |
| Generation.TickIffSweepEquations | src/main.rs:35-93 | a grid satisfies the in-place sweep equations iff it is the tick result: the equations characterise the sweep completely |
| Generation.DeadGridStaysDead | src/main.rs:35-93 | an all-dead grid ticks to itself |
| Generation.PushCandidates | src/main.rs:40-70 | the vector built by the eight guarded pushes is the candidate list of the cell |
| Generation.CountLiveCandidates | src/main.rs:72-78 | the loop over the candidate vector returns the count of live in-grid candidates |
| Generation.SweepCell | src/main.rs:37-91 | one loop iteration rewrites the array exactly as one sweep step does |
| Generation.CellGenerationTick | src/main.rs:35-94 | the in-place sweep over a copy of the grid returns exactly `Tick` of the input |
| Seeder.SeedBoxTest | src/main.rs:100-101 | for all `usize` coordinates, the `wrapping_sub` box test passes iff `x` and `y` are both in `[1, 50]` |
| Seeder.InSeedBoxIff | src/main.rs:99-101 | the box test on `get_x_y(i)` passes exactly for the cells of the seed box |
| Seeder.DrawsBefore | src/main.rs:98-104 | the number of draws taken before cell `i` is at most `i` |
| Seeder.SeedGrid | src/main.rs:96-107 | the seeded grid is a whole grid |
| Seeder.SeedGridCells | src/main.rs:98-104 | a cell failing the `wrapping_sub` test on `get_x_y(i)` is dead; a passing cell holds the draw numbered by the passing cells before it, and takes exactly one draw |
| Seeder.DrawsIncrease | src/main.rs:98-104 | different in-box cells take different draws, in index order |
| Seeder.DrawsBeforeClosedForm | src/main.rs:98-104 | the draws before index `i` are 50 per completed row among rows 1-50, plus the in-box columns before `i` in its own row |
| Seeder.DrawCount | src/main.rs:98-104 | the seeder takes exactly 2500 draws, and every in-box cell's draw is one of them |
| Seeder.SeedGridConstantStreams | src/main.rs:96-107 | an all-false stream seeds an all-dead grid; an all-true stream seeds exactly the box |
| Seeder.SeedCell | src/main.rs:99-104 | one iteration writes the seeded value of cell `i` and advances the draw counter exactly when the cell is in the box |
| Seeder.SeedCells | src/main.rs:96-107 | the seeder loop returns exactly the seeded grid of the stream |
| Navigation.GetNextSkipIndex | src/main.rs:109-114 | the result is the point of `[0, max]` nearest to `dir + i` |
| Navigation.SkipIndexSteps | src/main.rs:109-114 | one step right moves the cursor on by one except at `max`; one step left moves it back by one except at 0 |
| Navigation.History.Valid | src/main.rs:136-151 | the invariant of the history (non-empty, at most `limit` snapshots, cursor on a snapshot, whole grids) keeps the cursor below the limit |
| Navigation.History.Current | src/main.rs:184 | the snapshot the draw step shows always exists and is a whole grid |
| Navigation.History.constructor | src/main.rs:133-136 | the history starts with the seeded grid as its only snapshot, the cursor on it, and paused |
| Navigation.History.PushTick | src/main.rs:147-150 | the tick of the newest snapshot is appended and the oldest evicted when over the limit; the cursor and flag are unchanged and the invariant is kept |
| Navigation.History.PlayTick | src/main.rs:142-153 | while paused nothing changes; behind the newest snapshot the cursor moves on by one; at the newest a tick is pushed and the cursor follows it |
| Navigation.History.Right | src/main.rs:161-172 | while playing nothing changes; behind the newest snapshot the cursor moves on by one; at the newest a tick is pushed and the cursor keeps its number, showing the old newest grid, or the new one after an eviction |
| Navigation.History.Left | src/main.rs:174-179 | the snapshots never change; while paused the cursor moves back by one and stays at 0; while playing nothing changes |
| Navigation.History.Toggle | src/main.rs:158-160 | the play flag flips and nothing else changes |
| Navigation.RewindReplay | src/main.rs:161-179 | `n` Lefts then `n` Rights while paused return to the same cursor and grid and push nothing |

## Left out

- Window creation, the event loop, key decoding, the window title and
  drawing (src/main.rs:118-131, 137, 155-156, 183-197) are user-interface
  I/O through piston. The draw step appears only as the lookup
  `History.Current`.
- The frame-time accumulator `ft` and the tick-rate and scale constants
  are floating point. A fired timer tick is a call to `History.PlayTick`.
- `thread_rng` and `gen_bool(SEED_SPAWN_RATE)` are a foreign random
  source with a floating-point probability. The model replaces them with
  the draw stream `rng`, so no claim is made about the probability of a
  live cell.
- History.constructor: the literal `SNAPSHOT_LIMIT = usize::MAX - 1` is
  replaced by a positive `limit` parameter, so that eviction can happen.
  With the literal value, eviction is unreachable in practice.
- History.PushTick: `remove(0)` is modelled as dropping the first element
  of a sequence. Its linear cost on a vector is not modelled.
- GetNextSkipIndex: the `i as isize` and `max as isize` casts are taken
  as exact. Their overflow above `isize::MAX` is not modelled, since the
  cursor and length never come near it.
- The `expect("NO SNAPSHOT")` calls on `snapshots.last()` and
  `snapshots.get(skip_index)` are not modelled as panics. The invariant
  `History.Valid` proves that they cannot fail.
