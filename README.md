# GOL-1d-nl simulation core in Dafny

This project models the simulation engine of `idea.py`. The engine runs a
two-dimensional, two-state cellular automaton (Conway's Life rule) as a
one-dimensional, ever-growing buffer. It has two parts.

- **Seed embedder** (`seed_embedder.dfy`, module `SeedEmbedder`).
  `dump_start_seed_in_space` reads a flat seed as a square of side
  `s = ceil(sqrt(len(seed)))` and zero-pads it to `s * s` cells. It then
  copies that square row by row into an all-zero `x * x` grid, at row and
  column offset `(x - s) // 2`. A write happens only when the linear grid
  index lies in `[0, x * x)`. Columns are not checked, so when `s > x` a seed
  row can spill into the next grid row. A later write then overwrites an
  earlier one.
- **Linear stepper** (`linear_stepper.dfy`, module `LinearStepper`).
  `process` copies the start buffer and appends one cell per step. Let
  `t = x * x`. Step `n` reads the "self" value at `state[n - t]`, with
  Python's negative indexing. It sums the buffer values at the eight
  candidate positions `n - t + d`, for `d` in `{-x-1, -x, -x+1, -1, 1, x-1,
  x, x+1}`, that lie in `[0, len(state))`. It then appends 1 on a sum of 3,
  or on a sum of 2 when the self value is non-zero, and 0 otherwise. A step
  that appends 1 ends with `continue`. A step that appends 0 goes on to the
  line-break code, which evaluates `n % x`.
  The model lists the eight positions as `Candidates`. Beside the
  source's filter-then-sum it gives a reference definition, `GuardedSum`,
  which adds each candidate's value, or 0 for a position outside the buffer.
  `NeighbourSum` proves the two agree.

Both Python functions work by mutating lists in loops, so both are Dafny
methods with loops: `DumpStartSeedInSpace` fills arrays (through `PadToSquare`
and `CopyIntoGrid`, one method per loop nest), and `Process` grows a
sequence. `StepCell` is the part of one loop iteration that computes the new
cell. Each method is proved equal to a specification function (`Embedded`,
`Run`). `Process` returns an `Outcome`: either `Finished` with the final
buffer or `ZeroDivisionError` at a step. The lemmas beside each function state what the code
promises: the padding and side length, which grid cells the seed reaches
and with what value, that history is never edited, and the exact rule for
every appended cell.

Points where the model is deliberately precise:

- **Side length.** `int(len ** 0.5)` is modelled as the exact integer floor
  square root. The source's upward correction follows it, so the side is the
  least `s` with `s * s >= len`. An empty seed gives side 0 and an all-zero
  grid.
- **Division.** Python's `//` floors and Dafny's `/` is Euclidean. The only
  floor division is by 2, a positive divisor, where the two agree. So the
  offset `(x - s) / 2` is negative exactly when Python's is. The other
  divisions, `n % x` and `n % t` in `process` (idea.py:79, 83), only decide
  line breaks; the one effect they have on the model is the division by
  zero below.
- **Write order.** When `s > x`, two seed cells can target the same grid
  cell. The model keeps the row-major write order (`Placed`), so the last
  writer wins, as in the source.
- **Self read.** `state[n - t]` is modelled with `PyIndex`, which counts a
  negative index from the end of the buffer as it stands at step `n`.
  `process` raises `IndexError` only at step 0 and only when `t >
  len(start_state)`, or when both are 0. `CanRun` excludes exactly that and
  nothing more; the other error of `process` is kept as an outcome (next
  point). For `n < t` the self value is cell `len(start) + 2n - t` of
  the run (`SelfReadInHistory`), not the cell one stride behind.
- **Division by zero.** With `x = 0`, the `n % x` at idea.py:79 raises
  ZeroDivisionError on the first step that appends 0. A run that only ever
  appends 1 never reaches that line and returns normally. `Process`
  returns `ZeroDivisionError(p)` exactly when `x = 0` and some appended cell
  is 0. `p` is then the first step that appends 0 (`FirstZeroStep`).
  Otherwise it returns the whole run.
- **Sum, not count.** `count_trues` adds values. The candidate list repeats
  a position exactly when `-2 <= x <= 2` (`CandidatesDistinct`). For `x = 2`,
  for example, `n - t - x + 1 == n - t - 1`. A repeated position is added twice
  (`DuplicateCandidateExample`). A start value other than 0 or 1 is added as
  it is.
- **Steps.** `range(steps)` is empty for a negative `steps`, so the model
  takes any integer and runs `max(steps, 0)` steps.

Two details of idea.py the model keeps:

- The grid index adds the column offset too:
  `(center_row + i) * x + (center_col + j)` (idea.py:35).
- `count_trues` sums the values at the filtered positions (idea.py:43); it
  does not count cells equal to 1.

## Model

| member | source | states |
|---|---|---|
| `SeedEmbedder.FloorSqrt` | idea.py:15 | `r * r <= n < (r + 1) * (r + 1)`: the integer part of the square root |
| `SeedEmbedder.SeedSideLength` | idea.py:15-17 | the side holds the seed (`len <= s * s`), and side `s - 1` would not |
| `SeedEmbedder.SeedSideLengthIsLeast` | idea.py:15-17 | every `k` with `len <= k * k` is at least the side, so the side is the integer ceiling square root |
| `SeedEmbedder.SquareSeed` | idea.py:20-22 | length `s * s`; its first `len(seed)` cells are the seed, and every later cell is 0 |
| `SeedEmbedder.Offset` | idea.py:28-29 | the margin after the square, `x - s - off`, equals the margin before it or one more; when `s <= x` the offset is non-negative and the square ends inside the grid |
| `SeedEmbedder.GridIndexDecodes` | idea.py:35 | when the column `center_col + j` lies in `[0, x)`, `grid_idx // x` is the row `center_row + i` and `grid_idx % x` is that column |
| `SeedEmbedder.CellIndexBound` | idea.py:34 | `seed_idx = i * s + j` lies in `[0, s * s)` for every `i, j < s`, so the guard `seed_idx < len(square_seed)` always holds |
| `SeedEmbedder.RowColumnUnique` | idea.py:34-35 | `a * x + q` with `q` in `[0, x)` is equal for two pairs only when the rows and the columns agree: distinct in-grid cells have distinct linear indices |
| `SeedEmbedder.Place` | idea.py:37-38 | one guarded write keeps the grid length and changes no cell other than `grid_idx` |
| `SeedEmbedder.Placed` | idea.py:25-38 | after any prefix of the row-major loop the grid still has `x * x` cells |
| `SeedEmbedder.Embedded` | idea.py:25-40 | the returned grid always has length exactly `x * x`, for any seed and any `x` |
| `SeedEmbedder.PlacedUntouched` | idea.py:25-38 | after any prefix of the row-major loop, a grid cell that no seed cell visited so far targets is still 0 |
| `SeedEmbedder.PlacedKeeps` | idea.py:32-38 | after any prefix of the loop, a grid cell holds the square-seed value of the last visited seed cell that targeted it |
| `SeedEmbedder.EmbeddedUntouched` | idea.py:25-38 | a grid cell that no in-range seed cell targets is 0 in the result |
| `SeedEmbedder.EmbeddedLastWriter` | idea.py:32-38 | a grid cell targeted by seed cell `(i, j)`, and by no seed cell after it, holds `square_seed[i * s + j]`; this covers clipping and spill |
| `SeedEmbedder.EmbeddedCentered` | idea.py:28-38 | when `s <= x`, cell `(off + i) * x + (off + j)` with `off = (x - s) // 2` is in the grid and holds `square_seed[i * s + j]` |
| `SeedEmbedder.PadToSquare` | idea.py:20-22 | the copy loop leaves a fresh array equal to `SquareSeed(seed)`: the seed, then zeros up to `s * s` cells |
| `SeedEmbedder.CopyIntoGrid` | idea.py:25-38 | the nested row-major loop leaves exactly `Placed` over all `s * s` seed cells: guarded writes in source order into a zero `x * x` grid |
| `SeedEmbedder.DumpStartSeedInSpace` | idea.py:9-40 | side length, padding and copy together compute `Embedded(seed, x)` (length `x * x`), with no precondition and every array write in bounds |
| `SeedEmbedder.PaddingExample` | idea.py:15-22 | seed `[1, 1, 1]` gets side 2 and square seed `[1, 1, 1, 0]` |
| `SeedEmbedder.CentreExample` | idea.py:25-38 | seed `[1]` in a 5 x 5 grid gives all zeros except a 1 at index 12 |
| `SeedEmbedder.SpillExample` | idea.py:28-38 | a nine-cell seed in a 2 x 2 grid gives `[seed[4], seed[6], seed[7], seed[8]]`: clipped cells dropped, seed cell 5 spilled and then overwritten by seed cell 6 |
| `LinearStepper.PyIndexWraps` | idea.py:64 | Python's `state[i]` for `-len <= i < len` is `state[(i + len) % len]`: a negative index wraps around once |
| `LinearStepper.ValidIndices` | idea.py:59 | the filtered list is no longer than the candidate list, and every position it keeps lies in `[0, len)` |
| `LinearStepper.ValidIndicesKeeps` | idea.py:59 | a position is in the filtered list iff it is a candidate and lies in `[0, len)`: nothing in range is dropped, nothing is added |
| `LinearStepper.SumAt` | idea.py:43 | on a buffer of 0s and 1s, `sum(state[i] for i in idx)` lies in `[0, len(idx)]` |
| `LinearStepper.CountTrues` | idea.py:42-43 | on a buffer of 0s and 1s, the sum of the three strips lies between 0 and the total number of positions |
| `LinearStepper.LiveNeighbours` | idea.py:54-65 | on a buffer of 0s and 1s, `old_live_neighbors` lies in `[0, 8]` |
| `LinearStepper.LifeRule` | idea.py:67-74 | the appended value is 0 or 1, and 1 iff the sum is 3, or the sum is 2 and the self value is non-zero |
| `LinearStepper.NextCell` | idea.py:64-74 | the cell a step appends is always 0 or 1, whatever the buffer holds |
| `LinearStepper.CanRun` | idea.py:50-64 | a run is allowed iff it has no step or the self read `state[0 - t]` of step 0 is in range: exactly the `IndexError` condition |
| `LinearStepper.GuardedSum` | idea.py:43 | the reference neighbour sum, each position's value or 0 outside the buffer, lies in `[0, len(pos)]` on a buffer of 0s and 1s |
| `LinearStepper.CandidatesDistinct` | idea.py:54-56 | the eight candidate positions of a step are pairwise different iff `x <= -3` or `x >= 3`; for `-2 <= x <= 2` some position occurs twice, so `count_trues` adds its value twice |
| `LinearStepper.FilteredSum` | idea.py:43 | summing the filtered positions equals summing every position with 0 for an out-of-range one |
| `LinearStepper.GuardedSumAppend` | idea.py:43 | the guarded sum over two concatenated candidate lists is the sum of the two guarded sums, as `count_trues` adds its three strip sums |
| `LinearStepper.NeighbourSum` | idea.py:54-65 | `old_live_neighbors` equals the sum over the eight `Candidates` around `n - t`, with 0 for each candidate outside the buffer (no wrap-around) |
| `LinearStepper.Run` | idea.py:48-74 | after `steps` steps the buffer has length `len(start) + steps` |
| `LinearStepper.RunPrefix` | idea.py:48-74 | history is only appended to: the buffer after `k` steps is a prefix of the buffer after `m >= k` steps; in particular the start state is kept |
| `LinearStepper.RunNext` | idea.py:50-74 | the buffer after `n + 1` steps is the buffer after `n` steps with the cell that step `n` computes from it appended, and that step's self read is in range |
| `LinearStepper.RunStep` | idea.py:50-74 | cell `len(start) + n` of any run is the cell that step `n` computes from the buffer of length `len(start) + n` |
| `LinearStepper.RunCell` | idea.py:54-74 | every appended cell is 0 or 1, and is 1 iff (self non-zero and sum in {2, 3}) or (self zero and sum 3), with the sum taken over the eight `Candidates`, 0 for each one outside the history |
| `LinearStepper.SelfReadInHistory` | idea.py:64 | the self value of step `n` is run cell `n - t` when `n >= t`, and run cell `len(start) + 2n - t` (negative-index wrap) when `n < t` |
| `LinearStepper.RunBinary` | idea.py:67-74 | a run started from 0s and 1s holds only 0s and 1s |
| `LinearStepper.StepCell` | idea.py:54-74 | one loop iteration's strips, filter, self read, sum and branches compute exactly `NextCell` of the buffer as it stands |
| `LinearStepper.ZeroStops` | idea.py:67-79 | when step `p` appends 0 and no earlier step did, it is the first zero step of every longer run, whose appended cells are therefore not all non-zero |
| `LinearStepper.Process` | idea.py:45-86 | finishes iff `x != 0` or no appended cell is 0, and then returns `Run(x, start, max(steps, 0))`, which starts with the unchanged start state; otherwise `x = 0` and it stops with `ZeroDivisionError` at the first step that appends 0 (idea.py:79) |
| `LinearStepper.DuplicateCandidateExample` | idea.py:42-43 | with `x = 1` and buffer `[1]`, step 0 keeps cell 0 in both the middle and the bottom strip (sum 2), so the cell survives: the run is `[1, 1]` |

## Left out

- The float square root at idea.py:15 is replaced by the exact integer floor square root. For very large seeds, rounding in `len ** 0.5` could make Python's side differ; the model does not capture that.
- The `print` calls and row and grid line breaks inside `process` (idea.py:76-84) are output only and are not modelled. They run only when 0 is appended, because of the `continue` statements. The one effect of that code that is modelled is the ZeroDivisionError of `n % x` at idea.py:79 for `x = 0`. `n % t` at idea.py:83 cannot raise on its own, because `t = 0` only when `x = 0`.
- The module-level script (idea.py:5-7, 88-91) is not modelled: the constants `HOWEVER_MANY`, `START_SEED` and `x`, the top-level call to `process` and its prints.
- utils/utils.py is not part of this model. It loads a CSV with pandas and prints per-group `describe()` statistics through a library that is not visible here.
- No density figure is modelled: no code in idea.py computes one.
- Python lists are modelled as Dafny values. `process` copies its argument, so the caller's list cannot change, and the model states nothing about aliasing beyond that.
- Only integer cell values are modelled. A Python list could hold other objects; `idea.py` uses integers.
- LinearStepper.Process: requires `CanRun`, so it does not model the `IndexError` that `state[n - t]` (idea.py:64) raises at step 0 when `t > len(start_state)` or when both are 0. `CanRun` holds exactly when that read is in range, and every later step's read is then in range too (`RunNext`).
