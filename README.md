# Game of Life universe, modelled in Dafny

This project models the engine behind the Game of Life page of the jpcd-yew
web front end. The page shows a 53 by 40 toroidal grid of cells. Each cell is
Dead or Alive. The cells sit in one row-major buffer. One generation applies
Conway's rule, B3/S23: birth on exactly three live neighbours, survival on two
or three. Every new cell is computed from the previous buffer only. The
universe also keeps a running flag and handles five messages: Start, Stop,
Reset, ToggleCell and the timer's Tick.

The project has three files.

- `life_rules.dfy` (module `LifeRules`) holds the pure part:
  - the cell type and its toggle;
  - row-major indexing;
  - the neighbour count, written exactly as the engine iterates it. The
    offsets are `[n - 1, 0, 1]` on each axis. A sum is reduced modulo the
    dimension. The pair is skipped when both *offsets* are 0.
  - an independent torus reference for the count: the eight wrapped
    neighbour positions;
  - the rule and the whole next generation;
  - the seed pattern: cell `i` is Alive when `i % 9 == 0 || i % 7 == 0`.
- `universe.dfy` (module `LifeUniverse`) holds the `Universe` class. Its
  fields are `width`, `height`, `cells` and `active`. Its invariant `Valid`
  fixes the 53 by 40 shape and ties the buffer length to it.
  - `LiveNeighborCount`, `Reset`, `SetCells`, `ToggleCellAt` and `Tick` are
    methods of the class. Each is proved against a function of `LifeRules`:
    `NeighborCount`, `Seed`, `Flip` or `NextGeneration`.
  - `Width`, `Height` and `GetCells` are read-only functions of the class.
  - `get_index` is the module-level function `LifeRules.Index`.
  - The changed-index loop of `tick` is the module-level method
    `ChangedIndices`.
  - The message handler `Update` is a state machine over `cells` and
    `active`.
- `scenarios.dfy` (module `LifeScenarios`) holds the following:
  - whole generations worked out on small tori: a blinker, a block, and a bar
    that is not a blinker on 3 by 3;
  - two edge cases of the offset-based count;
  - three client methods. They show what a caller can conclude from the
    `Universe` contracts alone.

Three behaviours of the program are worth stating up front.

- `set_cells` calls `reset` first (main.rs:73). So cells that are not in the
  list keep their seed value rather than becoming Dead. `Universe.SetCells`
  states this.
- The message handler keeps an `active` flag. Start and Stop set it, and a
  timer Tick advances the grid only while it is set (main.rs:262-268).
  `Universe.Update` models the flag.
- On a 3 by 3 torus a bar of three is not a blinker. Every cell neighbours
  every other, so the bar fills the grid (`Bar3FillsTorus`), and the full grid
  then dies (`Full3Dies`). The period-2 blinker is proved on a 5 by 5 grid.

## Model

| member | source | states |
|---|---|---|
| LifeRules.Value | jpcd-yew/src/main.rs:5-10 | A cell read as a number is 0 or 1, and it is 1 exactly when the cell is Alive |
| LifeRules.Toggle | jpcd-yew/src/main.rs:13-18 | Toggling always changes the cell: exactly one of the cell and its toggle is Alive |
| LifeRules.ToggleInvolutive | jpcd-yew/src/main.rs:13-18 | Toggling twice gives back the original cell |
| LifeRules.Flip | jpcd-yew/src/main.rs:163-166 | Flipping the cell at one index changes that cell and keeps the length and every other cell |
| LifeRules.FlipTwice | jpcd-yew/src/main.rs:163-166 | Flipping the same index twice restores the whole buffer |
| LifeRules.Index | jpcd-yew/src/main.rs:47-49 | The row-major index of (row, col) lies in row's stretch of the buffer, from row * width up to (row + 1) * width when the column is in range |
| LifeRules.IndexInBounds | jpcd-yew/src/main.rs:47-49 | In-range coordinates have an index below width times height |
| LifeRules.IndexDecompose | jpcd-yew/src/main.rs:47-49 | Division and remainder by the width recover the row and column from a row-major index |
| LifeRules.IndexInjective | jpcd-yew/src/main.rs:47-49 | Distinct in-range coordinate pairs never share an index |
| LifeRules.IndexCovers | jpcd-yew/src/main.rs:47-49 | Every buffer index is the index of some in-range coordinate pair |
| LifeRules.Offsets | jpcd-yew/src/main.rs:53-54 | Three offsets are tried along each axis, and the middle one is 0 |
| LifeRules.Term | jpcd-yew/src/main.rs:55-62 | One offset pair adds at most 1 to the count, and the pair whose offsets are both 0 adds nothing |
| LifeRules.OffsetWraps | jpcd-yew/src/main.rs:59-60 | Adding an offset and reducing modulo the dimension reaches the previous, the same or the next position, wrapping at the edges; only the middle offset is 0 |
| LifeRules.NeighborCount | jpcd-yew/src/main.rs:51-66 | The nine offset pairs, less the skipped (0, 0) pair, give a count of at most 8 on any grid |
| LifeRules.NeighborPositions | jpcd-yew/src/main.rs:53-60 | The eight torus neighbours of an in-range cell are in range |
| LifeRules.NeighborCountIsTorusCount | jpcd-yew/src/main.rs:51-66 | On every grid at least 2 by 2, the engine's count equals the number of live cells among the eight wrapped neighbours |
| LifeRules.NeighborsWrapAtEdges | jpcd-yew/src/main.rs:59-62 | In the engine's modulo arithmetic, the offset height - 1 from row 0 reaches the last row and the offset 1 from the last row reaches row 0, and the same holds for columns; the count term of that offset pair is the value of the wrapped cell |
| LifeRules.NeighborsDistinct | jpcd-yew/src/main.rs:53-60 | On every grid at least 3 by 3, the eight neighbours are pairwise distinct and none is the cell itself |
| LifeRules.Rule | jpcd-yew/src/main.rs:106-112 | The five rows of the rule table, and: the next cell is Alive exactly when there are 3 neighbours, or the cell is Alive with 2 |
| LifeRules.NextGeneration | jpcd-yew/src/main.rs:97-126 | The next generation has as many cells as the current one |
| LifeRules.NextGenerationAt | jpcd-yew/src/main.rs:100-114 | The next value at (row, col) is the rule applied to the old cell and its old neighbour count |
| LifeRules.NextGenerationIsLocal | jpcd-yew/src/main.rs:100-114 | Two generations that agree on a cell and its eight neighbours give that cell the same successor |
| LifeRules.LoneCellDies | jpcd-yew/src/main.rs:107 | A live cell whose eight neighbours are all dead dies |
| LifeRules.Seed | jpcd-yew/src/main.rs:86-94 | The seed has the requested length, and cell i is Alive exactly when i is a multiple of 9 or of 7 |
| LifeRules.SeedPeriodic | jpcd-yew/src/main.rs:86-94 | The seed pattern repeats every 63 cells |
| LifeUniverse.ChangedIndices | jpcd-yew/src/main.rs:118-123 | The result lists exactly the indices at which the two buffers differ, in strictly increasing order |
| LifeUniverse.Universe.Valid | jpcd-yew/src/main.rs:128-149 | The invariant that `new` establishes and `reset` keeps: 53 by 40, one cell per position; it implies a well-formed grid |
| LifeUniverse.Universe.constructor | jpcd-yew/src/main.rs:128-149 | A new universe is 53 by 40, holds the seed pattern and is not running |
| LifeUniverse.Universe.Width | jpcd-yew/src/main.rs:151-153 | The width is the seed width, 53 |
| LifeUniverse.Universe.Height | jpcd-yew/src/main.rs:155-157 | The height is the seed height, 40 |
| LifeUniverse.Universe.GetCells | jpcd-yew/src/main.rs:68-70 | The view holds width times height cells, and every in-range coordinate pair indexes into it |
| LifeUniverse.Universe.LiveNeighborCount | jpcd-yew/src/main.rs:51-66 | The nested offset loops compute the neighbour count of the current cells, which is at most 8 |
| LifeUniverse.Universe.Reset | jpcd-yew/src/main.rs:82-95 | After a reset the cells are the seed pattern, whatever they were before |
| LifeUniverse.Universe.SetCells | jpcd-yew/src/main.rs:72-80 | A cell is Alive if an in-range pair in the list names it; otherwise it keeps its seed value |
| LifeUniverse.MarkedExactly | jpcd-yew/src/main.rs:74-78 | An in-range cell is marked by the list exactly when its coordinate pair occurs in the list |
| LifeUniverse.Universe.ToggleCellAt | jpcd-yew/src/main.rs:163-166 | Toggling (row, col) flips the cell at its index and leaves every other cell unchanged |
| LifeUniverse.Universe.Tick | jpcd-yew/src/main.rs:97-126 | After a tick the cells are the next generation of the old cells, on any grid shape |
| LifeUniverse.TickStep | jpcd-yew/src/main.rs:102-114 | Writing the rule's verdict for one cell extends the finished prefix of the new buffer by one cell |
| LifeUniverse.DoneAll | jpcd-yew/src/main.rs:100-116 | Once every row is finished, the new buffer is the whole next generation |
| LifeUniverse.Universe.Update | jpcd-yew/src/main.rs:240-271 | Start and Stop set the flag and do not redraw. Reset restores the seed and redraws. ToggleCell flips one index and redraws. Tick advances one generation and redraws only while running, and otherwise changes nothing |
| LifeScenarios.PatternStep | jpcd-yew/src/main.rs:97-126 | Checking the rule at every cell of a pattern proves the whole next generation |
| LifeScenarios.Bar3FillsTorus | jpcd-yew/src/main.rs:97-126 | On a 3 by 3 torus a bar of three becomes the full grid |
| LifeScenarios.Full3Dies | jpcd-yew/src/main.rs:97-126 | A full 3 by 3 torus dies of overpopulation |
| LifeScenarios.BlinkerTurnsVertical | jpcd-yew/src/main.rs:97-126 | On 5 by 5 a horizontal bar of three becomes vertical |
| LifeScenarios.BlinkerTurnsBack | jpcd-yew/src/main.rs:97-126 | On 5 by 5 a vertical bar of three becomes horizontal |
| LifeScenarios.BlinkerOscillates | jpcd-yew/src/main.rs:97-126 | The blinker comes back after two generations |
| LifeScenarios.BlockIsStill | jpcd-yew/src/main.rs:97-126 | A 2 by 2 block on a 4 by 4 grid is a still life |
| LifeScenarios.OneByOneCountsItself | jpcd-yew/src/main.rs:53-57 | On a 1 by 1 grid the lone live cell counts itself five times |
| LifeScenarios.TwoByTwoCountsTwice | jpcd-yew/src/main.rs:53-57 | On a 2 by 2 grid the offsets -1 and +1 reach the same column, so that neighbour is counted twice |
| LifeScenarios.StoppedTickIsIdle | jpcd-yew/src/main.rs:252-269 | After Stop, a timer tick leaves the cells unchanged and the universe stopped |
| LifeScenarios.RunningTickAdvances | jpcd-yew/src/main.rs:242-269 | After Start, a timer tick advances exactly one generation |
| LifeScenarios.ToggleTwiceRestores | jpcd-yew/src/main.rs:163-166 | Toggling the same coordinates twice restores the grid |

## Left out

- The page's rendering is left out: `view`, `view_cell`, the `create` hook and `main`.
  These are user interface, and they do not change the universe.
- The interval timer is a parameter of `new`, and the log calls are not modelled.
  Both are I/O. The timer only ever sends Tick, and the model handles it as a plain message.
- `cells()`, which returns a raw pointer into the buffer, is not modelled. A pointer has no counterpart here. `GetCells` returns the same buffer by value.
- `set_width` and `set_height` are not modelled. They are never called. They would break the link between the dimensions and the buffer length, and `reset` ignores them by rebuilding a 53 by 40 buffer. So the class invariant `Valid` fixes the seed dimensions.
- Machine integers are modelled as unbounded naturals.
  - usize overflow cannot happen at 53 by 40.
  - The count is a `u8` in the engine, and it never exceeds 8 on any grid.
  - The `height - 1` underflow on an empty grid is excluded by requiring a grid of positive size.
- Panics are preconditions, as follows.
  - An out-of-range index in `toggle_cell` or in the ToggleCell message panics in the engine, so `ToggleCellAt` and `Update` require the index to be in range.
  - `toggle_cell` does not check that the column is below the width, and neither does the model.
- `Cell::toggle` mutates a cell in place. It is modelled as the function `Toggle` on values, plus a sequence update of the buffer.
- Universe.Tick: the changed-index list `diff` is computed by `ChangedIndices`, as in the engine. The engine only logs it, in commented-out code, so the model does not keep it either.
- Universe.LiveNeighborCount and Universe.Tick require only a well-formed grid of any shape, not the 53 by 40 invariant. The engine's code makes no assumption about the dimensions.
- The other pages of the application, `conway_page.rs` and `sorting_algos.rs`, are not part of this model.
