# Conway's Life `Universe` engine in Dafny

This project models the grid engine of a WebAssembly Game of Life, the
`Universe` type of `src/lib.rs`. It also proves properties of that model.

A universe has a `width`, a `height` and a buffer of `width * height` cells.
Each cell is `Dead` or `Alive`. The cell in row `x` and column `y` is stored
at `get_index(x, y) = y + width * x`. The grid is a torus: the neighbour
lookup wraps the row modulo `height` and the column modulo `width`.

The modules follow the structure of the source:

- `Cells` (`cells.dfy`)
  - The `Cell` type and its `u8` value.
  - The transition rule: the five-arm `match` of `next`.
- `Grid` (`grid.dfy`), all on values:
  - The index map.
  - The unsigned-offset wraparound.
  - The neighbour count exactly as `live_neighbor_count` computes it.
  - A textbook toroidal count to compare it with.
  - The synchronous generation step `Step`.
- `Seeding` (`seeding.dfy`): what `set_cells` does to a cell sequence, on values.
- `Rendering` (`render.dfy`): the text that `Display::fmt` writes, on values.
- `Conway` (`universe.dfy`): the class `Universe`.
  - It has `width`, `height` and an `array<Cell>` buffer.
  - Its methods update the fields in place as the source does:
    - The resizes reallocate the buffer.
    - `Next` fills a fresh copy of the buffer in the source's nested loops and then swaps it in.
    - `SetCells` writes into the buffer.
    - `LiveNeighborCount` accumulates over its nested loops.
  - Each method is proved against the value-level function that specifies it.
  - The `width()` and `height()` accessors are the class fields themselves.
- `Scenarios` (`scenario.dfy`): the glider tick test of `tests/web.rs`.
  - It is proved both on values (`GliderStep`) and on the class (`SpaceshipTick`).

Three conventions of the code decide the model:

- **Index map.** `get_index(x, y)` takes the row first: row `x`, column `y` is stored at `y + width * x`. The neighbour lookup wraps the row modulo `height` and the column modulo `width`, which is consistent with that.
- **Pair order in `set_cells`.** Each pair is bound as `(y, x)`, so pair `(a, b)` is (column, row): it marks column `a` of row `b`, at index `a + width * b`.
- **Loops in `next`.** `x` runs over `0..width` and `y` over `0..height`, while `x` is passed to `get_index` as the row. So `next` computes the intended generation only on a square grid, or on an empty one where the loops do nothing. `Universe.Next` requires this.

## Model

| member | source | states |
|---|---|---|
| Cells.Value | src/lib.rs:6-11 | a cell read as `u8` is 0 or 1, and it is 1 exactly for Alive (Dead = 0, Alive = 1) |
| Cells.Rule | src/lib.rs:99-105 | the next state is Alive exactly when n == 3 or (Alive and n == 2); the state changes exactly on under- or overpopulation of an Alive cell or on birth of a Dead one |
| Cells.RuleTable | src/lib.rs:99-105 | the match arms partition every (state, count) pair: the guard of the selected arm holds, no other arm's guard holds, and the rule returns that arm's outcome |
| Grid.Index | src/lib.rs:66-68 | `get_index` itself; it has no `ensures` of its own and is specified by IndexInRange, IndexInverse, IndexInjective and IndexOnto |
| Grid.IndexInRange | src/lib.rs:66-68 | every in-grid position (x < height, y < width) has index < width * height |
| Grid.IndexInverse | src/lib.rs:66-68 | the row and column are recovered from the index by division and remainder by width |
| Grid.IndexInjective | src/lib.rs:66-68 | distinct positions have distinct indices |
| Grid.IndexOnto | src/lib.rs:66-68 | every index below width * height is the index of an in-grid position |
| Grid.Wrap | src/lib.rs:81-82 | a coordinate moved by an unsigned offset and taken modulo the axis size stays inside the axis |
| Grid.WrapBack | src/lib.rs:74-82 | the offset `n - 1` moves a coordinate back by one with wraparound (equal to Euclidean `(v - 1) mod n`) |
| Grid.WrapStay | src/lib.rs:74-82 | the offset 0 leaves a coordinate where it is |
| Grid.WrapForward | src/lib.rs:74-82 | the offset 1 moves a coordinate forward by one with wraparound |
| Grid.Probe | src/lib.rs:76-83 | one offset pair adds at most 1 to the count, and nothing for (0, 0) |
| Grid.NeighborCount | src/lib.rs:70-88 | `live_neighbor_count` on values, folded over the offsets by RowCount and CountOver; it has no `ensures` of its own and is specified by NeighborCountBound, NeighborCountIsTorus and OneByOneCount |
| Grid.NeighborCountBound | src/lib.rs:70-88 | the neighbour count is at most 8 |
| Grid.NeighborCountIsTorus | src/lib.rs:70-88 | on a grid at least 2 x 2 the neighbour count equals the textbook toroidal count of the eight surrounding cells |
| Grid.OneByOneCount | src/lib.rs:74-78 | on a 1 x 1 Alive grid the source's count is 5 while the eight-position torus count is 8, so the torus agreement needs both dimensions at least 2 |
| Grid.Step | src/lib.rs:90-112 | `next` on values: its own `ensures` keeps the length; each cell is specified by StepAt and StepIsTorus |
| Grid.StepAt | src/lib.rs:90-112 | the stepped cell at (x, y) is the rule on the old cell and its neighbour count in the old grid, so the step is synchronous |
| Grid.StepIsTorus | src/lib.rs:90-112 | on a grid at least 2 x 2 the stepped cell at (x, y) is the rule on the old cell and its toroidal neighbour count |
| Grid.StepEmpty | src/lib.rs:93-94 | with a zero width or height the step changes nothing |
| Seeding.SeedIndex | src/lib.rs:121-122 | the index a pair marks under the `(y, x)` binding; it has no `ensures` of its own and is specified through Seeded and MarkedGlider |
| Seeding.Seeded | src/lib.rs:120-125 | seeding keeps the length; a marked index (a + width * b for a listed pair (a, b)) is Alive and every other cell keeps its value |
| Seeding.SeededIdempotent | src/lib.rs:120-125 | seeding twice with the same pairs equals seeding once |
| Rendering.Glyph | src/lib.rs:132 | the glyph is the filled square U+25FC exactly for an Alive cell, and the hollow square U+25FB for a Dead cell |
| Rendering.Line | src/lib.rs:131-134 | a chunk renders as one glyph per cell, in order |
| Rendering.Render | src/lib.rs:128-139 | the `chunks` loop of `Display::fmt`; it has no `ensures` of its own and is specified by RenderLength, RenderAt and RenderShape |
| Rendering.RenderLength | src/lib.rs:128-139 | a width x height grid renders to height * (width + 1) characters |
| Rendering.RenderAt | src/lib.rs:128-139 | character y of line x is the glyph of cell `get_index(x, y)` for y < width and the line break for y == width |
| Rendering.RenderShape | src/lib.rs:128-139 | the whole text: length height * (width + 1), every glyph position and every line break |
| Conway.UpdatedAfterWrite | src/lib.rs:95-107 | one loop iteration of `next` writes the rule's result at its index and leaves every other cell of the new buffer as it was |
| Conway.Universe.GetCells | src/lib.rs:116-118 | the returned sequence has length width * height and holds the buffer's cell at every in-grid index |
| Conway.Universe.constructor | src/lib.rs:22-38 | the new universe has the given dimensions and a fresh all-Dead buffer of width * height cells |
| Conway.Universe.FromCells | src/lib.rs:22-38 | the new universe has the given dimensions and a fresh buffer holding the supplied cells |
| Conway.Universe.SetWidth | src/lib.rs:44-47 | the width is replaced, the height is unchanged, and the buffer is a fresh all-Dead one of w * height cells |
| Conway.Universe.SetHeight | src/lib.rs:53-56 | the height is replaced, the width is unchanged, and the buffer is a fresh all-Dead one of width * h cells |
| Conway.Universe.LiveNeighborCount | src/lib.rs:70-88 | the nested loops return the neighbour count of the value model, which is at most 8 |
| Conway.Universe.Next | src/lib.rs:90-112 | on a square or empty grid, the dimensions are unchanged and the new buffer is fresh and equals `Step` of the old cells, with length preserved |
| Conway.Universe.SetCells | src/lib.rs:120-125 | the buffer becomes `Seeded` of the old buffer: listed indices Alive, all other cells unchanged |
| Conway.Universe.RenderText | src/lib.rs:62-64 | the rendered text has height lines of width glyphs, each glyph that of the cell at `get_index(x, y)`, each line ended by a line break |
| Scenarios.MarkedGlider | tests/web.rs:8-12 | the test's first pairs mark exactly the indices 9, 13, 15, 20 and 21 of the 6 x 6 grid |
| Scenarios.MarkedGliderNext | tests/web.rs:14-19 | the test's second pairs mark exactly the indices 8, 15, 16, 20 and 21 |
| Scenarios.SeededGlider | tests/web.rs:8-12 | an all-Dead 6 x 6 grid seeded with the first pairs holds exactly the glider |
| Scenarios.SeededGliderNext | tests/web.rs:14-19 | an all-Dead 6 x 6 grid seeded with the second pairs holds exactly the moved glider |
| Scenarios.StepFromRows | src/lib.rs:90-112 | a grid at least 2 x 2 whose every cell is the rule on the old cell and its toroidal count is the step of the old grid |
| Scenarios.GliderTick | tests/web.rs:21-28 | any 6 x 6 grid holding the glider steps to the grid holding the moved glider |
| Scenarios.GliderStep | tests/web.rs:8-28 | stepping the seeded all-Dead glider grid gives the all-Dead grid seeded with the expected pairs |
| Scenarios.SpaceshipTick | tests/web.rs:21-28 | on the class, the cells of the seeded and stepped universe equal the cells of the expected universe |

## Left out

- Random construction in `Universe::new`: it draws cells with `js_sys::Math::random` and a float comparison. It is replaced by two constructors:
  - an all-Dead one, which is the start the tick test assumes;
  - one that takes the initial cells from the caller.
- The raw-pointer accessor `cells()` and the `wasm_bindgen` attributes are host glue. `GetCells` returns the cell sequence.
- `toggle_cell`, `scramble` and `clear` are not part of this model: `src/lib.rs` does not define them.
- The live-reload HTTP server (`server.go`) is network I/O with goroutines and locks; it is not part of this model.
- Conway.Universe.Next: requires a square or empty grid.
  - With width > height, the loops compute indices past the buffer, and Rust's indexing panics.
  - With height > width, `y` runs past the last column, so cells receive the neighbour count of another position. When width >= 2, some cells are also written twice and others never.
  - This behaviour is not specified.
- Conway.Universe.RenderText: requires width > 0, because `chunks(0)` panics.
- The 32-bit wraparound of `width * height` is not modelled. The constructors and resizes require `width * height <= 0xFFFF_FFFF`, so it cannot happen. Coordinates are unbounded naturals, so the `x + dx` and `y + dy` sums in the neighbour lookup are computed without wrapping. In `u32` they could overflow only with a dimension above 2^31.
- Conway.Universe.SetCells: does not model the 32-bit wraparound of `a + width * b` in `get_index`.
  - The precondition requires every pair's index to be an in-range natural number.
  - This excludes an index past the buffer, on which Rust's indexing panics.
  - It also excludes a pair whose index overflows `u32`. A debug build panics on such a pair. A release build wraps it to an index inside the buffer and marks that cell: on a 6 x 6 grid the pair `(0, 715827883)` marks index 2.
- Rendering: the output is a sequence of characters, not the UTF-8 bytes written to the formatter. Formatter write errors are not modelled.
- Grid.NeighborCountIsTorus and Grid.StepIsTorus are stated only for grids at least 2 x 2.
  - On a 1-wide or 1-high axis the offsets `n - 1` and `0` coincide. The source's skip of `dx == 0 && dy == 0` then matches two or four offset pairs instead of one, so the source counts the cell itself fewer times than the eight-position torus count does.
  - Grid.OneByOneCount shows the difference: on a 1 x 1 Alive grid the source counts 5 and the torus count is 8.
  - The model computes the source's count exactly as written (`Grid.NeighborCount`) on every grid size.
