# wfc-proba: a verified model of the pipe generator

`wfc-proba` fills a `w` by `h` grid with pipe pieces in a simple
wave-function-collapse style. Each cell is a bitmask. There is one bit for
each open side (left, right, up, down) and a `Fixed` bit for a cell whose
piece is final. Every cell starts with all four sides open. The program then
repeats these steps until every cell is fixed:

1. `propagate` sweeps the grid in place. It closes every side that the
   neighbour on that side does not offer back.
2. The grid is printed.
3. `collapse` picks an unfixed cell of least entropy, or a random cell when
   every cell is fixed. `fixTile` then closes some sides of that cell at
   random and fixes it.
4. The grid is printed again.

The model follows `main.go` function by function:

| module | file | models |
|---|---|---|
| `Tiles` | `tile.dfy` | `Tile`, its constants and `Tile.String` |
| `Grids` | `grid.dfy` | `Map`, `initMap` and `Map.isFixed`, plus the count of unfixed cells |
| `Propagation` | `propagate.dfy` | `propagate` |
| `Collapsing` | `collapse.dfy` | `collapse`, `fixTile` and `fixRandomTile` |
| `Rendering` | `render.dfy` | `Map.String`, and what `fmt.Println` writes |
| `Generator` | `generate.dfy` | the loop of `main` |

Types:

- A tile is a record of its five flags. `Bits` gives the integer the Go
  program holds, and `BitsEncoding` shows that the flags and the integer
  determine each other.
- A grid in memory is an `array2<Tile>`, indexed by row and column, which
  the code updates in place. `Cells` reads it as a sequence of rows, which is
  what the specification functions take.

Specifications and proofs:

- Every loop of the source is a `method` with loop invariants. Each method
  is proved equal to a specification function on grid values:
  `PropagateGrid`, `Candidates`/`ScanMin`, `FixTileGrid`, `CollapseGrid`,
  `MapText` and `RunFrom`.
- Lemmas about those functions state what the program relies on:
  - the sweep only closes sides;
  - the candidates are exactly the unfixed cells of least entropy;
  - `collapse` fixes exactly one more cell while one is unfixed;
  - every run ends with every cell fixed, after at most one round per cell.

Randomness:

- `rand.Intn(n)` is an oracle `intn(k, n)`, where `k` counts the draws made
  so far. `ValidOracle` promises only that a draw lies in `[0, n)`.
- A coin is drawn exactly where the Go `&&` chain evaluates `rand.Intn(2)`,
  that is only after the neighbour test before it has held.

Behaviour of the code that the model keeps as written:

- **Entropy candidates.** The comment in `collapse` speaks of cells "with
  fixed neighbours". The code keeps every unfixed cell whose entropy equals
  the least, with or without a fixed neighbour. `CandidatesExact` states
  this.
- **The random cell.** `fixRandomTile` runs only when no cell is unfixed.
  It then resolves a cell that is already fixed. That cell may still lose
  sides, because `fixTile` does not check its `Fixed` bit
  (`CollapseAllFixed`).
- **Swapped axes in `fixTile`.** Its "left" and "right" tests look at the
  rows above and below, and its "up" and "down" tests look at the columns to
  the left and right. It still clears the `Left`, `Right`, `Up` and `Down`
  bits respectively. `GateLeft` and the other gates keep these tests as
  written.
- **A single cell.** On a 1 by 1 grid the first sweep closes all four sides
  and fixes the cell (`PropagateLoneCell`). The run then does one round that
  prints two frames (`SingleCellRun`).

## Model

| member | source | states |
|---|---|---|
| Tiles.BitsEncoding | main.go:17-26 | The five flags are distinct bits of the Go integer, so the integer determines the tile. `Empty` is 0, `Fixed` alone is 1024 and `InitialTile` is 30 (sides 2, 4, 8, 16, because iota is 1 on the `Left` line). |
| Tiles.Without | main.go:122-133 | `t &^ dir` closes exactly side `d`, and keeps the other sides and the `Fixed` flag. |
| Tiles.RenderTable | main.go:28-74 | Each of the sixteen side combinations renders as its own box-drawing glyph (all four sides give "┼", no side gives a space). The red escape comes first exactly when the tile is fixed. The reset escape always comes last. |
| Tiles.RenderShape | main.go:28-74 | A rendering has one glyph between the escapes. It starts with the red escape exactly when the tile is fixed, ends with the reset escape, and contains no line break. |
| Tiles.RenderIgnoresFixed | main.go:33-37 | The glyph ignores the `Fixed` bit: a fixed tile renders as its unfixed copy with red in front. |
| Tiles.RenderInjective | main.go:28-74 | Different tiles render as different text. |
| Grids.InitMap | main.go:89-98 | `initMap(w, h)` gives a fresh grid of `h` rows and `w` columns, with every cell equal to `InitialTile`. |
| Grids.MapIsFixed | main.go:227-236 | `isFixed` answers true exactly when every cell carries the `Fixed` bit. |
| Grids.UnfixedZero | main.go:227-236 | The number of unfixed cells is zero exactly when the grid is complete. |
| Grids.UnfixedFixOne | main.go:166 | Fixing one unfixed cell, and changing nothing else's `Fixed` bit, lowers the number of unfixed cells by exactly one. |
| Propagation.VisitSpec | main.go:103-138 | A fixed cell is left alone. On an unfixed cell, each side stays open exactly when it was open and the neighbour on that side offers the opposite side. The cell becomes fixed exactly when no side is left, and is never left plain `Empty`. |
| Propagation.PruneCell | main.go:122-138 | The four clears and the "empty is fixed" step compute that visit. |
| Propagation.VisitCell | main.go:103-138 | Visiting cell (i, j) reads the neighbours from the grid as it stands (`Empty` off the grid), writes the visit into (i, j) only, and changes no other cell. |
| Propagation.Propagate | main.go:100-143 | The in-place row-major sweep leaves exactly `PropagateGrid` of the old grid. The cells above and to the left are met already swept; the cells below and to the right are met as they were before. |
| Propagation.PropagateOnlyClears | main.go:100-143 | The sweep keeps the shape, leaves fixed cells untouched, and never opens a side. |
| Propagation.PropagatePrunes | main.go:105-133 | After the sweep, an unfixed cell keeps a side exactly when it had it and the neighbour offers the opposite side. The upper and left neighbours are taken after the sweep, the lower and right ones before it. |
| Propagation.PropagateBorder | main.go:105-120 | An unfixed border cell loses its outward sides. |
| Propagation.PropagateMarksEmpty | main.go:135-138 | No cell is plain `Empty` after the sweep. An unfixed cell becomes fixed exactly when it ends with no side. |
| Propagation.PropagateUnfixedCount | main.go:100-143 | The sweep never adds unfixed cells. |
| Propagation.PropagateLoneCell | main.go:100-143 | A 1 by 1 grid at full entropy sweeps to the fixed empty cell. |
| Collapsing.Entropy | main.go:189-201 | The entropy lies between 0 and 4. It is 4 exactly when no in-bounds neighbour is fixed. |
| Collapsing.CellEntropy | main.go:189-201 | The four decrements compute `Entropy` of the cell. |
| Collapsing.OrderMember | main.go:185-186 | The nested `range` loops have visited, before (i, j), exactly the earlier rows and the earlier columns of row `i`. |
| Collapsing.ScanOrderMember | main.go:185-186 | The full scan visits exactly the cells of the grid. |
| Collapsing.MinEntropyLeast | main.go:181-211 | `minEntropy` starts at 10. It ends at most 10, at most the entropy of every unfixed cell scanned, and equal to one of them when any cell is unfixed. |
| Collapsing.SelectMember | main.go:202-211 | `minTiles` holds exactly the scanned unfixed cells whose entropy is the given value. |
| Collapsing.SelectBelowMin | main.go:203-206 | No scanned cell has an entropy below the least, which is why the list may be restarted when a smaller entropy appears. |
| Collapsing.ScanCell | main.go:202-211 | One step of the scan either restarts the list with the new cell, appends a tying cell, or leaves both values unchanged. |
| Collapsing.Candidates | main.go:181-213 | Every candidate is an unfixed cell of the grid. |
| Collapsing.CandidatesExact | main.go:181-213 | A cell is a candidate exactly when it is unfixed and no unfixed cell has a smaller entropy. A fixed neighbour is not required. |
| Collapsing.CandidatesEmpty | main.go:181-215 | The list of candidates is empty exactly when every cell is fixed. |
| Collapsing.ScanRow | main.go:186-212 | The inner loop over row `i` carries `minEntropy` and `minTiles` from the rows above to the same values for the rows up to and including `i`. |
| Collapsing.EntropyScan | main.go:181-213 | The scan loops end with `minEntropy` equal to the least entropy and `minTiles` equal to the candidates, in row-major order. |
| Collapsing.ResolveTileSpec | main.go:145-169 | `fixTile` fixes the cell and only closes sides. A side closes exactly when its neighbour test holds and its coin comes up 0. Coins are drawn left, right, up, down, one per test that holds. The gates keep the source's axes. |
| Collapsing.FixTileChangesOne | main.go:145-169 | `fixTile` writes the resolved, fixed tile into (x, y) and changes no other cell. |
| Collapsing.DrawAndClear | main.go:149-163 | One `if` of `fixTile` draws a coin only when its neighbour test holds, and closes the side on 0. |
| Collapsing.ResolveCell | main.go:148-166 | The four tests and draws on the cell compute `ResolveTile`. |
| Collapsing.FixTile | main.go:145-169 | The in-place `fixTile` leaves exactly `FixTileGrid` and reports the next unused draw. |
| Collapsing.FixRandomTile | main.go:171-177 | `fixRandomTile` draws a row, then a column, then runs `fixTile` on that cell. |
| Collapsing.Collapse | main.go:179-225 | The in-place `collapse` leaves exactly `CollapseGrid`: a random candidate is resolved, or a random cell when there is no candidate. |
| Collapsing.CollapseFixesOne | main.go:179-225 | While a cell is unfixed, the chosen cell is an unfixed cell of least entropy. It becomes the resolved tile of `fixTile`: fixed, and with no side it did not have. Every other cell is unchanged, and the number of unfixed cells drops by exactly one. |
| Collapsing.CollapseOnlyClears | main.go:145-225 | `collapse` never opens a side and never unfixes a cell, whether it resolves a candidate or the random cell. |
| Collapsing.CollapseAllFixed | main.go:215-218 | On a complete grid the random cell is resolved again. The grid stays complete and no other cell changes. |
| Rendering.RowTextNoNewline | main.go:81-83 | A row of tiles renders without a line break. |
| Rendering.MapTextNewlines | main.go:76-87 | The text of a grid has exactly one line break per row. |
| Rendering.MapString | main.go:76-87 | `Map.String` builds exactly `MapText` of the grid: the rows in order, each followed by "\n". |
| Rendering.TranscriptAppend | main.go:254-256 | Printing two lists of frames writes the two transcripts in turn. |
| Rendering.TranscriptNewlines | main.go:254-256 | Printing frames of `n` rows writes `n + 1` line breaks per frame. |
| Generator.RoundProgress | main.go:252-257 | Each round of the loop lowers the number of unfixed cells, so the loop terminates. |
| Generator.RunCompletes | main.go:252-257 | A run ends with every cell fixed, on a grid of the starting shape. |
| Generator.RunRounds | main.go:252-257 | A run has at most as many rounds as unfixed cells at the start. It has none exactly when the grid starts complete. |
| Generator.RunOnlyClears | main.go:252-257 | Over a whole run, a side once closed never opens again and a fixed cell is never unfixed; the final grid has the starting shape. |
| Generator.InitialRounds | main.go:251-257 | From `initMap(w, h)` there are at most `w * h` rounds, and at least one when the grid has a cell. |
| Generator.RunFrames | main.go:253-256 | Each round prints two grids, and each printed grid has the starting number of rows. |
| Generator.RunNewlines | main.go:252-257 | The printed text has `2 * (h + 1)` line breaks per round. |
| Generator.SingleCellRun | main.go:251-257 | A 1 by 1 run has one round, makes two draws, prints the fixed empty cell twice and ends on it. |
| Generator.Generate | main.go:251-257 | The loop of `main` ends on `RunFrom`'s final grid with every cell fixed. Its output is the transcript of `RunFrom`'s frames. |

## Left out

- Argument parsing and its defaults (main.go:239-250) are left out. `Generate` takes `w` and `h` as natural numbers. The `make` panic on a negative size is not modelled.
- Writing to standard output is not modelled. `fmt.Println(tmap)` adds `Map.String()` and a line break to a returned string (`Transcript`).
- The pseudo-random generator is not modelled. Draws come from an arbitrary oracle, constrained only by `rand.Intn`'s range.
- Go's fixed-width `int` is not modelled. Sizes and draw counts are unbounded; the grid sizes the program uses are far below the limit.
- `Tile.String`'s switch has no case for values with bits other than the five flags. The model has no such tiles, because the program never produces one.
- Rendering.MapString: requires at least one row, because `Map.String` reads `m[0]` and panics on an empty map. The loop of `main` prints only inside a round that began with an unfixed cell, so the grid has a row (`NotFixedNonEmpty`), and no step changes its shape.
- Strings are modelled as sequences of characters, not as Go's UTF-8 bytes. The text written is the same, but a box-drawing glyph counts as one character in the model where Go's `len` counts three bytes (`RenderShape`, `Rendering.RowTextNoNewline`).
- Grids with rows of different lengths are left out. `initMap` builds only rectangular grids and nothing resizes them, so a grid is one `array2`.
- Slice aliasing is not modelled. `propagate`, `collapse`, `fixTile` and `fixRandomTile` each return the same `Map` they were given, so the model updates one array in place.
- Propagation.VisitCell / Collapsing.FixTile: Go writes `m[i][j]` once per cleared side. The model computes the cell in a local and writes it once, which is equivalent because nothing else reads the cell in between.
