# Game of Life engine and session, modelled in Dafny

This project models the engine of the ivanov-nikolay/game web service.

- **World.** A `World` is a `Height x Width` grid of boolean cells on a torus. Neighbors wrap around the edges.
- **Rule.** One generation follows the B3/S23 rule: a live cell survives with 2 or 3 live neighbors, and a dead cell is born with exactly 3.
- **Seeding.** A world can be seeded two ways:
  - `RandInit(percentage)` makes a row-major fill of `percentage * Width * Height / 100` cells, then copies one random cell onto another that many times.
  - `Seed` makes each cell alive with probability 1/10.
- **State file.** A world is saved to and loaded from a text file. Each row is one line of `'1'` (alive) and `'0'` (dead).
- **Session.** `LifeService` holds the world on show (`currentWorld`) and the buffer the next generation is written into (`nextWorld`). It advances one generation per `NewState` call.

Modules, one per file:

- `Wrappers`: `Option` and `Result`.
- `Rules`: the pure definition of one generation.
  - The neighbor count over the eight offsets, in the source's order, with wrap-around.
  - The rule, and the next-generation function `Step`.
  - `InPlaceStep`: the same row-major pass run on a single grid, where each cell sees the cells already updated before it.
- `Seeding`: the pure definitions of the fill (`Filled`), the copy loop (`ApplyCopies`, `Seeded`) and `Seed` (`Sprinkled`), with live-cell counting.
- `Codec`: the pure state-file format.
  - The encoder `Encode`.
  - The line scanner `ScanLines`.
  - White-space trimming as Go defines it (`TrimSpace`).
  - Byte lengths (`ByteLen`, the UTF-8 length Go's `len` gives).
  - The decoder `Decode` / `Load`.
- `Life`: the `World` class. Its fields are `height`, `width` and `cells`.
  - The class holds the methods NewWorld (the constructor), `Neighbors`, `Next`, `FillAlive`, `RandInit`, `Seed`, `SaveState` and `LoadState`.
  - `NextState` is a module-level method, and so are the loops `LoadState` runs: `ReadState` over the lines and `DecodeLine` over one line's characters.
  - Every method that loops in the source loops here, and is proved against the pure definitions above.
- `Service`: the `LifeService` class, its `NewState`, and the module-level `New`.

Rows are values (`seq<seq<bool>>`) held in a field that the methods reassign, so a world changes only when its field is assigned. Two references to the same `World` object see each other's changes. This is how the session's buffers alias.

Five behaviours of the code that differ from what a Game of Life engine is usually expected to do; the model follows the code:

- `RandInit(0)`, and any request that rounds down to 0 cells, yields an **all-alive** grid, not an empty one. `fillAlive` tests its counter only after setting a cell. The comment on `RandInit` (pkg/life/life.go:115) promises the given percentage of live cells.
- `NewState` does not swap its two worlds. It makes `currentWorld` refer to `nextWorld`. From the second call on, the next generation is computed in place on one grid. Its comment (internal/service/service.go:35) promises the next state of the game.
- `NewWorld` checks no dimensions, so there is no dimension error. Non-negative dimensions are a precondition.
- `LoadState` accepts texts `SaveState` never writes, such as a trailing '\n', '\r\n' line ends or white space around a line, so re-saving a loaded file is byte-identical only when `SaveState` wrote it (`Codec.ResaveCanonical`, `Codec.TrailingNewlineNotResaved`).
- `LoadState` keeps blank lines that come before the first non-blank line as empty rows. A state file with a leading blank line therefore loads into rows of different lengths (`Codec.LeadingBlankLineExample`, `Codec.DecodeIsGrid`).

## Model

| member | source | states |
|---|---|---|
| Life.World.constructor | pkg/life/life.go:22-32 | NewWorld: height and width are the arguments; there are exactly `height` rows, each of `width` dead cells |
| Rules.Dead | pkg/life/life.go:23-26 | the freshly allocated grid has the given shape and no live cell |
| Rules.DeltasAreMooreNeighborhood | pkg/life/life.go:78-82 | the eight offsets are pairwise distinct, all in -1..1 and all non-zero, and cover every such offset |
| Rules.Wrap | pkg/life/life.go:85 | `(v + d + n) % n` is always a valid index; it is `v + d` inside the grid, `n - 1` below 0 and 0 past the end |
| Rules.LiveNeighbors | pkg/life/life.go:76-92 | the neighbor count is at most 8 |
| Rules.CountAlive | pkg/life/life.go:84-89 | the running count of the `deltas` loop after n offsets is at most n; `CountAliveIsCountTrue` and `LiveNeighborsAsSum` pin its value |
| Rules.CountTrue | pkg/life/life.go:84-89 | the number of true entries among the first n is at most n; `CountTrueIsCardinality` states it is the size of the set of their indices |
| Rules.CountTrueIsCardinality | pkg/life/life.go:84-89 | counting true flags one by one gives the size of the set of their indices |
| Rules.CountAliveIsCountTrue | pkg/life/life.go:84-89 | the count over the first n offsets is the number of true flags among them, a flag saying the wrapped cell is alive |
| Rules.LiveNeighborsIsCardinality | pkg/life/life.go:76-92 | Neighbors counts exactly the offsets (of the eight) whose wrapped cell is alive |
| Rules.LiveNeighborsAsSum | pkg/life/life.go:84-89 | the count is the sum of the eight offsets' contributions, in the order the loop visits them |
| Rules.LiveNeighborsExpanded | pkg/life/life.go:84-89 | the count is the sum over the eight wrapped neighbor cells, written out by row above, same row and row below |
| Rules.CountAliveAll | pkg/life/life.go:84-89 | offsets that all agree on one value give a count of n (alive) or 0 (dead) |
| Rules.AllAliveEight | pkg/life/life.go:76-92 | on an all-alive grid every cell has 8 live neighbors |
| Rules.ThreeByThreeAllAlive | pkg/life/life.go:76-92 | on the all-alive 3 x 3 torus every cell, corners included, has 8 live neighbors |
| Rules.LoneCellDies | pkg/life/life.go:35-46 | on a grid of at least 2 x 2 a single live cell has no live neighbor and dies |
| Rules.LoneCellSurvivesOnOneRow | pkg/life/life.go:76-92 | on a one-row torus a single live cell sees itself twice (above and below), has 2 neighbors and survives |
| Rules.Rule | pkg/life/life.go:38-45 | next state is alive iff (alive and 2 or 3 neighbors) or (dead and exactly 3) |
| Rules.NextCell | pkg/life/life.go:35-46 | the value `Next` returns: alive iff (alive and 2 or 3 live neighbors) or (dead and exactly 3) |
| Rules.StepAt | pkg/life/life.go:49-57 | each cell of the next generation is the B3/S23 rule applied to the old cell and its neighbor count in the old grid |
| Rules.Step | pkg/life/life.go:49-57 | the next generation has the grid's shape |
| Rules.SweepRow | pkg/life/life.go:52-55 | the in-place pass over one row keeps the shape and leaves other rows and the cells not yet reached unchanged |
| Rules.SweepRows | pkg/life/life.go:51-56 | the in-place pass over the first rows keeps the shape and leaves the later rows unchanged |
| Rules.InPlaceStep | pkg/life/life.go:49-57 | the in-place pass keeps the grid's shape |
| Rules.SweepRowThree | pkg/life/life.go:52-55 | on a 3-wide grid the in-place pass over a row sets its three cells in turn, each from the grid as already updated |
| Rules.InPlaceStepDiffers | pkg/life/life.go:49-57 | on the all-alive 3 x 3 torus the next generation is all dead, while the in-place pass leaves four cells alive |
| Rules.ThreeCellsFillTorus | pkg/life/life.go:35-57 | three live cells in a row of the 3 x 3 torus make every cell alive in one generation |
| Rules.SecondGenerationDiverges | internal/service/service.go:37-39 | the second generation from that grid is all dead, but the in-place second pass is not |
| Rules.HorizontalBlinkerRow | pkg/life/life.go:35-57 | in the generation after a horizontal blinker on the 5 x 5 torus, row y is alive exactly in column 2 when y is 1, 2 or 3 |
| Rules.VerticalBlinkerRow | pkg/life/life.go:35-57 | in the generation after a vertical blinker, row y is alive exactly in columns 1 to 3 when y is 2 |
| Rules.HorizontalBlinkerTurns | pkg/life/life.go:49-57 | one generation turns the horizontal blinker into the vertical one |
| Rules.VerticalBlinkerTurns | pkg/life/life.go:49-57 | one generation turns the vertical blinker into the horizontal one |
| Rules.BlinkerPeriodTwo | pkg/life/life.go:49-57 | the blinker changes orientation every generation and is back after exactly two |
| Seeding.OffsetOfGrid | pkg/life/life.go:132-133 | in an h x w grid, row r starts at row-major index r * w |
| Seeding.OffsetMonotone | pkg/life/life.go:132-133 | later rows start after earlier rows end |
| Seeding.Filled | pkg/life/life.go:130-141 | the fill keeps the shape of every row |
| Seeding.FilledRowMajor | pkg/life/life.go:130-141 | for 1 <= num <= h * w, cell (y, x) is alive iff its row-major index y * w + x is below num or it was alive before: no cell is set dead, the others are unchanged |
| Seeding.FilledOutOfRangeAllAlive | pkg/life/life.go:133-138 | for num <= 0 or num > h * w every cell ends up alive |
| Seeding.FilledDeadCount | pkg/life/life.go:130-141 | filling an all-dead grid leaves exactly num live cells when 1 <= num <= Total, and Total otherwise |
| Seeding.LiveRowsPrefix | pkg/life/life.go:130-141 | a grid alive exactly on row-major indices below num has min(num, cells in those rows) live cells in its first n rows |
| Seeding.FilledDeadPrefix | pkg/life/life.go:130-141 | filling an all-dead grid with 1 <= num <= Total marks alive exactly the cells of row-major index below num |
| Seeding.LiveRowsAllAlive | pkg/life/life.go:130-141 | an all-alive grid has as many live cells as cells |
| Seeding.NumAlive | pkg/life/life.go:117 | the truncated request `percentage * Width * Height / 100` is never negative; `NumAliveBounds` gives its upper bound |
| Seeding.NumAliveBounds | pkg/life/life.go:117 | with 0 <= percentage <= 100 the request lies in 0 .. W * H, and is 0 for percentage 0 |
| Seeding.DrawnInGridIffSquare | pkg/life/life.go:121-126 | coordinates drawn as Intn(Width), Intn(Height), Intn(Width), Intn(Width) always index the grid iff Width == Height |
| Seeding.Copy | pkg/life/life.go:126 | one copy keeps the grid's shape |
| Seeding.ApplyCopies | pkg/life/life.go:120-127 | the copy loop keeps the grid's shape |
| Seeding.CountTrueSet | pkg/life/life.go:126 | setting one cell of a row changes its count by the difference of the two values |
| Seeding.LiveRowsSet | pkg/life/life.go:126 | setting one cell of a grid changes its live count by the difference of the two values |
| Seeding.CopyChangesCountByAtMostOne | pkg/life/life.go:126 | one copy changes the live count by at most one |
| Seeding.CopiesDrift | pkg/life/life.go:120-127 | n copies move the live count by at most n |
| Seeding.CopyCanKill | pkg/life/life.go:126 | a copy can lower the live count: the shuffle is not a permutation of the filled cells |
| Seeding.Seeded | pkg/life/life.go:116-128 | RandInit's result keeps the grid's shape |
| Seeding.SeededDensity | pkg/life/life.go:116-128 | from an all-dead grid: a request of 0 (percentage 0 included) gives an all-alive grid; otherwise the fill makes exactly NumAlive cells alive and at most 2 * NumAlive are alive after the copies |
| Seeding.Sprinkled | pkg/life/life.go:63-73 | Seed keeps the shape and never turns a live cell dead |
| Seeding.CountTrueMonotone | pkg/life/life.go:65-71 | a row alive wherever another is has at least as many live cells |
| Seeding.LiveRowsMonotone | pkg/life/life.go:65-71 | a grid alive wherever another is has at least as many live cells |
| Seeding.SprinkledNeverKills | pkg/life/life.go:65-71 | Seed never lowers the number of live cells |
| Codec.TrimLeft | pkg/life/life.go:186 | the left half of strings.TrimSpace never lengthens the line; `TrimLeftSpec` characterises it |
| Codec.TrimRight | pkg/life/life.go:186 | the right half never lengthens the line; `TrimRightSpec` characterises it |
| Codec.TrimSpace | pkg/life/life.go:186 | strings.TrimSpace never lengthens the line; `TrimSpaceSpec` pins it down |
| Codec.TrimLeftSpec | pkg/life/life.go:186 | left trimming removes exactly a prefix of white space |
| Codec.TrimRightSpec | pkg/life/life.go:186 | right trimming removes exactly a suffix of white space |
| Codec.TrimSpaceSpec | pkg/life/life.go:186 | the trimmed line is a middle part of the line; everything around it is white space, and it neither starts nor ends with white space |
| Codec.CharLen | pkg/life/life.go:188-189 | the UTF-8 length of one character: between one and four bytes, and one byte exactly for ASCII |
| Codec.DropCR | pkg/life/life.go:184-185 | the scanner drops at most one trailing '\r' from a line: the result is the line, or the line is the result followed by '\r' |
| Codec.ByteLen | pkg/life/life.go:188-189 | Go's `len` of a string: between one and four bytes per character; `ByteLenSpec` gives equality for ASCII |
| Codec.ByteLenSpec | pkg/life/life.go:188-189 | a line's byte length is at least its number of characters, and equal to it for ASCII |
| Codec.BinaryByteLen | pkg/life/life.go:188-193 | a line of '0' and '1' has as many bytes as characters |
| Codec.Split | pkg/life/life.go:184-185 | splitting at '\n' yields at least one piece, none containing '\n' |
| Codec.SplitNoNewline | pkg/life/life.go:184-185 | text without '\n' is one piece |
| Codec.SplitNewline | pkg/life/life.go:184-185 | text `a + "\n" + b` splits into `a` followed by the pieces of `b` |
| Codec.ScanLines | pkg/life/life.go:184-185 | no scanned line contains '\n' |
| Codec.DecodeRow | pkg/life/life.go:193-204 | a trimmed line decodes iff every character is '0' or '1', and then to '1' -> alive, '0' -> dead |
| Codec.DecodeLines | pkg/life/life.go:181-207 | the loop of LoadState over the first n lines holds one row per line when it has not failed; `DecodeLinesSpec` characterises success and failure |
| Codec.Decode | pkg/life/life.go:181-217 | a successful load has height equal to the number of lines and one row per line; `DecodeSucceeds`, `DecodeFails` and `DecodeContents` characterise it |
| Codec.Load | pkg/life/life.go:184-217 | loading a file's text gives one row per scanned line; `RoundTrip` makes it a left inverse of `Encode`, and `ResaveCanonical` / `TrailingNewlineNotResaved` say when re-saving is byte-identical |
| Codec.DecodeLinesSpec | pkg/life/life.go:181-207 | after n lines the decoder succeeds iff those lines are all binary and their widths agree; then it holds one decoded row per line and the established width; otherwise it stopped at a line whose predecessors were acceptable |
| Codec.AcceptedPrefix | pkg/life/life.go:185-207 | the conditions for success hold for every prefix of an accepted prefix |
| Codec.WidthsAgreeExtend | pkg/life/life.go:187-191 | one more line keeps the widths in agreement iff it has the established width or none is established yet |
| Codec.DecodedPrefixExtend | pkg/life/life.go:187-206 | accepting one more line sets the width if it was 0 and appends its row |
| Codec.FailsAtUnique | pkg/life/life.go:189-202 | the decoder fails at only one line and for only one reason |
| Codec.FailureIsFinal | pkg/life/life.go:189-202 | an error returns at once: the lines after it change nothing |
| Codec.DecodeLinesFailsAt | pkg/life/life.go:189-202 | a line where the width check or else the character check fails, after acceptable lines, makes the whole load fail with that error |
| Codec.DecodeSucceeds | pkg/life/life.go:185-217 | a load succeeds iff every trimmed line is '0'/'1' only and every line after a non-blank one has that line's byte length |
| Codec.DecodeContents | pkg/life/life.go:206-215 | on success: height is the number of lines; row i is line i decoded; width is the length of every non-blank line, 0 when all are blank |
| Codec.DecodeFails | pkg/life/life.go:187-204 | a load fails with WidthMismatch iff its first unacceptable line breaks the width agreement, and with InvalidCharacter iff that line has the width but a character other than '0'/'1' |
| Codec.DecodeIsGrid | pkg/life/life.go:187-193 | a successful load is a proper height x width grid iff the lines are all blank or none is |
| Codec.WidthMismatchExample | pkg/life/life.go:189-191 | lines "0101", "01010" fail with WidthMismatch |
| Codec.InvalidCharacterExample | pkg/life/life.go:201-202 | line "01x1" fails with InvalidCharacter |
| Codec.LeadingBlankLineExample | pkg/life/life.go:187-188 | lines "", "01" load as height 2, width 2, rows [] and [dead, alive] |
| Codec.RowText | pkg/life/life.go:155-162 | one row as text, '1' for alive and '0' for dead; `RoundTrip` decodes it back |
| Codec.EncodeRows | pkg/life/life.go:154-168 | the text of the first n rows holds only '0', '1' and '\n' |
| Codec.Encode | pkg/life/life.go:150-168 | the text SaveState writes holds only '0', '1' and '\n'; `RoundTrip` makes `Load` its left inverse |
| Codec.SplitEncodeRows | pkg/life/life.go:150-168 | the text of the rows before the last one splits back into those rows' texts |
| Codec.ScanLinesEncode | pkg/life/life.go:150-186 | scanning saved text gives back exactly the row texts when the last row is not empty |
| Codec.RoundTrip | pkg/life/life.go:150-215 | for H >= 1 and W >= 1, loading what SaveState writes gives back the same height, width and cells |
| Codec.ResaveCanonical | pkg/life/life.go:150-215 | a text SaveState wrote for a grid with at least one row and one column loads, and re-saving the loaded grid gives back the text byte for byte |
| Codec.TrailingNewlineNotResaved | pkg/life/life.go:150-215 | the text "01\n" loads as the grid [[dead, alive]], whose re-save is "01": re-saving is not byte-identical for every text Load accepts |
| Life.World.Neighbors | pkg/life/life.go:76-92 | returns the number of live cells among the eight wrapped neighbors, a value in 0..8 |
| Life.World.Next | pkg/life/life.go:35-46 | returns true iff (alive and 2 or 3 live neighbors) or (dead and exactly 3) |
| Life.World.FillAlive | pkg/life/life.go:130-141 | the new cells are `Filled(old cells, num)`: the first num cells in row-major order are set alive, or all cells when num is outside 1 .. Total |
| Life.FillProgressStops | pkg/life/life.go:136-137 | returning right after the num-th cell leaves exactly the fill of num cells |
| Life.FillProgressComplete | pkg/life/life.go:132-140 | running through every cell without returning leaves every cell alive, which is the fill for num outside 1 .. Total |
| Life.World.RandInit | pkg/life/life.go:116-128 | every drawn copy index lies inside the grid; the new cells are the fill of NumAlive cells followed by the NumAlive copies in draw order |
| Life.World.Seed | pkg/life/life.go:63-73 | the new cells are the old ones with every cell whose draw is 1 set alive, and no others changed |
| Life.World.SaveState | pkg/life/life.go:150-168 | the text written is `Encode(cells)`: rows of '1'/'0' with '\n' after every row but the last |
| Life.DecodeLine | pkg/life/life.go:193-204 | fails iff the line has a character other than '0'/'1'; otherwise it returns the decoded row |
| Life.ReadState | pkg/life/life.go:181-207 | the scanning loop returns exactly `Decode(lines)`: the first error it meets, or the decoded rows and width |
| Life.World.LoadState | pkg/life/life.go:174-218 | on success the fields take the decoded height, width and cells, and the world is valid iff the lines are all blank or none is; on an error it returns that error and changes nothing |
| Life.Written | pkg/life/life.go:51-55 | the new grid part-way through NextState on two worlds keeps the grid's shape |
| Life.WrittenNext | pkg/life/life.go:54 | writing one more cell extends the written part by that cell's next state |
| Life.NextRow | pkg/life/life.go:52-56 | one row of NextState, with the same two cases as NextState |
| Life.NextState | pkg/life/life.go:49-57 | with distinct worlds the new cells are `Step(old cells)` and oldWorld is unchanged; with one world passed twice they are `InPlaceStep(old cells)`; neither world's height or width changes |
| Service.LifeService.constructor | internal/service/service.go:27-30 | the session holds the two given worlds |
| Service.New | internal/service/service.go:17-33 | the error is nil; the two worlds are new and distinct, of the given size; currentWorld is RandInit(fill) of a dead grid; nextWorld is all dead |
| Service.LifeService.NewState | internal/service/service.go:36-42 | afterwards both fields name the former nextWorld, which is returned; from distinct buffers it holds `Step` of the old current cells; from aliased ones it holds `InPlaceStep` of them; sizes are unchanged |
| Service.LifeService.NewStateSwapping | internal/service/service.go:36-42 | the intended double buffering: the worlds change places and stay distinct, and each call yields `Step` of the old current cells |

## Left out

- File system side of `SaveState`/`LoadState` (pkg/life/life.go:144-148, 165-167, 175-179, 209-211): opening, writing and closing the file, and the scanner's read errors. The encoder is a function to a string. The decoder is a function over the lines the scanner yields.
  - The scanner's limit of 64 KiB per line, which makes such a load fail with a read error, is not modelled.
- Randomness: `rand.Intn` in `Seed` and `RandInit`, the time-seeded generator (pkg/life/life.go:119), and the discarded `rand.NewSource` (internal/service/service.go:18). The random values are parameters: the picks of `RandInit` and the draws of `Seed`.
- `String()` (pkg/life/life.go:221-240) renders glyphs for display and has no behaviour beyond formatting.
- The flat-field `Neighbors` (pkg/life/life.go:94-113) and the second `String` variant (pkg/life/life.go:242-255) are commented out in the source.
- HTTP handling, the server, process start-up and shutdown are outside the engine. Their one relevant fact is the 0..100 range check on the fill percentage, which is `RandInit`'s precondition here.
- Go `int` is 32 or 64 bits wide, depending on the platform. The model's integers are unbounded, so an overflow of `percentage * Width * Height` on very large grids is not modelled.
- Strings are sequences of Unicode scalar values. Byte strings that are not valid UTF-8, which Go's `range` would read as U+FFFD, are not modelled.
- Life.World.RandInit: requires a square grid whenever it copies at all. On other grids the source may panic with an index out of range, depending on the draws; only a square grid guarantees that every draw lies inside it (`Seeding.DrawnInGridIffSquare`). The model has no panics, so the non-square runs that happen to draw only valid indices are not modelled. The only caller uses a 10 x 10 grid.
- Life.World.Neighbors: requires a valid grid and a cell inside it, where the source would panic on a too-short row (for example after loading a file with a leading blank line).
- Life.NextState: requires both worlds to have the same dimensions. The source only needs `newWorld` to be at least as large, and panics otherwise.
- Life.World.constructor: requires non-negative dimensions. `make` panics on a negative height, and on a negative width only when the height is positive: `NewWorld(0, w)` with a negative `w` returns an empty world, which the model does not construct.
- Rows are modelled as values. A Go world's rows are separate slices, but no two worlds in the program share a row, so assigning the `cells` field has the same observable effect as writing into a row in place.

## Findings

| source | as written | input that shows it | evidently intended | confidence | as-written member | corrected member |
|---|---|---|---|---|---|---|
| internal/service/service.go:39 | `NewState` makes `currentWorld` refer to `nextWorld`, so from the second call on `NextState` reads and writes one grid, and each cell is computed from neighbors already updated in the same pass | a 3 x 3 grid with row 0 alive: the first call gives the all-alive grid, and the second call leaves four cells alive instead of none | swap the two worlds, so that every call writes a true next generation into a separate buffer | high (proved, not executed) | Service.LifeService.NewState (with Rules.SecondGenerationDiverges) | Service.LifeService.NewStateSwapping |
