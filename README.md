# soil-demo humidity automaton in Dafny

A model of the core of soil-demo, a small Go program that simulates water
seeping through soil as a cellular automaton.

A level is a square of tile codes: air, four soils of increasing density,
rock and cloud. The level is turned into a grid of cells. Each cell holds a
humidity and an impermeability. The grid comes with two boolean masks: rock
cells and rain (cloud) cells. Each tick of the humidity board recomputes every
cell from the grid as it was before the tick. A rain cell, or a cell whose
impermeability is at least 4/5 of the largest float32, keeps its value. Every
other cell takes a weighted mean of itself and its four axis neighbours,
capped at 1023. The cell itself weighs its impermeability k0, and each
neighbour the reciprocal 1/ki of its own. Past the grid edge lies a virtual
dry rock cell `(0, MaxFloat32)`.

The project has one module per source file, plus `Common` for the library
types the core borrows:

- `Common` (common.dfy) holds mgl32.Vec2 as the record `Cell(h, k)`,
  `math.MaxFloat32` as an exact real, ebiten's mouse buttons, the colour
  values and Go error returns.
- `Matrix` (matrix.dfy) models util/matrix.go.
- `Humidity` (humidity.dfy) models internal/boards/humidity.go. It holds the
  update rule as functions over grids, proofs about one tick and about many,
  and the `HumidityBoard` class.
- `Tiles` (tiles.dfy) models internal/boards/tiles.go as the `EnumBoard`
  class.
- `Scene` (scene.dfy) models the two grid builders of internal/scene.go.
- `Image` (image.dfy) models `LineSquare` of util/image.go.

Humidities and impermeabilities are `real`. Grids are `seq<seq<Cell>>`, and
the boards keep them in fields that their methods reassign. This is exact for
`Update`, which always builds a fresh grid and swaps it in. The loops of the
source are loops here. Most are proved against a pure function that states
their result (`Filled`, `Masked`, `Step`, `TileCell`, `TileColor`,
`CellColor`). Two are proved against an entrywise statement instead:
`Merge2Matrixes` against the pair `Cell(m0[x][y], m1[x][y])` of every entry,
and `EnumBoard.Draw` against the stored grid itself.

Four behaviours of the code are easy to misread; the model follows the code:

- The builders do not validate the tile array. They index it as
  `m[j*16 + i]` with a fixed stride of 16. So cell `[i][j]` is the tile at
  column i, row j of a 16-wide row-major array. `MakeSoilGrid` therefore
  requires the array to be long enough (`CoversTiles`).
- A click indexes the rock mask at the cursor without a range test. Out of
  range, that is a Go panic, not a no-op. So `Click` requires the cursor to
  be on the mask for the left and right buttons. The only caller can break
  that requirement. `SimulationScene.Update` (internal/scene.go:54-66) hovers
  the cell under the cursor with no range test and then clicks while a mouse
  button is held. A cursor right of or below the 16 x 16 board gives a
  column or row of 16 or more. This was found by reading the code; it was
  never run.
- A rain cell is not pinned to 1023 by the update. It is only skipped. It
  stays at 1023 because the builders create it at 1023 (`IterateKeepsSkipped`,
  `SoilGridTickable`).
- The update has no lower clamp. Humidities stay in [0, 1023] because the
  update is a true weighted mean (`WeightedMean`, `IterateInRange`).

## Model

| member | source | states |
|---|---|---|
| `Matrix.Filled` | util/matrix.go:51-63 | the w x h matrix of one value: exactly max(w,0) rows of max(h,0) entries, every entry that value |
| `Matrix.MakeMatrixWH` | util/matrix.go:51-63 | the appending loops build exactly `Filled(width, height, value)`, so a negative dimension gives no rows or empty rows |
| `Matrix.MakeMatrix` | util/matrix.go:65-77 | builds `Filled(size, size, value)`, the same matrix as `MakeMatrixWH(size, size, value)` |
| `Matrix.MakeMatrixBool` | util/matrix.go:93-105 | builds the size x size all-false matrix |
| `Matrix.Merge2Matrixes` | util/matrix.go:10-30 | error with the source's message exactly when the row counts or the row-0 lengths differ (only row 0 is compared); otherwise an lx x ly matrix with `r[x][y] == Cell(m0[x][y], m1[x][y])`; requires a non-empty m0 and rows at least as long as row 0, which the Go indexing needs |
| `Matrix.ApplyMaskOnMatrix` | util/matrix.go:32-49 | on a size mismatch, dst unchanged and an error; otherwise every masked entry of the first len(dst[0]) columns becomes value, every other entry is unchanged, and every row keeps its length |
| `Matrix.MaskedIdempotent` | util/matrix.go:40-48 | applying the same mask and value twice gives the same matrix as applying them once |
| `Matrix.MaskedRow` | util/matrix.go:41-45 | one row after masking its first ly entries: same length, masked entries below ly become value, all others unchanged |
| `Matrix.Masked` | util/matrix.go:40-46 | the matrix after masking: same shape; an entry below column len(dst[0]) becomes value exactly when its mask entry is set; entries beyond that column unchanged |
| `Humidity.Left` | internal/boards/humidity.go:137-139 | the left neighbour v1 is the padded-grid cell (x-1, y): the grid cell for x > 0, the edge cell (0, MaxFloat32) at x = 0 |
| `Humidity.Right` | internal/boards/humidity.go:140-142 | the right neighbour v2 is the padded-grid cell (x+1, y): the edge cell at x = len(values)-1 |
| `Humidity.Up` | internal/boards/humidity.go:143-145 | the upper neighbour v3 is the padded-grid cell (x, y-1): the edge cell at y = 0 |
| `Humidity.Down` | internal/boards/humidity.go:146-148 | the lower neighbour v4 is the padded-grid cell (x, y+1); tested against len(values[0]), which on a rectangular grid is the cell's own row length |
| `Humidity.WeightedMean` | internal/boards/humidity.go:150-151 | the formula (h0*k0 + sum hi/ki) / (k0 + sum 1/ki); with positive impermeabilities it lies between the least and the greatest of the five humidities |
| `Humidity.MeanOfFiveBetween` | internal/boards/humidity.go:151 | the formula's denominator is positive, and the formula lies within any common bounds of the five humidities |
| `Humidity.NewHumidity` | internal/boards/humidity.go:150-156 | the new humidity never exceeds 1023 and never exceeds the weighted mean |
| `Humidity.NewHumidityInRange` | internal/boards/humidity.go:150-156 | an updated cell whose neighbourhood has humidities in [0, 1023] gets a humidity in [0, 1023] |
| `Humidity.Skipped` | internal/boards/humidity.go:126-128 | rain cells are skipped, and so are cells at rock impermeability MaxFloat32; a dry cell of impermeability up to MaxFloat32/2 is updated |
| `Humidity.StepCell` | internal/boards/humidity.go:120-159 | the post-tick cell: a skipped cell as it was; any other cell gets the capped weighted mean over the padded grid, whose four neighbours all have positive impermeability; the impermeability is kept either way |
| `Humidity.Step` | internal/boards/humidity.go:113-164 | one tick keeps the row count and every row length, never changes an impermeability, and gives a grid that can be ticked again |
| `Humidity.StepRule` | internal/boards/humidity.go:117-160 | a rain cell or a cell with k >= MaxFloat32/5*4 keeps its value exactly; any other cell gets the capped weighted mean of itself and its padded-grid neighbours and keeps its k; the rock mask plays no part |
| `Humidity.StepInRange` | internal/boards/humidity.go:150-156 | a tick keeps every humidity of the grid within [0, 1023] |
| `Humidity.EdgeMeanDries` | internal/boards/humidity.go:130-151 | in exact arithmetic, a wet cell whose four neighbours are all the virtual edge ends strictly between 0 and its humidity |
| `Humidity.LoneCellDries` | internal/boards/humidity.go:130-156 | in exact arithmetic, the 1x1 grid (500, 1) ticks to a humidity strictly between 0 and 500 |
| `Humidity.WriteCells` | internal/boards/humidity.go:115-161 | writing post-tick values into a buffer in a given order keeps the grid's shape and leaves every unvisited cell as the buffer had it |
| `Humidity.WriteCellsAt` | internal/boards/humidity.go:115-162 | writing post-tick values into a buffer in any order puts the post-tick value in every visited cell and leaves the others as the buffer had them |
| `Humidity.OrderIndependent` | internal/boards/humidity.go:137-162 | since neighbours are read from the pre-tick grid and written to a fresh one, visiting the cells in any order that covers them all gives `Step` |
| `Humidity.Iterate` | internal/boards/humidity.go:113-164 | any number of ticks keeps the grid's shape and every impermeability, and the grid stays tickable |
| `Humidity.IterateInRange` | internal/boards/humidity.go:113-164 | humidities stay within [0, 1023] after any number of ticks |
| `Humidity.IterateKeepsSkipped` | internal/boards/humidity.go:125-128 | a rain cell or a near-rock cell keeps its value exactly through any number of ticks |
| `Humidity.MakeHumidityGrid` | internal/boards/humidity.go:237-248 | a grid the size of rockMask; cells are (0,1), rock cells (0,MaxFloat32), rain cells (1023,1), with rain winning where both are set; a rain mask of another size is silently ignored; the result is rectangular with humidities in [0,1023] and every k >= 1 |
| `Humidity.CellColor` | internal/boards/humidity.go:188-204 | black under the cursor whatever else holds; otherwise on a rock white with alpha k/MaxFloat32*255, in (0,255] for 0 < k <= MaxFloat32; otherwise hue h/1023*240, in [0,240] for humidities in [0,1023] |
| `Humidity.SetAt` | internal/boards/humidity.go:224-229 | the mask with cell (x, y) set to b: same shape, that cell b, every other cell unchanged |
| `Humidity.Clicked` | internal/boards/humidity.go:224-230 | the left button sets the mask cell at the cursor, the right button clears it, any other button changes nothing; every other cell and the mask's shape stay as they were |
| `Humidity.LeftThenRightClears` | internal/boards/humidity.go:224-230 | a left click followed by a right click on the same cell leaves that cell clear and the rest of the mask as before |
| `Humidity.HumidityBoard.constructor` | main.go:37 | the zero board: empty grids and masks, cursor (0, 0) |
| `Humidity.HumidityBoard.Size` | internal/boards/humidity.go:67-69 | the number of rows and the length of row 0, which is the length of every row when the grid is rectangular; requires a non-empty grid (row 0 is read) |
| `Humidity.HumidityBoard.UpdatedHumidity` | internal/boards/humidity.go:130-156 | the neighbour choice of the loop body (the edge cell past each border, with the down test against len(values[0])) followed by the mean and the cap gives exactly the capped weighted mean over the padded grid |
| `Humidity.HumidityBoard.Update` | internal/boards/humidity.go:113-164 | the nested loop that appends into a fresh m0 and swaps it in leaves `values == Step(old(values), Rain)` and returns nil; it changes no other field, so initValues, Rocks and Rain are untouched |
| `Humidity.HumidityBoard.Setup` | internal/boards/humidity.go:210-213 | both the live and the initial grid become the given grid |
| `Humidity.HumidityBoard.Reset` | internal/boards/humidity.go:215-218 | the live grid becomes the initial grid, nil is returned, and the masks are untouched |
| `Humidity.HumidityBoard.GetState` | internal/boards/humidity.go:220-222 | returns the live grid |
| `Humidity.HumidityBoard.Click` | internal/boards/humidity.go:224-230 | the rock mask becomes `Clicked(old(Rocks), btn, hvrX, hvrY)`; the grids are untouched |
| `Humidity.HumidityBoard.Hover` | internal/boards/humidity.go:232-235 | stores the cursor as given, with no range check |
| `Humidity.HumidityBoard.Draw` | internal/boards/humidity.go:188-204 | the painted frame has the grid's shape, and each cell has `CellColor` of its value, its rock flag and whether the cursor is on it |
| `Humidity.TicksThenReset` | internal/boards/humidity.go:210-218 | Setup, any number of Updates, then Reset restores exactly the grid given to Setup; the ticked grid is `Iterate(init, Rain, n)`; the masks and the cursor are unchanged |
| `Scene.Pow5` | internal/scene.go:205-206 | 5^c is positive for every integer c, and at least 1 for c >= 0 |
| `Scene.Pow5Increasing` | internal/scene.go:205-206 | 5^c grows strictly with c, so denser tile classes are more impermeable |
| `Scene.TileCell` | internal/scene.go:193-207 | the cell a code gives has a positive impermeability (at least 1 for codes >= 0), and its humidity is 1023 for the cloud code 7 and 0 otherwise |
| `Scene.TileImpermeability` | internal/scene.go:196-207 | among the codes 0..7 only rock reaches the skip threshold of a tick; the soils 2..5 are more impermeable than air and increase with the code |
| `Scene.TileIndex` | internal/scene.go:195 | the index `(j*16)+i` of cell [i][j]; for 0 <= i < 16 and j >= 0 it is non-negative and divides back into row j, column i |
| `Scene.CoversTiles` | internal/scene.go:193-195 | a tile array long enough for the last cell of a size x size grid holds every index either builder reads |
| `Scene.MakeSoilGrid` | internal/scene.go:188-211 | three size x size grids; cell [i][j] is classified from `m[j*16+i]`; humidity cell `TileCell(code)`, rock flag exactly for code 6, rain flag exactly for code 7 |
| `Scene.SoilGridTickable` | internal/scene.go:188-211 | the built grid is rectangular, tickable with its rain mask and has humidities in [0,1023]; no cell is both rock and rain; every rain cell is (1023, 1); codes >= 0 give k >= 1 |
| `Scene.TileColor` | internal/scene.go:217-233 | every tile colour is an opaque RGBA; every code outside 2..7, including air, is opaque white |
| `Scene.TileColorsDistinct` | internal/scene.go:218-233 | the codes 1..7 get pairwise different colours |
| `Scene.MakeColorGrid` | internal/scene.go:213-238 | a size x size grid whose cell [i][j] is `TileColor(m[j*16+i])`; requires a non-negative size, as make does |
| `Tiles.EnumBoard.constructor` | main.go:38 | the zero preview board: no colours, cursor (0, 0) |
| `Tiles.EnumBoard.Size` | internal/boards/tiles.go:14-16 | the number of rows and the length of row 0; requires a non-empty grid |
| `Tiles.EnumBoard.Update` | internal/boards/tiles.go:18-20 | returns nil and has no modifies clause, so the board is unchanged |
| `Tiles.EnumBoard.Draw` | internal/boards/tiles.go:22-28 | the painted frame is exactly the stored colour grid |
| `Tiles.EnumBoard.Setup` | internal/boards/tiles.go:34-36 | the stored grid becomes the given one |
| `Tiles.EnumBoard.Reset` | internal/boards/tiles.go:38-40 | returns nil and changes nothing |
| `Tiles.EnumBoard.GetState` | internal/boards/tiles.go:42-44 | returns the stored grid |
| `Tiles.EnumBoard.Click` | internal/boards/tiles.go:46-48 | changes nothing, for every button |
| `Tiles.EnumBoard.Hover` | internal/boards/tiles.go:50-53 | stores the cursor as given, with no range check, and nothing else |
| `Tiles.SetupThenState` | internal/boards/tiles.go:34-48 | after Setup(init), neither an Update, a Reset nor a Click changes the board, and GetState gives back exactly init |
| `Image.LineSquare.ColorModel` | util/image.go:32-34 | always the RGBA model |
| `Image.LineSquare.Bounds` | util/image.go:38-40 | the rectangle the square was given, unchanged |
| `Image.LineSquare.At` | util/image.go:45-53 | either the square's colour or transparent; the colour within Border of column 0, column Dx, row 0 or row Dy (with <=, so column 0 and row 0 are coloured even with Border 0); transparent strictly inside that band |
| `Image.AtIgnoresPosition` | util/image.go:42-50 | moving the rectangle does not change any pixel: At measures from 0 and Dx/Dy, not from Bounds().Min as its doc comment says |
| `Image.AtMirrored` | util/image.go:45-53 | the band is symmetric: x to Dx-x and y to Dy-y keep every pixel's colour |
| `Image.AtBorderMonotone` | util/image.go:45-53 | a wider border colours every pixel a narrower one does |

## Left out

- float32 arithmetic. Humidities and impermeabilities are exact reals. Rounding is not modelled. With reals the `r > 1023` cap can still bind, for a neighbourhood wetter than 1023.
- `Humidity.EdgeMeanDries` and `Humidity.LoneCellDries` hold over exact reals only. The program does the opposite. In float32, an edge neighbour adds 1/MaxFloat32, about 2.9e-39, to the denominator. For a cell with k >= 1 that is far below one rounding step, so the denominator rounds to k0 and the cell keeps its humidity: the (500, 1) cell stays at 500. In the program the edge acts as a missing neighbour, not as a dry sink. Over the reals the drop is below 1e-35.
- `Scene.Pow5`: the overflow of `float32(math.Pow(5, c))` to +Inf for codes of 56 and above is not modelled. Neither is the rounding of large powers.
- `Humidity.HumidityBoard.Update` requires a rectangular grid, a rain mask that covers it, and positive impermeabilities. Every builder produces such a grid (`MakeHumidityGrid`, `SoilGridTickable`). The Go code on a ragged grid, a short rain mask or a zero impermeability (an index panic, or Inf/NaN from a division) is not modelled.
- `Matrix.ApplyMaskOnMatrix` requires every row of dst to hold len(dst[0]) entries. The Go loop writes `dst[x][y]` only where `mask[x][y]` is set, so a ragged dst whose short rows meet only clear mask entries runs without a panic. The model does not cover that case. The only call sites (internal/boards/humidity.go:243,246) pass the rectangular grid that MakeMatrixWH builds.
- `Matrix.ApplyMaskOnMatrix` is modelled on values. It returns the updated grid rather than writing through the caller's slices. `MakeHumidityGrid` uses the returned grid, which is the same grid, since it holds the only reference to it.
- Go slice aliasing is not modelled. `Setup` shares slices between `values` and `initValues`, and `GetState` exposes the live slice. Nothing in the program writes through those aliases.
- The `uint8` conversion of the rock alpha and the `uint16` conversion of the hue in `Draw` are not modelled. The colour carries the real value before conversion. `util.HSVColor` is not part of this model.
- `screen.Set` is not modelled. Both `Draw` methods return the painted frame as a grid of colours.
- `Layout` of both boards is not modelled: it returns (0, 0) and is never used for the board.
- `MakeRandMatrixUint8` and `MakeRandMatrixBool` are not modelled, because they depend on `math/rand`.
- `AsRGBA` (util/image.go) is image plumbing over external image types and is not modelled.
- `Image.LineSquare.At`: the border is a `nat`, so Go's `int(ln.Border)` of a uint above the int range is not modelled.
- The scene's UI is not modelled: `SimulationScene.Update`, `Draw` and `Layout`, with cursor polling, menu scaling, speed and scene cycling. Also left out are level loading (`Load`, LDtk access), asset loading (internal/config.go) and program wiring (main.go). The builders take the tile codes as a `seq<int>`.
- `Scene.MakeSoilGrid`: for an air tile the Go loop continues without writing. The model writes the cell's default values back, which changes nothing.
- `Scene.MakeColorGrid`: the nil colours that `make` fills a row with are shown as white. The loop overwrites every one of them.
