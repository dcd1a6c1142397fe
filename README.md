# Game of Life on a toroidal canvas — a Dafny model

This project models `script.js`, a Conway's Game of Life demo. The program
fills the browser window with a grid of 10-pixel cells. Each cell starts alive
with probability 0.3. At the first display refresh whose timestamp is at
least 500 ms after the last drawn frame, the program draws the live cells,
steps the whole grid by the B3/S23 rule and records that timestamp, so frames
are at least 500 ms apart. It colours each live cell by how many
live neighbours it has. The grid wraps at its edges, so it is a torus.

The model has four modules:

- `GridModel` (`grid.dfy`) holds the grid as `seq<seq<bool>>`, indexed
  `g[column][row]`. It defines JavaScript's truncating `%` (`JsRem`) and the
  wrapped coordinate built on it (`Wrap`). `Neighbors` is the reference
  neighbour count: a sum over an explicit list of the eight offsets.
  `CountSoFar` restates that count in the order the source's double loop
  visits the offsets. `Seed` builds the random initial grid from injected
  draws.
- `RuleEngine` (`rules.dfy`) holds the one-cell transition (`NextCell`) and
  the whole-generation step (`NextGeneration`), plus small scenarios.
- `Renderer` (`render.dfy`) holds the palette and `ColorIndex`. `Frame` lists
  the sequence of cell paints one frame makes.
- `AnimationDriver` (`driver.dfy`) holds the class `Simulation`. Its fields
  are the program's globals `grid`, `cols`, `rows` and `lastDrawTime`. Its
  methods are the source's functions, each proved against the definitions
  above.

## Model

| member | source | states |
|---|---|---|
| GridModel.JsRem | script.js:83-84 | `%` truncates toward zero: a nonnegative dividend gives a result in [0, n), a negative one gives (-n, 0]. Dividends within one or two multiples of n are reduced exactly. |
| GridModel.Wrap | script.js:83-84 | `(v + d + n) % n` is always a valid index below n. One step before 0 lands on n - 1, one step past n - 1 lands on 0, and any other step lands on v + d. |
| GridModel.WrapMoves | script.js:83-84 | A step of -1 or +1 leaves the coordinate unchanged exactly when the axis has length 1. |
| GridModel.OffsetsAreTheEightNeighbours | script.js:80-82 | `Offsets` lists the steps the double loop takes: eight unit steps, none of them the centre (0, 0). |
| GridModel.OffsetsCoverNeighbourhood | script.js:80-82 | Every unit step other than the centre is among the listed offsets. |
| GridModel.OffsetsAreDistinct | script.js:80-82 | The offsets are listed in the loop's visiting order (column offset `i` first, then row offset `j`), so no offset is listed twice. |
| GridModel.CellValueCountsLiveCells | script.js:85 | `CellValue` is what `sum += grid[col][row]` adds: 1 for a live (`true`) cell and 0 for a dead one. |
| GridModel.Contribution | script.js:83-85 | The 0/1 value of the cell at one offset, with both indices wrapped, is at most 1. |
| GridModel.CountOver | script.js:85 | Summing 0/1 cell values over a list of offsets gives at most the list's length. |
| GridModel.Neighbors | script.js:78-89 | The neighbour count is at most 8. |
| GridModel.StepValue | script.js:82-85 | One loop step adds 0 or 1. |
| GridModel.RowSoFar | script.js:81-86 | The inner loop's running sum over row i of the offsets, before step j: at most one per step taken, and at most 2 in the row that skips the centre. |
| GridModel.CountSoFar | script.js:79-87 | The outer loop's running sum before row i: at most three per row done, and at most 8 in all. |
| GridModel.CountSoFarCompletes | script.js:79-88 | The loop's running sum, once all nine (i, j) steps are done and the centre is skipped, equals the reference count over the eight offsets. |
| GridModel.NeighborsWrittenOut | script.js:80-86 | The count is the sum of the eight wrapped cells either side of (x, y), written out term by term. |
| GridModel.CountOverEight | script.js:80-86 | A count over any eight unit offsets is the sum of their eight cell values. |
| GridModel.CountOverAtLeast | script.js:85 | Each listed live cell adds to the count. |
| GridModel.CountOverAgrees | script.js:85 | Two grids that agree at every listed offset give the same count. |
| GridModel.CountOverUniform | script.js:85 | On a uniform grid the count is the number of offsets when the cells are alive, and 0 when they are dead. |
| GridModel.OriginNeighboursFarCorner | script.js:83-84 | Wrap works in both axes at once: a live (0, 0) is counted for the cell (cols - 1, rows - 1). |
| GridModel.LiveNeighbourCounts | script.js:80-85 | A live cell one wrapped step away, in any direction except the centre, makes the count at least 1. |
| GridModel.NeighborsIgnoreOwnCell | script.js:82 | The centre is skipped: when both axes have length 2 or more, changing a cell's own state leaves its count unchanged. |
| GridModel.FullGridNeighbors | script.js:80-87 | On a fully alive grid every count is 8, whatever the grid's size. |
| GridModel.DeadGridNeighbors | script.js:80-87 | On an all-dead grid every count is 0. |
| GridModel.LoneCellCountsItself | script.js:82-85 | On a 1 x 1 grid, skipping (0, 0) does not stop self-counting: a live lone cell counts itself 8 times through the wrapped offsets. |
| GridModel.SeedThreshold | script.js:27 | `AliveThreshold` is 0.7, and the test is strict: draws never above 0.7, including 0.7 itself, seed an all-dead grid, and draws all above it seed an all-alive grid. |
| GridModel.Seed | script.js:25-29 | The fresh grid has `cols` columns of `rows` cells each. Cell (x, y) is alive exactly when the draw made for it exceeds 0.7. |
| GridModel.DrawIndex | script.js:26-27 | The index of the `Math.random()` call made for cell (x, y): the calls run column by column, so column x uses the block of `rows` calls starting at x * rows. |
| GridModel.DrawIndexDecodes | script.js:26-27 | A cell's draw index gives back its column (index / rows) and its row (index % rows). |
| GridModel.DrawIndexInRange | script.js:26-27 | Every cell uses one of the first cols * rows draws. |
| GridModel.DrawIndexInjective | script.js:26-27 | Two different cells never use the same draw. |
| GridModel.DrawIndexOnto | script.js:26-27 | Each of the first cols * rows draws is used by some cell. |
| RuleEngine.NextCell | script.js:98-100 | A live cell with fewer than 2 or more than 3 neighbours dies, and one with 2 or 3 survives. A dead cell is born exactly when it has 3. In closed form, the result is alive iff the count is 3, or the cell is alive and the count is 2. |
| RuleEngine.NextGeneration | script.js:95-102 | The next grid has the same dimensions. Each of its cells is the transition of the old cell under its count in the old grid. |
| RuleEngine.DeadGridStaysDead | script.js:94-104 | An all-dead grid stays all dead. |
| RuleEngine.FullGridDies | script.js:94-104 | A fully alive grid is all dead one step later. |
| RuleEngine.LoneCentreDies | script.js:94-104 | On a 3 x 3 grid with only the centre alive, the centre sees 0 neighbours and every other cell sees 1, so the next grid is all dead. |
| RuleEngine.LoneCentreCount | script.js:78-89 | The count of each single cell in the lone-centre grid. |
| RuleEngine.HollowSquareDies | script.js:94-104 | On a 3 x 3 grid alive everywhere except the centre, the centre sees 8 neighbours and every other cell sees 7, so the next grid is all dead. |
| RuleEngine.HollowSquareCount | script.js:78-89 | The count of each single cell in the hollow-square grid. |
| RuleEngine.WrapOnThree | script.js:83-84 | On an axis of length 3, the two wrapped neighbours of 0, 1 and 2 are (2, 1), (0, 2) and (1, 0). |
| Renderer.Min | script.js:40 | `Math.min` returns one of its arguments, and that argument is no greater than the other. |
| Renderer.ColorIndex | script.js:40 | `Math.min(3, neighbors)` is always a valid index into the four colours. It equals the count up to 3 and selects the last colour from 3 on. |
| Renderer.ColoursDistinguishCounts | script.js:5 | `Colors` has the source's four colours. Counts 0, 1, 2 and 3 get four different colours, and every count from 3 on shares the last one. |
| Renderer.PaintFor | script.js:39-41 | The paint for a live cell (x, y) is at that cell, with one of the palette's colours, chosen by its count. |
| Renderer.ColumnPaints | script.js:37-43 | The paints of the inner loop over the first n rows of column x, top down and live cells only: at most n of them. |
| Renderer.PaintsBefore | script.js:36-44 | The paints of the outer loop's first m columns, column after column: at most m * rows of them. |
| Renderer.Frame | script.js:36-44 | Everything one `drawGrid` call paints, in order: at most one paint per cell. |
| Renderer.ColumnPaintsFacts | script.js:37-43 | The paints for one column cover exactly its live cells, top down, each with the colour for its count. |
| Renderer.PaintsBeforeFacts | script.js:36-44 | The paints for the first m columns cover exactly their live cells, in strict column-major order. |
| Renderer.FramePaintsOnlyLiveCells | script.js:36-44 | Every paint in a frame is of a live cell, with the colour its count selects. |
| Renderer.FramePaintsEveryLiveCellOnce | script.js:36-44 | A frame paints every live cell, in strict column-major order, so no cell is painted twice. |
| Renderer.CrowdedCellTakesLastColour | script.js:40 | A live cell with five neighbours is filled with the last colour, `#216e39`. |
| AnimationDriver.Due | script.js:111 | `Due` is the test `currentTime - lastDrawTime >= FRAME_INTERVAL`. A due tick is strictly later than the last drawn frame. |
| AnimationDriver.StartupTickIsIdle | script.js:124 | With `lastDrawTime` 0 and `FrameInterval` 500, the start-up call `animate(0)` is not due. From that state a tick is due exactly when its timestamp is 500 or more. |
| AnimationDriver.GridFitsSurface | script.js:17-18 | With `CellSize` 10, the floored counts `Math.floor(width / 10)` and `Math.floor(height / 10)` cover the surface, except for a strip narrower than one cell on each axis. |
| AnimationDriver.Simulation.Valid | script.js:7-8 | The class invariant: `grid` has `cols` columns, and each has `rows` cells. |
| AnimationDriver.Simulation.constructor | script.js:7-9 | The program starts from an empty grid with `lastDrawTime` 0, then does the initial resize (line 123). The result is a seeded grid of the surface's dimensions. |
| AnimationDriver.Simulation.Resize | script.js:14-20 | After a resize, `cols` = width / 10 and `rows` = height / 10, floored. The grid is a fresh seeding of exactly that shape, and `lastDrawTime` is unchanged. |
| AnimationDriver.Simulation.InitializeGrid | script.js:25-29 | The grid becomes the seeding of the current dimensions, and nothing else changes. |
| AnimationDriver.Simulation.CountLiveNeighbors | script.js:78-89 | The double loop's sum equals the neighbour count `Neighbors` of the current grid. |
| AnimationDriver.Simulation.DrawGrid | script.js:34-45 | The paints are exactly `Frame(grid)`, in drawing order. |
| AnimationDriver.Simulation.UpdateGrid | script.js:94-104 | The new grid is the next generation of the old one, and the dimensions and `lastDrawTime` are unchanged. |
| AnimationDriver.Simulation.NextColumn | script.js:96-101 | The inner `map` builds exactly column x of the next generation. |
| AnimationDriver.Simulation.Animate | script.js:110-117 | Before 500 ms have passed since the last frame, nothing is drawn and nothing changes. Otherwise the frame of the old grid is drawn, the grid steps to its next generation, and `lastDrawTime` becomes the current time. |

## Left out

- Canvas raster calls (`clearRect` at line 35, and `beginPath`, `roundRect` and `fill` in `drawCell` at lines 52-56) are not modelled. `DrawGrid` returns the sequence of paints (cell position and fill style) those calls would make. The pixel geometry (`x * CELL_SIZE`, the 9-pixel rounded square) is left out.
- The window and canvas sizes (lines 15-16) are parameters of `Resize` and the constructor. Assigning `canvas.width` and `canvas.height` is not modelled.
- `Math.random()` is a parameter `random: nat -> real`, where `random(k)` is the value of the k-th call while seeding. Cell (x, y) uses call x * rows + y, in column-major order. Real numbers stand in for doubles.
- `requestAnimationFrame(animate)` (line 116) and the resize listener (line 120) are the browser's scheduling of calls to `Animate` and `Resize`. They are left out. So is the timing of those calls.
- The initial `animate(0)` call (line 124) is not a separate member. `StartupTickIsIdle` states that it is not due, and then `Animate`'s first postcondition says it changes nothing.
- Timestamps are integer milliseconds. The browser's timestamps are doubles, so fractional milliseconds are not modelled.
- The two nested `map` calls in `updateGrid` are loops (`UpdateGrid` over columns and `NextColumn` over rows), because their callback calls `countLiveNeighbors`, which is a method here.
- `% cols` with `cols` 0 (NaN in JavaScript) is never reached: `countLiveNeighbors` is only called for an existing cell, and `CountLiveNeighbors` requires one.
