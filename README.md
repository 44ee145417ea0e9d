# Game of Life controller, modelled in Dafny

This project models the simulation core of a browser Game of Life
(`src/CanvasController.ts`): a bounded grid of boolean cells (true = alive)
with no wraparound, the neighbour enumeration `findNeighbors`, the cell rule
`evalCell`, the generation step `evalCells`, the pixel-to-cell mapping
`findCell`, the grid sizing `resetCells`, the click handler that toggles one
cell, and the `CanvasController` object's running/stopped state machine
(`start`, `stop`, `setSimulationSpeed`, `reset`, `destroy`).

Files and modules:

- `wrappers.dfy` (`Wrappers`): `Option`, used for the `number | null` interval handle.
- `grid.dfy` (`Grid`): the grid type, the cell reader, the all-dead grid, grid
  sizing, `findCell` with the render rectangle it inverts, and the toggle.
- `neighbors.dfy` (`Neighborhood`): the 3 x 3 offset scan as a specification
  function `Neighbors`, the imperative `FindNeighbors` with its nested loops
  proved equal to it, and the exact neighbour set.
- `step.dfy` (`Step`, `StepExamples`): the live count, the four ordered checks
  of the rule, the step function, its agreement with Conway's rule over an
  independent eight-term neighbour count, and the lone-cell and blinker
  patterns.
- `controller.dfy` (`Controller`): the `CanvasController` class. Its fields
  are the canvas size, `cells`, `simulationSpeed`, `intervalId` and
  `scheduled`, the intervals the controller has set up with the browser and
  not cleared (handle to period). `Valid()` is the object invariant: the grid
  has the sized shape, the speed is at least 10, and at most one interval is
  scheduled, namely the one `intervalId` holds.

Modelling decisions:

- `setInterval` is not modelled. Its returned handle is a parameter of
  `Start` and `SetSimulationSpeed`, of type `TimerId` (a positive integer, as
  browsers return). So the source's truthiness test `if (this.intervalId)` is
  exactly `intervalId.Some?`. `clearInterval` removes the handle from `scheduled`.
- A firing of the interval is the method `Tick` (the `simulate` closure).
- The canvas size (`window.innerWidth` / `innerHeight`) is a pair of
  natural-number constructor parameters. The size never changes afterwards,
  as in the source.
- Pixel coordinates are integers. `Math.floor(x / size)` is Dafny's `/`,
  which floors for a positive divisor. `setSimulationSpeed` takes a `real`,
  so that `Math.ceil` is modelled exactly.
- As in the source, the step reads a neighbour cell through `Alive`. A column
  past the end of its row reads as `undefined`, which counts as dead, so
  `EvalCells` is total even on ragged grids. The lemmas relating it to
  Conway's rule assume the rectangular grid that the controller keeps.
- `findNeighbors` names its outer loop variable for the column offset and
  the inner one for the row offset. So the scan visits the offsets column
  offset first. `Neighborhood.Offsets` keeps that order.
- `destroy` clears the interval but does not reset `intervalId`. After it,
  `Start` is a no-op, while `SetSimulationSpeed` still stops and restarts
  with a new handle. The model has the same behaviour, and the contracts of
  `Start`, `Destroy` and `SetSimulationSpeed` state it.

## Model

| member | source | states |
|---|---|---|
| `Grid.AllDead` | src/CanvasController.ts:51-56 | the grid has exactly the requested rows and columns, and every cell is dead |
| `Grid.FindCell` | src/CanvasController.ts:138-143 | for a positive size, the column is the one whose pixel span `[c*size, (c+1)*size)` holds x; the row likewise for y |
| `Grid.FindCellInvertsRender` | src/CanvasController.ts:76 | a pixel lies in the rectangle `renderCells` fills for (row, col) if and only if `findCell` maps it back to (row, col) |
| `Grid.ClickInGrid` | src/CanvasController.ts:48-50 | with one row and one column over-provisioned, every click with `0 <= x <= width` and `0 <= y <= height` maps to an in-bounds cell |
| `Grid.Toggled` | src/CanvasController.ts:64 | the grid keeps its shape, the clicked cell is negated, and every other cell is unchanged |
| `Grid.ToggleTwice` | src/CanvasController.ts:64 | toggling the same cell twice restores the original grid |
| `Neighborhood.ScanSpec` | src/CanvasController.ts:197-208 | after k steps of the offset scan, the list holds exactly the in-grid adjacent cells visited so far, each once, and the centre is never added |
| `Neighborhood.NeighborsSpec` | src/CanvasController.ts:193-210 | `findNeighbors` yields exactly the (r+dr, c+dc) with dr, dc in {-1,0,1}, not both 0, inside the grid. It never yields the cell itself, repeats nothing, has at most 8 entries, and does not wrap around |
| `Neighborhood.NeighborCount` | src/CanvasController.ts:202-206 | an in-grid cell has (reachable rows) x (reachable columns) - 1 neighbours |
| `Neighborhood.BorderNeighborCount` | src/CanvasController.ts:202-206 | an edge cell has at most 5 neighbours, a corner cell at most 3, an interior cell exactly 8 |
| `Neighborhood.FindNeighbors` | src/CanvasController.ts:193-210 | the nested loops return exactly the specification list `Neighbors` for the grid's row count and first-row length |
| `Step.LiveCount` | src/CanvasController.ts:164-167 | the summed live count lies between 0 and the number of neighbours (so 0..8 for `findNeighbors` output) |
| `Step.NextState` | src/CanvasController.ts:169-190 | 3 gives alive, at most 1 gives dead, at least 4 gives dead, 2 keeps the current state. Equivalently, alive iff the count is 3, or it is 2 and the cell is alive. The logged fallback is unreachable for every integer count |
| `Step.EvalCell` | src/CanvasController.ts:163-191 | the cell is alive next iff its neighbour list holds exactly 3 live cells, or 2 and the cell is alive now |
| `Step.EvalAt` | src/CanvasController.ts:157-158 | the live count `evalCell` computes over the `findNeighbors` list of an in-grid cell lies in 0..8 |
| `Step.EvalCells` | src/CanvasController.ts:150-161 | the new grid has as many rows as the input and each row the length of the input's row. The input is a value and is not changed |
| `Step.EvalCellsShape` | src/CanvasController.ts:150-161 | a grid of shape rows x cols steps to a grid of the same shape, so rectangularity is preserved |
| `Step.LiveCountIsRefCount` | src/CanvasController.ts:157-167 | on a rectangular grid, the count over `findNeighbors` equals the eight-term count of live cells around the position, with off-grid cells dead |
| `Step.EvalCellsIsLife` | src/CanvasController.ts:150-191 | every cell of the next generation is alive iff it has exactly 3 live in-grid neighbours, or 2 and it is alive now |
| `Step.LoneCellDies` | src/CanvasController.ts:174-177 | a rectangular grid with at most one live cell becomes all dead in one step |
| `Step.BlinkerTurnsVertical` | src/CanvasController.ts:150-191 | three live cells in a row, away from the edges and alone on the grid, become the three-cell column through the middle one |
| `Step.BlinkerTurnsHorizontal` | src/CanvasController.ts:150-191 | that column becomes the row again |
| `Step.BlinkerPeriodTwo` | src/CanvasController.ts:150-191 | two steps bring such a blinker back to the original grid |
| `StepExamples.SingleCellExample` | src/CanvasController.ts:174-177 | the 3 x 3 grid whose middle row is `[false, true, false]` steps to the all-dead 3 x 3 grid |
| `StepExamples.BlinkerExample` | src/CanvasController.ts:169-172 | the row `[false, true, true, true, false]` centred in a dead 5 x 5 grid steps to the vertical triple in the middle column |
| `Controller.Ceil` | src/CanvasController.ts:109 | `Math.ceil`: the least integer not below the argument |
| `Controller.ClampedSpeed` | src/CanvasController.ts:109-110 | the least integer that is at least the requested interval and at least 10 |
| `Controller.CanvasController.constructor` | src/CanvasController.ts:17-45 | the new controller is valid: all-dead grid of the sized shape, speed 1000, stopped, nothing scheduled |
| `Controller.CanvasController.ResetCells` | src/CanvasController.ts:47-57 | the first `height/25 + 1` rows become `width/25 + 1` dead cells each; any rows beyond are left as they were |
| `Controller.CanvasController.Click` | src/CanvasController.ts:59-67 | the clicked pixel's cell is in bounds, only that cell is toggled, and the invariant is kept |
| `Controller.CanvasController.Tick` | src/CanvasController.ts:85-88 | the grid becomes `EvalCells` of the old grid and keeps its shape |
| `Controller.CanvasController.Start` | src/CanvasController.ts:81-90 | a no-op when already running; otherwise the new handle is held and exactly one interval is scheduled, at the current speed |
| `Controller.CanvasController.Stop` | src/CanvasController.ts:97-102 | the held interval is cleared and the controller is not running, with nothing scheduled afterwards |
| `Controller.CanvasController.GetInterval` | src/CanvasController.ts:104-106 | the reported speed is never below 10 |
| `Controller.CanvasController.SetSimulationSpeed` | src/CanvasController.ts:108-115 | the speed becomes max(ceil(v), 10). The running status is unchanged; a running simulation is rescheduled with the new handle at the new speed; the grid is untouched |
| `Controller.CanvasController.Reset` | src/CanvasController.ts:117-120 | the grid becomes all dead with its previous dimensions; the run state and speed are untouched |
| `Controller.CanvasController.Destroy` | src/CanvasController.ts:122-130 | nothing is left scheduled, and `intervalId` keeps its stale handle |
| `Controller.ClickTwice` | src/CanvasController.ts:64 | two clicks on the same pixel leave the grid as it was |

## Left out

- Drawing: `renderCells`, the fill colours and the background fill in `init`. These are graphics side effects; their one piece of logic, the cell rectangle, is `Grid.RenderRect`.
- Acquiring the 2D context, and the error thrown when it is missing. This is environment setup; the constructor takes the canvas size directly.
- Registering and removing the click listener in `init` and `destroy`. This is browser plumbing.
- The timer itself: periodic firing by `setInterval`. It is scheduling in the browser; the model records the scheduled intervals and has `Tick` for one firing.
- `console.log` output and the debug `print` dump. These are logging only.
- Floating point: `NaN` or infinite speeds, and fractional click coordinates. Speeds are exact reals and coordinates are integers.
- Clicks outside the canvas. They are excluded by `Click`'s precondition, since the browser delivers canvas clicks inside it. In the source, a row outside the grid would throw, and a column past a row's end would extend the row.
- The React components in `src/App.tsx`, `src/components/ControlPanel.tsx` and `src/components/Game.tsx`. They only wire the controller to the page.
