# Maze game model

A Dafny model of the core of a browser maze game written in TypeScript on
PIXI.js. The game has three parts. A `Maze` keeps a grid of cells and a
jagged grid of walls around them. A `MazeGenerator` knocks walls out of a
fully walled maze. It uses a depth-limited recursive backtracker: a path
whose budget runs out parks its last cell on a queue, and the queue is then
drained in random order. `MazeGame` moves a ball by the device's
acceleration and keeps it off the standing walls of the cell it is in.

Files:

- `geometry.dfy` (module `Geometry`): directions, cells, stored walls, the
  two index maps `getWallIndex` / `getNeighbourCellIndex`, and the row
  layout of the wall grid.
- `maze.dfy` (module `MazeGrid`): the class `Maze`.
  - Its cell and wall lookups, with their "cell not exists" / "wall not
    exists" failures.
  - `reset`, and the removal of one wall.
  - `toString`, proved against a line-by-line rendering of the wall grid.
- `generator.dfy` (module `MazeGeneration`): the class `MazeGenerator`.
  - `availableDirections`, `next` and `generate`.
  - The proof that `generate` leaves a spanning tree: every cell is
    visited and reachable from cell (0, 0) through open walls, and exactly
    w * h - 1 interior walls are opened.
- `game.dfy` (module `Game`): `Map.getCell` in pixels, `wallRestrict`, and
  the clamp-move-restrict step of `onDeviceMotion`.

Walls are stored the way the source stores them:

- Row 2y holds the w horizontal walls above cell row y.
- Row 2y + 1 holds the w + 1 vertical walls beside cell row y.
- Row 2h holds the walls below the last row.

A slot of that grid is a `Pos(column, row)`. Coordinates in the game are
exact reals. The map's cell width (20) and the ball's radius (8) are the
values the game constructs them with.

## Model

| member | source | states |
|---|---|---|
| Geometry.Cell.CenterX | src/maze/Maze.ts:26-28 | the centre lies strictly inside the cell's column |
| Geometry.Cell.CenterY | src/maze/Maze.ts:30-32 | the centre lies strictly inside the cell's row |
| Geometry.DirectionOf | src/maze/Maze.ts:3-8 | maps each index 0..3 back to the direction with that position in the enumeration |
| Geometry.Wall.EndX | src/maze/Maze.ts:131-140 | the end corner lies at most one cell to the right of the start |
| Geometry.Wall.EndY | src/maze/Maze.ts:142-151 | the end corner lies at most one cell below the start, and a wall is exactly one cell long along one axis |
| Geometry.RowDirection | src/maze/Maze.ts:153-155 | no contract of its own: even rows hold horizontal walls, odd rows vertical ones (`y & 1`); WallIndex's ensures and LaidOut rest on it |
| Geometry.RowWallCount | src/maze/Maze.ts:157-163 | no contract of its own: w walls in a horizontal row, w + 1 in a vertical one; SlotInWallGrid and RowLengths carry its properties |
| Geometry.WallIndex | src/maze/Maze.ts:72-85 | a top or bottom side lies in a horizontal row and a left or right side in a vertical row; the wall stored there starts at the cell's corner, one cell along for a right or bottom side; SharedWall, SlotInWallGrid, SlotSides and SlotDetermines state the rest |
| Geometry.NeighbourIndex | src/maze/Maze.ts:87-100 | the neighbour index is one step away along the side's axis, in the side's direction; StepBack and SharedWall state the rest |
| Geometry.NeighbourExists | src/maze/Maze.ts:36-46 | for an in-grid cell, the side's flag is true exactly when the cell beyond that side is in the grid |
| Geometry.SharedWall | src/maze/Maze.ts:72-100 | the neighbour beyond side d sees the same wall slot on its opposite side |
| Geometry.StepBack | src/maze/Maze.ts:87-100 | stepping to a neighbour and back in the opposite direction returns to the cell |
| Geometry.SlotInWallGrid | src/maze/Maze.ts:72-85 | every side of an in-grid cell has a slot inside the jagged wall grid |
| Geometry.SlotSides | src/maze/Maze.ts:72-85 | the slot on side d separates exactly the cell and its neighbour beyond d |
| Geometry.SlotDetermines | src/maze/Maze.ts:72-85 | two (cell, side) pairs name the same slot only if they are equal or are the two faces of one shared wall |
| Geometry.NeighbourExistsInterior | src/maze/Maze.ts:36-46 | for an in-grid cell, a neighbour exists on a side exactly when the wall on that side is interior |
| MazeGrid.RowSlotsMembership | src/maze/Maze.ts:176-194 | the slot set of a row holds exactly its first k columns |
| MazeGrid.SlotsMembership | src/maze/Maze.ts:176-194 | the slot set of the first n rows holds exactly the slots that index a stored wall |
| MazeGrid.OpenSlotsMembership | src/maze/Maze.ts:116-129 | a slot is in the open set exactly when it stores a wall whose `isWall` is false |
| MazeGrid.Opened | src/maze/MazeGenerator.ts:97 | clearing one wall's flag keeps every row's length |
| MazeGrid.OpenedSlots | src/maze/MazeGenerator.ts:97 | clearing a wall keeps the layout, adds exactly that slot to the open set, and closes no open wall |
| MazeGrid.RaiseAllProperties | src/maze/Maze.ts:228-234 | after reset every wall stands, nothing is open, position and orientation of each wall are unchanged, the layout is kept, and a second reset changes nothing |
| MazeGrid.DumpLines | src/maze/Maze.ts:256-276 | the dump has one line more than the maze has rows; the width and position of each line in the rendered text are stated by LineShape and LineAt |
| MazeGrid.TopCellsShape | src/maze/Maze.ts:260-263 | the top line's cells take 3 characters each and hold no newline |
| MazeGrid.TopCellsStanding | src/maze/Maze.ts:260-263 | with every top wall standing, the top line's cells read ".__" repeated |
| MazeGrid.RowCellsShape | src/maze/Maze.ts:267-270 | a later line's cells take 3 characters each and hold no newline |
| MazeGrid.RowCellsStanding | src/maze/Maze.ts:267-270 | with every wall standing, a later line's cells are each a standing post followed by "__" |
| MazeGrid.TopLineShape | src/maze/Maze.ts:259-265 | the top line has 3w + 2 characters, ends in its only newline |
| MazeGrid.MidLineShape | src/maze/Maze.ts:267-272 | a later line has 3w + 2 characters, ends in its only newline |
| MazeGrid.RowLengths | src/maze/Maze.ts:176-187 | the two wall rows that line y of the dump reads are w + 1 and w long |
| MazeGrid.TopRowLength | src/maze/Maze.ts:176-187 | the first wall row of a non-empty maze is w long |
| MazeGrid.LineShape | src/maze/Maze.ts:256-276 | every line of the dump is 3w + 2 characters long and ends in its only newline |
| MazeGrid.BlockAt | src/maze/Maze.ts:256-276 | in a concatenation of equal-length lines, line k sits at offset k times the length |
| MazeGrid.LinesWidth | src/maze/Maze.ts:256-276 | all lines of the dump have the same width 3w + 2 |
| MazeGrid.LineAt | src/maze/Maze.ts:256-276 | the dump has exactly (h + 1)(3w + 2) characters, and line k is the slice from offset k(3w + 2) to (k + 1)(3w + 2) |
| MazeGrid.StandingLines | src/maze/Maze.ts:256-276 | in a fully walled maze the top line is ".__" repeated then ".", and every later line is standing posts each followed by "__", then a closing post |
| MazeGrid.Maze.constructor | src/maze/Maze.ts:172-204 | builds the w x h cell grid and the jagged wall grid with every wall labelled by its position and orientation and standing |
| MazeGrid.Maze.GetCell | src/maze/Maze.ts:209-216 | fails with "cell not exists" exactly outside [0, w) x [0, h); otherwise the cell at the floored coordinates, which contains the point |
| MazeGrid.Maze.GetWall | src/maze/Maze.ts:218-226 | fails with "wall not exists" exactly outside the jagged grid; otherwise the stored wall, labelled with its slot |
| MazeGrid.Maze.CellWall | src/maze/Maze.ts:102-105 | the wall on each side of a cell, with its orientation and both end corners on that side of the cell |
| MazeGrid.Maze.OpenWall | src/maze/MazeGenerator.ts:97 | clears exactly the wall on side d of the cell, adding its slot to the open set and closing none |
| MazeGrid.Maze.NeighbourCell | src/maze/Maze.ts:107-113 | null (None) exactly when no in-grid cell lies beyond the side; otherwise that cell |
| MazeGrid.Maze.Reset | src/maze/Maze.ts:228-234 | every wall stands again; positions, orientations and layout are unchanged |
| MazeGrid.Maze.TopLineText | src/maze/Maze.ts:259-265 | fails exactly when h = 0 < w (wall (0, 0) is missing); otherwise the top line of the rendering |
| MazeGrid.Maze.CellLineText | src/maze/Maze.ts:267-272 | the dump line of cell row y, built from that row's vertical walls and the horizontal walls below it |
| MazeGrid.Maze.ToString | src/maze/Maze.ts:256-276 | fails exactly when h = 0 < w; otherwise the rendering: the h + 1 lines joined |
| MazeGeneration.RiverLimit | src/maze/MazeGenerator.ts:79-82 | the path budget is the larger of 3 and w * h * riverFactor |
| MazeGeneration.RowMembership | src/maze/MazeGenerator.ts:42-44 | a generator row holds exactly the cells of columns 0..w-1 in that row |
| MazeGeneration.AllCellsMembership | src/maze/MazeGenerator.ts:40-46 | the generator grid holds exactly the in-grid cells |
| MazeGeneration.VisitedMembership | src/maze/MazeGenerator.ts:58-60 | the visited and unvisited sets hold exactly the in-grid cells whose flag is set and unset |
| MazeGeneration.Partition | src/maze/MazeGenerator.ts:40-46 | visited and unvisited cells partition the grid |
| MazeGeneration.Mark | src/maze/MazeGenerator.ts:90 | setting `isVisited` sets that cell's flag, keeps the grid's shape and changes no other flag |
| MazeGeneration.Marking | src/maze/MazeGenerator.ts:90 | marking a cell moves exactly that cell from unvisited to visited |
| MazeGeneration.UnmarkedEmpty | src/maze/MazeGenerator.ts:50-56 | with every flag cleared no cell is visited |
| MazeGeneration.SaturatedGrows | src/maze/MazeGenerator.ts:14-24 | a cell with no available direction keeps none as more cells are visited |
| MazeGeneration.UnvisitedShrinks | src/maze/MazeGenerator.ts:90 | visiting more cells leaves fewer unvisited |
| MazeGeneration.RowCard | src/maze/MazeGenerator.ts:42-44 | a generator row has w cells |
| MazeGeneration.AllCellsCard | src/maze/MazeGenerator.ts:40-46 | the generator grid has w * h cells |
| MazeGeneration.ClosedIsAll | src/maze/MazeGenerator.ts:83-87 | once the origin is visited and no visited cell has an available direction, every in-grid cell is visited |
| MazeGeneration.PathOpened | src/maze/MazeGenerator.ts:97 | opening a wall keeps every open path open |
| MazeGeneration.SpannedOpened | src/maze/MazeGenerator.ts:97 | opening a wall keeps every recorded path to a visited cell open |
| MazeGeneration.PathExtended | src/maze/MazeGenerator.ts:97-98 | an open path to a cell extends through an open wall to its neighbour |
| MazeGeneration.CarveTree | src/maze/MazeGenerator.ts:97-98 | carving from a visited cell into an unvisited neighbour opens a new slot and keeps the carving a tree over the visited cells |
| MazeGeneration.CarvePaths | src/maze/MazeGenerator.ts:97-98 | after that carve the neighbour gets an open path, its parent's path plus one step |
| MazeGeneration.QueueChain | src/maze/MazeGenerator.ts:92-102 | two rounds of appending fresh visited cells to the queue append fresh visited cells |
| MazeGeneration.ClosureChain | src/maze/MazeGenerator.ts:92-102 | cells visited over two rounds each have no available direction or wait on the queue |
| MazeGeneration.MarkedExplore | src/maze/MazeGenerator.ts:89-102 | after the loop of next, the cell itself has no available direction and the queue growth is paid for by fresh visits |
| MazeGeneration.DrainStep | src/maze/MazeGenerator.ts:83-86 | a round of generate's loop keeps the queue and closure invariants and strictly decreases 2·unvisited + queue length |
| MazeGeneration.Drained | src/maze/MazeGenerator.ts:83-87 | when the queue is empty every cell is visited and reachable and w * h - 1 walls are carved |
| MazeGeneration.CarvedNext | src/maze/MazeGenerator.ts:97-98 | the recursive call's effects on visited cells, queue and closure, seen from the caller |
| MazeGeneration.MazeGenerator.constructor | src/maze/MazeGenerator.ts:37-48 | one unvisited flag per maze cell and an empty queue |
| MazeGeneration.MazeGenerator.Reset | src/maze/MazeGenerator.ts:50-56 | every visited flag cleared |
| MazeGeneration.MazeGenerator.AvailableDirections | src/maze/MazeGenerator.ts:14-24 | exactly the directions whose neighbour exists and is unvisited, in ascending order |
| MazeGeneration.MazeGenerator.NeighbourOf | src/maze/MazeGenerator.ts:26-29 | the in-grid neighbour beyond d, which shares the wall on that side |
| MazeGeneration.MazeGenerator.Next | src/maze/MazeGenerator.ts:89-106 | marks the cell visited; out of budget it only marks that one flag and parks the cell, leaving the walls alone; otherwise it only appends freshly visited cells; the carving stays a tree over the visited cells with open paths from the origin; every cell it visited is saturated or queued |
| MazeGeneration.MazeGenerator.Explore | src/maze/MazeGenerator.ts:92-102 | the carving loop ends with the cell saturated, keeps the tree and path invariants, and only appends fresh visited cells to the queue |
| MazeGeneration.MazeGenerator.CarveInto | src/maze/MazeGenerator.ts:95-98 | opens the wall on side d, which separates the visited cell from its unvisited neighbour: that slot is open afterwards and is one of the newly carved slots; then recurses into the neighbour, visiting it and keeping the tree and path invariants |
| MazeGeneration.MazeGenerator.Generate | src/maze/MazeGenerator.ts:76-87 | with riverFactor defaulting to 0.1, ends with an empty queue, every cell visited and reachable from (0, 0), exactly w * h - 1 interior walls opened and nothing else |
| MazeGeneration.MazeGenerator.Seeded | src/maze/MazeGenerator.ts:77-78 | the reset grid with the origin queued meets the loop invariant of generate |
| MazeGeneration.MazeGenerator.Finished | src/maze/MazeGenerator.ts:83-87 | the loop invariant with an empty queue gives a spanning tree of the whole grid |
| MazeGeneration.MazeGenerator.Drain | src/maze/MazeGenerator.ts:84-85 | one round of generate's loop keeps the invariant, only opens walls, only sets visited flags, and decreases the loop measure; exactly the picked queue entry is removed, and the other entries keep their order at the head of the queue |
| Game.Clamped | src/MazeGame.ts:65-77 | the four clamps leave a delta inside [-m, m]: unchanged inside, m above, -m below |
| Game.MazeGame.constructor | src/MazeGame.ts:39-41 | the ball starts at the pixel centre of cell (0, 0) |
| Game.MazeGame.PixelCell | src/sprites/Map.ts:38-40 | fails with "cell not exists" exactly off the 20w x 20h pixel board; otherwise the in-grid cell whose pixel square contains the point |
| Game.MazeGame.RestrictX | src/MazeGame.ts:93-107 | right of the centre a standing right wall caps x a radius before it; otherwise a standing left wall floors x a radius after it; an open wall leaves x alone |
| Game.MazeGame.RestrictY | src/MazeGame.ts:108-122 | the same for y with the bottom and top walls |
| Game.MazeGame.WallRestrict | src/MazeGame.ts:87-124 | fails exactly off the board; in the goal cell gives (20, 20); elsewhere restricts x and y independently against the cell's walls |
| Game.MazeGame.RestrictXInward | src/MazeGame.ts:93-107 | the x clamp only pushes towards the centre, never past it, and keeps x inside the cell |
| Game.MazeGame.RestrictYInward | src/MazeGame.ts:108-122 | the y clamp only pushes towards the centre, never past it, and keeps y inside the cell |
| Game.MazeGame.RestrictXFixed | src/MazeGame.ts:93-107 | a restricted x is left alone by a second x clamp in the same cell |
| Game.MazeGame.RestrictYFixed | src/MazeGame.ts:108-122 | a restricted y is left alone by a second y clamp in the same cell |
| Game.MazeGame.SameCell | src/sprites/Map.ts:38-40 | every pixel in a cell's square is looked up as that cell |
| Game.MazeGame.WallRestrictSettles | src/MazeGame.ts:87-124 | outside the goal the restricted ball stays in its cell, and restricting again changes nothing |
| Game.MazeGame.AxesIndependent | src/MazeGame.ts:93-122 | within one cell the restricted x does not depend on y, nor the restricted y on x |
| Game.MazeGame.OnDeviceMotion | src/MazeGame.ts:65-84 | moves the ball by the clamped delta and then to the restricted position, which the mask follows; off the board the ball stays moved and the mask stays put |

## Left out

- Drawing is not modelled: `Maze.draw`, `Map.update`, the `Ball` and mask sprites, and the PIXI application. Only the positions of the ball and the mask are kept.
- DOM and console access are not modelled: `alert("You win!")`, `console.log` of the dump, and the device-motion event.
- The switch on the screen orientation in `onDeviceMotion` is not modelled. `OnDeviceMotion` takes the oriented delta (ax, ay) as parameters.
- `MazeGame.constructor`/`reset` are not modelled as a whole: they build the PIXI objects, reset the maze and regenerate it. `Game.MazeGame.constructor` takes an already generated maze and only places the ball.
- `Math.random` is not modelled. Its two uses become a nondeterministic choice of a valid index: into the queue, and into the available directions.
- `Maze.fromGenerator` is an empty stub and is not modelled.
- The lazy caches of `Cell` (`neighboursExists`, `neighbours`, `walls`) are not modelled as caches. They are computed on demand (`NeighbourExists`, `NeighbourCell`, `CellWall`), which returns the same values.
- The "bad direction" / "unknown wall direction" throws are left out: a direction is a four-valued datatype.
- Wall objects become values stored in the wall grid. Clearing a wall writes the grid slot (`Maze.OpenWall`), while the source writes the shared `Wall` object. Each wall object sits in exactly one slot, and cells only hold references to those same objects, so the visible effect is the same.
- `MazeGeneratorCell` objects are not modelled as objects. The generator keeps a grid of visited flags, and its queue holds cells.
- Exceptions become `Result` values.
- `MazeGeneration.MazeGenerator.Generate` requires an empty queue and w, h > 0. For h = 0 the source throws in `getCell(0, 0)`; for w = 0 < h, `getCell(0, 0)` returns `undefined` without throwing, and the crash comes when `next` sets `isVisited` on it. The queue is always empty between calls.
- `MazeGeneration.MazeGenerator.Next` is split into three methods:
  - `Next` marks the cell and branches on the budget.
  - `Explore` is the `for (;;)` loop.
  - `CarveInto` is one pass of that loop.
  
  The same split holds for `generate`, whose loop body is `Drain`.
- The proof's record of the carving (the opened slots and a path to each visited cell) is passed as ghost parameters, not kept in fields.
- `MazeGeneration.MazeGenerator.Next`: the recursion depth bound by the budget `len` is not stated. Termination is proved by the number of unvisited cells.
- `Game.MazeGame.OnDeviceMotion`: the mask's initial position is unconstrained.
- Numbers are exact reals and integers: there is no floating-point rounding in the pixel arithmetic or in `w * h * riverFactor`.
- The cell width 20 and the ball radius 8 appear as literals. The game constructs `Map` and `Ball` with only these values.
