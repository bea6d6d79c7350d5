# Maze generation and wall layout — a Dafny model

The game builds a 3-D maze. `src/maze.js` does two things:

- `generateMaze` carves a `rows` by `cols` grid of cells with a randomised depth-first search, starting at cell (0,0). It can then clear the outer boundary.
- `createMazeWalls` turns each standing wall flag into a wall box placed in the scene.

`generateWallData` chains the two.

This project models both parts and proves what they guarantee:

- **Generator.** The cleared walls form a spanning tree of the cells: every cell is reachable from (0,0), there is no cycle, and there are exactly `rows * cols - 1` passages. The flags on the two sides of every inner wall agree. The search never touches the rim. The boundary pass clears exactly the rim.
- **Layout.** One wall is emitted per standing flag, in row-major order. Within a cell the order is top, bottom, left, right. The three output lists run in step. Every wall sits centred on the edge it stands on and covers that edge. A standing inner wall is emitted twice, at the same place in exact arithmetic.
- **Wall count.** A generated maze emits `2 * rows * cols + 2` walls with its boundary, and `2 * (rows + cols)` fewer without it.

Files:

- `grid.dfy` (module `Grid`):
  - directions, the `DIR_ARRAY` table, wall flags and cells;
  - the grid as a sequence of rows;
  - the passage graph that cleared walls form between neighbours: paths, reachability, cycles, the passage count.
- `carving.dfy` (module `Carving`): what the depth-first search keeps true while it carves.
  - The search invariant `SearchState` holds the walls, the rim and the discovery order.
  - One carving step and entering a cell are proved to preserve it.
  - Once the search from (0,0) returns, the grid is fully visited and its passages form a spanning tree.
  - The tree proof numbers the cells in discovery order, in a ghost map. Every cell has at most one passage to an earlier cell. On a cycle, the latest cell would have two.
- `generator.dfy` (module `Generator`): the code of `generateMaze`.
  - `NewGrid`: the initialisation loops.
  - `Dfs` and `CarveInto`: the recursive search, as two mutually recursive methods.
  - `RemoveBoundary`: the boundary loops.
  - `GenerateMaze`: the whole function.
- `layout.dfy` (module `Layout`):
  - the wall definitions (offsets and box dimensions);
  - the cell-centre formulas;
  - `CreateMazeWalls` with its two outer loops, and `EmitCell` with the loop over the four sides of one cell;
  - the lemmas about what is emitted and where.
- `wall_data.dfy` (module `WallData`):
  - `GenerateWallData`, the function the file exports;
  - the wall count. Every side of every cell is exactly one of three things: a standing wall, the cleared side of a passage, or a cleared rim wall.

The random order of line 33 is a parameter, `shuffle: Pos -> DirOrder`:

- For each cell it gives some ordering of the four directions.
- Each cell is entered once, so this covers every order the sort can produce.
- Every property above holds for every such `shuffle`.

## Model

| member | source | states |
|---|---|---|
| Grid.Dir.DRow | src/maze.js:3-8 | A step in any direction changes the row by at most one. |
| Grid.Dir.DCol | src/maze.js:3-8 | A step changes the column by at most one, and it moves along exactly one of the two axes. |
| Grid.NeighboursDistinct | src/maze.js:3-8 | The four neighbours of a cell are four different cells, and none of them is the cell itself. |
| Grid.Dir.Opposite | src/maze.js:3-8 | The wall a neighbour clears is the one facing back: its row and column steps are the negatives of the direction's, and it is a different side. |
| Grid.Step | src/maze.js:35-37 | The neighbour in a direction is the current cell moved by that direction's row and column steps. |
| Grid.Walls.Has | src/maze.js:25 | Reads one flag, `walls[dir]`. Every flag of the walls a fresh cell gets is up. |
| Grid.FlagsDetermineWalls | src/maze.js:25 | Two sets of walls are equal exactly when they agree on each of the four flags, so reading and writing flags one by one captures the whole wall record. |
| Grid.Walls.Without | src/maze.js:46-47 | Clearing a wall flag lowers exactly that flag and leaves the other three as they were. |
| Grid.FacesOutOnRim | src/maze.js:39-43 | The neighbour in direction `d` falls outside the bounds test exactly for the top of row 0, the bottom of the last row, the left of column 0 and the right of the last column. |
| Generator.NewGrid | src/maze.js:19-29 | The grid has `rows` rows of `cols` cells. Each cell is unvisited with all four walls standing. |
| Carving.SearchReady | src/maze.js:19-29 | The fresh grid satisfies the search invariant with (0,0) about to be entered. Walls agree on both sides, the rim stands, there are no passages, and no cell is visited. |
| Carving.EnterCell | src/maze.js:32 | Marking the current cell visited keeps the search invariant and gives the cell the next discovery number. Afterwards the passage count is one less than the number of visited cells, and the visited cells only grow. |
| Carving.Carve | src/maze.js:46-47 | The carved cell's flag towards the neighbour and the neighbour's flag back are down. The shape, every other flag and every visited flag are unchanged. |
| Carving.CarveStep | src/maze.js:46-47 | Clearing the wall between a visited cell and an unvisited neighbour keeps the search invariant for the neighbour. It adds exactly one passage, leaves the neighbour with its single passage, makes the neighbour reachable and changes no visited flag. |
| Carving.CarveSymmetric | src/maze.js:46-47 | Clearing both sides of an edge keeps the two flags of every edge equal. |
| Carving.CarveRim | src/maze.js:46-47 | Carving between two in-grid cells never clears a wall on the rim. |
| Carving.CarvePassages | src/maze.js:46-47 | Clearing a standing inner wall adds exactly one passage. |
| Carving.CarveLinked | src/maze.js:46-47 | After carving, two cells are linked exactly when they were linked before or they are the two cells of the cleared edge. |
| Generator.Skip | src/maze.js:39-45 | When the bounds-and-unvisited test fails, that neighbour is outside the grid or already visited, and the loop moves on. |
| Generator.CarveInto | src/maze.js:44-48 | Clearing the walls and descending into an unvisited in-grid neighbour keeps the loop state and leaves that neighbour visited. |
| Generator.Dfs | src/maze.js:31-51 | Entered at an unvisited, reachable cell with at most one passage, `dfs` keeps the search invariant and leaves the cell visited. It carves one passage per cell it enters. On return, every cell it visited, the start included, has all its in-grid neighbours visited. |
| Generator.AllDirections | src/maze.js:33-34 | Trying every entry of a shuffled direction order covers all four directions, so the cell ends with all its neighbours visited. |
| Carving.EveryCellVisited | src/maze.js:53 | If every cell the search visited has all its neighbours visited, then every cell of the grid is visited. |
| Carving.TreeAcyclic | src/maze.js:31-51 | When each cell has at most one passage to a cell discovered before it, the passages contain no cycle. |
| Carving.RankCoversGrid | src/maze.js:53 | When every cell is visited, `rows * cols` cells have been discovered. |
| Carving.SearchComplete | src/maze.js:53 | After `dfs(0, 0)` every cell is visited. There are `rows * cols - 1` passages, and they form a spanning tree: every cell is reachable from (0,0) and there is no cycle. |
| Generator.RemoveBoundary | src/maze.js:55-66 | The two loops clear the left and right flags of the outer columns, then the top and bottom flags of the outer rows. Nothing else changes. |
| Generator.RimCleared | src/maze.js:57-65 | Part way through the two boundary loops, a cell of the grid has lost exactly those outward-facing flags that the loops have reached: left and right flags of the rows done, top and bottom flags of the columns done. |
| Generator.WithoutRim | src/maze.js:55-66 | After the whole pass, a cell of the grid keeps exactly its flags that face another cell of the grid. |
| Generator.RimRemoved | src/maze.js:55-66 | After the boundary pass every flag facing out of the grid is down. Every flag facing another cell is unchanged, as are the visited flags, so the passages are the same. |
| Generator.RimRemovedKeepsTree | src/maze.js:55-66 | Removing the boundary keeps the shape, the visited cells, the agreement of shared walls, the passage count and the spanning tree, and opens the rim. |
| Generator.GenerateMaze | src/maze.js:17-68 | The result is a `rows` by `cols` grid with every cell visited and shared walls agreeing. It has `rows * cols - 1` passages forming a spanning tree. With the boundary the rim stands; without it the rim is open. |
| Layout.WallDimensions | src/maze.js:84-89 | Every wall box is 3 high. A top or bottom wall is `cellSize` wide and 0.5 deep. A left or right wall is 0.5 wide and `cellSize` deep. |
| Layout.WallOffset | src/maze.js:84-89 | A wall's offset from its cell centre is half a cell towards the neighbour in its direction, at height 1.5. |
| Layout.CellCentre | src/maze.js:102-103 | A cell centre lies on the floor. |
| Layout.CentreWithinGrid | src/maze.js:102-103 | The grid is centred on the origin: the centre of a cell of the grid lies strictly within half the grid's width and half its depth of the origin. |
| Layout.CentresMirror | src/maze.js:102-103 | The cell mirrored through the middle of the grid has the opposite centre. |
| Layout.WallPosition | src/maze.js:120 | A wall is placed at half the wall height. A top or bottom wall keeps its cell centre's x, and a left or right wall keeps its z. `WallOnEdge` gives the full placement. |
| Layout.MeshOf | src/maze.js:120-125 | The box of every wall mesh stands on the floor: its centre is half its height up. |
| Layout.CellKeys | src/maze.js:106-107 | The walls listed for a cell over the first `k` sides are at most `k`, and each is a standing wall of that cell. |
| Layout.RowKeys | src/maze.js:99-107 | The walls listed for the first `c` cells of a row are standing walls of those cells. |
| Layout.GridKeys | src/maze.js:98-107 | The walls listed for the first `r` rows are standing walls of cells of those rows. |
| Layout.WallKeys | src/maze.js:98-129 | The emission sequence lists nothing but standing walls of cells of the grid. `WallKeysMember` adds the converse. |
| Layout.EmitCell | src/maze.js:100-127 | For one cell, the lists and the scene gain the meshes of its standing walls in top, bottom, left, right order, placed around its centre. |
| Layout.CreateMazeWalls | src/maze.js:78-132 | The three lists have one entry per standing wall in emission order, and agree index by index. Each mesh has its side's dimensions at its cell centre plus its side's offset. The scene gains the same meshes in the same order. |
| Layout.WallKeysMember | src/maze.js:98-107 | A wall is emitted exactly when its cell is in the grid and that side's flag stands. |
| Layout.WallKeysOrdered | src/maze.js:98-106 | Walls come row by row, by column within a row, and top, bottom, left, right within a cell. No wall is emitted twice by its own cell. |
| Layout.WallOnEdge | src/maze.js:84-89 | A wall's position is half way between the centres of the two cells it separates, at half the wall's height. |
| Layout.SharedWallCoincides | src/maze.js:98-125 | The two cells beside an edge place their walls for it at the same position with the same dimensions, in exact arithmetic. |
| Layout.WallCoversSide | src/maze.js:84-89 | A wall's box holds both ends of its cell side, at floor level and at wall height. It is 0.5 thick across the side and as long as the cell along it. |
| Layout.SharedWallTwice | src/maze.js:98-129 | In a maze whose shared walls agree, a standing wall between two cells appears twice in the lists, at two different indices, with the same mesh, position and dimensions, in exact arithmetic. |
| WallData.SidePartition | src/maze.js:98-107 | For each direction, the sides of the grid's cells facing it split into three disjoint parts: the walls emitted, the sides cleared by a passage, and, when the rim is open, the sides on the rim. |
| WallData.WallCount | src/maze.js:98-107 | In a grid whose shared walls agree and whose rim either stands whole or is open whole, the walls emitted number four per cell, less two per passage, less `2 * (rows + cols)` when the rim is open. |
| WallData.TreeWallCount | src/maze.js:98-107 | A grid with `rows * cols - 1` passages emits `2 * rows * cols + 2` walls while its rim stands, and `2 * (rows + cols)` fewer when it is open. |
| WallData.GenerateWallData | src/maze.js:134-137 | The wall lists describe a `rows` by `cols` spanning-tree maze whose rim stands or is open as `hasBoundary` says. There are `2 * rows * cols + 2` walls, less `2 * (rows + cols)` without the boundary. The scene gains exactly those meshes. |

## Left out

- Three.js objects are reduced to what placement needs. A mesh is its box dimensions and the position of its centre. The scene is the sequence of meshes added to it. Geometry cloning, the material and the wall texture (lines 90-96 and 111-118) are not modelled. That includes the misspelled `wrapTw` property of line 94, which affects only texture wrapping.
- Layout.SharedWallCoincides: the two walls of an edge coincide exactly only over the reals. In IEEE doubles the centre formulas of lines 102-103 and the sums of line 120 can round differently for the two cells. For example, with `cellSize = 50/6` the right wall of a cell in column 1 and the left wall of its neighbour can get x values that differ in the last bit. The value `cellSize = 5` used by `src/main.js` is exact.
- Layout.SharedWallTwice: the two meshes of a standing shared wall have the same position only in exact arithmetic, for the same reason.
- Numbers are exact reals and integers. JavaScript's floating-point rounding of `cellSize / 2`, of the centre formulas and of the sums is not modelled.
- `Math.random` and the sort of line 33 are replaced by the `shuffle` parameter. It gives each cell some order of the four directions. The distribution of orders is not modelled.
- The grid is modelled as a value. The nested arrays that `dfs` updates in place are threaded through `Dfs` and `CarveInto`, which take and return the grid. Aliasing of the row arrays and of the cell records is therefore not modelled. Nothing in the file shares them.
- `hasBoundary` is a required parameter of `GenerateMaze`. Its default in the source is the misspelled `ture`, which would throw if it were ever evaluated. The only caller, `generateWallData`, always passes the flag, so the default is never used. `WallData.GenerateWallData` also requires the flag, so `generateWallData`'s own default of `true` (line 134) is not modelled either. Both calls in `src/main.js` pass it.
- `rows > 0 && cols > 0` is required. With an empty grid, `dfs(0, 0)` would index a missing row and throw.
- The recursion depth of `dfs`, up to `rows * cols` frames, and the call stack limit are not modelled.
- `main.js`, the collision detection, the controls and the rendering loop are not part of this model.
