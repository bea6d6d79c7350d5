/// `createMazeWalls` of src/maze.js: one wall box per
/// standing wall flag, placed around the centre of its cell, the grid being
/// centred on the origin of the scene. Lengths are exact reals.
module Layout {
  import opened Grid

  /** A point of the scene (a `Vector3`): x across the columns, y up, z across the rows. */
  datatype Vec3 = Vec3(x: real, y: real, z: real)

  /** The extents of a wall box, the `dimensions` record of a wall definition. */
  datatype Dimensions = Dimensions(width: real, height: real, depth: real)

  /** A wall mesh as far as its placement goes: its box and the position of the box's centre. */
  datatype WallMesh = WallMesh(geometry: Dimensions, position: Vec3)

  const WallHeight: real := 3.0
  const WallThickness: real := 0.5

  /**
   * The `dimensions` of the wall definitions (lines 85-88): a box of the wall
   * height, a cell long along its side of the cell and the wall thickness across.
   */
  function WallDimensions(d: Dir, cellSize: real): (dm: Dimensions)
    ensures dm.height == WallHeight
    ensures d.DRow() != 0 ==> dm.width == cellSize && dm.depth == WallThickness
    ensures d.DCol() != 0 ==> dm.width == WallThickness && dm.depth == cellSize
  {
    match d
    case Top => Dimensions(cellSize, WallHeight, WallThickness)
    case Right => Dimensions(WallThickness, WallHeight, cellSize)
    case Bottom => Dimensions(cellSize, WallHeight, WallThickness)
    case Left => Dimensions(WallThickness, WallHeight, cellSize)
  }

  /**
   * The `offset` of the wall definitions (lines 85-88), from the centre of the
   * cell: half a cell towards the neighbour in direction `d`, at half the wall
   * height.
   */
  function WallOffset(d: Dir, cellSize: real): (o: Vec3)
    ensures o.y == WallHeight / 2.0
    ensures o.x == if d.DCol() == 0 then 0.0 else d.DCol() as real * cellSize / 2.0
    ensures o.z == if d.DRow() == 0 then 0.0 else d.DRow() as real * cellSize / 2.0
  {
    match d
    case Top => Vec3(0.0, 1.5, -cellSize / 2.0)
    case Right => Vec3(cellSize / 2.0, 1.5, 0.0)
    case Bottom => Vec3(0.0, 1.5, cellSize / 2.0)
    case Left => Vec3(-cellSize / 2.0, 1.5, 0.0)
  }

  /** `maze[0].length`, the column count the layout centres on. */
  function Columns(g: Grid): nat {
    if |g| == 0 then 0 else |g[0]|
  }

  function Abs(x: real): real {
    if x < 0.0 then -x else x
  }

  /**
   * Lines 102-103: the centre of cell `p` on the floor. The grid is centred on
   * the origin: the centre of a cell of the grid lies strictly within half the
   * grid's width and half its depth of the origin.
   */
  function CellCentre(p: Pos, rows: nat, cols: nat, cellSize: real): (c: Vec3)
    ensures c.y == 0.0
  {
    Vec3((p.col as real - cols as real / 2.0 + 0.5) * cellSize,
         0.0,
         (p.row as real - rows as real / 2.0 + 0.5) * cellSize)
  }

  /**
   * The grid is centred on the origin: the centre of a cell of the grid lies
   * strictly within half the grid's width and half its depth of the origin.
   */
  lemma CentreWithinGrid(p: Pos, rows: nat, cols: nat, cellSize: real)
    requires 0 <= p.row < rows && 0 <= p.col < cols && cellSize > 0.0
    ensures Abs(CellCentre(p, rows, cols, cellSize).x) < (cols as real / 2.0) * cellSize
    ensures Abs(CellCentre(p, rows, cols, cellSize).z) < (rows as real / 2.0) * cellSize
  {
    var c := CellCentre(p, rows, cols, cellSize);
    var u := p.col as real - cols as real / 2.0 + 0.5;
    var v := p.row as real - rows as real / 2.0 + 0.5;
    assert c.x == u * cellSize && c.z == v * cellSize;
    ScaleInside(u, cols as real / 2.0, cellSize);
    ScaleInside(v, rows as real / 2.0, cellSize);
  }

  /** The cell mirrored through the middle of the grid has the opposite centre. */
  lemma CentresMirror(p: Pos, rows: nat, cols: nat, cellSize: real)
    ensures var c, m := CellCentre(p, rows, cols, cellSize), CellCentre(Pos(rows - 1 - p.row, cols - 1 - p.col), rows, cols, cellSize);
            m.x == -c.x && m.z == -c.z
  {
    var u := p.col as real - cols as real / 2.0 + 0.5;
    var v := p.row as real - rows as real / 2.0 + 0.5;
    var m := CellCentre(Pos(rows - 1 - p.row, cols - 1 - p.col), rows, cols, cellSize);
    assert m.x == (-u) * cellSize && m.z == (-v) * cellSize;
  }

  /** Scaling by a positive cell size keeps a coordinate within the scaled bound. */
  lemma ScaleInside(u: real, h: real, s: real)
    ensures Abs(u) < h && s > 0.0 ==> Abs(u * s) < h * s
  {
    if Abs(u) < h && s > 0.0 {
      if u < 0.0 {
        assert (-u) * s < h * s;
      } else {
        assert u * s < h * s;
      }
    }
  }

  /**
   * Lines 109 and 120: where the wall of cell `p` facing `d` is placed: the
   * cell centre moved half a cell towards the neighbour in direction `d`,
   * lifted to half the wall height.
   */
  function WallPosition(p: Pos, d: Dir, rows: nat, cols: nat, cellSize: real): (v: Vec3)
    ensures v.y == WallHeight / 2.0
    ensures d.DCol() == 0 ==> v.x == CellCentre(p, rows, cols, cellSize).x
    ensures d.DRow() == 0 ==> v.z == CellCentre(p, rows, cols, cellSize).z
  {
    var c := CellCentre(p, rows, cols, cellSize);
    var o := WallOffset(d, cellSize);
    Vec3(c.x + o.x, o.y, c.z + o.z)
  }

  /** The wall of one side of one cell. */
  datatype WallKey = WallKey(cell: Pos, side: Dir)

  /** The mesh made for a wall (lines 111-120): its box stands on the floor. */
  function MeshOf(k: WallKey, rows: nat, cols: nat, cellSize: real): (m: WallMesh)
    ensures m.position.y - m.geometry.height / 2.0 == 0.0
  {
    WallMesh(WallDimensions(k.side, cellSize), WallPosition(k.cell, k.side, rows, cols, cellSize))
  }

  // ---------------------------------------------------------------------------
  // The order of emission.

  /** The order in which line 106 goes through the sides of a cell. */
  const SideOrder: seq<Dir> := [Top, Bottom, Left, Right]

  /** The place of a side in that order. */
  function SideRank(d: Dir): (n: nat)
    ensures n < 4 && SideOrder[n] == d
  {
    match d
    case Top => 0
    case Bottom => 1
    case Left => 2
    case Right => 3
  }

  /** The standing walls of cell `p` among the first `k` sides of `SideOrder`: each a standing wall of `p`. */
  function CellKeys(p: Pos, w: Walls, k: nat): (keys: seq<WallKey>)
    requires k <= 4
    ensures |keys| <= k
    ensures forall x :: x in keys ==> x.cell == p && w.Has(x.side)
  {
    if k == 0 then []
    else CellKeys(p, w, k - 1) + (if w.Has(SideOrder[k - 1]) then [WallKey(p, SideOrder[k - 1])] else [])
  }

  /** The standing walls of cells `0 .. c-1` of row `r`: each a standing wall of one of those cells. */
  function RowKeys(g: Grid, r: nat, c: nat): (keys: seq<WallKey>)
    requires r < |g| && c <= |g[r]|
    ensures forall x :: x in keys ==> x.cell.row == r && 0 <= x.cell.col < c && g[r][x.cell.col].walls.Has(x.side)
  {
    if c == 0 then []
    else RowKeys(g, r, c - 1) + CellKeys(Pos(r, c - 1), g[r][c - 1].walls, 4)
  }

  /** The standing walls of rows `0 .. r-1`: each a standing wall of a cell of those rows. */
  function GridKeys(g: Grid, r: nat): (keys: seq<WallKey>)
    requires r <= |g|
    ensures forall x :: x in keys ==> x.cell.row < r && InGrid(g, x.cell) && At(g, x.cell).walls.Has(x.side)
  {
    if r == 0 then []
    else GridKeys(g, r - 1) + RowKeys(g, r - 1, |g[r - 1]|)
  }

  /**
   * Every standing wall of the grid, in the order the loops of lines 98-129
   * emit them: nothing but standing walls of cells of the grid.
   */
  function WallKeys(g: Grid): (keys: seq<WallKey>)
    ensures forall x :: x in keys ==> InGrid(g, x.cell) && At(g, x.cell).walls.Has(x.side)
  {
    GridKeys(g, |g|)
  }

  /** `k` comes strictly before `k'`: by row, then column, then side in `SideOrder`. */
  predicate Before(k: WallKey, k': WallKey) {
    || k.cell.row < k'.cell.row
    || (k.cell.row == k'.cell.row && k.cell.col < k'.cell.col)
    || (k.cell == k'.cell && SideRank(k.side) < SideRank(k'.side))
  }

  /** The three lists hold, position by position, the mesh, position and dimensions of the walls `keys`. */
  predicate Describes(walls: seq<WallMesh>, positions: seq<Vec3>, geometries: seq<Dimensions>,
                      keys: seq<WallKey>, rows: nat, cols: nat, cellSize: real)
  {
    && |walls| == |keys| && |positions| == |keys| && |geometries| == |keys|
    && forall i :: 0 <= i < |keys| ==>
         && walls[i] == MeshOf(keys[i], rows, cols, cellSize)
         && positions[i] == walls[i].position
         && geometries[i] == walls[i].geometry
  }

  lemma DescribesAppend(walls: seq<WallMesh>, positions: seq<Vec3>, geometries: seq<Dimensions>,
                        keys: seq<WallKey>, k: WallKey, m: WallMesh, rows: nat, cols: nat, cellSize: real)
    requires Describes(walls, positions, geometries, keys, rows, cols, cellSize)
    requires m == MeshOf(k, rows, cols, cellSize)
    ensures Describes(walls + [m], positions + [m.position], geometries + [m.geometry], keys + [k], rows, cols, cellSize)
  {
  }

  /**
   * Lines 78-132: walks the cells row by row and, in each, the sides in the
   * order top, bottom, left, right, making a wall for each standing flag. The
   * three lists returned run in step, and `scene'` is `scene` with the
   * meshes added in the same order.
   */
  method CreateMazeWalls(maze: Grid, scene: seq<WallMesh>, cellSize: real)
    returns (walls: seq<WallMesh>, wallLocalPositions: seq<Vec3>, wallGeometries: seq<Dimensions>, scene': seq<WallMesh>)
    ensures Describes(walls, wallLocalPositions, wallGeometries, WallKeys(maze), |maze|, Columns(maze), cellSize)
    ensures scene' == scene + walls
  {
    walls, wallLocalPositions, wallGeometries := [], [], [];
    scene' := scene;
    ghost var rows, cols := |maze|, Columns(maze);
    ghost var emitted: seq<WallKey> := [];
    for row := 0 to |maze|
      invariant emitted == GridKeys(maze, row)
      invariant Describes(walls, wallLocalPositions, wallGeometries, emitted, rows, cols, cellSize)
      invariant scene' == scene + walls
    {
      for col := 0 to |maze[row]|
        invariant emitted == GridKeys(maze, row) + RowKeys(maze, row, col)
        invariant Describes(walls, wallLocalPositions, wallGeometries, emitted, rows, cols, cellSize)
        invariant scene' == scene + walls
      {
        var cell := maze[row][col];
        var centre := CellCentre(Pos(row, col), |maze|, |maze[0]|, cellSize);
        walls, wallLocalPositions, wallGeometries, scene' :=
          EmitCell(Pos(row, col), cell.walls, centre.x, centre.z, cellSize, rows, cols,
                   walls, wallLocalPositions, wallGeometries, scene', scene, emitted);
        emitted := emitted + CellKeys(Pos(row, col), cell.walls, 4);
        RowKeysStep(GridKeys(maze, row), maze, row, col);
      }
    }
    assert emitted == WallKeys(maze);
  }

  /**
   * Lines 100-127 for one cell, whose centre is at `x`, `z`: appends a mesh
   * for each standing flag, in `SideOrder`, to the three lists and the scene.
   */
  method EmitCell(p: Pos, w: Walls, x: real, z: real, cellSize: real, ghost rows: nat, ghost cols: nat,
                  walls: seq<WallMesh>, positions: seq<Vec3>, geometries: seq<Dimensions>, scene: seq<WallMesh>,
                  ghost scene0: seq<WallMesh>, ghost keys: seq<WallKey>)
    returns (walls': seq<WallMesh>, positions': seq<Vec3>, geometries': seq<Dimensions>, scene': seq<WallMesh>)
    requires x == CellCentre(p, rows, cols, cellSize).x && z == CellCentre(p, rows, cols, cellSize).z
    requires Describes(walls, positions, geometries, keys, rows, cols, cellSize)
    requires scene == scene0 + walls
    ensures Describes(walls', positions', geometries', keys + CellKeys(p, w, 4), rows, cols, cellSize)
    ensures scene' == scene0 + walls'
  {
    walls', positions', geometries', scene' := walls, positions, geometries, scene;
    ghost var emitted := keys;
    for k := 0 to 4
      invariant emitted == keys + CellKeys(p, w, k)
      invariant Describes(walls', positions', geometries', emitted, rows, cols, cellSize)
      invariant scene' == scene0 + walls'
    {
      var direction := SideOrder[k];
      CellKeysStep(keys, p, w, k);
      if w.Has(direction) {
        var geometry := WallDimensions(direction, cellSize);
        var offset := WallOffset(direction, cellSize);
        var position := Vec3(x + offset.x, offset.y, z + offset.z);
        var wallMesh := WallMesh(geometry, position);
        ghost var key := WallKey(p, direction);
        assert wallMesh == MeshOf(key, rows, cols, cellSize);
        DescribesAppend(walls', positions', geometries', emitted, key, wallMesh, rows, cols, cellSize);
        AppendAssoc(scene0, walls', wallMesh);
        scene' := scene' + [wallMesh];
        walls' := walls' + [wallMesh];
        geometries' := geometries' + [geometry];
        positions' := positions' + [position];
        emitted := emitted + [key];
      }
    }
  }

  lemma AppendAssoc<T>(a: seq<T>, b: seq<T>, x: T)
    ensures a + b + [x] == a + (b + [x])
  {
  }

  lemma CellKeysStep(before: seq<WallKey>, p: Pos, w: Walls, k: nat)
    requires k < 4
    ensures before + CellKeys(p, w, k + 1) ==
            if w.Has(SideOrder[k]) then before + CellKeys(p, w, k) + [WallKey(p, SideOrder[k])]
            else before + CellKeys(p, w, k)
  {
  }

  lemma RowKeysStep(above: seq<WallKey>, g: Grid, r: nat, c: nat)
    requires r < |g| && c < |g[r]|
    ensures above + RowKeys(g, r, c + 1) == above + RowKeys(g, r, c) + CellKeys(Pos(r, c), g[r][c].walls, 4)
  {
  }

  // ---------------------------------------------------------------------------
  // Which walls are emitted, and in which order.

  lemma {:induction false} CellKeysMember(p: Pos, w: Walls, k: nat, key: WallKey)
    requires k <= 4
    ensures key in CellKeys(p, w, k) <==> key.cell == p && SideRank(key.side) < k && w.Has(key.side)
  {
    if k > 0 {
      CellKeysMember(p, w, k - 1, key);
      assert SideOrder[k - 1] == key.side <==> SideRank(key.side) == k - 1;
    }
  }

  lemma {:induction false} RowKeysMember(g: Grid, r: nat, c: nat, key: WallKey)
    requires r < |g| && c <= |g[r]|
    ensures key in RowKeys(g, r, c) <==>
              key.cell.row == r && 0 <= key.cell.col < c && g[r][key.cell.col].walls.Has(key.side)
  {
    if c > 0 {
      var before, last := RowKeys(g, r, c - 1), CellKeys(Pos(r, c - 1), g[r][c - 1].walls, 4);
      RowKeysMember(g, r, c - 1, key);
      CellKeysMember(Pos(r, c - 1), g[r][c - 1].walls, 4, key);
      if key.cell.row == r && 0 <= key.cell.col < c && g[r][key.cell.col].walls.Has(key.side) {
        if key.cell.col == c - 1 {
          assert key in last;
        } else {
          assert key in before;
        }
        assert key in before + last;
      }
    }
  }

  lemma {:induction false} GridKeysMember(g: Grid, r: nat, key: WallKey)
    requires r <= |g|
    ensures key in GridKeys(g, r) <==>
              && 0 <= key.cell.row < r && 0 <= key.cell.col < |g[key.cell.row]|
              && g[key.cell.row][key.cell.col].walls.Has(key.side)
  {
    if r > 0 {
      var above, last := GridKeys(g, r - 1), RowKeys(g, r - 1, |g[r - 1]|);
      assert GridKeys(g, r) == above + last;
      assert key in GridKeys(g, r) <==> key in above || key in last;
      GridKeysMember(g, r - 1, key);
      RowKeysMember(g, r - 1, |g[r - 1]|, key);
    }
  }

  /** A wall is emitted exactly when its cell is in the grid and the cell's flag for that side stands. */
  lemma WallKeysMember(g: Grid, key: WallKey)
    ensures key in WallKeys(g) <==> InGrid(g, key.cell) && At(g, key.cell).walls.Has(key.side)
  {
    GridKeysMember(g, |g|, key);
  }

  /** Every element of `s` comes strictly before every later one. */
  ghost predicate Increasing(s: seq<WallKey>) {
    forall i, j :: 0 <= i < j < |s| ==> Before(s[i], s[j])
  }

  lemma IncreasingAppend(a: seq<WallKey>, b: seq<WallKey>)
    requires Increasing(a) && Increasing(b)
    requires forall x, y :: x in a && y in b ==> Before(x, y)
    ensures Increasing(a + b)
  {
    forall i, j | 0 <= i < j < |a + b| ensures Before((a + b)[i], (a + b)[j]) {
      if j < |a| {
        assert Before(a[i], a[j]);
      } else if i >= |a| {
        assert Before(b[i - |a|], b[j - |a|]);
      } else {
        assert a[i] in a && b[j - |a|] in b;
      }
    }
  }

  lemma {:induction false} CellKeysIncreasing(p: Pos, w: Walls, k: nat)
    requires k <= 4
    ensures Increasing(CellKeys(p, w, k))
  {
    if k > 0 {
      CellKeysIncreasing(p, w, k - 1);
      var last := if w.Has(SideOrder[k - 1]) then [WallKey(p, SideOrder[k - 1])] else [];
      forall x, y | x in CellKeys(p, w, k - 1) && y in last ensures Before(x, y) {
        CellKeysMember(p, w, k - 1, x);
        assert y == WallKey(p, SideOrder[k - 1]);
      }
      IncreasingAppend(CellKeys(p, w, k - 1), last);
    }
  }

  lemma {:induction false} RowKeysIncreasing(g: Grid, r: nat, c: nat)
    requires r < |g| && c <= |g[r]|
    ensures Increasing(RowKeys(g, r, c))
  {
    if c > 0 {
      RowKeysIncreasing(g, r, c - 1);
      CellKeysIncreasing(Pos(r, c - 1), g[r][c - 1].walls, 4);
      forall x, y | x in RowKeys(g, r, c - 1) && y in CellKeys(Pos(r, c - 1), g[r][c - 1].walls, 4)
        ensures Before(x, y)
      {
        RowKeysMember(g, r, c - 1, x);
        CellKeysMember(Pos(r, c - 1), g[r][c - 1].walls, 4, y);
      }
      IncreasingAppend(RowKeys(g, r, c - 1), CellKeys(Pos(r, c - 1), g[r][c - 1].walls, 4));
    }
  }

  lemma {:induction false} GridKeysIncreasing(g: Grid, r: nat)
    requires r <= |g|
    ensures Increasing(GridKeys(g, r))
  {
    if r > 0 {
      GridKeysIncreasing(g, r - 1);
      RowKeysIncreasing(g, r - 1, |g[r - 1]|);
      forall x, y | x in GridKeys(g, r - 1) && y in RowKeys(g, r - 1, |g[r - 1]|)
        ensures Before(x, y)
      {
        GridKeysMember(g, r - 1, x);
        RowKeysMember(g, r - 1, |g[r - 1]|, y);
      }
      IncreasingAppend(GridKeys(g, r - 1), RowKeys(g, r - 1, |g[r - 1]|));
    }
  }

  /**
   * The walls come row by row, left to right within a row, and top, bottom,
   * left, right within a cell; in particular no wall is emitted twice by the
   * same cell.
   */
  lemma WallKeysOrdered(g: Grid)
    ensures forall i, j :: 0 <= i < j < |WallKeys(g)| ==> Before(WallKeys(g)[i], WallKeys(g)[j])
    ensures forall i, j :: 0 <= i < j < |WallKeys(g)| ==> WallKeys(g)[i] != WallKeys(g)[j]
  {
    GridKeysIncreasing(g, |g|);
  }

  // ---------------------------------------------------------------------------
  // Where the walls stand.

  function Midpoint(a: Vec3, b: Vec3): Vec3 {
    Vec3((a.x + b.x) / 2.0, (a.y + b.y) / 2.0, (a.z + b.z) / 2.0)
  }

  /**
   * The wall of `p` facing `d` is centred on the edge between `p` and its
   * neighbour in direction `d`: half way between the two cell centres, at
   * half the wall's height.
   */
  lemma WallOnEdge(p: Pos, d: Dir, rows: nat, cols: nat, cellSize: real)
    ensures var m := Midpoint(CellCentre(p, rows, cols, cellSize), CellCentre(Step(p, d), rows, cols, cellSize));
            WallPosition(p, d, rows, cols, cellSize) == Vec3(m.x, WallDimensions(d, cellSize).height / 2.0, m.z)
  {
    var q := Step(p, d);
    var a, b := CellCentre(p, rows, cols, cellSize), CellCentre(q, rows, cols, cellSize);
    var u := p.col as real - cols as real / 2.0 + 0.5;
    var v := p.row as real - rows as real / 2.0 + 0.5;
    assert a.x == u * cellSize && a.z == v * cellSize;
    match d
    case Top =>
      assert b.x == a.x && b.z == (v - 1.0) * cellSize;
      ShiftByOne(v - 1.0, cellSize);
    case Bottom =>
      assert b.x == a.x && b.z == (v + 1.0) * cellSize;
      ShiftByOne(v, cellSize);
    case Left =>
      assert b.z == a.z && b.x == (u - 1.0) * cellSize;
      ShiftByOne(u - 1.0, cellSize);
    case Right =>
      assert b.z == a.z && b.x == (u + 1.0) * cellSize;
      ShiftByOne(u, cellSize);
  }

  /** Neighbouring centres are one cell size apart. */
  lemma ShiftByOne(u: real, cellSize: real)
    ensures (u + 1.0) * cellSize == u * cellSize + cellSize
  {
  }

  /**
   * The two cells on either side of an edge place their walls for it at the
   * same position with the same box: a standing inner wall is built twice,
   * one box exactly inside the other.
   */
  lemma {:induction false} SharedWallCoincides(p: Pos, d: Dir, rows: nat, cols: nat, cellSize: real)
    ensures WallPosition(Step(p, d), d.Opposite(), rows, cols, cellSize) == WallPosition(p, d, rows, cols, cellSize)
    ensures WallDimensions(d.Opposite(), cellSize) == WallDimensions(d, cellSize)
  {
    var q := Step(p, d);
    assert Step(q, d.Opposite()) == p;
    WallOnEdge(p, d, rows, cols, cellSize);
    WallOnEdge(q, d.Opposite(), rows, cols, cellSize);
  }

  /** The point `v` lies in the box of `m`. */
  predicate InBox(m: WallMesh, v: Vec3) {
    && Abs(v.x - m.position.x) <= m.geometry.width / 2.0
    && Abs(v.y - m.position.y) <= m.geometry.height / 2.0
    && Abs(v.z - m.position.z) <= m.geometry.depth / 2.0
  }

  /** A corner of the square of cell `p`, `sx` and `sz` being -1 or 1, at height `y`. */
  function Corner(p: Pos, sx: real, sz: real, y: real, rows: nat, cols: nat, cellSize: real): Vec3 {
    var c := CellCentre(p, rows, cols, cellSize);
    Vec3(c.x + sx * cellSize / 2.0, y, c.z + sz * cellSize / 2.0)
  }

  /** The two ends of the side of cell `p` facing `d`, as signs (sx, sz) of `Corner`. */
  function SideEnds(d: Dir): ((real, real), (real, real)) {
    match d
    case Top => ((-1.0, -1.0), (1.0, -1.0))
    case Right => ((1.0, -1.0), (1.0, 1.0))
    case Bottom => ((-1.0, 1.0), (1.0, 1.0))
    case Left => ((-1.0, -1.0), (-1.0, 1.0))
  }

  /**
   * The box of the wall of `p` facing `d` covers that whole side of the
   * cell, from the floor to the top of the wall: both ends of the side, at
   * height 0 and at the wall's height, are inside the box, which is
   * `WallThickness` thick across the side.
   */
  lemma {:induction false} WallCoversSide(p: Pos, d: Dir, rows: nat, cols: nat, cellSize: real)
    requires cellSize > 0.0
    ensures var m := MeshOf(WallKey(p, d), rows, cols, cellSize);
            var (a, b) := SideEnds(d);
            && InBox(m, Corner(p, a.0, a.1, 0.0, rows, cols, cellSize))
            && InBox(m, Corner(p, b.0, b.1, 0.0, rows, cols, cellSize))
            && InBox(m, Corner(p, a.0, a.1, WallHeight, rows, cols, cellSize))
            && InBox(m, Corner(p, b.0, b.1, WallHeight, rows, cols, cellSize))
    ensures var g := WallDimensions(d, cellSize);
            if d == Top || d == Bottom then g.depth == WallThickness && g.width == cellSize
            else g.width == WallThickness && g.depth == cellSize
  {
  }

  /**
   * In a maze whose walls agree on both sides, a standing wall between two
   * cells is emitted twice, once by each cell, with the same mesh at the same
   * position: indices `i` and `j` of the lists.
   */
  lemma {:induction false} SharedWallTwice(g: Grid, walls: seq<WallMesh>, positions: seq<Vec3>, geometries: seq<Dimensions>,
                                           cellSize: real, p: Pos, d: Dir)
    returns (i: nat, j: nat)
    requires Describes(walls, positions, geometries, WallKeys(g), |g|, Columns(g), cellSize)
    requires Symmetric(g) && InGrid(g, p) && InGrid(g, Step(p, d)) && At(g, p).walls.Has(d)
    ensures i < |walls| && j < |walls| && i != j
    ensures WallKeys(g)[i] == WallKey(p, d) && WallKeys(g)[j] == WallKey(Step(p, d), d.Opposite())
    ensures walls[i] == walls[j] && positions[i] == positions[j] && geometries[i] == geometries[j]
  {
    var keys := WallKeys(g);
    var q := Step(p, d);
    assert Agrees(g, p, d);
    WallKeysMember(g, WallKey(p, d));
    WallKeysMember(g, WallKey(q, d.Opposite()));
    i :| 0 <= i < |keys| && keys[i] == WallKey(p, d);
    j :| 0 <= j < |keys| && keys[j] == WallKey(q, d.Opposite());
    SharedWallCoincides(p, d, |g|, Columns(g), cellSize);
  }
}
