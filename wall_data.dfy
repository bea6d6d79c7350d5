/// `generateWallData` of src/maze.js, the one function the file exports: a
/// generated maze laid out as wall boxes, and how many walls that makes.
module WallData {
  import opened Grid
  import opened Layout
  import Generator

  // ---------------------------------------------------------------------------
  // Sizes of sets of cells and of walls.

  /** The cells of column `c`. */
  ghost function ColPos(c: int, rows: nat): set<Pos> {
    set r | 0 <= r < rows :: Pos(r, c)
  }

  lemma {:induction false} ColPosCount(c: int, rows: nat)
    ensures |ColPos(c, rows)| == rows
  {
    if rows > 0 {
      ColPosCount(c, rows - 1);
      assert ColPos(c, rows) == ColPos(c, rows - 1) + {Pos(rows - 1, c)};
    } else {
      assert ColPos(c, rows) == {};
    }
  }

  /** The walls facing `d` of the cells in `s`. */
  ghost function Sides(s: set<Pos>, d: Dir): set<WallKey> {
    set p | p in s :: WallKey(p, d)
  }

  lemma SidesMember(s: set<Pos>, d: Dir, k: WallKey)
    ensures k in Sides(s, d) <==> k.side == d && k.cell in s
  {
    if k.side == d && k.cell in s {
      assert k == WallKey(k.cell, d);
    }
  }

  lemma {:induction false} SidesSize(s: set<Pos>, d: Dir)
    ensures |Sides(s, d)| == |s|
    decreases |s|
  {
    if s != {} {
      var x :| x in s;
      var s' := s - {x};
      SidesSize(s', d);
      forall k ensures k in Sides(s, d) <==> k in Sides(s', d) + {WallKey(x, d)} {
        SidesMember(s, d, k);
        SidesMember(s', d, k);
      }
      assert Sides(s, d) == Sides(s', d) + {WallKey(x, d)};
      SidesMember(s', d, WallKey(x, d));
    } else {
      assert Sides(s, d) == {};
    }
  }

  /** The walls facing back at the cells of `s` from their neighbours in direction `d`. */
  ghost function BackSides(s: set<Pos>, d: Dir): set<WallKey> {
    set p | p in s :: WallKey(Step(p, d), d.Opposite())
  }

  lemma BackSidesMember(s: set<Pos>, d: Dir, k: WallKey)
    ensures k in BackSides(s, d) <==> k.side == d.Opposite() && Step(k.cell, k.side) in s
  {
    if k.side == d.Opposite() && Step(k.cell, k.side) in s {
      assert Step(Step(k.cell, k.side), d) == k.cell;
    }
    if k in BackSides(s, d) {
      var p :| p in s && k == WallKey(Step(p, d), d.Opposite());
      assert Step(k.cell, k.side) == p;
    }
  }

  lemma {:induction false} BackSidesSize(s: set<Pos>, d: Dir)
    ensures |BackSides(s, d)| == |s|
    decreases |s|
  {
    if s != {} {
      var x :| x in s;
      var s' := s - {x};
      BackSidesSize(s', d);
      var k := WallKey(Step(x, d), d.Opposite());
      forall k' ensures k' in BackSides(s, d) <==> k' in BackSides(s', d) + {k} {
        BackSidesMember(s, d, k');
        BackSidesMember(s', d, k');
        assert Step(k.cell, k.side) == x;
      }
      assert BackSides(s, d) == BackSides(s', d) + {k};
      BackSidesMember(s', d, k);
      assert Step(k.cell, k.side) == x;
    } else {
      assert BackSides(s, d) == {};
    }
  }

  lemma ThreeParts(u: set<WallKey>, a: set<WallKey>, b: set<WallKey>, c: set<WallKey>)
    requires u == a + b + c && a !! b && a !! c && b !! c
    ensures |u| == |a| + |b| + |c|
  {
    assert (a + b) !! c;
  }

  // ---------------------------------------------------------------------------
  // Counting the walls of one side.

  /** The standing walls of the grid facing `d`. */
  ghost function StandingSides(g: Grid, d: Dir): set<WallKey> {
    set k | k in WallKeys(g) && k.side == d
  }

  /** The cleared walls facing `d` between two cells: one per passage along `d`'s axis. */
  ghost function ClearedInner(g: Grid, d: Dir): set<WallKey> {
    match d
    case Right => Sides(OpenEast(g), Right)
    case Left => BackSides(OpenEast(g), Right)
    case Bottom => Sides(OpenSouth(g), Bottom)
    case Top => BackSides(OpenSouth(g), Bottom)
  }

  /** The cells whose side `d` is on the rim of a `rows` by `cols` grid. */
  ghost function RimCells(d: Dir, rows: nat, cols: nat): set<Pos> {
    match d
    case Top => RowPos(0, cols)
    case Bottom => RowPos(rows - 1, cols)
    case Left => ColPos(0, rows)
    case Right => ColPos(cols - 1, rows)
  }

  /** How many cells have their side `d` on the rim. */
  function RimLength(d: Dir, rows: nat, cols: nat): nat {
    if d == Top || d == Bottom then cols else rows
  }

  lemma RimCellsSize(d: Dir, rows: nat, cols: nat)
    ensures |RimCells(d, rows, cols)| == RimLength(d, rows, cols)
  {
    match d
    case Top => RowPosCount(0, cols);
    case Bottom => RowPosCount(rows - 1, cols);
    case Left => ColPosCount(0, rows);
    case Right => ColPosCount(cols - 1, rows);
  }

  lemma RimCellsMember(g: Grid, rows: nat, cols: nat, d: Dir, p: Pos)
    requires Shape(g, rows, cols) && rows > 0 && cols > 0
    ensures p in RimCells(d, rows, cols) <==> FacesOut(g, p, d)
  {
    if FacesOut(g, p, d) {
      FacesOutOnRim(g, rows, cols, p, d);
      assert p == Pos(p.row, p.col);
    }
    if p in RimCells(d, rows, cols) {
      ShapeInGrid(g, rows, cols, p);
      FacesOutOnRim(g, rows, cols, p, d);
    }
  }

  /** The part of the passage count along the axis of `d`. */
  ghost function AxisPassages(g: Grid, d: Dir): nat {
    if d == Left || d == Right then |OpenEast(g)| else |OpenSouth(g)|
  }

  lemma ClearedInnerSize(g: Grid, d: Dir)
    ensures |ClearedInner(g, d)| == AxisPassages(g, d)
  {
    match d
    case Right => SidesSize(OpenEast(g), Right);
    case Left => BackSidesSize(OpenEast(g), Right);
    case Bottom => SidesSize(OpenSouth(g), Bottom);
    case Top => BackSidesSize(OpenSouth(g), Bottom);
  }

  lemma ClearedInnerMember(g: Grid, d: Dir, k: WallKey)
    requires Symmetric(g)
    ensures k in ClearedInner(g, d) <==> k.side == d && Open(g, k.cell, d)
  {
    match d
    case Right =>
      SidesMember(OpenEast(g), Right, k);
      EastMember(g, k.cell);
    case Left =>
      BackSidesMember(OpenEast(g), Right, k);
      EastMember(g, Step(k.cell, Left));
      OpenBothWays(g, k.cell, Left);
    case Bottom =>
      SidesMember(OpenSouth(g), Bottom, k);
      SouthMember(g, k.cell);
    case Top =>
      BackSidesMember(OpenSouth(g), Bottom, k);
      SouthMember(g, Step(k.cell, Top));
      OpenBothWays(g, k.cell, Top);
  }

  /** With the two sides of every edge agreeing, an edge is open from either side. */
  lemma OpenBothWays(g: Grid, p: Pos, d: Dir)
    requires Symmetric(g)
    ensures Open(g, p, d) <==> Open(g, Step(p, d), d.Opposite())
  {
    var q := Step(p, d);
    assert Step(q, d.Opposite()) == p;
    assert Agrees(g, p, d);
  }

  /** The cleared rim walls facing `d`: none while the rim stands. */
  ghost function RimSides(rows: nat, cols: nat, rimOpen: bool, d: Dir): set<WallKey> {
    if rimOpen then Sides(RimCells(d, rows, cols), d) else {}
  }

  /** Every wall position on side `d` of the grid holds exactly one of: a standing wall, a passage, a cleared rim wall. */
  lemma SidePartition(g: Grid, rows: nat, cols: nat, rimOpen: bool, d: Dir)
    requires Shape(g, rows, cols) && rows > 0 && cols > 0 && Symmetric(g)
    requires if rimOpen then RimOpen(g) else RimStands(g)
    ensures Sides(AllPos(rows, cols), d) == StandingSides(g, d) + ClearedInner(g, d) + RimSides(rows, cols, rimOpen, d)
    ensures StandingSides(g, d) !! ClearedInner(g, d)
    ensures StandingSides(g, d) !! RimSides(rows, cols, rimOpen, d)
    ensures ClearedInner(g, d) !! RimSides(rows, cols, rimOpen, d)
  {
    var all := Sides(AllPos(rows, cols), d);
    var rim := RimSides(rows, cols, rimOpen, d);
    var standing, inner := StandingSides(g, d), ClearedInner(g, d);
    forall k ensures k in all <==> k in standing + inner + rim
      ensures k in standing ==> k !in inner && k !in rim
      ensures k in inner ==> k !in rim
    {
      SidesMember(AllPos(rows, cols), d, k);
      SidesMember(RimCells(d, rows, cols), d, k);
      AllPosMember(g, rows, cols, k.cell);
      WallKeysMember(g, k);
      ClearedInnerMember(g, d, k);
      RimCellsMember(g, rows, cols, d, k.cell);
    }
  }

  /**
   * The walls of one side: each cell's side `d` either stands, or is the
   * cleared side of a passage, or faces out of the grid and was cleared with
   * the rim.
   */
  lemma {:induction false} SideCount(g: Grid, rows: nat, cols: nat, rimOpen: bool, d: Dir)
    requires Shape(g, rows, cols) && rows > 0 && cols > 0 && Symmetric(g)
    requires if rimOpen then RimOpen(g) else RimStands(g)
    ensures |StandingSides(g, d)| + AxisPassages(g, d) + (if rimOpen then RimLength(d, rows, cols) else 0) == rows * cols
  {
    var all := Sides(AllPos(rows, cols), d);
    var rim := RimSides(rows, cols, rimOpen, d);
    var standing, inner := StandingSides(g, d), ClearedInner(g, d);
    SidePartition(g, rows, cols, rimOpen, d);
    ThreeParts(all, standing, inner, rim);
    SidesSize(AllPos(rows, cols), d);
    AllPosCount(rows, cols);
    ClearedInnerSize(g, d);
    if rimOpen {
      SidesSize(RimCells(d, rows, cols), d);
      RimCellsSize(d, rows, cols);
    }
  }

  // ---------------------------------------------------------------------------
  // Counting all walls.

  /** A sequence without repeats has as many distinct elements as entries. */
  lemma {:induction false} DistinctSize(s: seq<WallKey>)
    requires forall i, j :: 0 <= i < j < |s| ==> s[i] != s[j]
    ensures |set k | k in s| == |s|
  {
    if s != [] {
      var init := s[..|s| - 1];
      DistinctSize(init);
      assert (set k | k in s) == (set k | k in init) + {s[|s| - 1]};
      assert s[|s| - 1] !in init;
    } else {
      assert (set k | k in s) == {};
    }
  }

  /**
   * How many walls a grid emits: four per cell, less two per passage (one on
   * each side of it), less the rim when it is open.
   */
  lemma WallCount(g: Grid, rows: nat, cols: nat, rimOpen: bool)
    requires Shape(g, rows, cols) && rows > 0 && cols > 0 && Symmetric(g)
    requires if rimOpen then RimOpen(g) else RimStands(g)
    ensures |WallKeys(g)| + 2 * Passages(g) + (if rimOpen then 2 * rows + 2 * cols else 0) == 4 * (rows * cols)
  {
    StandingSize(g);
    SideCount(g, rows, cols, rimOpen, Top);
    SideCount(g, rows, cols, rimOpen, Bottom);
    SideCount(g, rows, cols, rimOpen, Left);
    SideCount(g, rows, cols, rimOpen, Right);
    assert AxisPassages(g, Top) == AxisPassages(g, Bottom) == |OpenSouth(g)|;
    assert AxisPassages(g, Left) == AxisPassages(g, Right) == |OpenEast(g)|;
    assert RimLength(Top, rows, cols) == RimLength(Bottom, rows, cols) == cols;
    assert RimLength(Left, rows, cols) == RimLength(Right, rows, cols) == rows;
    assert Passages(g) == |OpenEast(g)| + |OpenSouth(g)|;
  }

  /**
   * A maze whose passages form a spanning tree, `rows * cols - 1` of them,
   * emits `2 * rows * cols + 2` walls, or `2 * (rows + cols)` fewer with the
   * rim open.
   */
  lemma TreeWallCount(g: Grid, rows: nat, cols: nat, rimOpen: bool)
    requires Shape(g, rows, cols) && rows > 0 && cols > 0 && Symmetric(g)
    requires if rimOpen then RimOpen(g) else RimStands(g)
    requires Passages(g) == rows * cols - 1
    ensures |WallKeys(g)| == 2 * rows * cols + 2 - (if rimOpen then 2 * rows + 2 * cols else 0)
  {
    WallCount(g, rows, cols, rimOpen);
    TreeArithmetic(|WallKeys(g)|, Passages(g), rows, cols, if rimOpen then 2 * rows + 2 * cols else 0);
  }

  lemma TreeArithmetic(walls: int, passages: int, rows: int, cols: int, rim: int)
    requires walls + 2 * passages + rim == 4 * (rows * cols)
    requires passages == rows * cols - 1
    ensures walls == 2 * rows * cols + 2 - rim
  {
    assert 2 * rows * cols == 2 * (rows * cols);
  }

  /** The emitted walls, counted side by side. */
  lemma StandingSize(g: Grid)
    ensures |WallKeys(g)| == |StandingSides(g, Top)| + |StandingSides(g, Bottom)|
                             + |StandingSides(g, Left)| + |StandingSides(g, Right)|
  {
    var top, bottom := StandingSides(g, Top), StandingSides(g, Bottom);
    var left, right := StandingSides(g, Left), StandingSides(g, Right);
    StandingBySide(g);
    assert |top + bottom| == |top| + |bottom|;
    assert |top + bottom + left| == |top + bottom| + |left|;
    assert |top + bottom + left + right| == |top + bottom + left| + |right|;
    WallKeysOrdered(g);
    DistinctSize(WallKeys(g));
  }

  lemma StandingBySide(g: Grid)
    ensures (set k | k in WallKeys(g)) ==
              StandingSides(g, Top) + StandingSides(g, Bottom) + StandingSides(g, Left) + StandingSides(g, Right)
  {
    forall k | k in WallKeys(g)
      ensures k in StandingSides(g, k.side)
    {
    }
  }

  // ---------------------------------------------------------------------------
  // The export.

  /**
   * Lines 134-137: generates a `rows` by `cols` maze and lays out its walls.
   * `maze` is the generated grid, which the source does not return.
   */
  method GenerateWallData(rows: nat, cols: nat, cellSize: real, scene: seq<WallMesh>, hasBoundary: bool, shuffle: Pos -> DirOrder)
    returns (walls: seq<WallMesh>, wallLocalPositions: seq<Vec3>, wallGeometries: seq<Dimensions>,
             scene': seq<WallMesh>, ghost maze: Grid)
    requires rows > 0 && cols > 0
    ensures Shape(maze, rows, cols) && Symmetric(maze) && SpanningTree(maze)
    ensures hasBoundary ==> RimStands(maze)
    ensures !hasBoundary ==> RimOpen(maze)
    ensures Describes(walls, wallLocalPositions, wallGeometries, WallKeys(maze), rows, cols, cellSize)
    ensures scene' == scene + walls
    ensures |walls| == 2 * rows * cols + 2 - (if hasBoundary then 0 else 2 * rows + 2 * cols)
  {
    var m := Generator.GenerateMaze(rows, cols, hasBoundary, shuffle);
    maze := m;
    walls, wallLocalPositions, wallGeometries, scene' := CreateMazeWalls(m, scene, cellSize);
    TreeWallCount(m, rows, cols, !hasBoundary);
  }
}
