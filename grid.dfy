/// The cell grid built by `generateMaze` in src/maze.js: directions (the
/// `DIR_ARRAY` table), wall flags, cells, and the graph that the cleared walls
/// form between neighbouring cells.
module Grid {

  /** The four wall directions, in the order the source lists them. */
  datatype Dir = Top | Right | Bottom | Left {

    /** Row change of a step in this direction (first column of DIR_ARRAY): at most one row. */
    function DRow(): (n: int)
      ensures -1 <= n <= 1
    {
      match this
      case Top => -1
      case Bottom => 1
      case _ => 0
    }

    /**
     * Column change of a step in this direction (second column of DIR_ARRAY):
     * at most one column, and a step moves along exactly one of the two axes.
     */
    function DCol(): (n: int)
      ensures -1 <= n <= 1
      ensures (n == 0) != (DRow() == 0)
    {
      match this
      case Right => 1
      case Left => -1
      case _ => 0
    }

    /** The wall the neighbour clears (third column of DIR_ARRAY): the one facing back. */
    function Opposite(): (o: Dir)
      ensures o.DRow() == -DRow() && o.DCol() == -DCol()
      ensures o != this
    {
      match this
      case Top => Bottom
      case Right => Left
      case Bottom => Top
      case Left => Right
    }
  }

  /** A permutation of the four directions, which is what the shuffled `dirs` array holds. */
  predicate IsDirOrder(s: seq<Dir>) {
    |s| == 4 && Top in s && Right in s && Bottom in s && Left in s
  }

  type DirOrder = s: seq<Dir> | IsDirOrder(s) witness [Top, Right, Bottom, Left]

  datatype Pos = Pos(row: int, col: int)

  /** The neighbour of `p` in direction `d` (`currRow + dRow`, `currCol + dCol`). */
  function Step(p: Pos, d: Dir): (q: Pos)
    ensures q.row == p.row + d.DRow() && q.col == p.col + d.DCol()
  {
    match d
    case Top => Pos(p.row - 1, p.col)
    case Right => Pos(p.row, p.col + 1)
    case Bottom => Pos(p.row + 1, p.col)
    case Left => Pos(p.row, p.col - 1)
  }

  /** The four wall flags of a cell. */
  datatype Walls = Walls(top: bool, right: bool, bottom: bool, left: bool) {

    /** `walls[dir]` */
    function Has(d: Dir): (b: bool)
      ensures this == AllWalls ==> b
    {
      match d
      case Top => top
      case Right => right
      case Bottom => bottom
      case Left => left
    }

    /** `walls[dir] = false`: clears exactly the flag of `d`. */
    function Without(d: Dir): (w: Walls)
      ensures !w.Has(d)
      ensures forall e :: e != d ==> w.Has(e) == Has(e)
    {
      match d
      case Top => this.(top := false)
      case Right => this.(right := false)
      case Bottom => this.(bottom := false)
      case Left => this.(left := false)
    }
  }

  const AllWalls := Walls(true, true, true, true)

  /** The four flags read through `walls[dir]` are the whole of a cell's walls. */
  lemma FlagsDetermineWalls(w: Walls, v: Walls)
    ensures w == v <==> forall d :: w.Has(d) == v.Has(d)
  {
    if forall d :: w.Has(d) == v.Has(d) {
      assert w.Has(Top) == v.Has(Top) && w.Has(Right) == v.Has(Right);
      assert w.Has(Bottom) == v.Has(Bottom) && w.Has(Left) == v.Has(Left);
    }
  }

  /** The four neighbours of a cell are four different cells, none of them the cell itself. */
  lemma NeighboursDistinct(p: Pos, d: Dir, e: Dir)
    ensures Step(p, d) != p
    ensures d != e ==> Step(p, d) != Step(p, e)
  {
  }

  datatype Cell = Cell(visited: bool, walls: Walls)

  /** A cell as the initialisation loop creates it: unvisited, all four walls standing. */
  const NewCell := Cell(false, AllWalls)

  /** `maze[row][col]`, row-major. */
  type Grid = seq<seq<Cell>>

  predicate InGrid(g: Grid, p: Pos) {
    0 <= p.row < |g| && 0 <= p.col < |g[p.row]|
  }

  function At(g: Grid, p: Pos): Cell
    requires InGrid(g, p)
  {
    g[p.row][p.col]
  }

  /** Replaces the cell at `p`; every other cell and the shape stay as they were. */
  function Update(g: Grid, p: Pos, c: Cell): (h: Grid)
    requires InGrid(g, p)
    ensures |h| == |g| && forall r :: 0 <= r < |g| ==> |h[r]| == |g[r]|
    ensures forall q :: InGrid(h, q) <==> InGrid(g, q)
    ensures forall q :: InGrid(g, q) ==> At(h, q) == if q == p then c else At(g, q)
  {
    g[p.row := g[p.row][p.col := c]]
  }

  /** `rows` rows of `cols` cells each. */
  ghost predicate Shape(g: Grid, rows: nat, cols: nat) {
    |g| == rows && forall r :: 0 <= r < rows ==> |g[r]| == cols
  }

  lemma {:induction false} ShapeInGrid(g: Grid, rows: nat, cols: nat, p: Pos)
    requires Shape(g, rows, cols)
    ensures InGrid(g, p) <==> 0 <= p.row < rows && 0 <= p.col < cols
  {
  }

  ghost predicate Visited(g: Grid, p: Pos) {
    InGrid(g, p) && At(g, p).visited
  }

  /** The wall of `p` facing `d` is down and leads to a cell of the grid. */
  ghost predicate Open(g: Grid, p: Pos, d: Dir) {
    InGrid(g, p) && InGrid(g, Step(p, d)) && !At(g, p).walls.Has(d)
  }

  /** `b` is the neighbour of `a` through a cleared wall of `a`. */
  ghost predicate Linked(g: Grid, a: Pos, b: Pos) {
    || (Open(g, a, Top) && b == Step(a, Top))
    || (Open(g, a, Right) && b == Step(a, Right))
    || (Open(g, a, Bottom) && b == Step(a, Bottom))
    || (Open(g, a, Left) && b == Step(a, Left))
  }

  lemma OpenLinked(g: Grid, a: Pos, d: Dir)
    requires Open(g, a, d)
    ensures Linked(g, a, Step(a, d))
  {
    match d
    case Top =>
    case Right =>
    case Bottom =>
    case Left =>
  }

  /** A wall facing off the grid (the rim). */
  ghost predicate FacesOut(g: Grid, p: Pos, d: Dir) {
    InGrid(g, p) && !InGrid(g, Step(p, d))
  }

  /** Shared edge `p`/`Step(p, d)` carries the same flag on both sides. */
  ghost predicate Agrees(g: Grid, p: Pos, d: Dir) {
    InGrid(g, p) && InGrid(g, Step(p, d)) ==>
      At(g, p).walls.Has(d) == At(g, Step(p, d)).walls.Has(d.Opposite())
  }

  /** Wall removal has been symmetric: neighbours agree on every shared edge. */
  ghost predicate Symmetric(g: Grid) {
    forall p, d :: Agrees(g, p, d)
  }

  lemma LinkedSymmetric(g: Grid, a: Pos, b: Pos)
    requires Symmetric(g) && Linked(g, a, b)
    ensures Linked(g, b, a)
  {
    var d :| d in {Top, Right, Bottom, Left} && Open(g, a, d) && b == Step(a, d);
    assert Agrees(g, a, d);
    assert Step(b, d.Opposite()) == a;
    OpenLinked(g, b, d.Opposite());
  }

  /** Every wall on the rim is standing. */
  ghost predicate RimStands(g: Grid) {
    forall p, d :: FacesOut(g, p, d) ==> At(g, p).walls.Has(d)
  }

  /** Every wall on the rim is cleared. */
  ghost predicate RimOpen(g: Grid) {
    forall p, d :: FacesOut(g, p, d) ==> !At(g, p).walls.Has(d)
  }

  /** On a `rows` by `cols` grid the rim is: top of row 0, bottom of row rows-1, left of column 0, right of column cols-1. */
  lemma FacesOutOnRim(g: Grid, rows: nat, cols: nat, p: Pos, d: Dir)
    requires Shape(g, rows, cols) && InGrid(g, p)
    ensures FacesOut(g, p, d) <==>
              || (d == Top && p.row == 0)
              || (d == Bottom && p.row == rows - 1)
              || (d == Left && p.col == 0)
              || (d == Right && p.col == cols - 1)
  {
    ShapeInGrid(g, rows, cols, Step(p, d));
  }

  /** The two grids agree on their shape and on every wall between two cells. */
  ghost predicate SameInterior(g: Grid, h: Grid) {
    && |h| == |g|
    && (forall r :: 0 <= r < |g| ==> |h[r]| == |g[r]|)
    && (forall p, d :: Open(h, p, d) <==> Open(g, p, d))
  }

  // ---------------------------------------------------------------------------
  // Passages: the cleared walls between two cells, each shared edge counted once
  // (by the cell on its left or above it).

  ghost function OpenEast(g: Grid): set<Pos> {
    set r, c | 0 <= r < |g| && 0 <= c < |g[r]| && Open(g, Pos(r, c), Right) :: Pos(r, c)
  }

  ghost function OpenSouth(g: Grid): set<Pos> {
    set r, c | 0 <= r < |g| && 0 <= c < |g[r]| && Open(g, Pos(r, c), Bottom) :: Pos(r, c)
  }

  /** The number of carved passages. */
  ghost function Passages(g: Grid): nat {
    |OpenEast(g)| + |OpenSouth(g)|
  }

  lemma EastMember(g: Grid, x: Pos)
    ensures x in OpenEast(g) <==> Open(g, x, Right)
  {
    if Open(g, x, Right) {
      assert x == Pos(x.row, x.col);
    }
  }

  lemma SouthMember(g: Grid, x: Pos)
    ensures x in OpenSouth(g) <==> Open(g, x, Bottom)
  {
    if Open(g, x, Bottom) {
      assert x == Pos(x.row, x.col);
    }
  }

  lemma {:induction false} SameInteriorPassages(g: Grid, h: Grid)
    requires SameInterior(g, h)
    ensures OpenEast(h) == OpenEast(g) && OpenSouth(h) == OpenSouth(g)
    ensures Passages(h) == Passages(g)
  {
    forall x ensures x in OpenEast(h) <==> x in OpenEast(g) {
      EastMember(g, x);
      EastMember(h, x);
    }
    forall x ensures x in OpenSouth(h) <==> x in OpenSouth(g) {
      SouthMember(g, x);
      SouthMember(h, x);
    }
  }

  /** A grid whose walls all stand has no passage. */
  lemma {:induction false} NoPassages(g: Grid)
    requires forall p :: InGrid(g, p) ==> At(g, p).walls == AllWalls
    ensures Passages(g) == 0
  {
    forall x ensures x !in OpenEast(g) && x !in OpenSouth(g) {
      EastMember(g, x);
      SouthMember(g, x);
    }
    assert OpenEast(g) == {};
    assert OpenSouth(g) == {};
  }

  // ---------------------------------------------------------------------------
  // Paths and cycles through passages.

  ghost predicate IsPath(g: Grid, p: seq<Pos>) {
    forall i :: 0 <= i < |p| - 1 ==> Linked(g, p[i], p[i + 1])
  }

  /** `p` leads from the start cell (0,0) to `x` through passages. */
  ghost predicate PathTo(g: Grid, p: seq<Pos>, x: Pos) {
    |p| > 0 && p[0] == Pos(0, 0) && p[|p| - 1] == x && IsPath(g, p)
  }

  ghost predicate Reachable(g: Grid, x: Pos) {
    exists p :: PathTo(g, p, x)
  }

  ghost predicate Distinct(p: seq<Pos>) {
    forall i, j :: 0 <= i < j < |p| ==> p[i] != p[j]
  }

  /** A closed walk through at least three different cells. */
  ghost predicate IsCycle(g: Grid, p: seq<Pos>) {
    |p| >= 3 && Distinct(p) && IsPath(g, p) && Linked(g, p[|p| - 1], p[0])
  }

  ghost predicate Acyclic(g: Grid) {
    forall p :: !IsCycle(g, p)
  }

  /** Passages form a spanning tree: every cell is reachable from (0,0) and there is no cycle. */
  ghost predicate SpanningTree(g: Grid) {
    (forall x :: InGrid(g, x) ==> Reachable(g, x)) && Acyclic(g)
  }

  lemma SameInteriorLinked(g: Grid, h: Grid, a: Pos, b: Pos)
    requires SameInterior(g, h)
    ensures Linked(h, a, b) <==> Linked(g, a, b)
  {
    assert Open(h, a, Top) == Open(g, a, Top);
    assert Open(h, a, Right) == Open(g, a, Right);
    assert Open(h, a, Bottom) == Open(g, a, Bottom);
    assert Open(h, a, Left) == Open(g, a, Left);
  }

  lemma SameInteriorPath(g: Grid, h: Grid, p: seq<Pos>)
    requires SameInterior(g, h)
    ensures IsPath(h, p) <==> IsPath(g, p)
  {
    forall i | 0 <= i < |p| - 1 {
      SameInteriorLinked(g, h, p[i], p[i + 1]);
    }
  }

  /** Clearing rim walls or marking cells visited changes neither the symmetry nor the tree of passages. */
  lemma {:induction false} SameInteriorTree(g: Grid, h: Grid)
    requires SameInterior(g, h)
    ensures Symmetric(h) <==> Symmetric(g)
    ensures (forall x :: Reachable(h, x) <==> Reachable(g, x))
    ensures Acyclic(h) <==> Acyclic(g)
  {
    forall p, d ensures Agrees(h, p, d) <==> Agrees(g, p, d) {
      assert Open(h, p, d) == Open(g, p, d);
      assert Open(h, Step(p, d), d.Opposite()) == Open(g, Step(p, d), d.Opposite());
      assert Step(Step(p, d), d.Opposite()) == p;
    }
    forall x ensures Reachable(h, x) <==> Reachable(g, x) {
      if Reachable(h, x) {
        var p :| PathTo(h, p, x);
        SameInteriorPath(g, h, p);
        assert PathTo(g, p, x);
      }
      if Reachable(g, x) {
        var p :| PathTo(g, p, x);
        SameInteriorPath(g, h, p);
        assert PathTo(h, p, x);
      }
    }
    forall p ensures IsCycle(h, p) <==> IsCycle(g, p) {
      SameInteriorPath(g, h, p);
      if |p| > 0 {
        SameInteriorLinked(g, h, p[|p| - 1], p[0]);
      }
    }
  }

  // ---------------------------------------------------------------------------
  // Counting cells.

  ghost function AllPos(rows: nat, cols: nat): set<Pos> {
    set r, c | 0 <= r < rows && 0 <= c < cols :: Pos(r, c)
  }

  ghost function RowPos(r: int, cols: nat): set<Pos> {
    set c | 0 <= c < cols :: Pos(r, c)
  }

  lemma {:induction false} RowPosCount(r: int, cols: nat)
    ensures |RowPos(r, cols)| == cols
  {
    if cols > 0 {
      RowPosCount(r, cols - 1);
      assert RowPos(r, cols) == RowPos(r, cols - 1) + {Pos(r, cols - 1)};
    } else {
      assert RowPos(r, cols) == {};
    }
  }

  /** A `rows` by `cols` grid has `rows * cols` cells. */
  lemma {:induction false} AllPosCount(rows: nat, cols: nat)
    ensures |AllPos(rows, cols)| == rows * cols
  {
    if rows > 0 {
      AllPosCount(rows - 1, cols);
      RowPosCount(rows - 1, cols);
      AllPosSplit(rows, cols);
      var above, last := AllPos(rows - 1, cols), RowPos(rows - 1, cols);
      assert above * last == {};
      assert |above + last| == |above| + |last|;
      assert (rows - 1) * cols + cols == rows * cols;
    } else {
      assert AllPos(rows, cols) == {};
    }
  }

  lemma AllPosSplit(rows: nat, cols: nat)
    requires rows > 0
    ensures AllPos(rows, cols) == AllPos(rows - 1, cols) + RowPos(rows - 1, cols)
    ensures AllPos(rows - 1, cols) !! RowPos(rows - 1, cols)
  {
    forall x | x in AllPos(rows, cols)
      ensures x in AllPos(rows - 1, cols) + RowPos(rows - 1, cols)
    {
      if x.row < rows - 1 {
        assert x in AllPos(rows - 1, cols);
      } else {
        assert x in RowPos(rows - 1, cols);
      }
    }
  }

  lemma AllPosMember(g: Grid, rows: nat, cols: nat, x: Pos)
    requires Shape(g, rows, cols)
    ensures x in AllPos(rows, cols) <==> InGrid(g, x)
  {
    if InGrid(g, x) {
      assert x == Pos(x.row, x.col);
    }
  }
}
