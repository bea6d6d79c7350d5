/// `generateMaze` of src/maze.js: the grid initialisation, the recursive
/// depth-first carving from (0,0) and the optional removal of the outer
/// boundary. The `maze` matrix that the nested `dfs` of `generateMaze`
/// updates in place is threaded through `Dfs` and `CarveInto` as a value:
/// each takes the grid as it is and returns it as it leaves it.
module Generator {
  import opened Grid
  import opened Carving

  /** `p` lies on a `rows` by `cols` grid: the bounds test of lines 40-43. */
  predicate InBounds(p: Pos, rows: int, cols: int) {
    0 <= p.row < rows && 0 <= p.col < cols
  }

  /**
   * The boundary loops have reached the flag of `p` facing `d`: the row loop
   * (lines 57-60) clears left and right flags, the column loop (lines 62-65)
   * top and bottom flags.
   */
  predicate Swept(p: Pos, d: Dir, rowsDone: int, colsDone: int) {
    if d == Left || d == Right then p.row < rowsDone else p.col < colsDone
  }

  /**
   * The walls a cell keeps once the boundary pass has cleared the left/right
   * flags of rows `0 .. rowsDone-1` and the top/bottom flags of columns
   * `0 .. colsDone-1` (lines 57-65): of a cell on the grid, exactly the
   * flags facing out of the grid that the loops have reached are down.
   */
  function RimCleared(w: Walls, p: Pos, rows: nat, cols: nat, rowsDone: int, colsDone: int): (v: Walls)
    ensures InBounds(p, rows, cols) ==>
              forall d :: v.Has(d) == (w.Has(d) && !(!InBounds(Step(p, d), rows, cols) && Swept(p, d, rowsDone, colsDone)))
  {
    Walls(
      w.top && !(p.row == 0 && 0 <= p.col < colsDone),
      w.right && !(p.col == cols - 1 && 0 <= p.row < rowsDone),
      w.bottom && !(p.row == rows - 1 && 0 <= p.col < colsDone),
      w.left && !(p.col == 0 && 0 <= p.row < rowsDone))
  }

  /**
   * The walls of the cell at `p` after the whole boundary pass: a cell on the
   * grid keeps exactly its flags that face another cell of the grid.
   */
  function WithoutRim(w: Walls, p: Pos, rows: nat, cols: nat): (v: Walls)
    ensures InBounds(p, rows, cols) ==> forall d :: v.Has(d) == (w.Has(d) && InBounds(Step(p, d), rows, cols))
  {
    RimCleared(w, p, rows, cols, rows, cols)
  }

  /** `h` is `g` after the boundary pass: same cells, rim flags cleared. */
  ghost predicate RimRemovedFrom(g: Grid, h: Grid, rows: nat, cols: nat) {
    && Shape(g, rows, cols) && Shape(h, rows, cols)
    && forall p :: InGrid(g, p) ==> At(h, p) == At(g, p).(walls := WithoutRim(At(g, p).walls, p, rows, cols))
  }

  /**
   * The boundary pass clears exactly the flags that face out of the grid:
   * afterwards every outward flag is down, every inward flag is as before, so
   * the passages between cells are untouched.
   */
  lemma {:induction false} RimRemoved(g: Grid, h: Grid, rows: nat, cols: nat)
    requires RimRemovedFrom(g, h, rows, cols)
    ensures RimOpen(h)
    ensures forall p, d :: InGrid(h, p) && !FacesOut(h, p, d) ==> (At(h, p).walls.Has(d) <==> At(g, p).walls.Has(d))
    ensures forall p :: Visited(h, p) <==> Visited(g, p)
    ensures SameInterior(g, h)
  {
    forall p, d | InGrid(h, p)
      ensures FacesOut(h, p, d) ==> !At(h, p).walls.Has(d)
      ensures !FacesOut(h, p, d) ==> (At(h, p).walls.Has(d) <==> At(g, p).walls.Has(d))
    {
      ShapeInGrid(g, rows, cols, p);
      FacesOutOnRim(h, rows, cols, p, d);
    }
    forall p ensures Visited(h, p) <==> Visited(g, p) {
      ShapeInGrid(g, rows, cols, p);
      ShapeInGrid(h, rows, cols, p);
    }
    forall p, d ensures Open(h, p, d) <==> Open(g, p, d) {
      ShapeInGrid(g, rows, cols, p);
      ShapeInGrid(h, rows, cols, p);
      ShapeInGrid(g, rows, cols, Step(p, d));
      ShapeInGrid(h, rows, cols, Step(p, d));
    }
  }

  /** Lines 19-29: `rows` rows of `cols` unvisited cells with all four walls. */
  method NewGrid(rows: nat, cols: nat) returns (maze: Grid)
    ensures Shape(maze, rows, cols)
    ensures forall p :: InGrid(maze, p) ==> At(maze, p) == NewCell
  {
    maze := [];
    for i := 0 to rows
      invariant |maze| == i
      invariant forall r :: 0 <= r < i ==> |maze[r]| == cols
      invariant forall r, c :: 0 <= r < i && 0 <= c < cols ==> maze[r][c] == NewCell
    {
      var row: seq<Cell> := [];
      for j := 0 to cols
        invariant |row| == j
        invariant forall c :: 0 <= c < j ==> row[c] == NewCell
      {
        row := row + [NewCell];
      }
      maze := maze + [row];
    }
  }

  /**
   * The state of the loop of `dfs` at `cur` (lines 34-50) after `i` of the
   * shuffled directions `dirs` have been tried: the search invariant holds,
   * `cur` is visited, and the neighbours in the first `i` directions are
   * visited.
   */
  ghost predicate Scanning(g: Grid, h: Grid, rows: nat, cols: nat, rank: map<Pos, nat>, cur: Pos, dirs: DirOrder, i: int) {
    && Shape(g, rows, cols)
    && SearchState(h, rows, cols, rank, cur)
    && Visited(h, cur)
    && Passages(h) + 1 == |rank|
    && VisitedGrows(g, h)
    && NewlyClosed(g, h, cur)
    && 0 <= i <= 4
    && forall j :: 0 <= j < i ==> NeighbourDone(h, cur, dirs[j])
  }

  method Dfs(maze: Grid, rows: nat, cols: nat, ghost rank: map<Pos, nat>, currRow: int, currCol: int, shuffle: Pos -> DirOrder)
    returns (h: Grid, ghost rank': map<Pos, nat>)
    requires SearchState(maze, rows, cols, rank, Pos(currRow, currCol))
    requires InGrid(maze, Pos(currRow, currCol)) && !At(maze, Pos(currRow, currCol)).visited
    requires AtMostOneLink(maze, Pos(currRow, currCol)) && Reachable(maze, Pos(currRow, currCol))
    requires Passages(maze) == |rank|
    decreases Unvisited(maze), 0
    ensures SearchState(h, rows, cols, rank', Pos(currRow, currCol))
    ensures Passages(h) + 1 == |rank'|
    ensures Visited(h, Pos(currRow, currCol))
    ensures VisitedGrows(maze, h)
    ensures NewlyClosed(maze, h, Pos(currRow, currCol))
    ensures Closed(h, Pos(currRow, currCol))
  {
    var cur := Pos(currRow, currCol);
    EnterCell(maze, rows, cols, rank, cur);
    h := Update(maze, cur, At(maze, cur).(visited := true));
    rank' := rank[cur := |rank|];
    var dirs := shuffle(cur);
    for i := 0 to 4
      invariant Scanning(maze, h, rows, cols, rank', cur, dirs, i)
    {
      var dir := dirs[i];
      var nextRow := currRow + dir.DRow();
      var nextCol := currCol + dir.DCol();
      assert Step(cur, dir) == Pos(nextRow, nextCol);
      ShapeInGrid(h, rows, cols, Pos(nextRow, nextCol));
      if 0 <= nextRow < rows && 0 <= nextCol < cols && !h[nextRow][nextCol].visited {
        UnvisitedShrinks(maze, h, rows, cols, cur);
        h, rank' := CarveInto(maze, h, rows, cols, rank', cur, dirs, i, shuffle);
      } else {
        Skip(maze, h, rows, cols, rank', cur, dirs, i);
      }
    }
    AllDirections(h, cur, dirs);
  }

  /** The neighbour in direction `dirs[i]` is outside the grid or already visited. */
  lemma {:induction false} Skip(g: Grid, h: Grid, rows: nat, cols: nat, rank: map<Pos, nat>, cur: Pos, dirs: DirOrder, i: int)
    requires Scanning(g, h, rows, cols, rank, cur, dirs, i) && i < 4
    requires var next := Step(cur, dirs[i]);
             !(0 <= next.row < rows && 0 <= next.col < cols && !h[next.row][next.col].visited)
    ensures Scanning(g, h, rows, cols, rank, cur, dirs, i + 1)
  {
    assert NeighbourDone(h, cur, dirs[i]);
  }

  /**
   * Lines 44-48: the neighbour `next` in direction `dirs[i]` is unvisited, so
   * the walls between `cur` and `next` come down and the search descends
   * into `next`.
   */
  method CarveInto(ghost g: Grid, maze: Grid, rows: nat, cols: nat, ghost rank: map<Pos, nat>, cur: Pos, dirs: DirOrder, i: int, shuffle: Pos -> DirOrder)
    returns (h: Grid, ghost rank': map<Pos, nat>)
    requires Scanning(g, maze, rows, cols, rank, cur, dirs, i) && i < 4
    requires InGrid(maze, Step(cur, dirs[i])) && !At(maze, Step(cur, dirs[i])).visited
    decreases Unvisited(maze), 1
    ensures Scanning(g, h, rows, cols, rank', cur, dirs, i + 1)
  {
    var dir := dirs[i];
    var next := Step(cur, dir);
    CarveStep(maze, rows, cols, rank, cur, dir);
    CarveUnvisited(maze, cur, dir);
    h := Update(maze, cur, At(maze, cur).(walls := At(maze, cur).walls.Without(dir)));
    h := Update(h, next, At(h, next).(walls := At(h, next).walls.Without(dir.Opposite())));
    assert h == Carve(maze, cur, dir);
    ghost var g2 := h;
    h, rank' := Dfs(h, rows, cols, rank, next.row, next.col, shuffle);
    Descended(g, maze, g2, h, rows, cols, rank', cur, dirs, i);
  }

  /** What the descent into `dirs[i]` leaves behind: the loop moves on to `i + 1`. */
  lemma {:induction false} Descended(g: Grid, g1: Grid, g2: Grid, h: Grid, rows: nat, cols: nat, rank: map<Pos, nat>, cur: Pos, dirs: DirOrder, i: int)
    requires 0 <= i < 4 && VisitedGrows(g, g1) && NewlyClosed(g, g1, cur) && Visited(g1, cur)
    requires forall j :: 0 <= j < i ==> NeighbourDone(g1, cur, dirs[j])
    requires Shape(g, rows, cols) && Shape(g1, rows, cols)
    requires forall p :: Visited(g2, p) <==> Visited(g1, p)
    requires SearchState(h, rows, cols, rank, Step(cur, dirs[i])) && Passages(h) + 1 == |rank|
    requires Visited(h, Step(cur, dirs[i])) && VisitedGrows(g2, h)
    requires NewlyClosed(g2, h, Step(cur, dirs[i])) && Closed(h, Step(cur, dirs[i]))
    ensures Scanning(g, h, rows, cols, rank, cur, dirs, i + 1)
  {
    var next := Step(cur, dirs[i]);
    DescentClosed(g1, g2, h, cur, next);
    ClosedTransitive(g, g1, h, rows, cols, cur);
    DoneStaysDone(g1, h, rows, cols, cur, dirs, i);
    Reskip(h, rows, cols, rank, next, cur);
  }

  /** Neighbours already visited stay visited while the grid keeps its shape. */
  lemma {:induction false} DoneStaysDone(g: Grid, h: Grid, rows: nat, cols: nat, cur: Pos, dirs: DirOrder, i: nat)
    requires Shape(g, rows, cols) && Shape(h, rows, cols) && VisitedGrows(g, h) && i < 4
    requires forall j :: 0 <= j < i ==> NeighbourDone(g, cur, dirs[j])
    requires Visited(h, Step(cur, dirs[i]))
    ensures forall j :: 0 <= j < i + 1 ==> NeighbourDone(h, cur, dirs[j])
  {
    forall j | 0 <= j < i + 1 ensures NeighbourDone(h, cur, dirs[j]) {
      ShapeInGrid(g, rows, cols, Step(cur, dirs[j]));
      ShapeInGrid(h, rows, cols, Step(cur, dirs[j]));
    }
  }

  /** Having tried every direction of a shuffled order, the cell is closed. */
  lemma {:induction false} AllDirections(g: Grid, cur: Pos, dirs: DirOrder)
    requires forall j :: 0 <= j < 4 ==> NeighbourDone(g, cur, dirs[j])
    ensures Closed(g, cur)
  {
    forall d ensures NeighbourDone(g, cur, d) {
      assert d in dirs by {
        match d
        case Top =>
        case Right =>
        case Bottom =>
        case Left =>
      }
      var j :| 0 <= j < 4 && dirs[j] == d;
    }
  }


  /** Lines 55-66: clears the left and right flags of the outer columns, then the top and bottom flags of the outer rows. */
  method RemoveBoundary(maze: Grid, rows: nat, cols: nat) returns (h: Grid)
    requires Shape(maze, rows, cols) && rows > 0 && cols > 0
    ensures RimRemovedFrom(maze, h, rows, cols)
  {
    h := maze;
    for row := 0 to rows
      invariant Shape(h, rows, cols)
      invariant forall p :: InGrid(maze, p) ==>
          At(h, p) == At(maze, p).(walls := RimCleared(At(maze, p).walls, p, rows, cols, row, 0))
    {
      var left := Pos(row, 0);
      h := Update(h, left, At(h, left).(walls := At(h, left).walls.Without(Left)));
      var right := Pos(row, cols - 1);
      h := Update(h, right, At(h, right).(walls := At(h, right).walls.Without(Right)));
    }
    for col := 0 to cols
      invariant Shape(h, rows, cols)
      invariant forall p :: InGrid(maze, p) ==>
          At(h, p) == At(maze, p).(walls := RimCleared(At(maze, p).walls, p, rows, cols, rows, col))
    {
      var top := Pos(0, col);
      h := Update(h, top, At(h, top).(walls := At(h, top).walls.Without(Top)));
      var bottom := Pos(rows - 1, col);
      h := Update(h, bottom, At(h, bottom).(walls := At(h, bottom).walls.Without(Bottom)));
    }
  }

  /** Clearing the rim keeps everything the search established, and opens the rim. */
  lemma {:induction false} RimRemovedKeepsTree(g: Grid, h: Grid, rows: nat, cols: nat)
    requires RimRemovedFrom(g, h, rows, cols)
    requires forall p :: InGrid(g, p) ==> At(g, p).visited
    requires Symmetric(g) && Passages(g) == rows * cols - 1 && SpanningTree(g)
    ensures Shape(h, rows, cols)
    ensures forall p :: InGrid(h, p) ==> At(h, p).visited
    ensures Symmetric(h) && Passages(h) == rows * cols - 1 && SpanningTree(h)
    ensures RimOpen(h)
  {
    RimRemoved(g, h, rows, cols);
    SameInteriorTree(g, h);
    SameInteriorPassages(g, h);
    forall p | InGrid(h, p) ensures At(h, p).visited {
      assert Visited(h, p);
    }
  }

  /**
   * Lines 17-68. The result is a `rows` by `cols` grid in which every cell has
   * been visited, the two sides of every inner wall agree, and the cleared
   * inner walls form a spanning tree of the cells (`rows * cols - 1` passages,
   * every cell reachable from (0,0), no cycle). With the boundary every
   * outward wall stands; without it every outward wall is cleared.
   */
  method GenerateMaze(rows: nat, cols: nat, hasBoundary: bool, shuffle: Pos -> DirOrder) returns (maze: Grid)
    requires rows > 0 && cols > 0
    ensures Shape(maze, rows, cols)
    ensures forall p :: InGrid(maze, p) ==> At(maze, p).visited
    ensures Symmetric(maze)
    ensures Passages(maze) == rows * cols - 1
    ensures SpanningTree(maze)
    ensures hasBoundary ==> RimStands(maze)
    ensures !hasBoundary ==> RimOpen(maze)
  {
    maze := NewGrid(rows, cols);
    SearchReady(maze, rows, cols);
    ghost var g0 := maze;
    ghost var rank;
    maze, rank := Dfs(maze, rows, cols, map[], 0, 0, shuffle);
    SearchComplete(g0, maze, rows, cols, rank);
    if !hasBoundary {
      ghost var g1 := maze;
      maze := RemoveBoundary(maze, rows, cols);
      RimRemovedKeepsTree(g1, maze, rows, cols);
    }
  }
}
