/// What the recursive `dfs` of `generateMaze` (src/maze.js) keeps true while it
/// carves: the state predicates, the effect of one carving step, and the
/// conclusions drawn once the search from (0,0) has returned.
module Carving {
  import opened Grid

  /**
   * Lines 46-47: clear the wall of `p` facing `d` and the opposite wall of the
   * neighbour. Those two flags go down; the shape, every other flag and every
   * visited flag stay as they were.
   */
  function Carve(g: Grid, p: Pos, d: Dir): (h: Grid)
    requires InGrid(g, p) && InGrid(g, Step(p, d))
    ensures forall x :: InGrid(h, x) <==> InGrid(g, x)
    ensures !At(h, p).walls.Has(d) && !At(h, Step(p, d)).walls.Has(d.Opposite())
    ensures forall x, e :: InGrid(g, x) && !(x == p && e == d) && !(x == Step(p, d) && e == d.Opposite()) ==>
              At(h, x).walls.Has(e) == At(g, x).walls.Has(e)
    ensures forall x :: InGrid(g, x) ==> At(h, x).visited == At(g, x).visited
  {
    var h := Update(g, p, At(g, p).(walls := At(g, p).walls.Without(d)));
    var q := Step(p, d);
    Update(h, q, At(h, q).(walls := At(h, q).walls.Without(d.Opposite())))
  }

  /** Every unvisited cell other than `skip` still has all four walls. */
  ghost predicate IntactExcept(g: Grid, skip: Pos) {
    forall p :: InGrid(g, p) && p != skip && !At(g, p).visited ==> At(g, p).walls == AllWalls
  }

  /** `rank` numbers the visited cells, without repetition, in the order they were entered. */
  ghost predicate Ranked(g: Grid, rank: map<Pos, nat>) {
    && (forall p :: p in rank <==> Visited(g, p))
    && (forall a :: a in rank ==> rank[a] < |rank|)
    && DistinctRanks(rank)
  }

  /** When `a` was entered, or -1 if it has not been. */
  ghost function Entered(rank: map<Pos, nat>, a: Pos): int {
    if a in rank then rank[a] else -1
  }

  /** No two cells were entered at the same time. */
  ghost predicate DistinctRanks(rank: map<Pos, nat>) {
    forall a, b {:trigger Entered(rank, a), Entered(rank, b)} ::
      a in rank && b in rank && a != b ==> Entered(rank, a) != Entered(rank, b)
  }

  /** `b` has a passage to at most one cell entered before it (its parent). */
  ghost predicate OneEarlier(g: Grid, rank: map<Pos, nat>, b: Pos) {
    forall a1, a2 {:trigger Linked(g, b, a1), Linked(g, b, a2)} ::
      && Linked(g, b, a1) && Linked(g, b, a2)
      && a1 in rank && a2 in rank && b in rank
      && rank[a1] < rank[b] && rank[a2] < rank[b]
      ==> a1 == a2
  }

  ghost predicate ParentUnique(g: Grid, rank: map<Pos, nat>) {
    forall b :: b in rank ==> OneEarlier(g, rank, b)
  }

  /** `b` has at most one passage. */
  ghost predicate AtMostOneLink(g: Grid, b: Pos) {
    forall a1, a2 :: Linked(g, b, a1) && Linked(g, b, a2) ==> a1 == a2
  }

  /** The state invariant of the search, `skip` being the cell about to be entered. */
  ghost predicate SearchState(g: Grid, rows: nat, cols: nat, rank: map<Pos, nat>, skip: Pos) {
    && Shape(g, rows, cols)
    && Symmetric(g)
    && RimStands(g)
    && IntactExcept(g, skip)
    && Ranked(g, rank)
    && ParentUnique(g, rank)
    && (forall a :: a in rank ==> Reachable(g, a))
  }

  ghost predicate NeighbourDone(g: Grid, p: Pos, d: Dir) {
    InGrid(g, Step(p, d)) ==> Visited(g, Step(p, d))
  }

  /** Every neighbour of `p` inside the grid has been visited. */
  ghost predicate Closed(g: Grid, p: Pos) {
    NeighbourDone(g, p, Top) && NeighbourDone(g, p, Right) &&
    NeighbourDone(g, p, Bottom) && NeighbourDone(g, p, Left)
  }

  ghost predicate VisitedGrows(g: Grid, h: Grid) {
    forall p :: Visited(g, p) ==> Visited(h, p)
  }

  /** Every cell visited in `h` but not in `g`, other than `skip`, is closed in `h`. */
  ghost predicate NewlyClosed(g: Grid, h: Grid, skip: Pos) {
    forall p {:trigger Closed(h, p)} :: Visited(h, p) && !Visited(g, p) && p != skip ==> Closed(h, p)
  }

  ghost function Unvisited(g: Grid): set<Pos> {
    set r, c | 0 <= r < |g| && 0 <= c < |g[r]| && !g[r][c].visited :: Pos(r, c)
  }

  lemma UnvisitedMember(g: Grid, x: Pos)
    ensures x in Unvisited(g) <==> InGrid(g, x) && !At(g, x).visited
  {
    if InGrid(g, x) && !At(g, x).visited {
      assert x == Pos(x.row, x.col);
    }
  }

  /** Visiting `x` and nothing else unvisiting makes the set of unvisited cells strictly smaller. */
  lemma {:induction false} UnvisitedShrinks(g: Grid, h: Grid, rows: nat, cols: nat, x: Pos)
    requires Shape(g, rows, cols) && Shape(h, rows, cols)
    requires VisitedGrows(g, h) && InGrid(g, x) && !At(g, x).visited && Visited(h, x)
    ensures Unvisited(h) < Unvisited(g)
  {
    UnvisitedMember(g, x);
    UnvisitedMember(h, x);
    forall y | y in Unvisited(h) ensures y in Unvisited(g) {
      UnvisitedMember(g, y);
      UnvisitedMember(h, y);
      assert Visited(g, y) ==> Visited(h, y);
    }
  }

  /** Carving does not change which cells are unvisited. */
  lemma {:induction false} CarveUnvisited(g: Grid, p: Pos, d: Dir)
    requires InGrid(g, p) && InGrid(g, Step(p, d))
    ensures Unvisited(Carve(g, p, d)) == Unvisited(g)
  {
    var h := Carve(g, p, d);
    forall y ensures y in Unvisited(h) <==> y in Unvisited(g) {
      UnvisitedMember(g, y);
      UnvisitedMember(h, y);
      CarveAt(g, p, d, y);
    }
  }

  // ---------------------------------------------------------------------------
  // One carving step.

  lemma CarveAt(g: Grid, p: Pos, d: Dir, x: Pos)
    requires InGrid(g, p) && InGrid(g, Step(p, d))
    ensures InGrid(Carve(g, p, d), x) <==> InGrid(g, x)
    ensures InGrid(g, x) ==>
              At(Carve(g, p, d), x) ==
              if x == p then At(g, p).(walls := At(g, p).walls.Without(d))
              else if x == Step(p, d) then At(g, x).(walls := At(g, x).walls.Without(d.Opposite()))
              else At(g, x)
  {
  }

  /** The only walls a carving step opens are the two sides of the carved edge. */
  lemma {:induction false} CarveOpen(g: Grid, p: Pos, d: Dir, x: Pos, e: Dir)
    requires InGrid(g, p) && InGrid(g, Step(p, d))
    ensures Open(Carve(g, p, d), x, e) <==>
              Open(g, x, e) || (x == p && e == d) || (x == Step(p, d) && e == d.Opposite())
  {
    var h := Carve(g, p, d);
    CarveAt(g, p, d, x);
    CarveAt(g, p, d, Step(x, e));
    if x == Step(p, d) && e == d.Opposite() {
      assert Step(x, e) == p;
    }
  }

  lemma {:induction false} CarveLinked(g: Grid, p: Pos, d: Dir, a: Pos, b: Pos)
    requires InGrid(g, p) && InGrid(g, Step(p, d))
    ensures Linked(Carve(g, p, d), a, b) <==>
              Linked(g, a, b) || (a == p && b == Step(p, d)) || (a == Step(p, d) && b == p)
  {
    CarveOpen(g, p, d, a, Top);
    CarveOpen(g, p, d, a, Right);
    CarveOpen(g, p, d, a, Bottom);
    CarveOpen(g, p, d, a, Left);
    assert Step(Step(p, d), d.Opposite()) == p;
    if a == p && b == Step(p, d) {
      OpenLinked(Carve(g, p, d), a, d);
    }
    if a == Step(p, d) && b == p {
      OpenLinked(Carve(g, p, d), a, d.Opposite());
    }
  }

  lemma {:induction false} CarveSymmetric(g: Grid, p: Pos, d: Dir)
    requires InGrid(g, p) && InGrid(g, Step(p, d)) && Symmetric(g)
    ensures Symmetric(Carve(g, p, d))
  {
    var h := Carve(g, p, d);
    var q := Step(p, d);
    forall x, e ensures Agrees(h, x, e) {
      var y := Step(x, e);
      if InGrid(g, x) && InGrid(g, y) {
        assert Agrees(g, x, e);
        assert Step(y, e.Opposite()) == x;
        CarveOpen(g, p, d, x, e);
        CarveOpen(g, p, d, y, e.Opposite());
      }
      CarveAt(g, p, d, x);
      CarveAt(g, p, d, y);
    }
  }

  lemma {:induction false} CarveRim(g: Grid, p: Pos, d: Dir)
    requires InGrid(g, p) && InGrid(g, Step(p, d)) && RimStands(g)
    ensures RimStands(Carve(g, p, d))
  {
    var h := Carve(g, p, d);
    forall x, e | FacesOut(h, x, e) ensures At(h, x).walls.Has(e) {
      CarveAt(g, p, d, x);
      CarveAt(g, p, d, Step(x, e));
      assert FacesOut(g, x, e);
      assert Step(Step(p, d), d.Opposite()) == p;
    }
  }

  lemma {:induction false} CarveKeepsPath(g: Grid, p: Pos, d: Dir, path: seq<Pos>)
    requires InGrid(g, p) && InGrid(g, Step(p, d)) && IsPath(g, path)
    ensures IsPath(Carve(g, p, d), path)
  {
    forall i | 0 <= i < |path| - 1 ensures Linked(Carve(g, p, d), path[i], path[i + 1]) {
      CarveLinked(g, p, d, path[i], path[i + 1]);
    }
  }

  lemma {:induction false} CarveEast(g: Grid, p: Pos, d: Dir, x: Pos)
    requires InGrid(g, p) && InGrid(g, Step(p, d))
    ensures x in OpenEast(Carve(g, p, d)) <==>
              x in OpenEast(g) || (d == Right && x == p) || (d == Left && x == Step(p, d))
  {
    EastMember(g, x);
    EastMember(Carve(g, p, d), x);
    CarveOpen(g, p, d, x, Right);
  }

  lemma {:induction false} CarveSouth(g: Grid, p: Pos, d: Dir, x: Pos)
    requires InGrid(g, p) && InGrid(g, Step(p, d))
    ensures x in OpenSouth(Carve(g, p, d)) <==>
              x in OpenSouth(g) || (d == Bottom && x == p) || (d == Top && x == Step(p, d))
  {
    SouthMember(g, x);
    SouthMember(Carve(g, p, d), x);
    CarveOpen(g, p, d, x, Bottom);
  }

  lemma {:induction false} GrowsByOne(s: set<Pos>, t: set<Pos>, e: Pos)
    requires forall x :: x in t <==> x in s || x == e
    requires e !in s
    ensures |t| == |s| + 1
  {
    assert t == s + {e};
  }

  /** Carving a wall that stands on both sides adds exactly one passage. */
  lemma {:induction false} CarvePassages(g: Grid, p: Pos, d: Dir)
    requires InGrid(g, p) && InGrid(g, Step(p, d))
    requires At(g, p).walls.Has(d) && At(g, Step(p, d)).walls.Has(d.Opposite())
    ensures Passages(Carve(g, p, d)) == Passages(g) + 1
  {
    var h := Carve(g, p, d);
    // the carved edge is counted at the cell on its left or above it
    var e := if d == Right || d == Bottom then p else Step(p, d);
    if d == Right || d == Left {
      forall x ensures x in OpenEast(h) <==> x in OpenEast(g) || x == e {
        CarveEast(g, p, d, x);
      }
      forall x ensures x in OpenSouth(h) <==> x in OpenSouth(g) {
        CarveSouth(g, p, d, x);
      }
      EastMember(g, e);
      GrowsByOne(OpenEast(g), OpenEast(h), e);
      assert OpenSouth(h) == OpenSouth(g);
    } else {
      forall x ensures x in OpenSouth(h) <==> x in OpenSouth(g) || x == e {
        CarveSouth(g, p, d, x);
      }
      forall x ensures x in OpenEast(h) <==> x in OpenEast(g) {
        CarveEast(g, p, d, x);
      }
      SouthMember(g, e);
      GrowsByOne(OpenSouth(g), OpenSouth(h), e);
      assert OpenEast(h) == OpenEast(g);
    }
  }

  lemma {:induction false} CarveKeepsVisited(g: Grid, p: Pos, d: Dir)
    requires InGrid(g, p) && InGrid(g, Step(p, d))
    ensures forall x :: Visited(Carve(g, p, d), x) <==> Visited(g, x)
    ensures forall x :: InGrid(Carve(g, p, d), x) <==> InGrid(g, x)
  {
    forall x ensures Visited(Carve(g, p, d), x) <==> Visited(g, x) {
      CarveAt(g, p, d, x);
    }
    forall x ensures InGrid(Carve(g, p, d), x) <==> InGrid(g, x) {
      CarveAt(g, p, d, x);
    }
  }

  lemma {:induction false} CarveIntact(g: Grid, cur: Pos, d: Dir)
    requires InGrid(g, cur) && InGrid(g, Step(cur, d))
    requires IntactExcept(g, cur) && Visited(g, cur)
    ensures IntactExcept(Carve(g, cur, d), Step(cur, d))
  {
    var h := Carve(g, cur, d);
    forall x | InGrid(h, x) && x != Step(cur, d) && !At(h, x).visited ensures At(h, x).walls == AllWalls {
      CarveAt(g, cur, d, x);
    }
  }

  /** New passages only touch the unranked cell entered next, so ranked cells keep a unique parent. */
  lemma {:induction false} CarveParentUnique(g: Grid, rank: map<Pos, nat>, cur: Pos, d: Dir)
    requires InGrid(g, cur) && InGrid(g, Step(cur, d))
    requires ParentUnique(g, rank) && cur in rank && Step(cur, d) !in rank
    ensures ParentUnique(Carve(g, cur, d), rank)
  {
    var h := Carve(g, cur, d);
    forall b | b in rank ensures OneEarlier(h, rank, b) {
      forall a1, a2 |
        && Linked(h, b, a1) && Linked(h, b, a2)
        && a1 in rank && a2 in rank && b in rank
        && rank[a1] < rank[b] && rank[a2] < rank[b]
        ensures a1 == a2
      {
        CarveLinked(g, cur, d, b, a1);
        CarveLinked(g, cur, d, b, a2);
        assert OneEarlier(g, rank, b);
      }
    }
  }

  lemma {:induction false} CarveReachable(g: Grid, rank: map<Pos, nat>, cur: Pos, d: Dir)
    requires InGrid(g, cur) && InGrid(g, Step(cur, d))
    requires forall a :: a in rank ==> Reachable(g, a)
    requires Reachable(g, cur)
    ensures forall a :: a in rank ==> Reachable(Carve(g, cur, d), a)
    ensures Reachable(Carve(g, cur, d), Step(cur, d))
  {
    var h := Carve(g, cur, d);
    var q := Step(cur, d);
    forall a | a in rank ensures Reachable(h, a) {
      var path :| PathTo(g, path, a);
      CarveKeepsPath(g, cur, d, path);
      assert PathTo(h, path, a);
    }
    var path :| PathTo(g, path, cur);
    CarveKeepsPath(g, cur, d, path);
    CarveLinked(g, cur, d, cur, q);
    var path' := path + [q];
    assert PathTo(h, path', q) by {
      forall i | 0 <= i < |path'| - 1 ensures Linked(h, path'[i], path'[i + 1]) {
        if i < |path| - 1 {
          assert path'[i] == path[i] && path'[i + 1] == path[i + 1];
        }
      }
    }
  }

  /** The cell just entered has a single passage: the one it was entered through. */
  lemma {:induction false} CarveLeaf(g: Grid, cur: Pos, d: Dir)
    requires InGrid(g, cur) && InGrid(g, Step(cur, d))
    requires At(g, Step(cur, d)).walls == AllWalls
    ensures AtMostOneLink(Carve(g, cur, d), Step(cur, d))
  {
    var h := Carve(g, cur, d);
    var q := Step(cur, d);
    forall a | Linked(h, q, a) ensures a == cur {
      CarveLinked(g, cur, d, q, a);
      if Linked(g, q, a) {
        assert At(g, q).walls.Has(Top) && At(g, q).walls.Has(Right);
        assert At(g, q).walls.Has(Bottom) && At(g, q).walls.Has(Left);
        assert false;
      }
    }
  }

  /** Carving from the visited `cur` into its unvisited neighbour (lines 46-47) readies the recursive call. */
  lemma {:induction false} CarveStep(g: Grid, rows: nat, cols: nat, rank: map<Pos, nat>, cur: Pos, d: Dir)
    requires SearchState(g, rows, cols, rank, cur)
    requires Visited(g, cur) && InGrid(g, Step(cur, d)) && !At(g, Step(cur, d)).visited
    ensures var h := Carve(g, cur, d);
            && SearchState(h, rows, cols, rank, Step(cur, d))
            && Passages(h) == Passages(g) + 1
            && AtMostOneLink(h, Step(cur, d))
            && Reachable(h, Step(cur, d))
            && forall p :: Visited(h, p) <==> Visited(g, p)
  {
    var h := Carve(g, cur, d);
    var q := Step(cur, d);
    assert At(g, q).walls == AllWalls;
    assert Agrees(g, cur, d);
    CarveSymmetric(g, cur, d);
    CarveRim(g, cur, d);
    CarvePassages(g, cur, d);
    CarveKeepsVisited(g, cur, d);
    CarveIntact(g, cur, d);
    CarveParentUnique(g, rank, cur, d);
    CarveReachable(g, rank, cur, d);
    CarveLeaf(g, cur, d);
  }

  /** Once the cell being entered is visited, the invariant holds whichever cell is named as skipped. */
  lemma {:induction false} Reskip(g: Grid, rows: nat, cols: nat, rank: map<Pos, nat>, a: Pos, b: Pos)
    requires SearchState(g, rows, cols, rank, a) && Visited(g, a)
    ensures SearchState(g, rows, cols, rank, b)
  {
    forall p | InGrid(g, p) && p != b && !At(g, p).visited ensures At(g, p).walls == AllWalls {
      assert p != a;
    }
  }

  // ---------------------------------------------------------------------------
  // Marking a cell visited.

  lemma {:induction false} MarkParentUnique(g: Grid, h: Grid, rank: map<Pos, nat>, cur: Pos)
    requires SameInterior(g, h) && ParentUnique(g, rank) && AtMostOneLink(g, cur)
    requires cur !in rank && forall a :: a in rank ==> rank[a] < |rank|
    ensures ParentUnique(h, rank[cur := |rank|])
  {
    var rank' := rank[cur := |rank|];
    forall b | b in rank' ensures OneEarlier(h, rank', b) {
      forall a1, a2 |
        && Linked(h, b, a1) && Linked(h, b, a2)
        && a1 in rank' && a2 in rank' && b in rank'
        && rank'[a1] < rank'[b] && rank'[a2] < rank'[b]
        ensures a1 == a2
      {
        SameInteriorLinked(g, h, b, a1);
        SameInteriorLinked(g, h, b, a2);
        if b != cur {
          assert OneEarlier(g, rank, b);
        }
      }
    }
  }

  lemma {:induction false} MarkReachable(g: Grid, h: Grid, rank: map<Pos, nat>, cur: Pos)
    requires SameInterior(g, h)
    requires forall a :: a in rank ==> Reachable(g, a)
    requires Reachable(g, cur)
    ensures forall a :: a in rank[cur := |rank|] ==> Reachable(h, a)
  {
    SameInteriorTree(g, h);
  }

  lemma {:induction false} MarkWalls(g: Grid, rows: nat, cols: nat, cur: Pos)
    requires Shape(g, rows, cols) && RimStands(g) && IntactExcept(g, cur) && InGrid(g, cur)
    ensures var h := Update(g, cur, At(g, cur).(visited := true));
            && Shape(h, rows, cols) && SameInterior(g, h) && RimStands(h) && IntactExcept(h, cur)
            && forall p :: Visited(h, p) <==> Visited(g, p) || p == cur
  {
  }

  lemma {:induction false} MarkRanked(g: Grid, h: Grid, rank: map<Pos, nat>, cur: Pos)
    requires Ranked(g, rank) && !Visited(g, cur)
    requires forall p :: Visited(h, p) <==> Visited(g, p) || p == cur
    ensures Ranked(h, rank[cur := |rank|]) && |rank[cur := |rank|]| == |rank| + 1
  {
    var rank' := rank[cur := |rank|];
    assert rank'.Keys == rank.Keys + {cur};
    forall a, b | a in rank' && b in rank' && a != b
      ensures Entered(rank', a) != Entered(rank', b)
    {
      if a != cur && b != cur {
        assert Entered(rank, a) != Entered(rank, b);
      }
    }
  }

  /** Marking `cur` visited (line 32) keeps the invariant and gives `cur` the next rank. */
  lemma {:induction false} MarkStep(g: Grid, rows: nat, cols: nat, rank: map<Pos, nat>, cur: Pos)
    requires SearchState(g, rows, cols, rank, cur)
    requires InGrid(g, cur) && !At(g, cur).visited
    requires AtMostOneLink(g, cur) && Reachable(g, cur)
    ensures var h := Update(g, cur, At(g, cur).(visited := true));
            && SearchState(h, rows, cols, rank[cur := |rank|], cur)
            && SameInterior(g, h)
            && Passages(h) == Passages(g)
            && |rank[cur := |rank|]| == |rank| + 1
            && forall p :: Visited(h, p) <==> Visited(g, p) || p == cur
  {
    var h := Update(g, cur, At(g, cur).(visited := true));
    MarkWalls(g, rows, cols, cur);
    MarkRanked(g, h, rank, cur);
    SameInteriorPassages(g, h);
    SameInteriorTree(g, h);
    MarkParentUnique(g, h, rank, cur);
    MarkReachable(g, h, rank, cur);
  }

  /**
   * What `dfs` knows once it has marked `cur` (line 32), in terms of the
   * state on entry `g` and the state `h` the loop of line 34 starts from.
   */
  lemma {:induction false} EnterCell(g: Grid, rows: nat, cols: nat, rank: map<Pos, nat>, cur: Pos)
    requires SearchState(g, rows, cols, rank, cur)
    requires InGrid(g, cur) && !At(g, cur).visited
    requires AtMostOneLink(g, cur) && Reachable(g, cur)
    requires Passages(g) == |rank|
    ensures var h := Update(g, cur, At(g, cur).(visited := true));
            var rank' := rank[cur := |rank|];
            && SearchState(h, rows, cols, rank', cur)
            && Visited(h, cur)
            && Passages(h) + 1 == |rank'|
            && VisitedGrows(g, h)
            && NewlyClosed(g, h, cur)
  {
    MarkStep(g, rows, cols, rank, cur);
  }

  // ---------------------------------------------------------------------------
  // After the search from (0,0) has returned.

  /** If (0,0) is visited and every visited cell is closed, every cell of the grid is visited. */
  lemma {:induction false} AllVisited(g: Grid, rows: nat, cols: nat, x: Pos)
    requires Shape(g, rows, cols) && Visited(g, Pos(0, 0))
    requires forall p {:trigger Closed(g, p)} :: Visited(g, p) ==> Closed(g, p)
    requires InGrid(g, x)
    ensures Visited(g, x)
    decreases x.row + x.col
  {
    if x.row > 0 {
      var y := Pos(x.row - 1, x.col);
      AllVisited(g, rows, cols, y);
      assert Closed(g, y) && Step(y, Bottom) == x;
    } else if x.col > 0 {
      var y := Pos(x.row, x.col - 1);
      AllVisited(g, rows, cols, y);
      assert Closed(g, y) && Step(y, Right) == x;
    }
  }

  /** Index of a cell of `p` with the highest rank. */
  ghost function HighestRanked(p: seq<Pos>, rank: map<Pos, nat>): (i: nat)
    requires |p| > 0 && forall j :: 0 <= j < |p| ==> p[j] in rank
    ensures i < |p| && forall j :: 0 <= j < |p| ==> rank[p[j]] <= rank[p[i]]
  {
    if |p| == 1 then 0
    else
      var k := HighestRanked(p[..|p| - 1], rank);
      if rank[p[|p| - 1]] >= rank[p[k]] then |p| - 1 else k
  }

  lemma {:induction false} CycleInGrid(g: Grid, p: seq<Pos>)
    requires IsCycle(g, p)
    ensures forall j :: 0 <= j < |p| ==> InGrid(g, p[j])
  {
    forall j | 0 <= j < |p| ensures InGrid(g, p[j]) {
      if j < |p| - 1 {
        assert Linked(g, p[j], p[j + 1]);
      } else {
        assert Linked(g, p[|p| - 1], p[0]);
      }
    }
  }

  /** The cells before and after position `m` on a cycle: two different cells, both with a passage from `p[m]`. */
  lemma {:induction false} CycleNeighbours(g: Grid, p: seq<Pos>, m: nat) returns (i: nat, j: nat)
    requires Symmetric(g) && IsCycle(g, p) && m < |p|
    ensures i < |p| && j < |p| && p[i] != p[j] && p[i] != p[m] && p[j] != p[m]
    ensures Linked(g, p[m], p[i]) && Linked(g, p[m], p[j])
  {
    var n := |p|;
    i := if m == 0 then n - 1 else m - 1;
    j := if m == n - 1 then 0 else m + 1;
    assert Linked(g, p[i], p[m]) by {
      if m > 0 {
        assert Linked(g, p[m - 1], p[m]);
      }
    }
    LinkedSymmetric(g, p[i], p[m]);
    assert Linked(g, p[m], p[j]) by {
      if m < n - 1 {
        assert Linked(g, p[m], p[m + 1]);
      }
    }
    assert i != m && j != m && i != j;
  }

  /** `v` has passages to two different cells entered before it. */
  ghost predicate TwoEarlier(g: Grid, rank: map<Pos, nat>, v: Pos, a: Pos, b: Pos) {
    && v in rank && a in rank && b in rank && a != b
    && Linked(g, v, a) && Linked(g, v, b)
    && rank[a] < rank[v] && rank[b] < rank[v]
  }

  /** On a cycle, the cell entered last has passages to two cells entered before it. */
  lemma {:induction false} CycleTwoEarlier(g: Grid, rank: map<Pos, nat>, p: seq<Pos>)
    requires Symmetric(g) && Ranked(g, rank)
    requires forall x :: InGrid(g, x) ==> x in rank
    ensures IsCycle(g, p) ==> exists v, a, b :: TwoEarlier(g, rank, v, a, b)
  {
    if IsCycle(g, p) {
      CycleInGrid(g, p);
      var m := HighestRanked(p, rank);
      var i, j := CycleNeighbours(g, p, m);
      assert Entered(rank, p[i]) != Entered(rank, p[m]) && Entered(rank, p[j]) != Entered(rank, p[m]);
      assert TwoEarlier(g, rank, p[m], p[i], p[j]);
    }
  }

  /** With a unique parent per cell there is no cycle through passages. */
  lemma {:induction false} NoCycle(g: Grid, rank: map<Pos, nat>, p: seq<Pos>)
    requires Symmetric(g) && Ranked(g, rank) && ParentUnique(g, rank)
    requires forall x :: InGrid(g, x) ==> x in rank
    ensures !IsCycle(g, p)
  {
    CycleTwoEarlier(g, rank, p);
  }

  /** The passages of a fully visited, ranked grid contain no cycle. */
  lemma {:induction false} TreeAcyclic(g: Grid, rank: map<Pos, nat>)
    requires Symmetric(g) && Ranked(g, rank) && ParentUnique(g, rank)
    requires forall x :: InGrid(g, x) ==> x in rank
    ensures Acyclic(g)
  {
    forall p ensures !IsCycle(g, p) {
      NoCycle(g, rank, p);
    }
  }

  // ---------------------------------------------------------------------------
  // Gluing the steps of the search together.

  lemma ClosedGrows(g: Grid, h: Grid, rows: nat, cols: nat, p: Pos)
    requires Shape(g, rows, cols) && Shape(h, rows, cols)
    requires VisitedGrows(g, h) && Closed(g, p)
    ensures Closed(h, p)
  {
    ShapeInGrid(g, rows, cols, Step(p, Top));
    ShapeInGrid(h, rows, cols, Step(p, Top));
    ShapeInGrid(g, rows, cols, Step(p, Right));
    ShapeInGrid(h, rows, cols, Step(p, Right));
    ShapeInGrid(g, rows, cols, Step(p, Bottom));
    ShapeInGrid(h, rows, cols, Step(p, Bottom));
    ShapeInGrid(g, rows, cols, Step(p, Left));
    ShapeInGrid(h, rows, cols, Step(p, Left));
  }

  /**
   * After carving from `cur` into `next` (`g` to `g2`, visited flags unchanged)
   * and the search from `next` (`g2` to `h`): every cell first visited since
   * `g` is closed in `h`.
   */
  lemma {:induction false} DescentClosed(g: Grid, g2: Grid, h: Grid, cur: Pos, next: Pos)
    requires Visited(g, cur)
    requires forall p :: Visited(g2, p) <==> Visited(g, p)
    requires VisitedGrows(g2, h) && NewlyClosed(g2, h, next) && Closed(h, next)
    ensures VisitedGrows(g, h) && NewlyClosed(g, h, cur)
  {
    forall p | Visited(h, p) && !Visited(g, p) && p != cur ensures Closed(h, p) {
      if p != next {
        assert !Visited(g2, p);
      }
    }
  }

  /** Cells closed in an earlier state stay closed; so "newly visited cells are closed" composes. */
  lemma {:induction false} ClosedTransitive(g0: Grid, g1: Grid, h: Grid, rows: nat, cols: nat, cur: Pos)
    requires Shape(g0, rows, cols) && Shape(g1, rows, cols) && Shape(h, rows, cols)
    requires VisitedGrows(g0, g1) && NewlyClosed(g0, g1, cur)
    requires VisitedGrows(g1, h) && NewlyClosed(g1, h, cur)
    ensures VisitedGrows(g0, h) && NewlyClosed(g0, h, cur)
  {
    forall p | Visited(h, p) && !Visited(g0, p) && p != cur ensures Closed(h, p) {
      if Visited(g1, p) {
        assert Closed(g1, p);
        ClosedGrows(g1, h, rows, cols, p);
      }
    }
  }

  lemma {:induction false} InitialWalls(g: Grid)
    requires forall p :: InGrid(g, p) ==> At(g, p) == NewCell
    ensures Symmetric(g) && RimStands(g) && IntactExcept(g, Pos(0, 0))
    ensures forall a, b :: !Linked(g, a, b)
  {
  }

  /** The freshly initialised grid satisfies everything the search from (0,0) requires. */
  lemma {:induction false} SearchReady(g: Grid, rows: nat, cols: nat)
    requires Shape(g, rows, cols) && rows > 0 && cols > 0
    requires forall p :: InGrid(g, p) ==> At(g, p) == NewCell
    ensures SearchState(g, rows, cols, map[], Pos(0, 0))
    ensures InGrid(g, Pos(0, 0)) && !At(g, Pos(0, 0)).visited
    ensures AtMostOneLink(g, Pos(0, 0)) && Reachable(g, Pos(0, 0))
    ensures Passages(g) == 0
    ensures forall p :: !Visited(g, p)
  {
    NoPassages(g);
    InitialWalls(g);
    assert Ranked(g, map[]);
    assert PathTo(g, [Pos(0, 0)], Pos(0, 0));
  }

  /** After a search from (0,0) over an untouched grid, every visited cell is closed. */
  lemma FreshSearchClosed(g0: Grid, g: Grid)
    requires forall p :: !Visited(g0, p)
    requires NewlyClosed(g0, g, Pos(0, 0)) && Closed(g, Pos(0, 0))
    ensures forall p {:trigger Closed(g, p)} :: Visited(g, p) ==> Closed(g, p)
  {
    forall p | Visited(g, p) ensures Closed(g, p) {
      assert !Visited(g0, p);
    }
  }

  /** A search from (0,0) over an untouched grid leaves no cell unvisited. */
  lemma EveryCellVisited(g0: Grid, g: Grid, rows: nat, cols: nat)
    requires Shape(g, rows, cols)
    requires forall p :: !Visited(g0, p)
    requires Visited(g, Pos(0, 0)) && NewlyClosed(g0, g, Pos(0, 0)) && Closed(g, Pos(0, 0))
    ensures forall x :: InGrid(g, x) ==> At(g, x).visited
  {
    FreshSearchClosed(g0, g);
    forall x | InGrid(g, x) ensures At(g, x).visited {
      AllVisited(g, rows, cols, x);
    }
  }

  /** When every cell is visited, the ranks number all `rows * cols` cells. */
  lemma {:induction false} RankCoversGrid(g: Grid, rows: nat, cols: nat, rank: map<Pos, nat>)
    requires Shape(g, rows, cols)
    requires forall p :: p in rank <==> Visited(g, p)
    requires forall x :: InGrid(g, x) ==> At(g, x).visited
    ensures |rank| == rows * cols
  {
    forall x ensures x in rank.Keys <==> x in AllPos(rows, cols) {
      AllPosMember(g, rows, cols, x);
    }
    AllPosCount(rows, cols);
    assert rank.Keys == AllPos(rows, cols);
  }

  /**
   * Once the search from (0,0) on an untouched grid `g0` has returned in state
   * `g`: every cell is visited, and the passages form a spanning tree of
   * `rows * cols - 1` edges.
   */
  lemma {:induction false} SearchComplete(g0: Grid, g: Grid, rows: nat, cols: nat, rank: map<Pos, nat>)
    requires rows > 0 && cols > 0
    requires forall p :: !Visited(g0, p)
    requires SearchState(g, rows, cols, rank, Pos(0, 0)) && Passages(g) + 1 == |rank|
    requires Visited(g, Pos(0, 0)) && NewlyClosed(g0, g, Pos(0, 0)) && Closed(g, Pos(0, 0))
    ensures forall x :: InGrid(g, x) ==> At(g, x).visited
    ensures Passages(g) == rows * cols - 1
    ensures SpanningTree(g)
  {
    EveryCellVisited(g0, g, rows, cols);
    RankCoversGrid(g, rows, cols, rank);
    TreeAcyclic(g, rank);
  }
}
