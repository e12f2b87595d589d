/**
 * The maze engine: a grid of cells that is carved into a perfect maze by
 * randomized recursive backtracking and then solved by depth-first search.
 * Drawing and animation only observe these state changes and are not part
 * of the model.
 */
module MazeEngine {
  import opened Grid

  /**
   * A maze of numCols columns and numRows rows. The five flags of the cell in
   * column c and row r are kept at [c, r] of five arrays, one per flag.
   */
  class Maze {
    const numRows: int
    const numCols: int
    const hasLeftWall: array2<bool>
    const hasRightWall: array2<bool>
    const hasTopWall: array2<bool>
    const hasBottomWall: array2<bool>
    const visited: array2<bool>

    // -------------------------------------------------------------------
    // Abstract views of the grid

    /** Every flag array has the grid's shape, and the arrays are distinct. */
    ghost predicate Shape() {
      1 <= numCols && 1 <= numRows &&
      hasLeftWall.Length0 == numCols && hasLeftWall.Length1 == numRows &&
      hasRightWall.Length0 == numCols && hasRightWall.Length1 == numRows &&
      hasTopWall.Length0 == numCols && hasTopWall.Length1 == numRows &&
      hasBottomWall.Length0 == numCols && hasBottomWall.Length1 == numRows &&
      visited.Length0 == numCols && visited.Length1 == numRows &&
      hasLeftWall != hasRightWall && hasLeftWall != hasTopWall && hasLeftWall != hasBottomWall &&
      hasLeftWall != visited && hasRightWall != hasTopWall && hasRightWall != hasBottomWall &&
      hasRightWall != visited && hasTopWall != hasBottomWall && hasTopWall != visited &&
      hasBottomWall != visited
    }

    /** The object invariant: the shape, and every shared wall recorded alike on both sides. */
    ghost predicate Valid()
      reads hasLeftWall, hasRightWall, hasTopWall, hasBottomWall
    {
      Shape() && WallsPaired()
    }

    ghost predicate WallsPaired()
      reads hasLeftWall, hasRightWall, hasTopWall, hasBottomWall
      requires Shape()
    {
      (forall c, r :: 0 <= c < numCols - 1 && 0 <= r < numRows ==>
         hasRightWall[c, r] == hasLeftWall[c + 1, r]) &&
      (forall c, r :: 0 <= c < numCols && 0 <= r < numRows - 1 ==>
         hasBottomWall[c, r] == hasTopWall[c, r + 1])
    }

    /** The solver's target: the cell in the last column and the last row. */
    function Goal(): Pos {
      (numCols - 1, numRows - 1)
    }

    ghost function VisitedSet(): (V: set<Pos>)
      reads visited
      ensures forall p :: p in V <==> InGrid(visited.Length0, visited.Length1, p) && visited[p.0, p.1]
    {
      set p | p in AllPositions(visited.Length0, visited.Length1) && visited[p.0, p.1]
    }

    /** The wall e stands for is open (read off the cell left of it or above it). */
    ghost predicate IsOpen(e: Edge)
      reads hasRightWall, hasBottomWall
    {
      match e
      case Horizontal(c, r) => 0 <= c < hasRightWall.Length0 - 1 && 0 <= r < hasRightWall.Length1 && !hasRightWall[c, r]
      case Vertical(c, r) => 0 <= c < hasBottomWall.Length0 && 0 <= r < hasBottomWall.Length1 - 1 && !hasBottomWall[c, r]
    }

    /** The passages of the maze: every interior wall that is open. */
    ghost function OpenEdges(): (E: set<Edge>)
      reads hasRightWall, hasBottomWall
      ensures forall e :: e in E <==> IsOpen(e)
    {
      set e | e in AllEdges(hasRightWall.Length0, hasRightWall.Length1) + AllEdges(hasBottomWall.Length0, hasBottomWall.Length1) && IsOpen(e)
    }

    /** The openings in the outer wall of the grid. */
    ghost function BorderGaps(): (G: set<Gap>)
      reads hasLeftWall, hasRightWall, hasTopWall, hasBottomWall
      ensures forall c :: TopGap(c) in G <==>
        0 <= c < hasTopWall.Length0 && 0 < hasTopWall.Length1 && !hasTopWall[c, 0]
      ensures forall c :: BottomGap(c) in G <==>
        0 <= c < hasBottomWall.Length0 && 0 < hasBottomWall.Length1 && !hasBottomWall[c, hasBottomWall.Length1 - 1]
      ensures forall r :: LeftGap(r) in G <==>
        0 < hasLeftWall.Length0 && 0 <= r < hasLeftWall.Length1 && !hasLeftWall[0, r]
      ensures forall r :: RightGap(r) in G <==>
        0 < hasRightWall.Length0 && 0 <= r < hasRightWall.Length1 && !hasRightWall[hasRightWall.Length0 - 1, r]
    {
      set g | g in AllGaps(hasTopWall.Length0, hasLeftWall.Length1) + AllGaps(hasBottomWall.Length0, hasRightWall.Length1) &&
              IsGap(g)
    }

    /** The outer wall is open at g. */
    ghost predicate IsGap(g: Gap)
      reads hasLeftWall, hasRightWall, hasTopWall, hasBottomWall
    {
      match g
      case TopGap(c) => 0 <= c < hasTopWall.Length0 && 0 < hasTopWall.Length1 && !hasTopWall[c, 0]
      case BottomGap(c) =>
        0 <= c < hasBottomWall.Length0 && 0 < hasBottomWall.Length1 && !hasBottomWall[c, hasBottomWall.Length1 - 1]
      case LeftGap(r) => 0 < hasLeftWall.Length0 && 0 <= r < hasLeftWall.Length1 && !hasLeftWall[0, r]
      case RightGap(r) =>
        0 < hasRightWall.Length0 && 0 <= r < hasRightWall.Length1 && !hasRightWall[hasRightWall.Length0 - 1, r]
    }

    // -------------------------------------------------------------------
    // Construction

    /** Allocates the grid, every cell with its four walls standing and not visited. */
    static method CreateCells(numCols: int, numRows: int)
      returns (left: array2<bool>, right: array2<bool>, top: array2<bool>, bottom: array2<bool>, seen: array2<bool>)
      requires numCols >= 0 && numRows >= 0
      ensures fresh(left) && fresh(right) && fresh(top) && fresh(bottom) && fresh(seen)
      ensures left != right && left != top && left != bottom && left != seen && right != top &&
        right != bottom && right != seen && top != bottom && top != seen && bottom != seen
      ensures left.Length0 == right.Length0 == top.Length0 == bottom.Length0 == seen.Length0 == numCols
      ensures left.Length1 == right.Length1 == top.Length1 == bottom.Length1 == seen.Length1 == numRows
      ensures forall c, r :: 0 <= c < numCols && 0 <= r < numRows ==>
        Cell(left[c, r], right[c, r], top[c, r], bottom[c, r], seen[c, r]) == NewCell
    {
      left := new bool[numCols, numRows];
      right := new bool[numCols, numRows];
      top := new bool[numCols, numRows];
      bottom := new bool[numCols, numRows];
      seen := new bool[numCols, numRows];
      for i := 0 to numCols
        invariant forall c, r :: 0 <= c < i && 0 <= r < numRows ==>
          Cell(left[c, r], right[c, r], top[c, r], bottom[c, r], seen[c, r]) == NewCell
      {
        for j := 0 to numRows
          invariant forall c, r :: 0 <= c < i && 0 <= r < numRows ==>
            Cell(left[c, r], right[c, r], top[c, r], bottom[c, r], seen[c, r]) == NewCell
          invariant forall r :: 0 <= r < j ==>
            Cell(left[i, r], right[i, r], top[i, r], bottom[i, r], seen[i, r]) == NewCell
        {
          left[i, j], right[i, j], top[i, j], bottom[i, j], seen[i, j] := true, true, true, true, false;
        }
      }
    }

    /** A grid whose every wall stands has no passage and no gap, and nothing is visited. */
    lemma FreshGrid()
      requires Shape()
      requires forall c, r :: 0 <= c < numCols && 0 <= r < numRows ==>
        Cell(hasLeftWall[c, r], hasRightWall[c, r], hasTopWall[c, r], hasBottomWall[c, r], visited[c, r]) == NewCell
      ensures OpenEdges() == {} && VisitedSet() == {} && BorderGaps() == {}
    {
    }

    /**
     * Creates the cells, opens the entrance and the exit, carves the maze from
     * (0, 0) and clears the visited marks.
     */
    constructor (numRows: int, numCols: int)
      requires numRows >= 1 && numCols >= 1
      ensures this.numRows == numRows && this.numCols == numCols
      ensures fresh(hasLeftWall) && fresh(hasRightWall) && fresh(hasTopWall) && fresh(hasBottomWall) && fresh(visited)
      ensures Valid()
      ensures VisitedSet() == {}
      ensures BorderGaps() == {TopGap(0), BottomGap(numCols - 1)}
      ensures SpanningTree(numCols, numRows, OpenEdges())
    {
      this.numRows := numRows;
      this.numCols := numCols;
      var left, right, top, bottom, seen := Maze.CreateCells(numCols, numRows);
      hasLeftWall, hasRightWall, hasTopWall, hasBottomWall, visited := left, right, top, bottom, seen;
      new;
      FreshGrid();
      BreakEntranceAndExit();
      ghost var G := BorderGaps();
      assert G == {TopGap(0), BottomGap(numCols - 1)};
      BreakWalls(0, 0);
      ghost var V, E := VisitedSet(), OpenEdges();
      TreeSpansGrid(numCols, numRows, V, E);
      ResetCellsVisited();
      assert BorderGaps() == G;
    }

    /** Removes the top wall of (0, 0) and the bottom wall of the last cell. */
    method BreakEntranceAndExit()
      requires Valid()
      modifies hasTopWall, hasBottomWall
      ensures Valid()
      ensures BorderGaps() == old(BorderGaps()) + {TopGap(0), BottomGap(numCols - 1)}
      ensures OpenEdges() == old(OpenEdges())
    {
      hasTopWall[0, 0] := false;
      hasBottomWall[numCols - 1, numRows - 1] := false;
      assert forall e :: IsOpen(e) == old(IsOpen(e));
    }

    // -------------------------------------------------------------------
    // Generation

    /** Sets the visited mark of (i, j). */
    method MarkVisited(i: int, j: int)
      requires Shape() && InGrid(numCols, numRows, (i, j))
      modifies visited
      ensures forall c, r :: 0 <= c < numCols && 0 <= r < numRows ==>
        visited[c, r] == (old(visited[c, r]) || (c, r) == (i, j))
      ensures VisitedSet() == old(VisitedSet()) + {(i, j)}
      ensures old(Valid()) ==> Valid()
      ensures OpenEdges() == old(OpenEdges()) && BorderGaps() == old(BorderGaps())
    {
      visited[i, j] := true;
    }

    /**
     * The in-grid neighbours of (i, j) that are not yet visited, collected in
     * the order left, right, up, down.
     */
    function UnvisitedNeighbours(i: int, j: int): (r: seq<Pos>)
      reads visited
      requires Shape() && InGrid(numCols, numRows, (i, j))
      ensures |r| <= 4
      ensures forall p :: p in r <==> InGrid(numCols, numRows, p) && Adjacent((i, j), p) && !visited[p.0, p.1]
    {
      var s0 := if i > 0 && !visited[i - 1, j] then [(i - 1, j)] else [];
      var s1 := if i < visited.Length0 - 1 && !visited[i + 1, j] then s0 + [(i + 1, j)] else s0;
      var s2 := if j > 0 && !visited[i, j - 1] then s1 + [(i, j - 1)] else s1;
      if j < visited.Length1 - 1 && !visited[i, j + 1] then s2 + [(i, j + 1)] else s2
    }

    /** When no neighbour of (i, j) is left to visit, every neighbour is visited. */
    lemma AllNeighboursVisited(i: int, j: int)
      requires Shape() && InGrid(numCols, numRows, (i, j))
      requires UnvisitedNeighbours(i, j) == []
      ensures NeighboursIn(numCols, numRows, (i, j), VisitedSet())
    {
    }

    /**
     * Opens the wall between (i, j) and its neighbour (ni, nj) on both cells:
     * right and left for a step along the row, bottom and top for a step
     * along the column. No other wall changes.
     */
    method Carve(i: int, j: int, ni: int, nj: int)
      requires Valid()
      requires InGrid(numCols, numRows, (i, j)) && InGrid(numCols, numRows, (ni, nj))
      requires Adjacent((i, j), (ni, nj))
      modifies hasLeftWall, hasRightWall, hasTopWall, hasBottomWall
      ensures Valid()
      ensures OpenEdges() == old(OpenEdges()) + {EdgeBetween((i, j), (ni, nj))}
      ensures BorderGaps() == old(BorderGaps())
      ensures VisitedSet() == old(VisitedSet())
    {
      if ni > i {
        hasRightWall[i, j] := false;
        hasLeftWall[ni, nj] := false;
      } else if ni < i {
        hasLeftWall[i, j] := false;
        hasRightWall[ni, nj] := false;
      }
      if nj > j {
        hasBottomWall[i, j] := false;
        hasTopWall[ni, nj] := false;
      } else if nj < j {
        hasTopWall[i, j] := false;
        hasBottomWall[ni, nj] := false;
      }
      ghost var e := EdgeBetween((i, j), (ni, nj));
      assert forall f :: IsOpen(f) == (old(IsOpen(f)) || f == e);
      forall g ensures g in BorderGaps() <==> g in old(BorderGaps()) {
        match g
        case TopGap(c) =>
          assert 0 <= c < hasTopWall.Length0 ==> hasTopWall[c, 0] == old(hasTopWall[c, 0]);
        case BottomGap(c) =>
          assert 0 <= c < hasBottomWall.Length0 ==>
            hasBottomWall[c, hasBottomWall.Length1 - 1] == old(hasBottomWall[c, hasBottomWall.Length1 - 1]);
        case LeftGap(r) =>
          assert 0 <= r < hasLeftWall.Length1 ==> hasLeftWall[0, r] == old(hasLeftWall[0, r]);
        case RightGap(r) =>
          assert 0 <= r < hasRightWall.Length1 ==>
            hasRightWall[hasRightWall.Length0 - 1, r] == old(hasRightWall[hasRightWall.Length0 - 1, r]);
      }
    }

    /**
     * Randomized recursive backtracking from (i, j). The random index is any
     * value in range, and every property below holds whichever one is drawn.
     * Every wall the run lowers lies between two cells it visits.
     */
    method BreakWalls(i: int, j: int)
      requires Valid()
      requires InGrid(numCols, numRows, (i, j)) && !visited[i, j]
      requires EdgesWithin(OpenEdges(), VisitedSet() + {(i, j)})
      modifies hasLeftWall, hasRightWall, hasTopWall, hasBottomWall, visited
      decreases AllPositions(numCols, numRows) - VisitedSet(), 0
      ensures Valid()
      ensures GrownFrom(numCols, numRows, old(VisitedSet()), old(OpenEdges()), VisitedSet(), OpenEdges(), (i, j))
      ensures NeighboursIn(numCols, numRows, (i, j), VisitedSet())
      ensures BorderGaps() == old(BorderGaps())
    {
      ghost var V0, E0, G0 := VisitedSet(), OpenEdges(), BorderGaps();
      MarkVisited(i, j);
      GrowthStarts(numCols, numRows, V0, E0, (i, j));
      while true
        invariant Valid()
        invariant GrownFrom(numCols, numRows, V0, E0, VisitedSet(), OpenEdges(), (i, j))
        invariant BorderGaps() == G0
        decreases AllPositions(numCols, numRows) - VisitedSet()
      {
        var toVisit := UnvisitedNeighbours(i, j);
        if |toVisit| == 0 {
          AllNeighboursVisited(i, j);
          return;
        }
        var k :| 0 <= k < |toVisit|;
        var next := toVisit[k];
        assert next in toVisit;
        ghost var Va, Ea := VisitedSet(), OpenEdges();
        Shrinks(AllPositions(numCols, numRows), V0, Va, (i, j));
        CarveTowards(i, j, next);
        GrowStep(numCols, numRows, V0, E0, Va, Ea, VisitedSet(), OpenEdges(), (i, j), next);
        Shrinks(AllPositions(numCols, numRows), Va, VisitedSet(), next);
      }
    }

    /**
     * The rest of one round of the backtracking loop, once next is drawn:
     * knock down the wall between (i, j) and next, then carve on from next.
     */
    method CarveTowards(i: int, j: int, next: Pos)
      requires Valid()
      requires InGrid(numCols, numRows, (i, j)) && InGrid(numCols, numRows, next) && Adjacent((i, j), next)
      requires visited[i, j] && !visited[next.0, next.1]
      requires EdgesWithin(OpenEdges(), VisitedSet())
      modifies hasLeftWall, hasRightWall, hasTopWall, hasBottomWall, visited
      decreases AllPositions(numCols, numRows) - VisitedSet(), 1
      ensures Valid()
      ensures GrownFrom(numCols, numRows, old(VisitedSet()), old(OpenEdges()) + {EdgeBetween((i, j), next)},
                        VisitedSet(), OpenEdges(), next)
      ensures NeighboursIn(numCols, numRows, next, VisitedSet())
      ensures BorderGaps() == old(BorderGaps())
    {
      EdgesWithinGrow(OpenEdges(), VisitedSet(), (i, j), next);
      Carve(i, j, next.0, next.1);
      BreakWalls(next.0, next.1);
    }

    /** Clears the visited mark of every cell. */
    method ResetCellsVisited()
      requires Shape()
      modifies visited
      ensures forall c, r :: 0 <= c < numCols && 0 <= r < numRows ==> !visited[c, r]
      ensures VisitedSet() == {}
      ensures old(Valid()) ==> Valid()
      ensures OpenEdges() == old(OpenEdges()) && BorderGaps() == old(BorderGaps())
    {
      for c := 0 to numCols
        invariant forall x, y :: 0 <= x < c && 0 <= y < numRows ==> !visited[x, y]
      {
        for r := 0 to numRows
          invariant forall x, y :: 0 <= x < c && 0 <= y < numRows ==> !visited[x, y]
          invariant forall y :: 0 <= y < r ==> !visited[c, y]
        {
          visited[c, r] := false;
        }
      }
    }

    // -------------------------------------------------------------------
    // Solving

    /**
     * The wall that the cell n, a neighbour of a, shows towards a: its right
     * wall when n is left of a, its left wall when n is right of a, its
     * bottom wall when n is above a and its top wall when n is below a.
     */
    predicate FacingWall(a: Pos, n: Pos)
      reads hasLeftWall, hasRightWall, hasTopWall, hasBottomWall
      requires Shape() && InGrid(numCols, numRows, n) && Adjacent(a, n)
    {
      if n == Left(a) then hasRightWall[n.0, n.1]
      else if n == Right(a) then hasLeftWall[n.0, n.1]
      else if n == Up(a) then hasBottomWall[n.0, n.1]
      else hasTopWall[n.0, n.1]
    }

    /** The passage from a to n is open exactly when n is in the grid and its facing wall is down. */
    lemma PassageIff(a: Pos, n: Pos)
      requires Valid() && InGrid(numCols, numRows, a) && Adjacent(a, n)
      ensures Linked(OpenEdges(), a, n) <==> InGrid(numCols, numRows, n) && !FacingWall(a, n)
    {
    }

    /**
     * Depth-first search from (i, j) towards the goal cell. The ghost path
     * is the route found. On failure every cell the search visited is a dead
     * end: each of its open passages leads to a visited cell.
     */
    method SolveR(i: int, j: int) returns (found: bool, ghost path: seq<Pos>)
      requires Valid()
      requires InGrid(numCols, numRows, (i, j))
      modifies visited
      decreases AllPositions(numCols, numRows) - VisitedSet(), if visited[i, j] then 2 else 0
      ensures old(VisitedSet()) <= VisitedSet() && (i, j) in VisitedSet()
      ensures OpenEdges() == old(OpenEdges())
      ensures found ==> PathAvoiding(OpenEdges(), path, (i, j), Goal(), old(VisitedSet()))
      ensures !found ==> DeadEnd(OpenEdges(), old(VisitedSet()), VisitedSet(), (i, j), Goal())
      ensures found <==> Reachable(OpenEdges(), old(VisitedSet()), (i, j), Goal())
      ensures (i, j) == Goal() ==> found && path == [(i, j)]
    {
      ghost var V0, E := VisitedSet(), OpenEdges();
      assert visited[i, j] <==> (i, j) in V0;
      MarkVisited(i, j);
      if i == numCols - 1 && j == numRows - 1 {
        found, path := true, [(i, j)];
        assert PathAvoiding(E, path, (i, j), Goal(), V0);
        return;
      }
      found, path := false, [];
      SearchStarts(E, V0, (i, j), Goal());
      // The four tries, in the order left, right, up, down.
      var neighbours := Neighbours((i, j));
      var k := 0;
      while k < 4
        invariant 0 <= k <= 4 && !found
        invariant Valid() && OpenEdges() == E && V0 <= VisitedSet()
        invariant Searching(E, V0, VisitedSet(), (i, j), Goal())
        invariant Tried(E, (i, j), k, VisitedSet())
      {
        ghost var Vk := VisitedSet();
        ShrinksUnlessSeen(AllPositions(numCols, numRows), V0, Vk, (i, j));
        found, path := SolveThrough((i, j), neighbours[k], V0, E);
        if found {
          return;
        }
        TriedNext(E, (i, j), k, Vk, VisitedSet());
        k := k + 1;
      }
      SearchExhausted(E, V0, VisitedSet(), (i, j), Goal());
    }

    /**
     * One of the four tries of the search at a: when the neighbour n is in
     * the grid, not yet visited and its facing wall is down, search on from
     * n; a path found from n, prefixed with a, is a path from a that avoids
     * V0, the cells visited before the search at a began.
     */
    method SolveThrough(a: Pos, n: Pos, ghost V0: set<Pos>, ghost E: set<Edge>) returns (found: bool, ghost path: seq<Pos>)
      requires Valid() && InGrid(numCols, numRows, a) && Adjacent(a, n)
      requires OpenEdges() == E && Searching(E, V0, VisitedSet(), a, Goal())
      modifies visited
      decreases AllPositions(numCols, numRows) - VisitedSet(), 1
      ensures Valid() && OpenEdges() == E && old(VisitedSet()) <= VisitedSet()
      ensures found ==> PathAvoiding(E, path, a, Goal(), V0)
      ensures !found ==> Searching(E, V0, VisitedSet(), a, Goal())
      ensures !found ==> (Linked(E, a, n) ==> n in VisitedSet())
    {
      ghost var Va := VisitedSet();
      PassageIff(a, n);
      if InGrid(visited.Length0, visited.Length1, n) && !visited[n.0, n.1] && !FacingWall(a, n) {
        found, path := SolveR(n.0, n.1);
        if found {
          ChildFound(E, V0, Va, a, n, Goal(), path);
          path := [a] + path;
          return;
        }
        ChildFailed(E, V0, Va, VisitedSet(), a, n, Goal());
      } else {
        found, path := false, [];
      }
    }

    /** Runs the search from the entrance cell (0, 0). */
    method Solve() returns (found: bool)
      requires Valid()
      modifies visited
      ensures OpenEdges() == old(OpenEdges())
      ensures old(VisitedSet()) <= VisitedSet() && (0, 0) in VisitedSet()
      ensures found <==> Reachable(OpenEdges(), old(VisitedSet()), (0, 0), Goal())
      ensures Goal() == (0, 0) ==> found
    {
      ghost var path;
      found, path := SolveR(0, 0);
    }
  }

  /** A maze fresh from construction is always solved. */
  method SolveGeneratedMaze(numRows: int, numCols: int) returns (found: bool)
    requires numRows >= 1 && numCols >= 1
    ensures found
  {
    var maze := new Maze(numRows, numCols);
    SpanningTreeReachesCorner(numCols, numRows, maze.OpenEdges());
    found := maze.Solve();
  }
}
