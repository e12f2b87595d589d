/**
 * The value-level vocabulary of the maze: a cell's five flags, grid
 * coordinates, the shared edges between neighbouring cells, and paths
 * through open edges. Everything here is pure; the class in MazeEngine
 * is specified in these terms.
 */
module Grid {

  /** One square of the maze: four wall flags and the mark both traversals use. */
  datatype Cell = Cell(
    hasLeftWall: bool,
    hasRightWall: bool,
    hasTopWall: bool,
    hasBottomWall: bool,
    visited: bool)

  /** A cell as it is created: every wall standing, not visited. */
  const NewCell: Cell := Cell(true, true, true, true, false)

  /** Grid coordinates (column, row); column grows to the right, row grows downwards. */
  type Pos = (int, int)

  predicate InGrid(cols: int, rows: int, p: Pos) {
    0 <= p.0 < cols && 0 <= p.1 < rows
  }

  /** Every cell of a cols-by-rows grid. */
  ghost function AllPositions(cols: int, rows: int): set<Pos> {
    set c, r | 0 <= c < cols && 0 <= r < rows :: (c, r)
  }

  /** Every wall between two cells of a cols × rows grid. */
  ghost function AllEdges(cols: int, rows: int): set<Edge> {
    (set c, r | 0 <= c < cols - 1 && 0 <= r < rows :: Horizontal(c, r)) +
    (set c, r | 0 <= c < cols && 0 <= r < rows - 1 :: Vertical(c, r))
  }

  // The four neighbours, in the order both traversals try them.
  function Left(p: Pos): Pos { (p.0 - 1, p.1) }
  function Right(p: Pos): Pos { (p.0 + 1, p.1) }
  function Up(p: Pos): Pos { (p.0, p.1 - 1) }
  function Down(p: Pos): Pos { (p.0, p.1 + 1) }

  predicate Adjacent(a: Pos, b: Pos) {
    b == Left(a) || b == Right(a) || b == Up(a) || b == Down(a)
  }

  /**
   * One shared wall. Horizontal(c, r) separates (c, r) from (c + 1, r): the
   * right wall of the first and the left wall of the second. Vertical(c, r)
   * separates (c, r) from (c, r + 1): a bottom wall and a top wall.
   */
  datatype Edge = Horizontal(col: int, row: int) | Vertical(col: int, row: int)

  function EdgeBetween(a: Pos, b: Pos): Edge
    requires Adjacent(a, b)
  {
    if b == Right(a) then Horizontal(a.0, a.1)
    else if b == Left(a) then Horizontal(b.0, b.1)
    else if b == Down(a) then Vertical(a.0, a.1)
    else Vertical(b.0, b.1)
  }

  /** The two cells an edge separates. */
  function Ends(e: Edge): (s: set<Pos>)
    ensures |s| == 2
  {
    match e
    case Horizontal(c, r) => assert (c, r) != (c + 1, r); {(c, r), (c + 1, r)}
    case Vertical(c, r) => assert (c, r) != (c, r + 1); {(c, r), (c, r + 1)}
  }

  /** Every edge of E joins two cells of S. */
  ghost predicate EdgesWithin(E: set<Edge>, S: set<Pos>) {
    forall e :: e in E ==> Ends(e) <= S
  }

  /**
   * A gap in the outer wall of the grid: the top wall of a cell in the first
   * row, the bottom wall of a cell in the last row, the left wall of a cell in
   * the first column or the right wall of a cell in the last column.
   */
  datatype Gap = TopGap(col: int) | BottomGap(col: int) | LeftGap(row: int) | RightGap(row: int)

  /** Every place in the outer wall of a cols × rows grid where a gap can be. */
  ghost function AllGaps(cols: int, rows: int): set<Gap> {
    (set c | 0 <= c < cols :: TopGap(c)) + (set c | 0 <= c < cols :: BottomGap(c)) +
    (set r | 0 <= r < rows :: LeftGap(r)) + (set r | 0 <= r < rows :: RightGap(r))
  }

  /** a and b are neighbours and the wall between them is open in E. */
  ghost predicate Linked(E: set<Edge>, a: Pos, b: Pos) {
    Adjacent(a, b) && EdgeBetween(a, b) in E
  }

  /** A walk through open passages. */
  ghost predicate IsPath(E: set<Edge>, p: seq<Pos>) {
    |p| > 0 && forall k :: 0 <= k < |p| - 1 ==> Linked(E, p[k], p[k + 1])
  }

  /** p walks from a to b and every cell after the first lies outside avoid. */
  ghost predicate PathAvoiding(E: set<Edge>, p: seq<Pos>, a: Pos, b: Pos, avoid: set<Pos>) {
    IsPath(E, p) && p[0] == a && p[|p| - 1] == b &&
    forall k :: 1 <= k < |p| ==> p[k] !in avoid
  }

  /** b can be reached from a through open passages without entering avoid. */
  ghost predicate Reachable(E: set<Edge>, avoid: set<Pos>, a: Pos, b: Pos) {
    exists p :: PathAvoiding(E, p, a, b, avoid)
  }

  ghost predicate Connected(E: set<Edge>, a: Pos, b: Pos) {
    Reachable(E, {}, a, b)
  }

  /** Every in-grid neighbour of c lies in S. */
  ghost predicate NeighboursIn(cols: int, rows: int, c: Pos, S: set<Pos>) {
    (c.0 > 0 ==> Left(c) in S) &&
    (c.0 < cols - 1 ==> Right(c) in S) &&
    (c.1 > 0 ==> Up(c) in S) &&
    (c.1 < rows - 1 ==> Down(c) in S)
  }

  /** Every neighbour that an open passage of E joins to c lies in S. */
  ghost predicate Explored(E: set<Edge>, c: Pos, S: set<Pos>) {
    (Linked(E, c, Left(c)) ==> Left(c) in S) &&
    (Linked(E, c, Right(c)) ==> Right(c) in S) &&
    (Linked(E, c, Up(c)) ==> Up(c) in S) &&
    (Linked(E, c, Down(c)) ==> Down(c) in S)
  }

  /** A perfect maze: every passage inside the grid, every cell connected to (0, 0), one passage fewer than cells. */
  ghost predicate SpanningTree(cols: int, rows: int, E: set<Edge>) {
    |E| + 1 == cols * rows && EdgesWithin(E, AllPositions(cols, rows)) &&
    forall p :: InGrid(cols, rows, p) ==> Connected(E, (0, 0), p)
  }

  /**
   * Carving from a has turned the cells V - V0 into a tree hanging from a: one
   * new edge per new cell but a, every new cell connected to a, and every edge
   * inside the visited cells. Every new cell but a has all its neighbours in V.
   */
  ghost predicate GrownFrom(cols: int, rows: int, V0: set<Pos>, E0: set<Edge>, V: set<Pos>, E: set<Edge>, a: Pos) {
    V0 <= V && a in V - V0 && E0 <= E && |E| - |E0| == |V| - |V0| - 1 &&
    EdgesWithin(E, V) &&
    (forall c :: c in V - V0 ==> Connected(E, a, c)) &&
    (forall c {:trigger NeighboursIn(cols, rows, c, V)} ::
      c in V - V0 && c != a ==> NeighboursIn(cols, rows, c, V))
  }

  // ---------------------------------------------------------------------
  // Lemmas about paths

  /** A step through an open passage in front of a path is again a path. */
  lemma PathPrepend(E: set<Edge>, avoid: set<Pos>, a: Pos, p: seq<Pos>, b: Pos)
    requires |p| > 0 && Linked(E, a, p[0]) && p[0] !in avoid
    requires PathAvoiding(E, p, p[0], b, avoid)
    ensures PathAvoiding(E, [a] + p, a, b, avoid)
  {
  }

  /** Reachability is preserved by a step through an open passage. */
  lemma ReachPrepend(E: set<Edge>, avoid: set<Pos>, a: Pos, m: Pos, b: Pos)
    requires Linked(E, a, m) && m !in avoid
    requires Reachable(E, avoid, m, b)
    ensures Reachable(E, avoid, a, b)
  {
    var p :| PathAvoiding(E, p, m, b, avoid);
    PathPrepend(E, avoid, a, p, b);
  }

  /** Opening more walls, or avoiding fewer cells, loses no path. */
  lemma ReachMono(E1: set<Edge>, E2: set<Edge>, avoid1: set<Pos>, avoid2: set<Pos>, a: Pos, b: Pos)
    requires E1 <= E2 && avoid2 <= avoid1
    requires Reachable(E1, avoid1, a, b)
    ensures Reachable(E2, avoid2, a, b)
  {
    var p :| PathAvoiding(E1, p, a, b, avoid1);
    assert forall k :: 0 <= k < |p| - 1 ==> Linked(E1, p[k], p[k + 1]);
    assert PathAvoiding(E2, p, a, b, avoid2);
  }

  lemma AdjacentCases(a: Pos, b: Pos, E: set<Edge>, S: set<Pos>)
    requires Linked(E, a, b) && Explored(E, a, S)
    ensures b in S
  {
  }

  /**
   * A region that contains a and from which every open passage leads back into
   * the region or into avoid traps every path that starts at a and avoids
   * avoid; so a cell outside the region cannot be reached.
   */
  lemma {:induction false} ClosedRegionTraps(E: set<Edge>, avoid: set<Pos>, N: set<Pos>, S: set<Pos>, a: Pos, b: Pos)
    requires a in N && b !in N
    requires forall x :: x in N ==> Explored(E, x, S)
    requires S <= N + avoid
    ensures !Reachable(E, avoid, a, b)
  {
    if p :| PathAvoiding(E, p, a, b, avoid) {
      PathStaysIn(E, avoid, N, S, p, |p| - 1);
    }
  }

  lemma {:induction false} PathStaysIn(E: set<Edge>, avoid: set<Pos>, N: set<Pos>, S: set<Pos>, p: seq<Pos>, k: nat)
    requires IsPath(E, p) && p[0] in N && k < |p|
    requires forall i :: 1 <= i < |p| ==> p[i] !in avoid
    requires forall x :: x in N ==> Explored(E, x, S)
    requires S <= N + avoid
    ensures p[k] in N
  {
    if k > 0 {
      PathStaysIn(E, avoid, N, S, p, k - 1);
      AdjacentCases(p[k - 1], p[k], E, S);
    }
  }

  /**
   * One round of the carving loop at a: the passage to the unvisited neighbour
   * n is opened and carving from n grows a tree from Va to Vc; the tree grown
   * from a then takes in Vc as well.
   */
  lemma GrowStep(cols: int, rows: int, V0: set<Pos>, E0: set<Edge>, Va: set<Pos>, Ea: set<Edge>,
                 Vc: set<Pos>, Ec: set<Edge>, a: Pos, n: Pos)
    requires GrownFrom(cols, rows, V0, E0, Va, Ea, a)
    requires Adjacent(a, n) && n !in Va
    requires GrownFrom(cols, rows, Va, Ea + {EdgeBetween(a, n)}, Vc, Ec, n)
    requires NeighboursIn(cols, rows, n, Vc)
    ensures GrownFrom(cols, rows, V0, E0, Vc, Ec, a)
  {
    var e := EdgeBetween(a, n);
    NewEdge(Ea, Va, a, n);
    assert |Ea + {e}| == |Ea| + 1;
    assert Linked(Ec, a, n);
    forall c | c in Vc - V0 ensures Connected(Ec, a, c) {
      if c in Va {
        assert Connected(Ea, a, c);
        ReachMono(Ea, Ec, {}, {}, a, c);
      } else {
        assert Connected(Ec, n, c);
        ReachPrepend(Ec, {}, a, n, c);
      }
    }
    forall c {:trigger NeighboursIn(cols, rows, c, Vc)} | c in Vc - V0 && c != a
      ensures NeighboursIn(cols, rows, c, Vc)
    {
      if c in Va { assert NeighboursIn(cols, rows, c, Va); }
    }
  }

  /** Carving starts from a alone: one cell, no new edge. */
  lemma GrowthStarts(cols: int, rows: int, V0: set<Pos>, E0: set<Edge>, a: Pos)
    requires a !in V0 && EdgesWithin(E0, V0 + {a})
    ensures GrownFrom(cols, rows, V0, E0, V0 + {a}, E0, a)
  {
    assert PathAvoiding(E0, [a], a, a, {});
    assert V0 + {a} - V0 == {a};
  }

  /** Visiting a cell of A that was not visited before shrinks what is left of A. */
  lemma Shrinks(A: set<Pos>, V0: set<Pos>, V: set<Pos>, x: Pos)
    requires V0 <= V && x in A && x !in V0 && x in V
    ensures A - V < A - V0
  {
  }

  lemma ShrinksUnlessSeen(A: set<Pos>, V0: set<Pos>, V: set<Pos>, x: Pos)
    requires V0 <= V && x in A && x in V
    ensures A - V <= A - V0 && (x !in V0 ==> A - V < A - V0)
  {
  }

  /** Opening the passage from a cell of S to n keeps every edge within S + {n}. */
  lemma EdgesWithinGrow(E: set<Edge>, S: set<Pos>, a: Pos, n: Pos)
    requires EdgesWithin(E, S) && a in S && Adjacent(a, n)
    ensures EdgesWithin(E + {EdgeBetween(a, n)}, S + {n})
  {
  }

  /** The passage to a cell outside every edge of E is not an edge of E. */
  lemma NewEdge(E: set<Edge>, S: set<Pos>, a: Pos, n: Pos)
    requires EdgesWithin(E, S) && Adjacent(a, n) && n !in S
    ensures EdgeBetween(a, n) !in E
  {
  }

  // ---------------------------------------------------------------------
  // Lemmas about the search

  /**
   * A search from a that has not yet found goal: the cells it visited (those
   * of V not in V0) exclude goal, and every passage out of those cells other
   * than a leads into V.
   */
  ghost predicate Searching(E: set<Edge>, V0: set<Pos>, V: set<Pos>, a: Pos, goal: Pos) {
    V0 <= V && a in V && goal != a && goal !in V - V0 &&
    forall c :: c in V - V0 && c != a ==> Explored(E, c, V)
  }

  /** A search from a that failed: in addition, every passage out of a leads into V. */
  ghost predicate DeadEnd(E: set<Edge>, V0: set<Pos>, V: set<Pos>, a: Pos, goal: Pos) {
    Searching(E, V0, V, a, goal) && Explored(E, a, V)
  }

  lemma SearchStarts(E: set<Edge>, V0: set<Pos>, a: Pos, goal: Pos)
    requires a != goal
    ensures Searching(E, V0, V0 + {a}, a, goal)
  {
  }

  /** A step into a neighbour the search had not visited, followed by a path found from there. */
  lemma ChildFound(E: set<Edge>, V0: set<Pos>, Va: set<Pos>, a: Pos, n: Pos, goal: Pos, p: seq<Pos>)
    requires V0 <= Va && Linked(E, a, n) && n !in Va
    requires PathAvoiding(E, p, n, goal, Va)
    ensures PathAvoiding(E, [a] + p, a, goal, V0)
  {
  }

  /** A failed search from the neighbour n joins the cells it visited to the search from a. */
  lemma ChildFailed(E: set<Edge>, V0: set<Pos>, Va: set<Pos>, Vb: set<Pos>, a: Pos, n: Pos, goal: Pos)
    requires Searching(E, V0, Va, a, goal) && n !in Va
    requires DeadEnd(E, Va, Vb, n, goal)
    ensures Searching(E, V0, Vb, a, goal) && n in Vb
  {
    forall c | c in Vb - V0 && c != a ensures Explored(E, c, Vb) {
      if c in Va {
        assert Explored(E, c, Va);
      } else if c != n {
        assert c in Vb - Va;
      }
    }
  }

  /** The neighbours of a in the order the search tries them: left, right, up, down. */
  function Neighbours(a: Pos): (ns: seq<Pos>)
    ensures |ns| == 4 && forall n :: n in ns <==> Adjacent(a, n)
  {
    [Left(a), Right(a), Up(a), Down(a)]
  }

  /** The first k neighbours of a have been tried: an open passage to any of them leads into V. */
  ghost predicate Tried(E: set<Edge>, a: Pos, k: nat, V: set<Pos>)
    requires k <= 4
  {
    forall m :: 0 <= m < k ==> (Linked(E, a, Neighbours(a)[m]) ==> Neighbours(a)[m] in V)
  }

  lemma TriedNext(E: set<Edge>, a: Pos, k: nat, V0: set<Pos>, V: set<Pos>)
    requires k < 4 && Tried(E, a, k, V0) && V0 <= V
    requires Linked(E, a, Neighbours(a)[k]) ==> Neighbours(a)[k] in V
    ensures Tried(E, a, k + 1, V)
  {
  }

  /** A search with no way left out of the visited cells cannot reach goal. */
  lemma SearchExhausted(E: set<Edge>, V0: set<Pos>, V: set<Pos>, a: Pos, goal: Pos)
    requires Searching(E, V0, V, a, goal) && Tried(E, a, 4, V)
    ensures DeadEnd(E, V0, V, a, goal)
    ensures !Reachable(E, V0, a, goal)
  {
    assert Neighbours(a)[0] == Left(a) && Neighbours(a)[1] == Right(a);
    assert Neighbours(a)[2] == Up(a) && Neighbours(a)[3] == Down(a);
    var N := V - V0 + {a};
    forall x | x in N ensures Explored(E, x, V) {
      if x != a { assert x in V - V0; }
    }
    ClosedRegionTraps(E, V0, N, V, a, goal);
  }

  // ---------------------------------------------------------------------
  // Lemmas about the grid

  /**
   * A set of cells that holds (0, 0) and every in-grid neighbour of each of its
   * cells holds the whole grid.
   */
  lemma ClosedRegionIsWholeGrid(cols: int, rows: int, S: set<Pos>)
    requires (0, 0) in S
    requires forall c {:trigger NeighboursIn(cols, rows, c, S)} :: c in S ==> NeighboursIn(cols, rows, c, S)
    ensures AllPositions(cols, rows) <= S
  {
    forall p | p in AllPositions(cols, rows) ensures p in S {
      ReachedFromOrigin(cols, rows, S, p.0, p.1);
    }
  }

  lemma {:induction false} ReachedFromOrigin(cols: int, rows: int, S: set<Pos>, x: int, y: int)
    requires (0, 0) in S
    requires forall c {:trigger NeighboursIn(cols, rows, c, S)} :: c in S ==> NeighboursIn(cols, rows, c, S)
    requires 0 <= x < cols && 0 <= y < rows
    ensures (x, y) in S
    decreases x + y
  {
    if x > 0 {
      ReachedFromOrigin(cols, rows, S, x - 1, y);
      assert NeighboursIn(cols, rows, (x - 1, y), S);
    } else if y > 0 {
      ReachedFromOrigin(cols, rows, S, x, y - 1);
      assert NeighboursIn(cols, rows, (x, y - 1), S);
    }
  }

  /**
   * Carving from (0, 0) over a grid with nothing visited and nothing open,
   * until every visited cell has all its neighbours visited, opens a spanning
   * tree of the grid.
   */
  lemma TreeSpansGrid(cols: nat, rows: nat, V: set<Pos>, E: set<Edge>)
    requires GrownFrom(cols, rows, {}, {}, V, E, (0, 0))
    requires NeighboursIn(cols, rows, (0, 0), V)
    requires forall p :: p in V ==> InGrid(cols, rows, p)
    ensures V == AllPositions(cols, rows)
    ensures SpanningTree(cols, rows, E)
  {
    ClosedRegionIsWholeGrid(cols, rows, V);
    assert V == AllPositions(cols, rows);
    GridSize(cols, rows);
    forall p | InGrid(cols, rows, p) ensures Connected(E, (0, 0), p) {
      assert p in V - {};
    }
  }

  /** In a perfect maze the last cell can be reached from (0, 0). */
  lemma SpanningTreeReachesCorner(cols: int, rows: int, E: set<Edge>)
    requires cols >= 1 && rows >= 1 && SpanningTree(cols, rows, E)
    ensures Reachable(E, {}, (0, 0), (cols - 1, rows - 1))
  {
    assert InGrid(cols, rows, (cols - 1, rows - 1));
  }

  ghost function Column(c: int, rows: int): set<Pos> {
    set r | 0 <= r < rows :: (c, r)
  }

  lemma {:induction false} ColumnSize(c: int, rows: nat)
    ensures |Column(c, rows)| == rows
  {
    if rows > 0 {
      ColumnSize(c, rows - 1);
      assert Column(c, rows) == Column(c, rows - 1) + {(c, rows - 1)};
    } else {
      assert Column(c, rows) == {};
    }
  }

  /** The grid splits into its first cols - 1 columns and its last column. */
  lemma LastColumn(cols: nat, rows: nat)
    requires cols > 0
    ensures AllPositions(cols, rows) == AllPositions(cols - 1, rows) + Column(cols - 1, rows)
    ensures AllPositions(cols - 1, rows) !! Column(cols - 1, rows)
  {
  }

  /** A cols-by-rows grid has cols * rows cells. */
  lemma {:induction false} GridSize(cols: nat, rows: nat)
    ensures |AllPositions(cols, rows)| == cols * rows
  {
    if cols > 0 {
      GridSize(cols - 1, rows);
      ColumnSize(cols - 1, rows);
      LastColumn(cols, rows);
      assert (cols - 1) * rows + rows == cols * rows;
    } else {
      assert AllPositions(cols, rows) == {};
    }
  }
}
