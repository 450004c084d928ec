/**
 * A* search on an N x N occupancy grid with unit-cost, 4-directional moves
 * (AStarComparison.aStar). The frontier is a priority queue with lazy
 * deletion: a cell may sit in it several times and the `visited` check is made
 * when an entry is popped. The result is the number of parent links from the
 * goal node back to the start node, or "unreachable" (`None`, the Java code's
 * positive infinity).
 *
 * Parent references are modelled as indices into an arena of expanded nodes
 * (-1 stands for `null`); the frontier is a sequence from which any entry of
 * minimal `f` may be taken, so ties are broken nondeterministically.
 */
module GridSearch {
  import opened Wrappers

  /** A cell (x, y); `x` selects the row of the grid matrix, `y` the column. */
  type Point = (int, int)

  /** A search node: cell, cost so far `g`, estimate `h`, parent index (-1 for none). */
  datatype Node = Node(x: int, y: int, g: nat, h: int, parent: int)

  function Pos(n: Node): Point { (n.x, n.y) }

  /** Node.f: the priority key of the open list; with a non-negative estimate it never undercuts the cost so far. */
  function F(n: Node): (f: int)
    ensures n.h >= 0 ==> f >= n.g
  {
    n.g + n.h
  }

  /** The grid: `cells[x][y] == 0` is a free cell, 1 an obstacle. */
  datatype Grid = Grid(size: nat, cells: seq<seq<int>>, start: Point, goal: Point)

  ghost predicate WellFormed(grid: Grid) {
    |grid.cells| == grid.size &&
    forall x :: 0 <= x < grid.size ==> |grid.cells[x]| == grid.size
  }

  // ----- the size x size box of cells and its cardinality -----

  ghost function Row(x: int, cols: nat): set<Point> {
    set y | 0 <= y < cols :: (x, y)
  }

  ghost function Rect(rows: nat, cols: nat): set<Point> {
    set x, y | 0 <= x < rows && 0 <= y < cols :: (x, y)
  }

  lemma {:induction false} RowSize(x: int, cols: nat)
    ensures |Row(x, cols)| == cols
  {
    if cols > 0 {
      RowSize(x, cols - 1);
      assert Row(x, cols) == Row(x, cols - 1) + {(x, cols - 1)};
    }
  }

  /** A box with one more row is the smaller box plus that row, which it does not overlap. */
  lemma RectSplit(rows: nat, cols: nat)
    requires rows > 0
    ensures Rect(rows, cols) == Rect(rows - 1, cols) + Row(rows - 1, cols)
    ensures Rect(rows - 1, cols) !! Row(rows - 1, cols)
  {
  }

  lemma MulStep(a: nat, b: nat)
    ensures (a + 1) * b == a * b + b
  {
  }

  /** The grid has exactly rows * cols cells. */
  lemma {:induction false} RectSize(rows: nat, cols: nat)
    ensures |Rect(rows, cols)| == rows * cols
  {
    if rows > 0 {
      RectSize(rows - 1, cols);
      RowSize(rows - 1, cols);
      RectSplit(rows, cols);
      MulStep(rows - 1, cols);
    }
  }

  lemma {:induction false} SubsetNoLarger(a: set<Point>, b: set<Point>)
    requires a <= b
    ensures |a| <= |b|
    decreases |a|
  {
    if a != {} {
      var x :| x in a;
      SubsetNoLarger(a - {x}, b - {x});
    }
  }

  /** Grid.isValid: a cell is valid exactly when it lies in the size x size box and is free. */
  function IsValid(grid: Grid, x: int, y: int): (valid: bool)
    requires WellFormed(grid)
    ensures valid <==> (x, y) in Rect(grid.size, grid.size) && grid.cells[x][y] == 0
  {
    x >= 0 && y >= 0 && x < grid.size && y < grid.size && grid.cells[x][y] == 0
  }

  // ----- heuristics (the lambdas of main) -----

  function Abs(v: int): nat { if v < 0 then -v else v }

  /** The Manhattan heuristic: zero exactly on equal points. */
  function Manhattan(a: Point, b: Point): (d: nat)
    ensures d == 0 <==> a == b
  {
    Abs(a.0 - b.0) + Abs(a.1 - b.1)
  }

  /** The diagonal (Chebyshev) heuristic: zero exactly on equal points, and never above Manhattan. */
  function Chebyshev(a: Point, b: Point): (d: nat)
    ensures d == 0 <==> a == b
    ensures d <= Manhattan(a, b) <= 2 * d
  {
    if Abs(a.0 - b.0) >= Abs(a.1 - b.1) then Abs(a.0 - b.0) else Abs(a.1 - b.1)
  }

  /** Both heuristics change by at most one across a unit orthogonal step (consistency). */
  lemma HeuristicsConsistent(a: Point, a': Point, b: Point)
    requires Adjacent(a, a')
    ensures Manhattan(a, b) <= Manhattan(a', b) + 1
    ensures Chebyshev(a, b) <= Chebyshev(a', b) + 1
  {
  }

  // ----- moves and paths -----

  /** The four moves of `dirs`, in the order the Java code tries them. */
  const Dirs: seq<Point> := [(1, 0), (-1, 0), (0, 1), (0, -1)]

  function Step(c: Point, k: int): Point
    requires 0 <= k < 4
  {
    (c.0 + Dirs[k].0, c.1 + Dirs[k].1)
  }

  /** Two cells are 4-adjacent when they are one unit apart. */
  predicate Adjacent(a: Point, b: Point) {
    Manhattan(a, b) == 1
  }

  /** Every 4-adjacent cell is reached by one of the four moves, and every move reaches one. */
  lemma AdjacentIsStep(a: Point, b: Point) returns (k: int)
    ensures Adjacent(a, b) ==> 0 <= k < 4 && Step(a, k) == b
    ensures forall j :: 0 <= j < 4 ==> Adjacent(a, Step(a, j))
  {
    k := if b.0 == a.0 + 1 then 0 else if b.0 == a.0 - 1 then 1 else if b.1 == a.1 + 1 then 2 else 3;
  }

  /** A walk: consecutive cells are 4-adjacent. */
  ghost predicate Walk(p: seq<Point>) {
    forall i :: 0 <= i < |p| - 1 ==> Adjacent(p[i], p[i + 1])
  }

  /** A path of free cells from `a` to `b`; it takes |p| - 1 moves. */
  ghost predicate Connects(grid: Grid, p: seq<Point>, a: Point, b: Point)
    requires WellFormed(grid)
  {
    |p| > 0 && p[0] == a && p[|p| - 1] == b && Walk(p) &&
    forall i :: 0 <= i < |p| ==> IsValid(grid, p[i].0, p[i].1)
  }

  ghost predicate Reachable(grid: Grid)
    requires WellFormed(grid)
  {
    exists p :: Connects(grid, p, grid.start, grid.goal)
  }

  /** No walk is shorter than the Manhattan distance between its ends. */
  lemma {:induction false} WalkNoShorterThanManhattan(p: seq<Point>)
    requires |p| > 0 && Walk(p)
    ensures |p| - 1 >= Manhattan(p[0], p[|p| - 1])
  {
    if |p| > 1 {
      var q := p[..|p| - 1];
      assert Walk(q) by {
        forall i | 0 <= i < |q| - 1 ensures Adjacent(q[i], q[i + 1]) {
          assert q[i] == p[i] && q[i + 1] == p[i + 1];
        }
      }
      WalkNoShorterThanManhattan(q);
      assert Adjacent(p[|p| - 2], p[|p| - 1]);
    }
  }

  // ----- the closed set -----

  /** Every free neighbour of a cell of `vis` is in `vis` or in `border`. */
  ghost predicate Covered(grid: Grid, vis: set<Point>, border: set<Point>)
    requires WellFormed(grid)
  {
    forall c, k :: c in vis && 0 <= k < 4 && IsValid(grid, Step(c, k).0, Step(c, k).1) ==>
      Step(c, k) in vis || Step(c, k) in border
  }

  /**
   * A set of cells closed under free 4-adjacency that holds the first cell of a
   * path holds all of it.
   */
  lemma {:induction false} ClosedSetHoldsPath(grid: Grid, vis: set<Point>, p: seq<Point>, a: Point, b: Point)
    requires WellFormed(grid) && Connects(grid, p, a, b)
    requires a in vis && Covered(grid, vis, {})
    ensures b in vis
  {
    if |p| > 1 {
      var q := p[..|p| - 1];
      assert Connects(grid, q, a, p[|p| - 2]) by {
        forall i | 0 <= i < |q| - 1 ensures Adjacent(q[i], q[i + 1]) {
          assert q[i] == p[i] && q[i + 1] == p[i + 1];
        }
        assert Walk(q);
        forall i | 0 <= i < |q| ensures IsValid(grid, q[i].0, q[i].1) {
          assert q[i] == p[i];
        }
      }
      ClosedSetHoldsPath(grid, vis, q, a, p[|p| - 2]);
      assert Adjacent(p[|p| - 2], b);
      var k := AdjacentIsStep(p[|p| - 2], b);
      assert IsValid(grid, Step(p[|p| - 2], k).0, Step(p[|p| - 2], k).1);
    }
  }

  // ----- the node arena and the parent chain -----

  /**
   * `n` is a node created by the search: a free cell; the start node if it has
   * no parent, otherwise one move away from its parent, with one more unit of cost.
   * Its parent index is below `bound`.
   */
  ghost predicate Linked(grid: Grid, arena: seq<Node>, n: Node, bound: int)
    requires WellFormed(grid)
  {
    IsValid(grid, n.x, n.y) && -1 <= n.parent < bound && n.parent < |arena| &&
    (n.parent == -1 ==> Pos(n) == grid.start && n.g == 0) &&
    (n.parent >= 0 ==> Adjacent(Pos(arena[n.parent]), Pos(n)) && n.g == arena[n.parent].g + 1)
  }

  /** Every expanded node's parent was expanded before it. */
  ghost predicate ArenaOk(grid: Grid, arena: seq<Node>)
    requires WellFormed(grid)
  {
    forall i :: 0 <= i < |arena| ==> Linked(grid, arena, arena[i], i)
  }

  ghost predicate FrontierOk(grid: Grid, arena: seq<Node>, open: seq<Node>)
    requires WellFormed(grid)
  {
    forall i :: 0 <= i < |open| ==> Linked(grid, arena, open[i], |arena|)
  }

  /** The cells of the chain of parents ending at `n`, start first. */
  ghost function Trace(grid: Grid, arena: seq<Node>, n: Node): seq<Point>
    requires WellFormed(grid) && ArenaOk(grid, arena) && Linked(grid, arena, n, |arena|)
    decreases n.parent + 1
  {
    if n.parent == -1 then [Pos(n)]
    else
      assert Linked(grid, arena, arena[n.parent], n.parent);
      Trace(grid, arena, arena[n.parent]) + [Pos(n)]
  }

  /** A node's cost `g` is the number of links in its parent chain, which is a free path from the start. */
  lemma {:induction false} TraceConnects(grid: Grid, arena: seq<Node>, n: Node)
    requires WellFormed(grid) && ArenaOk(grid, arena) && Linked(grid, arena, n, |arena|)
    ensures |Trace(grid, arena, n)| == n.g + 1
    ensures Connects(grid, Trace(grid, arena, n), grid.start, Pos(n))
    decreases n.parent + 1
  {
    if n.parent != -1 {
      var m := arena[n.parent];
      assert Linked(grid, arena, m, n.parent);
      TraceConnects(grid, arena, m);
      var t := Trace(grid, arena, m);
      assert Trace(grid, arena, n) == t + [Pos(n)];
      forall i | 0 <= i < |t| ensures (t + [Pos(n)])[i] == t[i] { }
    }
  }

  // ----- the open list -----

  ghost function OpenCells(open: seq<Node>): set<Point> {
    set n | n in open :: Pos(n)
  }

  /** Removing entry k loses at most that entry's cell. */
  lemma PopCells(open: seq<Node>, k: int)
    requires 0 <= k < |open|
    ensures OpenCells(open) <= OpenCells(open[..k] + open[k + 1..]) + {Pos(open[k])}
  {
    var rest := open[..k] + open[k + 1..];
    forall n | n in open && n != open[k] ensures n in rest {
      var j :| 0 <= j < |open| && open[j] == n;
      if j < k { assert rest[j] == n; } else { assert rest[j - 1] == n; }
    }
  }

  /** `open[k]` has the least `f` of the open list. */
  predicate IsMinimal(open: seq<Node>, k: int)
    requires 0 <= k < |open|
  {
    forall j :: 0 <= j < |open| ==> F(open[k]) <= F(open[j])
  }

  /** A non-empty open list has an entry of least `f` (PriorityQueue.poll can return). */
  lemma {:induction false} MinimalExists(open: seq<Node>) returns (k: int)
    requires |open| > 0
    ensures 0 <= k < |open| && IsMinimal(open, k)
  {
    if |open| == 1 {
      k := 0;
    } else {
      var front := open[..|open| - 1];
      var m := MinimalExists(front);
      assert forall j :: 0 <= j < |front| ==> front[j] == open[j];
      k := if F(open[|open| - 1]) < F(open[m]) then |open| - 1 else m;
    }
  }

  // ----- bookkeeping of one iteration of the main loop -----

  /** Appending an expanded node keeps every earlier link, and frontier nodes stay linked. */
  lemma ArenaGrows(grid: Grid, arena: seq<Node>, open: seq<Node>, n: Node)
    requires WellFormed(grid) && ArenaOk(grid, arena) && FrontierOk(grid, arena, open)
    requires Linked(grid, arena, n, |arena|)
    ensures ArenaOk(grid, arena + [n]) && FrontierOk(grid, arena + [n], open)
  {
    var a := arena + [n];
    forall i | 0 <= i < |a| ensures Linked(grid, a, a[i], i) {
      if i < |arena| {
        assert Linked(grid, arena, arena[i], i);
        if arena[i].parent >= 0 { assert a[arena[i].parent] == arena[arena[i].parent]; }
      } else {
        if n.parent >= 0 { assert a[n.parent] == arena[n.parent]; }
      }
    }
    forall i | 0 <= i < |open| ensures Linked(grid, a, open[i], |a|) {
      assert Linked(grid, arena, open[i], |arena|);
      if open[i].parent >= 0 { assert a[open[i].parent] == arena[open[i].parent]; }
    }
  }

  /** Removing an entry keeps the rest of the frontier linked. */
  lemma FrontierShrinks(grid: Grid, arena: seq<Node>, open: seq<Node>, k: int)
    requires WellFormed(grid) && FrontierOk(grid, arena, open) && 0 <= k < |open|
    ensures FrontierOk(grid, arena, open[..k] + open[k + 1..])
  {
    var rest := open[..k] + open[k + 1..];
    forall i | 0 <= i < |rest| ensures Linked(grid, arena, rest[i], |arena|) {
      if i < k { assert rest[i] == open[i]; } else { assert rest[i] == open[i + 1]; }
    }
  }

  /** A popped entry whose cell was already visited can be dropped (lazy deletion). */
  lemma DiscardKeepsCover(grid: Grid, vis: set<Point>, c: Point, before: set<Point>, after: set<Point>)
    requires WellFormed(grid) && Covered(grid, vis, before)
    requires c in vis && before <= after + {c}
    ensures Covered(grid, vis, after)
  {
  }

  /**
   * Expanding cell `c` keeps the cover: its free neighbours are visited or now
   * in the open list, and the open list lost nothing but `c`.
   */
  lemma ExpandKeepsCover(grid: Grid, vis: set<Point>, c: Point, before: set<Point>, after: set<Point>)
    requires WellFormed(grid) && Covered(grid, vis, before) && before <= after + {c}
    requires forall j :: 0 <= j < 4 && IsValid(grid, Step(c, j).0, Step(c, j).1) ==>
               Step(c, j) in vis + {c} || Step(c, j) in after
    ensures Covered(grid, vis + {c}, after)
  {
  }

  // ----- the search -----

  /**
   * The neighbour loop of aStar: pushes a node for each free, unvisited
   * neighbour of `curr`, whose index in the arena is `ci`.
   */
  method PushNeighbours(grid: Grid, visited: array2<bool>, heuristic: (Point, Point) -> int,
                        ghost arena: seq<Node>, ghost vis: set<Point>, curr: Node, ci: int, open: seq<Node>)
    returns (open': seq<Node>)
    requires WellFormed(grid) && visited.Length0 == grid.size && visited.Length1 == grid.size
    requires forall i, j :: 0 <= i < grid.size && 0 <= j < grid.size ==> (visited[i, j] <==> (i, j) in vis)
    requires 0 <= ci < |arena| && arena[ci] == curr && IsValid(grid, curr.x, curr.y)
    requires FrontierOk(grid, arena, open)
    ensures |open| <= |open'| <= |open| + 4 && open'[..|open|] == open
    ensures FrontierOk(grid, arena, open')
    ensures forall i :: |open| <= i < |open'| ==> Pos(open'[i]) !in vis
    ensures forall i :: |open| <= i < |open'| ==>
              open'[i].parent == ci && open'[i].g == curr.g + 1 && Adjacent(Pos(curr), Pos(open'[i]))
    ensures forall i :: |open| <= i < |open'| ==> open'[i].h == heuristic(Pos(open'[i]), grid.goal)
    ensures forall j :: 0 <= j < 4 && IsValid(grid, Step(Pos(curr), j).0, Step(Pos(curr), j).1) && Step(Pos(curr), j) !in vis ==>
              exists i :: |open| <= i < |open'| && Pos(open'[i]) == Step(Pos(curr), j)
    ensures OpenCells(open) <= OpenCells(open')
    ensures forall j :: 0 <= j < 4 && IsValid(grid, Step(Pos(curr), j).0, Step(Pos(curr), j).1) ==>
              Step(Pos(curr), j) in vis || Step(Pos(curr), j) in OpenCells(open')
  {
    ghost var c := Pos(curr);
    open' := open;
    for d := 0 to 4
      invariant |open| <= |open'| <= |open| + d && open'[..|open|] == open
      invariant FrontierOk(grid, arena, open')
      invariant forall i :: |open| <= i < |open'| ==> Pos(open'[i]) !in vis
      invariant forall i :: |open| <= i < |open'| ==>
                  open'[i].parent == ci && open'[i].g == curr.g + 1 && Adjacent(c, Pos(open'[i]))
      invariant forall i :: |open| <= i < |open'| ==> open'[i].h == heuristic(Pos(open'[i]), grid.goal)
      invariant forall j :: 0 <= j < d && IsValid(grid, Step(c, j).0, Step(c, j).1) && Step(c, j) !in vis ==>
                  exists i :: |open| <= i < |open'| && Pos(open'[i]) == Step(c, j)
      invariant OpenCells(open) <= OpenCells(open')
      invariant forall j :: 0 <= j < d && IsValid(grid, Step(c, j).0, Step(c, j).1) ==>
                  Step(c, j) in vis || Step(c, j) in OpenCells(open')
    {
      ghost var prev := open';
      var nx, ny := curr.x + Dirs[d].0, curr.y + Dirs[d].1;
      if IsValid(grid, nx, ny) && !visited[nx, ny] {
        var next := Node(nx, ny, curr.g + 1, heuristic((nx, ny), grid.goal), ci);
        ghost var _ := AdjacentIsStep(c, (nx, ny));
        assert Linked(grid, arena, next, |arena|);
        open' := open' + [next];
        assert next in open';
      }
      forall j | 0 <= j < d + 1 && IsValid(grid, Step(c, j).0, Step(c, j).1) && Step(c, j) !in vis
        ensures exists i :: |open| <= i < |open'| && Pos(open'[i]) == Step(c, j)
      {
        if j < d {
          var i :| |open| <= i < |prev| && Pos(prev[i]) == Step(c, j);
          assert open'[i] == prev[i];
        } else {
          assert Pos(open'[|open'| - 1]) == Step(c, j);
        }
      }
    }
  }

  /**
   * One expansion of aStar's main loop: mark the popped cell visited, and push
   * a node for each free, unvisited neighbour, with `curr` as its parent.
   * `before` is the set of cells the open list held before `curr` was popped.
   */
  method Expand(grid: Grid, visited: array2<bool>, heuristic: (Point, Point) -> int,
                expanded: seq<Node>, ghost vis: set<Point>, curr: Node, open: seq<Node>, ghost before: set<Point>)
    returns (expanded': seq<Node>, open': seq<Node>, ghost vis': set<Point>)
    requires WellFormed(grid) && visited.Length0 == grid.size && visited.Length1 == grid.size
    requires forall i, j :: 0 <= i < grid.size && 0 <= j < grid.size ==> (visited[i, j] <==> (i, j) in vis)
    requires vis <= Rect(grid.size, grid.size) && |vis| == |expanded|
    requires ArenaOk(grid, expanded) && FrontierOk(grid, expanded, open)
    requires Linked(grid, expanded, curr, |expanded|) && Pos(curr) !in vis
    requires Covered(grid, vis, before) && before <= OpenCells(open) + {Pos(curr)}
    modifies visited
    ensures vis' == vis + {Pos(curr)} && expanded' == expanded + [curr]
    ensures forall i, j :: 0 <= i < grid.size && 0 <= j < grid.size ==> (visited[i, j] <==> (i, j) in vis')
    ensures vis' <= Rect(grid.size, grid.size) && |vis'| <= grid.size * grid.size && |vis'| == |expanded'|
    ensures ArenaOk(grid, expanded') && FrontierOk(grid, expanded', open')
    ensures |open| <= |open'| <= |open| + 4 && open'[..|open|] == open
    ensures forall i :: |open| <= i < |open'| ==>
              open'[i].parent == |expanded| && open'[i].g == curr.g + 1 && Adjacent(Pos(curr), Pos(open'[i]))
    ensures forall i :: |open| <= i < |open'| ==> open'[i].h == heuristic(Pos(open'[i]), grid.goal) && Pos(open'[i]) !in vis'
    ensures forall j :: 0 <= j < 4 && IsValid(grid, Step(Pos(curr), j).0, Step(Pos(curr), j).1) && Step(Pos(curr), j) !in vis' ==>
              exists i :: |open| <= i < |open'| && Pos(open'[i]) == Step(Pos(curr), j)
    ensures Covered(grid, vis', OpenCells(open'))
    ensures OpenCells(open) <= OpenCells(open')
  {
    visited[curr.x, curr.y] := true;
    vis' := vis + {Pos(curr)};
    ArenaGrows(grid, expanded, open, curr);
    expanded' := expanded + [curr];
    open' := PushNeighbours(grid, visited, heuristic, expanded', vis', curr, |expanded'| - 1, open);
    ExpandKeepsCover(grid, vis, Pos(curr), before, OpenCells(open'));
    RectSize(grid.size, grid.size);
    SubsetNoLarger(vis', Rect(grid.size, grid.size));
  }

  /**
   * The main loop of aStar (the open list, the visited matrix and the node
   * expansions). It stops when the goal is popped, returning the goal node, or
   * when the open list runs out. `vis` is the set of visited cells, `expanded`
   * the arena of expanded nodes and `pushes` the number of nodes added to the
   * open list.
   */
  method Search(grid: Grid, heuristic: (Point, Point) -> int)
    returns (goalNode: Option<Node>, expanded: seq<Node>, ghost vis: set<Point>, ghost pushes: nat)
    requires WellFormed(grid)
    requires IsValid(grid, grid.start.0, grid.start.1)
    ensures ArenaOk(grid, expanded)
    ensures goalNode.Some? ==> Linked(grid, expanded, goalNode.value, |expanded|) && Pos(goalNode.value) == grid.goal
    ensures goalNode.None? ==> grid.start in vis && grid.goal !in vis && Covered(grid, vis, {})
    ensures grid.start == grid.goal ==> expanded == []
    ensures |vis| <= grid.size * grid.size && pushes <= 1 + 4 * |vis|
  {
    var visited := new bool[grid.size, grid.size]((i, j) => false);
    var startNode := Node(grid.start.0, grid.start.1, 0, heuristic(grid.start, grid.goal), -1);
    var open := [startNode];
    expanded := [];
    vis := {};
    pushes := 1;
    goalNode := None;
    RectSize(grid.size, grid.size);
    assert Pos(startNode) in OpenCells(open);

    while open != []
      invariant visited.Length0 == grid.size && visited.Length1 == grid.size
      invariant forall i, j :: 0 <= i < grid.size && 0 <= j < grid.size ==> (visited[i, j] <==> (i, j) in vis)
      invariant vis <= Rect(grid.size, grid.size) && |vis| <= grid.size * grid.size
      invariant |vis| == |expanded| && grid.goal !in vis
      invariant ArenaOk(grid, expanded) && FrontierOk(grid, expanded, open)
      invariant Covered(grid, vis, OpenCells(open))
      invariant grid.start in vis || grid.start in OpenCells(open)
      invariant grid.start == grid.goal ==> expanded == []
      invariant pushes <= 1 + 4 * |vis|
      invariant goalNode.None?
      decreases grid.size * grid.size - |vis|, |open|
    {
      ghost var m := MinimalExists(open);
      var k :| 0 <= k < |open| && IsMinimal(open, k);
      var curr := open[k];
      assert Linked(grid, expanded, curr, |expanded|);
      PopCells(open, k);
      FrontierShrinks(grid, expanded, open, k);
      ghost var before := OpenCells(open);
      open := open[..k] + open[k + 1..];

      if curr.x == grid.goal.0 && curr.y == grid.goal.1 {
        goalNode := Some(curr);
        break;
      }

      if visited[curr.x, curr.y] {
        DiscardKeepsCover(grid, vis, Pos(curr), before, OpenCells(open));
        continue;
      }
      ghost var size0 := |open|;
      expanded, open, vis := Expand(grid, visited, heuristic, expanded, vis, curr, open, before);
      pushes := pushes + (|open| - size0);
    }
  }

  /**
   * AStarComparison.aStar with an integer heuristic. The start cell is free (as
   * Grid.generateGrid guarantees). The result is the number of parent links
   * from the goal node to the start node, or `None` (positive infinity) when the
   * goal was never popped or that number is zero. `path` is the chain of parents
   * of the goal node; `expansions` counts the cells marked visited and `pushes`
   * the nodes added to the open list.
   */
  method AStar(grid: Grid, heuristic: (Point, Point) -> int)
    returns (r: Option<nat>, ghost path: seq<Point>, ghost expansions: nat, ghost pushes: nat)
    requires WellFormed(grid)
    requires IsValid(grid, grid.start.0, grid.start.1)
    ensures r.Some? ==> Connects(grid, path, grid.start, grid.goal) && |path| == r.value + 1
    ensures r.Some? ==> r.value >= Manhattan(grid.start, grid.goal) > 0
    ensures r.None? <==> grid.start == grid.goal || !Reachable(grid)
    ensures expansions <= grid.size * grid.size && pushes <= 1 + 4 * expansions
    ensures pushes <= 1 + 4 * (grid.size * grid.size)
  {
    var goalNode, expanded;
    ghost var vis;
    goalNode, expanded, vis, pushes := Search(grid, heuristic);
    expansions := |vis|;

    var pathLen: nat := 0;
    path := [];
    if goalNode.Some? {
      var temp := goalNode.value;
      while temp.parent != -1
        invariant Linked(grid, expanded, temp, |expanded|)
        invariant pathLen + temp.g == goalNode.value.g
        decreases temp.parent + 1
      {
        pathLen := pathLen + 1;
        temp := expanded[temp.parent];
      }
      TraceConnects(grid, expanded, goalNode.value);
      path := Trace(grid, expanded, goalNode.value);
    } else {
      if grid.start != grid.goal && Reachable(grid) {
        var p :| Connects(grid, p, grid.start, grid.goal);
        ClosedSetHoldsPath(grid, vis, p, grid.start, grid.goal);
      }
    }
    r := if pathLen > 0 then Some(pathLen) else None;
    if r.Some? {
      WalkNoShorterThanManhattan(path);
    }
  }
}
