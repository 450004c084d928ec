# Grid A* and CSP timetable search, modelled in Dafny

This project models the algorithmic core of two small Java programs and proves
properties of the model.

- `grid_search.dfy` (module `GridSearch`) models `AStarComparison.aStar`: A* search on an
  N x N grid of free cells (0) and obstacles (1), with unit-cost 4-directional moves.
  The open list is a min-`f` priority queue with lazy deletion, so a cell may be queued
  several times and the `visited` check runs when an entry is polled. The result is the
  length of the goal node's parent chain, or "unreachable" (`None`, which stands for the
  Java code's positive infinity). Also modelled: `Node.f`, `Grid.isValid` and the
  Manhattan and Chebyshev (diagonal) heuristics. `g` and the result are integers.
  - Parent references are indices into an arena of expanded nodes; -1 stands for `null`.
  - The open list is a sequence. Any entry of minimal `f` may be polled, so ties are
    nondeterministic.
  - The heuristic is a parameter of type `(Point, Point) -> int`.
- `timetable.dfy` (module `Timetable`) models `CSP_Timetable`: a timetable where every
  time slot gets one subject. It has two search strategies:
  - chronological backtracking (`backtrack`);
  - backtracking with forward checking (`backtrackForward`, `forwardCheck`, `deepCopy`).

  The shared static state becomes the fields of the class `Solver`: the `assignment`
  map, the insertion-ordered `unassigned` set and the `backtracks` counter.
  - `Slot` does not override `equals`/`hashCode`, so it is a class. Maps and sets
    compare slots by reference, while `isConsistent` compares `(day, period)`.
  - A domain list is a `SubjectList` object, so a deep copy really gives new lists.
  - The `LinkedHashSet` is a duplicate-free sequence. `add` re-appends at the end, so
    undoing a step restores the set's contents but not its order.
  - The two runs of `main` are modelled as `PlainRun` and `ForwardRun`: the 20 slots
    and the 5 subjects, without timing or printing.
- `wrappers.dfy` (module `Wrappers`) holds the `Option` type.

On the setup of `main` (20 slots, 5 subjects):

- `forwardCheck` removes the chosen subject from every other slot's list, so a successful
  forward search would need 20 pairwise different subjects. `ForwardRun` proves that the
  forward-checking search fails there after at least one backtrack.
- `PlainRun` proves that plain backtracking succeeds there without backtracking.

## Model

| member | source | states |
|---|---|---|
| GridSearch.F | AStarComparison.java:19 | the priority key of a node, never below its cost so far `g` when the estimate `h` is non-negative (as the Manhattan and Chebyshev estimates are); `MinimalExists` shows a non-empty open list has an entry that minimises it, which `poll` returns |
| GridSearch.IsValid | AStarComparison.java:49-51 | a cell is valid exactly when it lies in the size x size box and holds 0 |
| GridSearch.Manhattan | AStarComparison.java:103 | the Manhattan heuristic is non-negative and is zero exactly when the two points are equal |
| GridSearch.Chebyshev | AStarComparison.java:105 | the diagonal heuristic is non-negative, is zero exactly when the points are equal, and Chebyshev <= Manhattan <= 2 * Chebyshev |
| GridSearch.HeuristicsConsistent | AStarComparison.java:103-105 | both heuristics change by at most one across a unit orthogonal step (they are consistent) |
| GridSearch.RectSize | AStarComparison.java:60 | the `visited` matrix covers exactly size * size cells, which bounds the number of expansions |
| GridSearch.AdjacentIsStep | AStarComparison.java:66 | the four entries of `dirs` reach exactly the 4-adjacent cells |
| GridSearch.WalkNoShorterThanManhattan | AStarComparison.java:80-83 | every walk of unit orthogonal moves takes at least the Manhattan distance between its ends |
| GridSearch.TraceConnects | AStarComparison.java:83-85 | starting from the start node (g = 0, line 61), a node's `g` is the number of links in its parent chain, and that chain is a path of free, 4-adjacent cells from `start` |
| GridSearch.MinimalExists | AStarComparison.java:59-69 | a non-empty open list has an entry of least `f` = g + h (`Node.f`, line 19), which `poll` returns |
| GridSearch.PopCells | AStarComparison.java:69 | polling an entry removes at most that entry's cell from the cells in the open list |
| GridSearch.DiscardKeepsCover | AStarComparison.java:77 | dropping a polled entry whose cell is already visited keeps every free neighbour of a visited cell visited or queued |
| GridSearch.ExpandKeepsCover | AStarComparison.java:78-87 | expanding a cell keeps every free neighbour of a visited cell visited or queued |
| GridSearch.ClosedSetHoldsPath | AStarComparison.java:68-88 | a set of cells that holds `start` and is closed under free 4-adjacency holds every cell a free path reaches, so an exhausted open list means the goal is unreachable |
| GridSearch.PushNeighbours | AStarComparison.java:80-87 | at most four nodes are pushed; each is a free, unvisited neighbour of `curr` with `g + 1` and `curr` as parent; the earlier entries are kept; each new node has `curr` as parent, g = curr.g + 1, h = the heuristic from its cell to the goal, and a cell 4-adjacent to `curr` that is not visited; every free, unvisited neighbour gets a new entry even when its cell is already queued (so duplicates arise); afterwards every free neighbour is visited or queued |
| GridSearch.Expand | AStarComparison.java:77-87 | the polled cell is marked visited exactly once; the visited count equals the expanded-node count and stays at most size * size; every node keeps a valid parent link; each newly pushed node has `curr` (the last arena entry) as parent, g = curr.g + 1, h = the heuristic from its cell to the goal, and an unvisited cell 4-adjacent to `curr`; every free, unvisited neighbour of `curr` gets a new entry |
| GridSearch.Search | AStarComparison.java:58-88 | the loop terminates; a returned goal node is linked to `start` through its parents; with no goal node, the visited cells hold `start`, not the goal, and are closed under free adjacency; pushes <= 1 + 4 * expansions <= 1 + 4 * size * size |
| GridSearch.AStar | AStarComparison.java:58-99 | a finite result is the goal node's parent-chain length, with a free 4-adjacent path of that many moves from start to goal, and it is at least the positive Manhattan distance; the result is unreachable exactly when start == goal or no free path joins them; pushes <= 1 + 4 * size * size |
| Timetable.Slot.constructor | CSP_Timetable.java:6 | a new slot holds the given day and period, which never change afterwards |
| Timetable.IsConsistent | CSP_Timetable.java:20-25 | true exactly when no assigned slot has the same day and period; the subject is ignored |
| Timetable.SelectUnassignedVariable | CSP_Timetable.java:28-30 | the chosen slot is pending, and removing it leaves the other slots in their insertion order |
| Timetable.OrderDomainValues | CSP_Timetable.java:33-37 | the result is a permutation of the five subjects |
| Timetable.Without | CSP_Timetable.java:47 | `LinkedHashSet.remove` removes exactly that slot, keeps the rest duplicate-free, and shrinks the set when the slot was present |
| Timetable.Add | CSP_Timetable.java:49 | `LinkedHashSet.add` adds exactly that slot and keeps the set duplicate-free |
| Timetable.AddBack | CSP_Timetable.java:47-49 | adding back a removed slot restores the pending set's contents and size |
| Timetable.RemoveFirst | CSP_Timetable.java:79 | `List.remove(Object)` shortens the list by one exactly when the value is present |
| Timetable.RemoveFirstCount | CSP_Timetable.java:79 | `List.remove(Object)` takes out exactly one copy of a present value and leaves the list unchanged otherwise |
| Timetable.RemoveFirstDistinct | CSP_Timetable.java:79 | on a duplicate-free list the value is gone afterwards and the list stays duplicate-free |
| Timetable.RemoveFirstKeeps | CSP_Timetable.java:79 | removal adds no value to a list |
| Timetable.SubjectList.constructor | CSP_Timetable.java:89 | `new ArrayList<>(list)`: a new list with exactly the given contents |
| Timetable.SubjectList.Remove | CSP_Timetable.java:79 | the list loses the first occurrence of the value |
| Timetable.DeepCopy | CSP_Timetable.java:86-91 | the copy has the same keys and, for each key, a new list with the same contents; no two keys share a list |
| Timetable.ForwardCheck | CSP_Timetable.java:76-84 | it fails exactly when some slot other than `var` has no list left after removing the first occurrence of the value; on success every other slot's list lost that occurrence and `var`'s list is unchanged; on failure each list is either unchanged or pruned |
| Timetable.PrunedCopy | CSP_Timetable.java:63-64 | deep copy then forward check: the same failure condition; on success the copy holds the pruned lists; the caller's lists are not modified |
| Timetable.PrunedDistinct | CSP_Timetable.java:79-80 | pruning keeps duplicate-free domains duplicate-free |
| Timetable.TimesFreeStep | CSP_Timetable.java:46-48 | when no pending slot clashes with another slot or an assigned one, assigning the first pending slot keeps that so for the rest |
| Timetable.ExtendSuccess | CSP_Timetable.java:45-48 | assigning a consistent value, then completing the other pending slots, completes all of them without clashes, from subjects, keeping earlier entries |
| Timetable.ForwardSuccess | CSP_Timetable.java:61-67 | assigning a value, pruning it, then completing the rest from the pruned lists completes all slots from their own domains, with pairwise different subjects when the lists are duplicate-free |
| Timetable.Pigeonhole | CSP_Timetable.java:76-84 | slots with pairwise different subjects drawn from a set are no more numerous than that set |
| Timetable.Solver.constructor | CSP_Timetable.java:102-105 | a run starts with an empty assignment, no backtracks and the given slots pending |
| Timetable.Solver.Backtrack | CSP_Timetable.java:39-55 | on failure the assignment and the pending set's contents are restored and `backtracks` grew; on success nothing is pending, every pending slot got a subject, earlier entries are unchanged, and no new slot clashes with another; with no clashes possible it succeeds without a backtrack |
| Timetable.Solver.TryValue | CSP_Timetable.java:45-51 | one value: on failure the state is restored; on success all pending slots are done; it fails only when a clash is possible |
| Timetable.Solver.Undo | CSP_Timetable.java:49-50 | the slot goes back to the end of the pending set and loses its subject, restoring the assignment and the pending set's contents |
| Timetable.Solver.BacktrackForward | CSP_Timetable.java:58-74 | modifies only the solver, never the caller's lists; on failure the assignment and pending contents are restored and `backtracks` grew; on success every pending slot got a subject from its own domain and earlier entries are unchanged; with duplicate-free lists the new subjects are pairwise different |
| Timetable.Solver.Descend | CSP_Timetable.java:65-69 | after forward checking succeeds: remove the slot, search the rest with the pruned lists, and re-add the slot on failure |
| Timetable.AllSlots | CSP_Timetable.java:96-99 | 20 newly allocated slots, the i-th with day i / 4 + 1 and period i % 4 + 1 |
| Timetable.GeneratedSlotsFree | CSP_Timetable.java:96-99 | the generated slots are pairwise different objects with pairwise different times |
| Timetable.SubjectsDistinct | CSP_Timetable.java:10 | the five subjects are pairwise different |
| Timetable.PlainRun | CSP_Timetable.java:101-105 | plain backtracking on main's slots succeeds with zero backtracks and assigns all 20 slots a subject |
| Timetable.ForwardRun | CSP_Timetable.java:110-118 | forward checking on main's slots, each with the full subject list, fails after at least one backtrack |

## Left out

- Both `main` methods are modelled only as far as `PlainRun` and `ForwardRun` go: no printing, timing, trial loops or averages.
- `Grid.generateGrid` and the `Grid` constructor use `Math.random` and `Random`. Their outcome is an input: `AStar` requires a free start cell. `AStar` does not require start != goal; it returns `None` when they are equal, as the Java code does.
- The Euclidean heuristic (`Math.hypot`) and all `double` arithmetic are floating point. Costs, estimates and the result are integers, and `None` stands for positive infinity.
- The `nodesExpanded` counter of `aStar` is never read, so it is not modelled. The ghost result `expansions` counts the cells marked visited instead.
- The internals of `PriorityQueue`, `HashMap` and `LinkedHashSet` are not modelled. Tie order and map iteration order are arbitrary choices.
- `Collections.shuffle` is modelled as an arbitrary permutation.
- GridSearch.AStar: does not state that a finite result is the shortest path length (the optimality of A* with a consistent heuristic). It also does not state that the result equals the Manhattan distance on an obstacle-free grid.
- Timetable.Solver.Backtrack: `backtracks` is unbounded, while Java's `int` would wrap after 2^31 - 1 increments.
- Timetable.ForwardCheck: on failure, which lists were already pruned depends on the map's iteration order. The model says only that each list is unchanged or pruned.
- How the two strategies' backtrack counts compare is not modelled. It depends on random value orders.
- The unused `teachers` and `rooms` arrays and `Slot.toString` are not part of this model.
