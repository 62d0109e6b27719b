/**
 * The invariants the breadth-first and depth-first solvers of
 * backend/maze/solver.go keep between two pops and across one round of
 * neighbour expansion, stated over the solvers' own variables: the popped
 * points (`visited`), the waiting ones (`queue`/`stack`), the `seen` set,
 * the `cameFrom` links and, for the proofs, BFS's ghost depth labels and
 * DFS's ghost first-seen stamps.
 */
module SearchInvariants {
  import opened Common
  import opened MazeGrid

  /** The facts the search loops keep about their `cameFrom` links. */
  ghost predicate LinksSound(g: seq<seq<Cell>>, rows: int, cols: int, start: Point,
                             cameFrom: map<Point, Point>, known: set<Point>)
    requires Shaped(g, rows, cols)
  {
    start in known && cameFrom.Keys == known - {start} &&
    (forall k {:trigger k in cameFrom} :: k in cameFrom ==> cameFrom[k] in known && Passage(g, rows, cols, cameFrom[k], k))
  }

  /**
   * The `seen` set of BFS and DFS is exactly the points already popped
   * (`visited`) or waiting (`frontier`); nothing is in both or twice in one;
   * the start is popped first.
   */
  ghost predicate Bookkeeping(start: Point, visited: seq<Point>, frontier: seq<Point>, seen: set<Point>)
  {
    (forall i :: 0 <= i < |visited| ==> visited[i] in seen) &&
    (forall j :: 0 <= j < |frontier| ==> frontier[j] in seen) &&
    (forall q {:trigger q in seen} :: q in seen ==> q in visited || q in frontier) &&
    NoDuplicates(visited) && NoDuplicates(frontier) &&
    (forall i, j :: 0 <= i < |visited| && 0 <= j < |frontier| ==> visited[i] != frontier[j]) &&
    (|visited| > 0 ==> visited[0] == start) &&
    (|visited| == 0 ==> frontier == [start])
  }

  /** What BFS and DFS keep about their bookkeeping, the grid and the `cameFrom` links. */
  ghost predicate SearchState(g: seq<seq<Cell>>, rows: int, cols: int, start: Point, visited: seq<Point>,
                              frontier: seq<Point>, seen: set<Point>, cameFrom: map<Point, Point>)
    requires Shaped(g, rows, cols)
  {
    Bookkeeping(start, visited, frontier, seen) &&
    (forall j :: 0 <= j < |frontier| ==> frontier[j] == start || InBounds(rows, cols, frontier[j])) &&
    LinksSound(g, rows, cols, start, cameFrom, seen)
  }

  /**
   * The neighbour loop of BFS and DFS has appended `pushed` to the frontier:
   * points not seen before, each reached through a passage from `curr`,
   * each now seen and linked back to `curr`; nothing else has changed.
   */
  ghost predicate Expanded(g: seq<seq<Cell>>, rows: int, cols: int, curr: Point, seen0: set<Point>, seen: set<Point>,
                           frontier0: seq<Point>, frontier: seq<Point>, cameFrom0: map<Point, Point>,
                           cameFrom: map<Point, Point>, pushed: seq<Point>)
    requires Shaped(g, rows, cols)
  {
    frontier == frontier0 + pushed &&
    NoDuplicates(pushed) &&
    (forall j :: 0 <= j < |pushed| ==> pushed[j] !in seen0 && Passage(g, rows, cols, curr, pushed[j])) &&
    (forall j :: 0 <= j < |pushed| ==> pushed[j] in seen && pushed[j] in cameFrom && cameFrom[pushed[j]] == curr) &&
    (forall q {:trigger q in seen0} :: q in seen0 ==> q in seen) &&
    (forall q {:trigger q in seen} :: q in seen ==> q in seen0 || q in pushed) &&
    (forall k {:trigger k in cameFrom0} :: k in cameFrom0 ==> k in cameFrom && cameFrom[k] == cameFrom0[k]) &&
    (forall k {:trigger k in cameFrom} :: k in cameFrom ==> k in cameFrom0 || k in pushed)
  }

  /** Every passage out of a visited point leads to a `known` point. */
  ghost predicate Explored(g: seq<seq<Cell>>, rows: int, cols: int, visited: seq<Point>, known: set<Point>)
    requires Shaped(g, rows, cols)
  {
    forall i, w {:trigger Passage(g, rows, cols, visited[i], w)} ::
      0 <= i < |visited| && Passage(g, rows, cols, visited[i], w) ==> w in known
  }

  /**
   * BFS's ghost `depth` labels: every seen point has one, the start has 0,
   * and each link adds exactly one.
   */
  ghost predicate DepthSound(start: Point, seen: set<Point>, cameFrom: map<Point, Point>, depth: map<Point, nat>)
  {
    depth.Keys == seen &&
    start in depth && depth[start] == 0 &&
    (forall k {:trigger k in cameFrom} :: k in cameFrom ==>
       k in depth && cameFrom[k] in depth && depth[k] == depth[cameFrom[k]] + 1)
  }

  /**
   * The layering of breadth-first search: the queue holds `split` points of
   * level `level` followed by points of level `level + 1`, and nothing
   * popped lies deeper than `level`.
   */
  ghost predicate Layered(visited: seq<Point>, queue: seq<Point>, depth: map<Point, nat>, level: nat, split: nat)
  {
    split <= |queue| &&
    (forall i :: 0 <= i < |visited| ==> visited[i] in depth && depth[visited[i]] <= level) &&
    (forall j :: 0 <= j < |queue| ==> queue[j] in depth && depth[queue[j]] == if j < split then level else level + 1)
  }

  /** A passage out of a popped point leads to a seen point at most one level deeper. */
  ghost predicate DepthBounded(g: seq<seq<Cell>>, rows: int, cols: int, visited: seq<Point>, seen: set<Point>,
                               depth: map<Point, nat>)
    requires Shaped(g, rows, cols)
  {
    forall i, w {:trigger Passage(g, rows, cols, visited[i], w)} :: 0 <= i < |visited| && Passage(g, rows, cols, visited[i], w) ==>
      w in seen && visited[i] in depth && w in depth && depth[w] <= depth[visited[i]] + 1
  }

  /** BFS's loop invariant, between two pops. */
  ghost predicate BfsOuter(g: seq<seq<Cell>>, rows: int, cols: int, start: Point, visited: seq<Point>,
                           queue: seq<Point>, seen: set<Point>, cameFrom: map<Point, Point>, depth: map<Point, nat>,
                           level: nat, split: nat)
    requires Shaped(g, rows, cols)
  {
    SearchState(g, rows, cols, start, visited, queue, seen, cameFrom) &&
    DepthSound(start, seen, cameFrom, depth) &&
    Layered(visited, queue, depth, level, split) &&
    DepthBounded(g, rows, cols, visited, seen, depth)
  }

  /** DFS's ghost first-seen stamps: every seen point has one below `clock`, and links go back in time. */
  ghost predicate StampsSound(seen: set<Point>, cameFrom: map<Point, Point>, stamp: map<Point, nat>, clock: nat)
  {
    stamp.Keys == seen &&
    (forall q {:trigger q in stamp} :: q in stamp ==> stamp[q] < clock) &&
    (forall k {:trigger k in cameFrom} :: k in cameFrom ==>
       k in stamp && cameFrom[k] in stamp && stamp[cameFrom[k]] < stamp[k])
  }

  /** DFS's loop invariant between two pops. */
  ghost predicate DfsOuter(g: seq<seq<Cell>>, rows: int, cols: int, start: Point, visited: seq<Point>,
                           stack: seq<Point>, seen: set<Point>, cameFrom: map<Point, Point>,
                           stamp: map<Point, nat>, clock: nat)
    requires Shaped(g, rows, cols)
  {
    SearchState(g, rows, cols, start, visited, stack, seen, cameFrom) &&
    Explored(g, rows, cols, visited, seen) &&
    StampsSound(seen, cameFrom, stamp, clock)
  }
}
