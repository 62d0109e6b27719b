/**
 * The backend solvers (backend/maze/solver.go): breadth-first, depth-first
 * and A* search from the maze's start to its end over the passages that
 * `GetNeighbors` reports, the priority queue A* uses, and the walk back
 * along the `cameFrom` links that turns a search into a path.
 */
module Solver {
  import opened Common
  import opened MazeGrid
  import opened SearchInvariants

  /** A walk of the grid from `s` to `e`: consecutive points are joined by passages. */
  ghost predicate IsPath(g: seq<seq<Cell>>, rows: int, cols: int, path: seq<Point>, s: Point, e: Point)
    requires Shaped(g, rows, cols)
  {
    |path| > 0 && path[0] == s && path[|path| - 1] == e &&
    forall i :: 0 <= i < |path| - 1 ==> Passage(g, rows, cols, path[i], path[i + 1])
  }

  ghost predicate Reachable(g: seq<seq<Cell>>, rows: int, cols: int, s: Point, e: Point)
    requires Shaped(g, rows, cols)
  {
    exists path :: IsPath(g, rows, cols, path, s, e)
  }

  /** Every passage out of a point of `explored` leads into `known`. */
  ghost predicate ClosedUnder(g: seq<seq<Cell>>, rows: int, cols: int, explored: set<Point>, known: set<Point>)
    requires Shaped(g, rows, cols)
  {
    forall v, q :: v in explored && Passage(g, rows, cols, v, q) ==> q in known
  }

  /**
   * A set that holds `s` and is closed under passages holds every point of
   * every walk from `s`: the basis of "no path was found, so none exists".
   */
  lemma {:induction false} ClosedSetHoldsWalk(g: seq<seq<Cell>>, rows: int, cols: int, s_: set<Point>, path: seq<Point>, k: nat)
    requires Shaped(g, rows, cols) && ClosedUnder(g, rows, cols, s_, s_)
    requires |path| > 0 && path[0] in s_ && k < |path|
    requires forall i :: 0 <= i < |path| - 1 ==> Passage(g, rows, cols, path[i], path[i + 1])
    ensures path[k] in s_
  {
    if k > 0 {
      ClosedSetHoldsWalk(g, rows, cols, s_, path, k - 1);
      assert Passage(g, rows, cols, path[k - 1], path[k]);
    }
  }

  lemma ClosedSetHoldsReachable(g: seq<seq<Cell>>, rows: int, cols: int, s_: set<Point>, s: Point, e: Point)
    requires Shaped(g, rows, cols) && ClosedUnder(g, rows, cols, s_, s_) && s in s_
    ensures Reachable(g, rows, cols, s, e) ==> e in s_
  {
    if Reachable(g, rows, cols, s, e) {
      var path :| IsPath(g, rows, cols, path, s, e);
      ClosedSetHoldsWalk(g, rows, cols, s_, path, |path| - 1);
    }
  }

  /** `manhattan` is non-negative, symmetric, and zero exactly on equal points. */
  lemma ManhattanProperties(p: Point, q: Point)
    ensures Manhattan(p, q) >= 0 && Manhattan(p, q) == Manhattan(q, p)
    ensures Manhattan(p, q) == 0 <==> p == q
  {
  }

  /**
   * `reconstructPath`: walks the `cameFrom` links back from `current` and
   * returns the points in forward order. `rank` is a measure that every link
   * strictly decreases, which is why the walk ends.
   */
  method ReconstructPath(cameFrom: map<Point, Point>, current: Point, ghost rank: map<Point, int>) returns (path: seq<Point>)
    requires current in rank && forall k :: k in rank ==> rank[k] >= 0
    requires forall k :: k in cameFrom ==> k in rank && cameFrom[k] in rank && rank[cameFrom[k]] < rank[k]
    ensures |path| > 0 && path[|path| - 1] == current && path[0] !in cameFrom
    ensures forall i :: 0 <= i < |path| - 1 ==> Link(cameFrom, path[i], path[i + 1])
    ensures forall i :: 0 <= i < |path| ==> path[i] in rank
  {
    path := [];
    var cur := current;
    while true
      invariant cur in rank
      invariant forall i :: 0 <= i < |path| ==> path[i] in rank
      invariant |path| > 0 ==> path[|path| - 1] == current && path[0] in cameFrom && cameFrom[path[0]] == cur
      invariant |path| == 0 ==> cur == current
      invariant forall i :: 0 <= i < |path| - 1 ==> Link(cameFrom, path[i], path[i + 1])
      decreases rank[cur]
    {
      path := [cur] + path;
      if cur in cameFrom {
        cur := cameFrom[cur];
      } else {
        break;
      }
    }
  }

  /** `cameFrom` records `a` as the point from which `b` was reached. */
  predicate Link(cameFrom: map<Point, Point>, a: Point, b: Point)
  {
    b in cameFrom && cameFrom[b] == a
  }

  /** A path built by `ReconstructPath` from sound links is a walk from the start. */
  lemma LinkedPathIsWalk(g: seq<seq<Cell>>, rows: int, cols: int, start: Point, cameFrom: map<Point, Point>,
                         known: set<Point>, path: seq<Point>, e: Point)
    requires Shaped(g, rows, cols) && LinksSound(g, rows, cols, start, cameFrom, known)
    requires |path| > 0 && path[|path| - 1] == e && path[0] !in cameFrom && path[0] in known
    requires forall i :: 0 <= i < |path| - 1 ==> Link(cameFrom, path[i], path[i + 1])
    ensures IsPath(g, rows, cols, path, start, e)
  {
  }


  /** The set of the grid's cells, which bounds every search. */
  ghost function CellSet(rows: int, cols: int): (s: set<Point>)
    ensures forall p {:trigger p in s} :: p in s <==> InBounds(rows, cols, p)
  {
    set r, c | 0 <= r < rows && 0 <= c < cols :: Point(r, c)
  }

  /** Marking one more cell as seen leaves fewer unseen cells. */
  lemma UnseenShrinks(cells: set<Point>, seen: set<Point>, x: Point)
    requires x in cells && x !in seen
    ensures |cells - (seen + {x})| < |cells - seen|
  {
    assert cells - seen == (cells - (seen + {x})) + {x};
  }


  /** Appending a new element to a sequence without duplicates keeps it without duplicates. */
  lemma AppendFresh(s: seq<Point>, x: Point)
    requires NoDuplicates(s) && x !in s
    ensures NoDuplicates(s + [x])
  {
    var s2 := s + [x];
    forall a, b | 0 <= a < b < |s2| ensures s2[a] != s2[b] {
      if b < |s| {
        assert s2[a] == s[a] && s2[b] == s[b];
      } else {
        assert s2[a] == s[a] && s[a] in s;
      }
    }
  }

  /** Moving the `i`-th waiting point to the end of `visited` keeps the bookkeeping. */
  lemma BookkeepingPop(start: Point, visited: seq<Point>, frontier: seq<Point>, seen: set<Point>, i: int,
                       x: Point, rest: seq<Point>)
    requires Bookkeeping(start, visited, frontier, seen) && 0 <= i < |frontier|
    requires |visited| == 0 ==> i == 0
    requires x == frontier[i] && rest == frontier[..i] + frontier[i + 1..]
    ensures Bookkeeping(start, visited + [x], rest, seen)
  {
    var v2 := visited + [x];
    assert forall k :: 0 <= k < |rest| ==> rest[k] == frontier[if k < i then k else k + 1];
    assert forall k :: 0 <= k < |v2| ==> v2[k] == if k < |visited| then visited[k] else x;
    PopCovers(visited, frontier, seen, i, x, rest);
  }

  /** Every seen point is popped or waiting before the `i`-th point moves to `visited`, and after. */
  lemma PopCovers(visited: seq<Point>, frontier: seq<Point>, seen: set<Point>, i: int, x: Point, rest: seq<Point>)
    requires 0 <= i < |frontier| && x == frontier[i] && rest == frontier[..i] + frontier[i + 1..]
    requires forall q {:trigger q in seen} :: q in seen ==> q in visited || q in frontier
    ensures forall q {:trigger q in seen} :: q in seen ==> q in visited + [x] || q in rest
  {
    var v2 := visited + [x];
    forall q | q in seen ensures q in v2 || q in rest {
      if q in visited {
        var j :| 0 <= j < |visited| && visited[j] == q;
        assert v2[j] == q;
      } else {
        var j :| 0 <= j < |frontier| && frontier[j] == q;
        if j < i {
          assert rest[j] == q;
        } else if j > i {
          assert rest[j - 1] == q;
        } else {
          assert v2[|visited|] == q;
        }
      }
    }
  }

  /** Recording one more unseen neighbour of `curr`. */
  lemma ExpandStep(g: seq<seq<Cell>>, rows: int, cols: int, curr: Point, seen0: set<Point>, seen: set<Point>,
                   frontier0: seq<Point>, frontier: seq<Point>, cameFrom0: map<Point, Point>,
                   cameFrom: map<Point, Point>, pushed: seq<Point>, next: Point, pushed': seq<Point>)
    requires Shaped(g, rows, cols) && next !in seen && next !in cameFrom0 && Passage(g, rows, cols, curr, next)
    requires Expanded(g, rows, cols, curr, seen0, seen, frontier0, frontier, cameFrom0, cameFrom, pushed)
    requires pushed' == pushed + [next]
    ensures Expanded(g, rows, cols, curr, seen0, seen + {next}, frontier0, frontier + [next], cameFrom0,
                     cameFrom[next := curr], pushed')
  {
    assert frontier + [next] == frontier0 + (pushed + [next]);
    assert next !in pushed;
    AppendFresh(pushed, next);
  }

  /** After the neighbour loop the bookkeeping, the grid facts and the links still hold. */
  lemma SearchStateExpand(g: seq<seq<Cell>>, rows: int, cols: int, start: Point, curr: Point, visited: seq<Point>,
                          frontier0: seq<Point>, seen0: set<Point>, cameFrom0: map<Point, Point>,
                          frontier: seq<Point>, seen: set<Point>, cameFrom: map<Point, Point>, pushed: seq<Point>)
    requires Shaped(g, rows, cols) && |visited| > 0 && curr in seen0
    requires SearchState(g, rows, cols, start, visited, frontier0, seen0, cameFrom0)
    requires Expanded(g, rows, cols, curr, seen0, seen, frontier0, frontier, cameFrom0, cameFrom, pushed)
    ensures SearchState(g, rows, cols, start, visited, frontier, seen, cameFrom)
  {
    forall k ensures k in cameFrom <==> k in seen - {start} {
      if k in cameFrom0 || k in seen0 {
        assert k in cameFrom0 <==> k in seen0 - {start};
      } else if k in cameFrom || k in seen {
        var j :| 0 <= j < |pushed| && pushed[j] == k;
        assert start in seen0;
      }
    }
    assert forall q :: q in frontier <==> q in frontier0 || q in pushed;
    forall a, b | 0 <= a < b < |frontier| ensures frontier[a] != frontier[b] {
      var n0 := |frontier0|;
      if b < n0 {
        assert frontier[a] == frontier0[a] && frontier[b] == frontier0[b];
      } else if a < n0 {
        assert frontier[a] == frontier0[a] && frontier[b] == pushed[b - n0];
        assert frontier0[a] in seen0 && pushed[b - n0] in pushed;
      } else {
        assert frontier[a] == pushed[a - n0] && frontier[b] == pushed[b - n0];
      }
    }
  }

  /** When every known point has been visited, exploration has closed the known set. */
  lemma ExploredGivesClosed(g: seq<seq<Cell>>, rows: int, cols: int, visited: seq<Point>, known: set<Point>)
    requires Shaped(g, rows, cols) && Explored(g, rows, cols, visited, known)
    requires forall q :: q in known ==> q in visited
    ensures ClosedUnder(g, rows, cols, known, known)
  {
    forall v, w | v in known && Passage(g, rows, cols, v, w)
      ensures w in known
    {
      var i :| 0 <= i < |visited| && visited[i] == v;
    }
  }


  /** The points of `nbrs` outside `seen`, in order. */
  function Unseen(nbrs: seq<Point>, seen: set<Point>): (r: seq<Point>)
    ensures forall j :: 0 <= j < |r| ==> r[j] in nbrs && r[j] !in seen
    ensures forall i :: 0 <= i < |nbrs| && nbrs[i] !in seen ==> nbrs[i] in r
    ensures |r| <= |nbrs|
  {
    if nbrs == [] then []
    else
      var last := nbrs[|nbrs| - 1];
      assert nbrs == nbrs[..|nbrs| - 1] + [last];
      Unseen(nbrs[..|nbrs| - 1], seen) + (if last in seen then [] else [last])
  }

  /**
   * The neighbour loop shared by `SolveBFS` and `SolveDFS`: every open
   * neighbour of `curr` not seen yet is, in `GetNeighbors` order, marked
   * seen, linked back to `curr` and appended to the frontier. Afterwards
   * every open neighbour of `curr` is seen, and the unseen cells have
   * shrunk by as many as were appended.
   */
  method PushUnseen(m: Maze, curr: Point, seen: set<Point>, cameFrom: map<Point, Point>, frontier: seq<Point>)
    returns (seen': set<Point>, cameFrom': map<Point, Point>, frontier': seq<Point>)
    requires m.Valid() && Probeable(m.rows, m.cols, curr) && cameFrom.Keys <= seen
    ensures Expanded(m.grid, m.rows, m.cols, curr, seen, seen', frontier, frontier', cameFrom, cameFrom',
                     Unseen(OpenNeighbors(m.grid, m.rows, m.cols, curr), seen))
    ensures forall w :: Passage(m.grid, m.rows, m.cols, curr, w) ==> w in seen'
    ensures |CellSet(m.rows, m.cols) - seen'| + |Unseen(OpenNeighbors(m.grid, m.rows, m.cols, curr), seen)|
            <= |CellSet(m.rows, m.cols) - seen|
  {
    ghost var g, rows, cols := m.grid, m.rows, m.cols;
    var nbrs := m.GetNeighbors(curr);
    seen', cameFrom', frontier' := seen, cameFrom, frontier;
    for n := 0 to |nbrs|
      invariant Expanded(g, rows, cols, curr, seen, seen', frontier, frontier', cameFrom, cameFrom',
                         Unseen(nbrs[..n], seen))
      invariant forall j :: 0 <= j < n ==> nbrs[j] in seen'
      invariant |CellSet(rows, cols) - seen'| + |Unseen(nbrs[..n], seen)| <= |CellSet(rows, cols) - seen|
    {
      seen', cameFrom', frontier' := PushNeighbor(g, rows, cols, curr, nbrs, n, seen, cameFrom, frontier,
                                                  seen', cameFrom', frontier');
    }
    assert nbrs[..|nbrs|] == nbrs;
    forall w | Passage(m.grid, m.rows, m.cols, curr, w) ensures w in seen' {
      var j :| 0 <= j < |nbrs| && nbrs[j] == w;
    }
  }


  /** One round of the neighbour loop: `nbrs[n]` is marked, linked and queued unless already seen. */
  method PushNeighbor(ghost g: seq<seq<Cell>>, ghost rows: int, ghost cols: int, curr: Point, nbrs: seq<Point>,
                      n: int, ghost seen: set<Point>, ghost cameFrom: map<Point, Point>, ghost frontier: seq<Point>,
                      seenIn: set<Point>, cameFromIn: map<Point, Point>, frontierIn: seq<Point>)
    returns (seen': set<Point>, cameFrom': map<Point, Point>, frontier': seq<Point>)
    requires Shaped(g, rows, cols) && cameFrom.Keys <= seen && 0 <= n < |nbrs|
    requires NoDuplicates(nbrs) && forall q :: q in nbrs ==> Passage(g, rows, cols, curr, q)
    requires Expanded(g, rows, cols, curr, seen, seenIn, frontier, frontierIn, cameFrom, cameFromIn,
                      Unseen(nbrs[..n], seen))
    requires forall j :: 0 <= j < n ==> nbrs[j] in seenIn
    requires |CellSet(rows, cols) - seenIn| + |Unseen(nbrs[..n], seen)| <= |CellSet(rows, cols) - seen|
    ensures Expanded(g, rows, cols, curr, seen, seen', frontier, frontier', cameFrom, cameFrom',
                     Unseen(nbrs[..n + 1], seen))
    ensures forall j :: 0 <= j < n + 1 ==> nbrs[j] in seen'
    ensures |CellSet(rows, cols) - seen'| + |Unseen(nbrs[..n + 1], seen)| <= |CellSet(rows, cols) - seen|
  {
    var next := nbrs[n];
    seen', cameFrom', frontier' := seenIn, cameFromIn, frontierIn;
    if next !in seen' {
      PushFresh(g, rows, cols, curr, nbrs, n, seen, cameFrom, frontier, seenIn, cameFromIn, frontierIn);
      seen' := seen' + {next};
      cameFrom' := cameFrom'[next := curr];
      frontier' := frontier' + [next];
    } else {
      PushSeen(g, rows, cols, curr, nbrs, n, seen, cameFrom, frontier, seenIn, cameFromIn, frontierIn);
    }
  }

  /** The neighbour loop's step for a point already seen: nothing is pushed and the bookkeeping stands. */
  lemma PushSeen(g: seq<seq<Cell>>, rows: int, cols: int, curr: Point, nbrs: seq<Point>, n: int,
                 seen: set<Point>, cameFrom: map<Point, Point>, frontier: seq<Point>,
                 seenIn: set<Point>, cameFromIn: map<Point, Point>, frontierIn: seq<Point>)
    requires Shaped(g, rows, cols) && 0 <= n < |nbrs| && NoDuplicates(nbrs) && nbrs[n] in seenIn
    requires Expanded(g, rows, cols, curr, seen, seenIn, frontier, frontierIn, cameFrom, cameFromIn,
                      Unseen(nbrs[..n], seen))
    ensures Unseen(nbrs[..n + 1], seen) == Unseen(nbrs[..n], seen)
    ensures Expanded(g, rows, cols, curr, seen, seenIn, frontier, frontierIn, cameFrom, cameFromIn,
                     Unseen(nbrs[..n + 1], seen))
  {
    var next := nbrs[n];
    assert next in seen;
    assert nbrs[..n + 1][..n] == nbrs[..n];
  }

  /** The neighbour loop's step for a point not seen yet: marking, linking and queueing it keeps the bookkeeping. */
  lemma PushFresh(g: seq<seq<Cell>>, rows: int, cols: int, curr: Point, nbrs: seq<Point>, n: int,
                  seen: set<Point>, cameFrom: map<Point, Point>, frontier: seq<Point>,
                  seenIn: set<Point>, cameFromIn: map<Point, Point>, frontierIn: seq<Point>)
    requires Shaped(g, rows, cols) && cameFrom.Keys <= seen && 0 <= n < |nbrs| && nbrs[n] !in seenIn
    requires NoDuplicates(nbrs) && forall q :: q in nbrs ==> Passage(g, rows, cols, curr, q)
    requires Expanded(g, rows, cols, curr, seen, seenIn, frontier, frontierIn, cameFrom, cameFromIn,
                      Unseen(nbrs[..n], seen))
    requires |CellSet(rows, cols) - seenIn| + |Unseen(nbrs[..n], seen)| <= |CellSet(rows, cols) - seen|
    ensures Expanded(g, rows, cols, curr, seen, seenIn + {nbrs[n]}, frontier, frontierIn + [nbrs[n]], cameFrom,
                     cameFromIn[nbrs[n] := curr], Unseen(nbrs[..n + 1], seen))
    ensures |CellSet(rows, cols) - (seenIn + {nbrs[n]})| + |Unseen(nbrs[..n + 1], seen)| <= |CellSet(rows, cols) - seen|
  {
    var next := nbrs[n];
    var pushed, pushed' := Unseen(nbrs[..n], seen), Unseen(nbrs[..n + 1], seen);
    assert nbrs[..n + 1][..n] == nbrs[..n];
    assert next in nbrs;
    assert pushed' == pushed + [next];
    UnseenShrinks(CellSet(rows, cols), seenIn, next);
    ExpandStep(g, rows, cols, curr, seen, seenIn, frontier, frontierIn, cameFrom, cameFromIn, pushed, next, pushed');
  }


  /** `labels` with every point of `keys` given the label `v`. */
  ghost function Label(labels: map<Point, nat>, keys: seq<Point>, v: nat): (r: map<Point, nat>)
    requires forall j :: 0 <= j < |keys| ==> keys[j] !in labels
    ensures forall j :: 0 <= j < |keys| ==> keys[j] in r && r[keys[j]] == v
    ensures forall q {:trigger q in labels} :: q in labels ==> q in r && r[q] == labels[q]
    ensures forall q {:trigger q in r} :: q in r ==> q in labels || q in keys
  {
    labels + map q | q in keys :: v
  }


  /** BFS's layering after a pop: the level is the popped point's, and the split moves past it. */
  function NextSplit(queue: seq<Point>, split: nat): nat
    requires |queue| > 0
  {
    if split > 0 then split - 1 else |queue| - 1
  }

  /** Popping the head of the queue and queueing new points one level below it keeps the layering. */
  lemma LayeredStep(visited: seq<Point>, queue: seq<Point>, depth: map<Point, nat>, level: nat, split: nat,
                    pushed: seq<Point>)
    requires Layered(visited, queue, depth, level, split) && |queue| > 0
    requires forall q :: q in pushed ==> q !in depth
    ensures queue[0] in depth
    ensures Layered(visited + [queue[0]], queue[1..] + pushed, Label(depth, pushed, depth[queue[0]] + 1),
                    depth[queue[0]], NextSplit(queue, split))
  {
    var d := depth[queue[0]];
    var depth', q2, n1, s2 := Label(depth, pushed, d + 1), queue[1..] + pushed, |queue| - 1, NextSplit(queue, split);
    forall j | 0 <= j < |q2| ensures q2[j] in depth' && depth'[q2[j]] == if j < s2 then d else d + 1 {
      if j < n1 {
        assert q2[j] == queue[j + 1] && queue[j + 1] in depth;
      } else {
        assert q2[j] == pushed[j - n1] && pushed[j - n1] in pushed;
      }
    }
  }

  /** Popping the `i`-th waiting point and appending its unseen neighbours keeps the search state. */
  lemma SearchStep(g: seq<seq<Cell>>, rows: int, cols: int, start: Point, visited: seq<Point>, frontier: seq<Point>,
                   seen: set<Point>, cameFrom: map<Point, Point>, i: int, curr: Point, rest: seq<Point>,
                   seen': set<Point>, cameFrom': map<Point, Point>, frontier': seq<Point>, pushed: seq<Point>)
    requires Shaped(g, rows, cols) && 0 <= i < |frontier| && (|visited| == 0 ==> i == 0)
    requires curr == frontier[i] && rest == frontier[..i] + frontier[i + 1..]
    requires SearchState(g, rows, cols, start, visited, frontier, seen, cameFrom)
    requires Expanded(g, rows, cols, curr, seen, seen', rest, frontier', cameFrom, cameFrom', pushed)
    ensures SearchState(g, rows, cols, start, visited + [curr], frontier', seen', cameFrom')
  {
    BookkeepingPop(start, visited, frontier, seen, i, curr, rest);
    SearchStateExpand(g, rows, cols, start, curr, visited + [curr], rest,
                      seen, cameFrom, frontier', seen', cameFrom', pushed);
  }

  /** Labelling the points pushed from `curr` one level below it keeps the depth labels sound. */
  lemma DepthStep(g: seq<seq<Cell>>, rows: int, cols: int, start: Point, seen: set<Point>,
                  cameFrom: map<Point, Point>, depth: map<Point, nat>, curr: Point, frontier: seq<Point>,
                  seen': set<Point>, cameFrom': map<Point, Point>, frontier': seq<Point>, pushed: seq<Point>)
    requires Shaped(g, rows, cols) && curr in seen
    requires DepthSound(start, seen, cameFrom, depth)
    requires Expanded(g, rows, cols, curr, seen, seen', frontier, frontier', cameFrom, cameFrom', pushed)
    ensures curr in depth && DepthSound(start, seen', cameFrom', Label(depth, pushed, depth[curr] + 1))
  {
    var depth' := Label(depth, pushed, depth[curr] + 1);
    assert start !in pushed;
    forall k | k in cameFrom' ensures k in depth' && cameFrom'[k] in depth' && depth'[k] == depth'[cameFrom'[k]] + 1 {
      if k !in pushed {
        assert cameFrom[k] in depth && cameFrom[k] !in pushed;
      }
    }
  }

  /**
   * Popping the head of the queue, all of whose open neighbours are now
   * seen, keeps every passage out of a popped point at most one level deep.
   */
  lemma BoundedStep(g: seq<seq<Cell>>, rows: int, cols: int, visited: seq<Point>, queue: seq<Point>,
                    seen: set<Point>, depth: map<Point, nat>, level: nat, split: nat,
                    seen': set<Point>, pushed: seq<Point>)
    requires Shaped(g, rows, cols) && |queue| > 0
    requires DepthBounded(g, rows, cols, visited, seen, depth) && Layered(visited, queue, depth, level, split)
    requires forall q :: q in seen ==> q in visited || q in queue
    requires forall q :: q in pushed ==> q !in depth
    requires forall q :: q in seen' <==> q in seen || q in pushed
    requires forall w :: Passage(g, rows, cols, queue[0], w) ==> w in seen'
    ensures queue[0] in depth
    ensures DepthBounded(g, rows, cols, visited + [queue[0]], seen', Label(depth, pushed, depth[queue[0]] + 1))
  {
    var curr, v2 := queue[0], visited + [queue[0]];
    var depth' := Label(depth, pushed, depth[curr] + 1);
    forall i, w | 0 <= i < |v2| && Passage(g, rows, cols, v2[i], w)
      ensures w in seen' && v2[i] in depth' && w in depth' && depth'[w] <= depth'[v2[i]] + 1
    {
      if i < |visited| {
        assert v2[i] == visited[i];
      } else if w in seen && w !in visited {
        var j :| 0 <= j < |queue| && queue[j] == w;
      }
    }
  }

  /** One round of BFS: pop the head of the queue and queue its unseen open neighbours one level deeper. */
  lemma BfsStep(g: seq<seq<Cell>>, rows: int, cols: int, start: Point, visited: seq<Point>, queue: seq<Point>,
                seen: set<Point>, cameFrom: map<Point, Point>, depth: map<Point, nat>, level: nat, split: nat,
                curr: Point, rest: seq<Point>,
                seen': set<Point>, cameFrom': map<Point, Point>, queue': seq<Point>, pushed: seq<Point>)
    requires Shaped(g, rows, cols) && |queue| > 0 && curr == queue[0] && rest == queue[1..]
    requires BfsOuter(g, rows, cols, start, visited, queue, seen, cameFrom, depth, level, split)
    requires Expanded(g, rows, cols, curr, seen, seen', rest, queue', cameFrom, cameFrom', pushed)
    requires forall w :: Passage(g, rows, cols, curr, w) ==> w in seen'
    ensures curr in depth
    ensures BfsOuter(g, rows, cols, start, visited + [curr], queue', seen', cameFrom',
                     Label(depth, pushed, depth[curr] + 1), depth[curr], NextSplit(queue, split))
  {
    assert queue[..0] + queue[1..] == queue[1..];
    SearchStep(g, rows, cols, start, visited, queue, seen, cameFrom, 0, curr, rest, seen', cameFrom', queue', pushed);
    DepthStep(g, rows, cols, start, seen, cameFrom, depth, curr, rest, seen', cameFrom', queue', pushed);
    LayeredStep(visited, queue, depth, level, split, pushed);
    BoundedStep(g, rows, cols, visited, queue, seen, depth, level, split, seen', pushed);
  }

  /**
   * The heart of BFS optimality. `end` heads the queue; `popped` left it
   * before. Every walk to `end` from a seen point at index `k` whose depth
   * is at most `k` is at least as long as the end's depth: follow the walk
   * while it stays among the popped points, where each passage adds at most
   * one level; the first point outside them waits in the queue, where
   * nothing is shallower than `end`.
   */
  lemma {:induction false} BfsWalkBound(g: seq<seq<Cell>>, rows: int, cols: int, end: Point, popped: seq<Point>,
                                        queue: seq<Point>, seen: set<Point>, depth: map<Point, nat>,
                                        walk: seq<Point>, k: nat)
    requires Shaped(g, rows, cols)
    requires end in depth && end !in popped
    requires forall q :: q in seen ==> q in popped || q in queue
    requires forall q :: q in queue ==> q in depth && depth[end] <= depth[q]
    requires DepthBounded(g, rows, cols, popped, seen, depth)
    requires |walk| > 0 && walk[|walk| - 1] == end
    requires forall i :: 0 <= i < |walk| - 1 ==> Passage(g, rows, cols, walk[i], walk[i + 1])
    requires k < |walk| && walk[k] in seen && walk[k] in depth && depth[walk[k]] <= k
    ensures depth[end] <= |walk| - 1
    decreases |walk| - k
  {
    if walk[k] in popped {
      var i :| 0 <= i < |popped| && popped[i] == walk[k];
      assert Passage(g, rows, cols, popped[i], walk[k + 1]);
      BfsWalkBound(g, rows, cols, end, popped, queue, seen, depth, walk, k + 1);
    }
  }
  /** Along links that each add one level, the i-th point of a path from the start has depth i. */
  lemma {:induction false} LinkDepth(cameFrom: map<Point, Point>, depth: map<Point, nat>, start: Point,
                                     path: seq<Point>, i: nat)
    requires start in depth && depth[start] == 0
    requires forall k :: k in cameFrom ==> k in depth && cameFrom[k] in depth && depth[k] == depth[cameFrom[k]] + 1
    requires |path| > 0 && path[0] == start
    requires forall j :: 0 <= j < |path| - 1 ==> Link(cameFrom, path[j], path[j + 1])
    requires i < |path|
    ensures path[i] in depth && depth[path[i]] == i
  {
    if i > 0 {
      LinkDepth(cameFrom, depth, start, path, i - 1);
      assert Link(cameFrom, path[i - 1], path[i]);
    }
  }


  /**
   * When the end heads the queue, the path the links give back from it is a
   * walk from the start that no other walk to the end beats.
   */
  lemma BfsFound(g: seq<seq<Cell>>, rows: int, cols: int, start: Point, visited: seq<Point>, queue: seq<Point>,
                 seen: set<Point>, cameFrom: map<Point, Point>, depth: map<Point, nat>, level: nat, split: nat,
                 end: Point, p: seq<Point>)
    requires Shaped(g, rows, cols) && |queue| > 0 && end == queue[0]
    requires BfsOuter(g, rows, cols, start, visited, queue, seen, cameFrom, depth, level, split)
    requires |p| > 0 && p[|p| - 1] == end && p[0] !in cameFrom && forall i :: 0 <= i < |p| ==> p[i] in depth
    requires forall i :: 0 <= i < |p| - 1 ==> Link(cameFrom, p[i], p[i + 1])
    ensures |visited + [end]| > 0 && (visited + [end])[0] == start && NoDuplicates(visited + [end])
    ensures IsPath(g, rows, cols, p, start, end)
    ensures forall other :: IsPath(g, rows, cols, other, start, end) ==> |p| <= |other|
  {
    BookkeepingPop(start, visited, queue, seen, 0, end, queue[..0] + queue[1..]);
    assert p[0] in seen;
    LinkedPathIsWalk(g, rows, cols, start, cameFrom, seen, p, end);
    LinkDepth(cameFrom, depth, start, p, |p| - 1);
    forall q | q in queue ensures q in depth && depth[end] <= depth[q] {
      var j :| 0 <= j < |queue| && queue[j] == q;
    }
    forall other | IsPath(g, rows, cols, other, start, end)
      ensures |p| <= |other|
    {
      BfsWalkBound(g, rows, cols, end, visited, queue, seen, depth, other, 0);
    }
  }

  /**
   * `SolveBFS`: breadth-first search from the maze's start. `visited` lists
   * the points in the order they leave the queue, each once. When the end
   * leaves the queue the search stops and returns the path the `cameFrom`
   * links give: it starts at Start, ends at End, moves only through passages
   * and is no longer than any other walk from Start to End. When the queue
   * runs dry the path is nil, and End is unreachable from Start.
   */
  method SolveBFS(m: Maze) returns (visited: seq<Point>, path: Option<seq<Point>>)
    requires m.Valid() && Probeable(m.rows, m.cols, m.start)
    ensures |visited| > 0 && visited[0] == m.start && NoDuplicates(visited)
    ensures forall i :: 0 <= i < |visited| - 1 ==> visited[i] != m.end
    ensures path.Some? ==> visited[|visited| - 1] == m.end &&
                           IsPath(m.grid, m.rows, m.cols, path.value, m.start, m.end)
    ensures path.Some? ==> forall other :: IsPath(m.grid, m.rows, m.cols, other, m.start, m.end) ==>
                                             |path.value| <= |other|
    ensures path.None? ==> m.end !in visited && !Reachable(m.grid, m.rows, m.cols, m.start, m.end)
  {
    var start, end := m.start, m.end;
    ghost var g, rows, cols := m.grid, m.rows, m.cols;
    visited := [];
    var queue := [start];
    var cameFrom: map<Point, Point> := map[];
    var seen: set<Point> := {start};
    // The number of passages between each seen point and the start along the
    // links, and the layering of the queue by it.
    ghost var depth: map<Point, nat> := map[start := 0];
    ghost var level: nat, split: nat := 0, 1;
    while |queue| > 0
      invariant BfsOuter(g, rows, cols, start, visited, queue, seen, cameFrom, depth, level, split)
      invariant end !in visited
      decreases |CellSet(rows, cols) - seen|, |queue|
    {
      var curr, rest := queue[0], queue[1..];
      if curr == end {
        var p := ReconstructPath(cameFrom, curr, depth);
        BfsFound(g, rows, cols, start, visited, queue, seen, cameFrom, depth, level, split, curr, p);
        return visited + [curr], Some(p);
      }
      var seen', cameFrom', queue' := PushUnseen(m, curr, seen, cameFrom, rest);
      ghost var pushed := Unseen(OpenNeighbors(g, rows, cols, curr), seen);
      BfsStep(g, rows, cols, start, visited, queue, seen, cameFrom, depth, level, split,
              curr, rest, seen', cameFrom', queue', pushed);
      visited := visited + [curr];
      depth, level, split := Label(depth, pushed, depth[curr] + 1), depth[curr], NextSplit(queue, split);
      seen, cameFrom, queue := seen', cameFrom', queue';
    }
    ExploredGivesClosed(g, rows, cols, visited, seen);
    ClosedSetHoldsReachable(g, rows, cols, seen, start, end);
    return visited, None;
  }

  /** One round of DFS: pop the top of the stack and push its unseen open neighbours, stamped `clock`. */
  lemma DfsStep(g: seq<seq<Cell>>, rows: int, cols: int, start: Point, visited: seq<Point>, stack: seq<Point>,
                seen: set<Point>, cameFrom: map<Point, Point>, stamp: map<Point, nat>, clock: nat,
                curr: Point, rest: seq<Point>,
                seen': set<Point>, cameFrom': map<Point, Point>, stack': seq<Point>, pushed: seq<Point>)
    requires Shaped(g, rows, cols) && |stack| > 0
    requires curr == stack[|stack| - 1] && rest == stack[..|stack| - 1]
    requires DfsOuter(g, rows, cols, start, visited, stack, seen, cameFrom, stamp, clock)
    requires Expanded(g, rows, cols, curr, seen, seen', rest, stack', cameFrom, cameFrom', pushed)
    requires forall w :: Passage(g, rows, cols, curr, w) ==> w in seen'
    ensures DfsOuter(g, rows, cols, start, visited + [curr], stack', seen', cameFrom',
                     Label(stamp, pushed, clock), clock + 1)
  {
    var n := |stack|;
    var v2 := visited + [curr];
    assert stack[..n - 1] + stack[n..] == stack[..n - 1];
    SearchStep(g, rows, cols, start, visited, stack, seen, cameFrom, n - 1, curr, rest,
               seen', cameFrom', stack', pushed);
    forall i, w | 0 <= i < |v2| && Passage(g, rows, cols, v2[i], w) ensures w in seen' {
      if i < |visited| {
        assert v2[i] == visited[i];
      }
    }
    var stamp' := Label(stamp, pushed, clock);
    forall k | k in cameFrom' ensures k in stamp' && cameFrom'[k] in stamp' && stamp'[cameFrom'[k]] < stamp'[k] {
      if k !in pushed {
        assert cameFrom[k] in seen;
      }
    }
  }

  /** DFS pops End: the popped list stays duplicate-free and the linked path is a walk from Start to End. */
  lemma DfsFound(g: seq<seq<Cell>>, rows: int, cols: int, start: Point, visited: seq<Point>, stack: seq<Point>,
                 seen: set<Point>, cameFrom: map<Point, Point>, stamp: map<Point, nat>, clock: nat,
                 end: Point, p: seq<Point>)
    requires Shaped(g, rows, cols) && |stack| > 0 && end == stack[|stack| - 1]
    requires DfsOuter(g, rows, cols, start, visited, stack, seen, cameFrom, stamp, clock)
    requires |p| > 0 && p[|p| - 1] == end && p[0] !in cameFrom && forall i :: 0 <= i < |p| ==> p[i] in stamp
    requires forall i :: 0 <= i < |p| - 1 ==> Link(cameFrom, p[i], p[i + 1])
    ensures |visited + [end]| > 0 && (visited + [end])[0] == start && NoDuplicates(visited + [end])
    ensures IsPath(g, rows, cols, p, start, end)
  {
    var n := |stack|;
    assert |visited| == 0 ==> n - 1 == 0;
    BookkeepingPop(start, visited, stack, seen, n - 1, end, stack[..n - 1] + stack[n..]);
    assert p[0] in seen;
    LinkedPathIsWalk(g, rows, cols, start, cameFrom, seen, p, end);
  }

  /**
   * `SolveDFS`: depth-first search with an explicit stack. `visited` lists
   * the points in the order they are popped, each once; when End is popped
   * the path from the `cameFrom` links runs from Start to End through
   * passages, and when the stack runs dry the path is nil and End is
   * unreachable.
   */
  method SolveDFS(m: Maze) returns (visited: seq<Point>, path: Option<seq<Point>>)
    requires m.Valid() && Probeable(m.rows, m.cols, m.start)
    ensures |visited| > 0 && visited[0] == m.start && NoDuplicates(visited)
    ensures forall i :: 0 <= i < |visited| - 1 ==> visited[i] != m.end
    ensures path.Some? ==> visited[|visited| - 1] == m.end &&
                           IsPath(m.grid, m.rows, m.cols, path.value, m.start, m.end)
    ensures path.None? ==> m.end !in visited && !Reachable(m.grid, m.rows, m.cols, m.start, m.end)
  {
    var start, end := m.start, m.end;
    ghost var g, rows, cols := m.grid, m.rows, m.cols;
    visited := [];
    var stack := [start];
    var cameFrom: map<Point, Point> := map[];
    var seen: set<Point> := {start};
    // When each point was first seen: every link points back to an earlier one.
    ghost var stamp: map<Point, nat> := map[start := 0];
    ghost var clock: nat := 1;
    while |stack| > 0
      invariant DfsOuter(g, rows, cols, start, visited, stack, seen, cameFrom, stamp, clock)
      invariant end !in visited
      decreases |CellSet(rows, cols) - seen|, |stack|
    {
      var curr, rest := stack[|stack| - 1], stack[..|stack| - 1];
      if curr == end {
        var p := ReconstructPath(cameFrom, curr, stamp);
        DfsFound(g, rows, cols, start, visited, stack, seen, cameFrom, stamp, clock, end, p);
        return visited + [curr], Some(p);
      }
      var seen', cameFrom', stack' := PushUnseen(m, curr, seen, cameFrom, rest);
      ghost var pushed := Unseen(OpenNeighbors(g, rows, cols, curr), seen);
      DfsStep(g, rows, cols, start, visited, stack, seen, cameFrom, stamp, clock, curr, rest,
              seen', cameFrom', stack', pushed);
      visited := visited + [curr];
      stamp, clock := Label(stamp, pushed, clock), clock + 1;
      seen, cameFrom, stack := seen', cameFrom', stack';
    }
    ExploredGivesClosed(g, rows, cols, visited, seen);
    ClosedSetHoldsReachable(g, rows, cols, seen, start, end);
    return visited, None;
  }
}

