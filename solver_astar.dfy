/**
 * The A* solver of backend/maze/solver.go and the priority queue it uses:
 * `Item` and `PriorityQueue` with the `Len`/`Less`/`Swap`/`Push`/`Pop`
 * methods that `container/heap` drives, and `SolveAStar`, which scores
 * points by the number of passages from the start (`gScore`) and queues
 * them by that score plus the Manhattan distance to the end.
 */
module AStar {
  import opened Common
  import opened MazeGrid
  import opened SearchInvariants
  import opened Solver

  /** `Item`: a queued point, its priority and its current slot in the queue. */
  class Item {
    const point: Point
    const priority: int
    var index: int

    /** `&Item{point: p, priority: f}`: the slot starts at Go's zero value. */
    constructor (point: Point, priority: int)
      ensures this.point == point && this.priority == priority && index == 0
    {
      this.point, this.priority, index := point, priority, 0;
    }
  }

  /** `PriorityQueue`, the slice of items, reached through its pointer. */
  class PriorityQueue {
    var items: seq<Item>
    /** The items ever pushed, a footprint that holds every queued item. */
    ghost var Repr: set<Item>

    /** Every item is in the footprint and records its own slot; in particular no item is held twice. */
    ghost predicate Valid()
      reads this, Repr
    {
      forall i :: 0 <= i < |items| ==> items[i] in Repr && items[i].index == i
    }

    /** `&PriorityQueue{}` followed by `heap.Init`, which has nothing to order. */
    constructor ()
      ensures items == [] && Repr == {} && Valid()
    {
      items := [];
      Repr := {};
    }

    /** `Len`. */
    function Len(): int
      reads this
    {
      |items|
    }

    /** `Less(i, j)`: the item in slot `i` has the strictly smaller priority. */
    predicate Less(i: int, j: int)
      reads this
      requires 0 <= i < |items| && 0 <= j < |items|
    {
      items[i].priority < items[j].priority
    }

    /**
     * `Swap(i, j)`: exchanges two slots and writes each moved item's new
     * slot into its `index`, so a valid queue stays valid.
     */
    method Swap(i: int, j: int)
      requires 0 <= i < |items| && 0 <= j < |items|
      modifies this, items[i], items[j]
      ensures items == old(items)[i := old(items[j])][j := old(items[i])] && Repr == old(Repr)
      ensures items[j].index == j && (old(items[i] != items[j]) ==> items[i].index == i)
      ensures old(Valid()) ==> Valid()
    {
      var a, b := items[i], items[j];
      items := items[i := b][j := a];
      b.index := i;
      a.index := j;
    }

    /**
     * `Push(x)`: appends `x` and records the old length as its slot; a valid
     * queue stays valid when `x` was not already in it.
     */
    method Push(x: Item)
      modifies this, x
      ensures items == old(items) + [x] && x.index == old(|items|) && Repr == old(Repr) + {x}
      ensures old(Valid()) && x !in old(items) ==> Valid()
    {
      var n := |items|;
      x.index := n;
      items := items + [x];
      Repr := Repr + {x};
    }

    /**
     * `Pop()`: removes the last item, marks it with slot -1 and returns it
     * (Go panics on an empty queue).
     */
    method Pop() returns (item: Item)
      requires |items| > 0
      modifies this, items[|items| - 1]
      ensures item == old(items[|items| - 1]) && item.index == -1
      ensures items == old(items[..|items| - 1]) && Repr == old(Repr)
      ensures old(Valid()) ==> Valid()
    {
      var n := |items|;
      item := items[n - 1];
      item.index := -1;
      items := items[..n - 1];
    }
  }

  /**
   * `heap.Pop(pq)`: removes and returns an item of least priority. The
   * binary-heap layout is not modelled: the first item of least priority is
   * found by a scan, swapped into the last slot and taken off with `Pop`,
   * as `heap.Pop` does with the root.
   */
  method HeapPop(pq: PriorityQueue) returns (item: Item)
    requires pq.Valid() && |pq.items| > 0
    modifies pq, pq.Repr
    ensures pq.Valid() && |pq.items| == |old(pq.items)| - 1 && pq.Repr == old(pq.Repr)
    ensures item in old(pq.items)
    ensures forall i :: 0 <= i < |old(pq.items)| ==> item.priority <= old(pq.items)[i].priority
    ensures forall i :: 0 <= i < |old(pq.items)| ==> old(pq.items)[i] == item || old(pq.items)[i] in pq.items
    ensures forall j :: 0 <= j < |pq.items| ==> pq.items[j] in old(pq.items)
  {
    var n := |pq.items|;
    var best := 0;
    for i := 1 to n
      invariant 0 <= best < n
      invariant forall k :: 0 <= k < i ==> pq.items[best].priority <= pq.items[k].priority
    {
      if pq.Less(i, best) {
        best := i;
      }
    }
    ghost var before := pq.items;
    pq.Swap(best, n - 1);
    ghost var swapped := pq.items;
    item := pq.Pop();
    assert item == before[best];
    forall i | 0 <= i < n ensures before[i] == item || before[i] in pq.items {
      if i != best {
        var k := if i == n - 1 then best else i;
        assert pq.items[k] == before[i];
      }
    }
    forall j | 0 <= j < |pq.items| ensures pq.items[j] in before {
      assert pq.items[j] == swapped[j];
      var k := if j == best then n - 1 else j;
      assert swapped[j] == before[k];
    }
  }

  /** The points of the queued items, slot by slot. */
  function Points(items: seq<Item>): (r: seq<Point>)
    ensures |r| == |items| && forall j :: 0 <= j < |items| ==> r[j] == items[j].point
  {
    seq(|items|, j requires 0 <= j < |items| => items[j].point)
  }

  /** A path through a point scored `gc` improves on `next`'s score, or `next` has none yet. */
  predicate Improves(gScore: map<Point, int>, gc: int, next: Point)
  {
    next !in gScore || gc + 1 < gScore[next]
  }

  /**
   * What the neighbour loop of `SolveAStar` did from `curr`: each point of
   * `pushed` is now scored one more than `curr` and linked back to it
   * through a passage; every other score and link is as it was.
   */
  ghost predicate Relaxed(g: seq<seq<Cell>>, rows: int, cols: int, curr: Point, gScore: map<Point, int>,
                          gScore': map<Point, int>, cameFrom: map<Point, Point>, cameFrom': map<Point, Point>,
                          pushed: seq<Point>)
    requires Shaped(g, rows, cols)
  {
    curr in gScore &&
    (forall j :: 0 <= j < |pushed| ==>
       Passage(g, rows, cols, curr, pushed[j]) && Improves(gScore, gScore[curr], pushed[j]) &&
       pushed[j] in gScore' && gScore'[pushed[j]] == gScore[curr] + 1 &&
       pushed[j] in cameFrom' && cameFrom'[pushed[j]] == curr) &&
    (forall k {:trigger k in gScore} :: k in gScore ==> k in gScore') &&
    (forall k {:trigger k in gScore'} :: k in gScore' ==> k in pushed || (k in gScore && gScore'[k] == gScore[k])) &&
    (forall k {:trigger k in cameFrom} :: k in cameFrom ==> k in cameFrom') &&
    (forall k {:trigger k in cameFrom'} :: k in cameFrom' ==> k in pushed || (k in cameFrom && cameFrom'[k] == cameFrom[k]))
  }

  /** Relaxing one more neighbour. */
  lemma RelaxStep(g: seq<seq<Cell>>, rows: int, cols: int, curr: Point, gScore0: map<Point, int>,
                  gScore: map<Point, int>, cameFrom0: map<Point, Point>, cameFrom: map<Point, Point>,
                  pushed: seq<Point>, next: Point, pushed': seq<Point>)
    requires Shaped(g, rows, cols) && curr in gScore0 && curr != next && next !in pushed
    requires Passage(g, rows, cols, curr, next) && Improves(gScore0, gScore0[curr], next)
    requires Relaxed(g, rows, cols, curr, gScore0, gScore, cameFrom0, cameFrom, pushed)
    requires pushed' == pushed + [next]
    ensures Relaxed(g, rows, cols, curr, gScore0, gScore[next := gScore0[curr] + 1], cameFrom0,
                    cameFrom[next := curr], pushed')
  {
    forall j | 0 <= j < |pushed| ensures pushed[j] != next {
    }
  }

  /**
   * The neighbour loop of `SolveAStar` run over `nbrs` from `curr`, whose
   * score is `gc`: the scores, the links and the points pushed, in order.
   */
  function Relaxation(curr: Point, gc: int, nbrs: seq<Point>, gScore: map<Point, int>,
                      cameFrom: map<Point, Point>): (map<Point, int>, map<Point, Point>, seq<Point>)
  {
    if nbrs == [] then (gScore, cameFrom, [])
    else
      var r := Relaxation(curr, gc, nbrs[..|nbrs| - 1], gScore, cameFrom);
      var next := nbrs[|nbrs| - 1];
      if Improves(r.0, gc, next) then (r.0[next := gc + 1], r.1[next := curr], r.2 + [next]) else r
  }

  /** What `RelaxationEffect` promises about `r`, the loop run over `nbrs`. */
  ghost predicate RelaxedOver(g: seq<seq<Cell>>, rows: int, cols: int, curr: Point, gScore: map<Point, int>,
                              cameFrom: map<Point, Point>, nbrs: seq<Point>,
                              r: (map<Point, int>, map<Point, Point>, seq<Point>))
    requires Shaped(g, rows, cols)
  {
    Relaxed(g, rows, cols, curr, gScore, r.0, cameFrom, r.1, r.2) &&
    (forall j :: 0 <= j < |r.2| ==> r.2[j] in nbrs) &&
    (forall j :: 0 <= j < |nbrs| ==> nbrs[j] in r.0)
  }

  /** One more neighbour of the loop, given what holds after the earlier ones. */
  lemma RelaxationStep(g: seq<seq<Cell>>, rows: int, cols: int, curr: Point, gScore: map<Point, int>,
                       cameFrom: map<Point, Point>, init: seq<Point>, next: Point, nbrs: seq<Point>,
                       r: (map<Point, int>, map<Point, Point>, seq<Point>),
                       r': (map<Point, int>, map<Point, Point>, seq<Point>))
    requires Shaped(g, rows, cols) && curr in gScore && curr != next && Passage(g, rows, cols, curr, next)
    requires nbrs == init + [next] && next !in init
    requires RelaxedOver(g, rows, cols, curr, gScore, cameFrom, init, r)
    requires r' == if Improves(r.0, gScore[curr], next)
                   then (r.0[next := gScore[curr] + 1], r.1[next := curr], r.2 + [next]) else r
    ensures RelaxedOver(g, rows, cols, curr, gScore, cameFrom, nbrs, r')
  {
    var gc := gScore[curr];
    assert next !in r.2;
    assert Improves(r.0, gc, next) == Improves(gScore, gc, next);
    if Improves(r.0, gc, next) {
      RelaxStep(g, rows, cols, curr, gScore, r.0, cameFrom, r.1, r.2, next, r.2 + [next]);
      forall j | 0 <= j < |r'.2| ensures r'.2[j] in nbrs {
        if j < |r.2| {
          assert r'.2[j] == r.2[j];
        }
      }
    }
    forall j | 0 <= j < |nbrs| ensures nbrs[j] in r'.0 {
      if j < |init| {
        assert nbrs[j] == init[j];
      }
    }
  }

  /**
   * Over distinct open neighbours of `curr`, the loop relaxes exactly the
   * neighbours it improves and leaves every one of them scored.
   */
  lemma {:induction false} RelaxationEffect(g: seq<seq<Cell>>, rows: int, cols: int, curr: Point,
                                            gScore: map<Point, int>, cameFrom: map<Point, Point>, nbrs: seq<Point>)
    requires Shaped(g, rows, cols) && curr in gScore && NoDuplicates(nbrs)
    requires forall j :: 0 <= j < |nbrs| ==> Passage(g, rows, cols, curr, nbrs[j])
    ensures RelaxedOver(g, rows, cols, curr, gScore, cameFrom, nbrs,
                        Relaxation(curr, gScore[curr], nbrs, gScore, cameFrom))
  {
    if nbrs != [] {
      var init, next := nbrs[..|nbrs| - 1], nbrs[|nbrs| - 1];
      assert nbrs == init + [next];
      RelaxationEffect(g, rows, cols, curr, gScore, cameFrom, init);
      assert next !in init by {
        assert forall j :: 0 <= j < |init| ==> init[j] != next;
      }
      assert Manhattan(curr, next) == 1;
      RelaxationStep(g, rows, cols, curr, gScore, cameFrom, init, next, nbrs,
                     Relaxation(curr, gScore[curr], init, gScore, cameFrom),
                     Relaxation(curr, gScore[curr], nbrs, gScore, cameFrom));
    }
  }

  /**
   * One round of the neighbour loop of `SolveAStar`: when a path through
   * `curr` (scored `gc`) improves `next`, `next` is linked back to `curr`,
   * scored `gc + 1` and pushed with that score plus its Manhattan distance
   * to `end`; otherwise nothing changes.
   */
  method RelaxOne(pq: PriorityQueue, curr: Point, gc: int, next: Point, end: Point,
                  gScore: map<Point, int>, cameFrom: map<Point, Point>)
    returns (gScore': map<Point, int>, cameFrom': map<Point, Point>)
    requires pq.Valid()
    modifies pq
    ensures pq.Valid() && old(pq.Repr) <= pq.Repr && fresh(pq.Repr - old(pq.Repr))
    ensures Improves(gScore, gc, next) ==>
      gScore' == gScore[next := gc + 1] && cameFrom' == cameFrom[next := curr] &&
      Points(pq.items) == Points(old(pq.items)) + [next] &&
      |pq.items| == |old(pq.items)| + 1 && pq.items[..|old(pq.items)|] == old(pq.items) &&
      pq.items[|old(pq.items)|].priority == gc + 1 + Manhattan(next, end)
    ensures !Improves(gScore, gc, next) ==> gScore' == gScore && cameFrom' == cameFrom && pq.items == old(pq.items)
  {
    gScore', cameFrom' := gScore, cameFrom;
    var tentativeG := gc + 1;
    if next !in gScore || tentativeG < gScore[next] {
      cameFrom' := cameFrom[next := curr];
      gScore' := gScore[next := tentativeG];
      var fScore := tentativeG + Manhattan(next, end);
      var item := new Item(next, fScore);
      pq.Push(item);
      PointsAppend(old(pq.items), pq.items, [next]);
    }
  }

  /**
   * The neighbour loop of `SolveAStar`: the scores and links become those of
   * `Relaxation` over `curr`'s open neighbours, and the relaxed neighbours
   * are pushed in order, each with its new score plus its Manhattan distance
   * to `end` as priority.
   */
  method Relax(m: Maze, pq: PriorityQueue, curr: Point, end: Point, gScore: map<Point, int>,
               cameFrom: map<Point, Point>)
    returns (gScore': map<Point, int>, cameFrom': map<Point, Point>)
    requires m.Valid() && Probeable(m.rows, m.cols, curr) && curr in gScore && pq.Valid()
    modifies pq
    ensures var r := Relaxation(curr, gScore[curr], OpenNeighbors(m.grid, m.rows, m.cols, curr), gScore, cameFrom);
      gScore' == r.0 && cameFrom' == r.1 && Points(pq.items) == Points(old(pq.items)) + r.2
    ensures pq.Valid() && |old(pq.items)| <= |pq.items| && pq.items[..|old(pq.items)|] == old(pq.items)
    ensures old(pq.Repr) <= pq.Repr && fresh(pq.Repr - old(pq.Repr))
    ensures forall j :: |old(pq.items)| <= j < |pq.items| ==>
              pq.items[j].priority == gScore[curr] + 1 + Manhattan(pq.items[j].point, end)
  {
    ghost var n0 := |pq.items|;
    var gc := gScore[curr];
    var nbrs := m.GetNeighbors(curr);
    gScore', cameFrom' := gScore, cameFrom;
    for n := 0 to |nbrs|
      invariant var r := Relaxation(curr, gc, nbrs[..n], gScore, cameFrom);
        gScore' == r.0 && cameFrom' == r.1 && Points(pq.items) == Points(old(pq.items)) + r.2
      invariant curr in gScore' && gScore'[curr] == gc
      invariant pq.Valid() && n0 <= |pq.items| && pq.items[..n0] == old(pq.items)
      invariant old(pq.Repr) <= pq.Repr && fresh(pq.Repr - old(pq.Repr))
      invariant forall j :: n0 <= j < |pq.items| ==>
                  pq.items[j].priority == gc + 1 + Manhattan(pq.items[j].point, end)
    {
      var next := nbrs[n];
      assert nbrs[..n + 1][..n] == nbrs[..n];
      ghost var r := Relaxation(curr, gc, nbrs[..n], gScore, cameFrom);
      ghost var items0 := pq.items;
      gScore', cameFrom' := RelaxOne(pq, curr, gScore'[curr], next, end, gScore', cameFrom');
      if Improves(r.0, gc, next) {
        assert Points(pq.items) == Points(old(pq.items)) + (r.2 + [next]);
        assert pq.items[..n0] == items0[..n0];
        forall j | n0 <= j < |pq.items|
          ensures pq.items[j].priority == gc + 1 + Manhattan(pq.items[j].point, end)
        {
          if j < |items0| {
            assert pq.items[j] == items0[j];
          } else {
            assert Points(pq.items)[j] == next;
          }
        }
      }
    }
    assert nbrs[..|nbrs|] == nbrs;
  }

  /**
   * The scores and links of `SolveAStar` between two pops: the start is
   * scored 0, every other scored point is linked back through a passage to
   * a scored point with a smaller score, and no score is negative.
   */
  ghost predicate ScoresSound(g: seq<seq<Cell>>, rows: int, cols: int, start: Point,
                              cameFrom: map<Point, Point>, gScore: map<Point, int>)
    requires Shaped(g, rows, cols)
  {
    start in gScore && gScore[start] == 0 &&
    LinksSound(g, rows, cols, start, cameFrom, gScore.Keys) &&
    (forall k {:trigger k in gScore} :: k in gScore ==> gScore[k] >= 0) &&
    (forall k {:trigger k in cameFrom} ::
       k in cameFrom ==> k in gScore && cameFrom[k] in gScore && gScore[cameFrom[k]] < gScore[k])
  }

  /**
   * The queue and the popped points of `SolveAStar`: every scored point is
   * popped or still queued, none popped is the end, passages out of popped
   * points lead to scored points, and the start is popped first.
   */
  ghost predicate QueueSound(g: seq<seq<Cell>>, rows: int, cols: int, start: Point, end: Point,
                             visited: seq<Point>, queued: seq<Point>, gScore: map<Point, int>)
    requires Shaped(g, rows, cols)
  {
    (forall j :: 0 <= j < |queued| ==> queued[j] in gScore && (queued[j] == start || InBounds(rows, cols, queued[j]))) &&
    (forall i :: 0 <= i < |visited| ==> visited[i] in gScore && visited[i] != end) &&
    (forall q {:trigger q in gScore} :: q in gScore ==> q in visited || q in queued) &&
    Explored(g, rows, cols, visited, gScore.Keys) &&
    (|visited| > 0 ==> visited[0] == start) &&
    (|visited| == 0 ==> queued == [start])
  }

  /** What the priority-queue pop leaves: `curr` came from slot `ci`, and the other points stay queued. */
  ghost predicate PoppedFrom(queued: seq<Point>, ci: int, curr: Point, queued1: seq<Point>)
  {
    0 <= ci < |queued| && queued[ci] == curr &&
    (forall i :: 0 <= i < |queued| ==> queued[i] == curr || queued[i] in queued1) &&
    (forall j :: 0 <= j < |queued1| ==> queued1[j] in queued)
  }

  /** After one round of `SolveAStar`, the linked points are still the scored ones other than the start. */
  lemma LinkKeysStep(g: seq<seq<Cell>>, rows: int, cols: int, start: Point, cameFrom: map<Point, Point>,
                     gScore: map<Point, int>, curr: Point, r: (map<Point, int>, map<Point, Point>, seq<Point>))
    requires Shaped(g, rows, cols) && ScoresSound(g, rows, cols, start, cameFrom, gScore)
    requires Relaxed(g, rows, cols, curr, gScore, r.0, cameFrom, r.1, r.2) && start !in r.2
    ensures r.1.Keys == r.0.Keys - {start}
  {
    forall k | k in r.0 ensures k in r.1 <==> k != start {
      if k in r.2 {
        var j :| 0 <= j < |r.2| && r.2[j] == k;
        assert k in r.1;
      } else {
        assert k in gScore && (k in r.1 <==> k in cameFrom);
        assert k in cameFrom <==> k in gScore.Keys - {start};
      }
    }
  }

  /** One round of `SolveAStar` keeps the scores and links sound. */
  lemma ScoresStep(g: seq<seq<Cell>>, rows: int, cols: int, start: Point, cameFrom: map<Point, Point>,
                   gScore: map<Point, int>, curr: Point, r: (map<Point, int>, map<Point, Point>, seq<Point>),
                   gScore': map<Point, int>, cameFrom': map<Point, Point>)
    requires Shaped(g, rows, cols) && ScoresSound(g, rows, cols, start, cameFrom, gScore)
    requires Relaxed(g, rows, cols, curr, gScore, r.0, cameFrom, r.1, r.2)
    requires gScore' == r.0 && cameFrom' == r.1
    ensures ScoresSound(g, rows, cols, start, cameFrom', gScore')
  {
    var gc := gScore[curr];
    assert curr !in r.2 && start !in r.2 by {
      forall j | 0 <= j < |r.2| ensures r.2[j] != curr && r.2[j] != start {
        assert Improves(gScore, gc, r.2[j]);
      }
    }
    LinkKeysStep(g, rows, cols, start, cameFrom, gScore, curr, r);
    forall k | k in r.1 ensures r.1[k] in r.0 && Passage(g, rows, cols, r.1[k], k) && r.0[r.1[k]] < r.0[k] {
      if k !in r.2 {
        var c := cameFrom[k];
        assert r.1[k] == c && r.0[k] == gScore[k] && c in gScore;
        if c in r.2 {
          var j :| 0 <= j < |r.2| && r.2[j] == c;
          assert Improves(gScore, gc, r.2[j]);
        }
      } else {
        var j :| 0 <= j < |r.2| && r.2[j] == k;
      }
    }
    forall k | k in r.0 ensures r.0[k] >= 0 {
      if k in r.2 {
        var j :| 0 <= j < |r.2| && r.2[j] == k;
      }
    }
  }

  /** One round of `SolveAStar` keeps the queue sound. */
  lemma QueueStep(g: seq<seq<Cell>>, rows: int, cols: int, start: Point, end: Point, visited: seq<Point>,
                  queued: seq<Point>, gScore: map<Point, int>, cameFrom: map<Point, Point>, ci: int, curr: Point,
                  queued1: seq<Point>, r: (map<Point, int>, map<Point, Point>, seq<Point>), queued': seq<Point>,
                  gScore': map<Point, int>)
    requires Shaped(g, rows, cols) && QueueSound(g, rows, cols, start, end, visited, queued, gScore)
    requires PoppedFrom(queued, ci, curr, queued1) && curr != end
    requires Relaxed(g, rows, cols, curr, gScore, r.0, cameFrom, r.1, r.2)
    requires forall w :: Passage(g, rows, cols, curr, w) ==> w in r.0
    requires queued' == queued1 + r.2 && gScore' == r.0
    ensures QueueSound(g, rows, cols, start, end, visited + [curr], queued', gScore')
  {
    forall j | 0 <= j < |queued'| ensures queued'[j] in r.0 && (queued'[j] == start || InBounds(rows, cols, queued'[j])) {
      if j < |queued1| {
        assert queued'[j] == queued1[j];
        var i :| 0 <= i < |queued| && queued[i] == queued1[j];
      } else {
        assert queued'[j] == r.2[j - |queued1|];
      }
    }
    forall q | q in r.0 ensures q in visited + [curr] || q in queued' {
      if q in r.2 {
        var j :| 0 <= j < |r.2| && r.2[j] == q;
        assert queued'[|queued1| + j] == q;
      } else if q !in visited {
        var i :| 0 <= i < |queued| && queued[i] == q;
        if q != curr {
          var j :| 0 <= j < |queued1| && queued1[j] == q;
          assert queued'[j] == q;
        }
      }
    }
    var v' := visited + [curr];
    forall i, w | 0 <= i < |v'| && Passage(g, rows, cols, v'[i], w) ensures w in r.0 {
      if i < |visited| {
        assert v'[i] == visited[i];
      }
    }
  }

  /** One round of `SolveAStar` after popping `curr` keeps its loop invariant. */
  lemma AStarRound(g: seq<seq<Cell>>, rows: int, cols: int, start: Point, end: Point, visited: seq<Point>,
                   queued: seq<Point>, cameFrom: map<Point, Point>, gScore: map<Point, int>, ci: int, curr: Point,
                   queued1: seq<Point>, gScore': map<Point, int>, cameFrom': map<Point, Point>, queued': seq<Point>)
    requires Shaped(g, rows, cols) && ScoresSound(g, rows, cols, start, cameFrom, gScore)
    requires QueueSound(g, rows, cols, start, end, visited, queued, gScore)
    requires PoppedFrom(queued, ci, curr, queued1) && curr != end && curr in gScore && Probeable(rows, cols, curr)
    requires var r := Relaxation(curr, gScore[curr], OpenNeighbors(g, rows, cols, curr), gScore, cameFrom);
      gScore' == r.0 && cameFrom' == r.1 && queued' == queued1 + r.2
    ensures ScoresSound(g, rows, cols, start, cameFrom', gScore')
    ensures QueueSound(g, rows, cols, start, end, visited + [curr], queued', gScore')
  {
    var nbrs := OpenNeighbors(g, rows, cols, curr);
    var r := Relaxation(curr, gScore[curr], nbrs, gScore, cameFrom);
    OpenNeighborsCharacterized(g, rows, cols, curr);
    RelaxationEffect(g, rows, cols, curr, gScore, cameFrom, nbrs);
    forall w | Passage(g, rows, cols, curr, w) ensures w in r.0 {
      var j :| 0 <= j < |nbrs| && nbrs[j] == w;
    }
    ScoresStep(g, rows, cols, start, cameFrom, gScore, curr, r, gScore', cameFrom');
    QueueStep(g, rows, cols, start, end, visited, queued, gScore, cameFrom, ci, curr, queued1, r, queued', gScore');
  }

  /**
   * One round of `SolveAStar` after a point other than End is popped: its
   * neighbours are relaxed and the queue and the scores stay sound, with
   * the popped point now counted as visited.
   */
  method ExpandRound(m: Maze, pq: PriorityQueue, ghost start: Point, end: Point, ghost visited: seq<Point>,
                     ghost queued: seq<Point>, ghost ci: int, curr: Point, gScore: map<Point, int>,
                     cameFrom: map<Point, Point>)
    returns (gScore': map<Point, int>, cameFrom': map<Point, Point>)
    requires m.Valid() && Probeable(m.rows, m.cols, start) && pq.Valid()
    requires ScoresSound(m.grid, m.rows, m.cols, start, cameFrom, gScore)
    requires QueueSound(m.grid, m.rows, m.cols, start, end, visited, queued, gScore)
    requires PoppedFrom(queued, ci, curr, Points(pq.items)) && curr != end
    modifies pq
    ensures pq.Valid() && old(pq.Repr) <= pq.Repr && fresh(pq.Repr - old(pq.Repr))
    ensures ScoresSound(m.grid, m.rows, m.cols, start, cameFrom', gScore')
    ensures QueueSound(m.grid, m.rows, m.cols, start, end, visited + [curr], Points(pq.items), gScore')
  {
    assert curr == queued[ci];
    ghost var items1 := pq.items;
    gScore', cameFrom' := Relax(m, pq, curr, end, gScore, cameFrom);
    AStarRound(m.grid, m.rows, m.cols, start, end, visited, queued, cameFrom, gScore, ci, curr,
               Points(items1), gScore', cameFrom', Points(pq.items));
  }

  /** A* pops End: the popped list still starts at Start and the linked path is a walk from Start to End. */
  lemma AStarFound(g: seq<seq<Cell>>, rows: int, cols: int, start: Point, end: Point, visited: seq<Point>,
                   queued: seq<Point>, cameFrom: map<Point, Point>, gScore: map<Point, int>, ci: int, p: seq<Point>)
    requires Shaped(g, rows, cols) && ScoresSound(g, rows, cols, start, cameFrom, gScore)
    requires QueueSound(g, rows, cols, start, end, visited, queued, gScore)
    requires 0 <= ci < |queued| && queued[ci] == end
    requires |p| > 0 && p[|p| - 1] == end && p[0] !in cameFrom && forall i :: 0 <= i < |p| ==> p[i] in gScore
    requires forall i :: 0 <= i < |p| - 1 ==> Link(cameFrom, p[i], p[i + 1])
    ensures (visited + [end])[0] == start
    ensures forall i :: 0 <= i < |visited| ==> visited[i] != end
    ensures IsPath(g, rows, cols, p, start, end)
  {
    assert |visited| == 0 ==> end == start;
    assert p[0] in gScore.Keys;
    LinkedPathIsWalk(g, rows, cols, start, cameFrom, gScore.Keys, p, end);
  }

  /** When the queue has run dry, every scored point was popped and the end cannot be reached. */
  lemma DrainedUnreachable(g: seq<seq<Cell>>, rows: int, cols: int, start: Point, end: Point,
                           visited: seq<Point>, cameFrom: map<Point, Point>, gScore: map<Point, int>)
    requires Shaped(g, rows, cols) && ScoresSound(g, rows, cols, start, cameFrom, gScore)
    requires QueueSound(g, rows, cols, start, end, visited, [], gScore)
    ensures !Reachable(g, rows, cols, start, end)
  {
    ExploredGivesClosed(g, rows, cols, visited, gScore.Keys);
    ClosedSetHoldsReachable(g, rows, cols, gScore.Keys, start, end);
    assert end !in visited;
  }

  /** The popped item's point came from some slot and the rest of the points stay queued. */
  lemma PopPoints(items: seq<Item>, item: Item, items1: seq<Item>) returns (ci: int)
    requires item in items
    requires forall i :: 0 <= i < |items| ==> items[i] == item || items[i] in items1
    requires forall j :: 0 <= j < |items1| ==> items1[j] in items
    ensures PoppedFrom(Points(items), ci, item.point, Points(items1))
  {
    ci :| 0 <= ci < |items| && items[ci] == item;
    var q, q1 := Points(items), Points(items1);
    forall i | 0 <= i < |q| ensures q[i] == item.point || q[i] in q1 {
      if items[i] != item {
        var j :| 0 <= j < |items1| && items1[j] == items[i];
        assert q1[j] == q[i];
      }
    }
    forall j | 0 <= j < |q1| ensures q1[j] in q {
      var i :| 0 <= i < |items| && items[i] == items1[j];
      assert q[i] == q1[j];
    }
  }

  /** Items appended to a queue add their points after the old ones. */
  lemma PointsAppend(items1: seq<Item>, items: seq<Item>, pushed: seq<Point>)
    requires |items| == |items1| + |pushed| && items[..|items1|] == items1
    requires forall j :: 0 <= j < |pushed| ==> items[|items1| + j].point == pushed[j]
    ensures Points(items) == Points(items1) + pushed
  {
    var q, q1 := Points(items), Points(items1);
    forall i | 0 <= i < |q| ensures q[i] == (q1 + pushed)[i] {
      if i < |items1| {
        assert items[i] == items1[i];
      } else {
        assert items[|items1| + (i - |items1|)].point == pushed[i - |items1|];
      }
    }
  }

  /**
   * `SolveAStar`: pops points in order of score plus Manhattan distance to
   * the end, recording each in `visited`; at the end it returns the path
   * rebuilt from the `cameFrom` links, which is a walk through open
   * passages from the start to the end. A queue that runs dry means the
   * end cannot be reached. `fuel` bounds the number of pops (see the
   * README).
   */
  method SolveAStar(m: Maze, fuel: nat) returns (visited: seq<Point>, path: Option<seq<Point>>)
    requires m.Valid() && Probeable(m.rows, m.cols, m.start)
    ensures |visited| <= fuel && (|visited| > 0 ==> visited[0] == m.start)
    ensures forall i :: 0 <= i < |visited| - 1 ==> visited[i] != m.end
    ensures path.Some? ==> |visited| > 0 && visited[|visited| - 1] == m.end &&
                           IsPath(m.grid, m.rows, m.cols, path.value, m.start, m.end)
    ensures path.None? && |visited| < fuel ==> m.end !in visited && !Reachable(m.grid, m.rows, m.cols, m.start, m.end)
  {
    var start, end := m.start, m.end;
    ghost var g, rows, cols := m.grid, m.rows, m.cols;
    visited := [];
    var cameFrom: map<Point, Point> := map[];
    var gScore: map<Point, int> := map[start := 0];
    var pq := new PriorityQueue();
    var first := new Item(start, 0);
    pq.Push(first);
    assert Points(pq.items) == [start];
    while pq.Len() > 0 && |visited| < fuel
      invariant fresh(pq) && pq.Valid() && fresh(pq.Repr)
      invariant |visited| <= fuel
      invariant ScoresSound(g, rows, cols, start, cameFrom, gScore)
      invariant QueueSound(g, rows, cols, start, end, visited, Points(pq.items), gScore)
      decreases fuel - |visited|
    {
      ghost var items0 := pq.items;
      var item := HeapPop(pq);
      var curr := item.point;
      ghost var ci := PopPoints(items0, item, pq.items);
      if curr == end {
        var p := ReconstructPath(cameFrom, curr, gScore);
        AStarFound(g, rows, cols, start, end, visited, Points(items0), cameFrom, gScore, ci, p);
        return visited + [curr], Some(p);
      }
      var gScore', cameFrom' := ExpandRound(m, pq, start, end, visited, Points(items0), ci, curr, gScore, cameFrom);
      visited := visited + [curr];
      gScore, cameFrom := gScore', cameFrom';
    }
    if |visited| < fuel {
      DrainedUnreachable(g, rows, cols, start, end, visited, cameFrom, gScore);
    }
    return visited, None;
  }
}
