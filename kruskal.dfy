/**
 * `generateWeightedKruskal` of backend/maze/generator.go and its two entry
 * points `GenerateKruskal` and `GenerateImageMaze`: the candidate walls,
 * sorted by weight, are knocked down whenever they separate two cells that
 * the disjoint-set structure still has in different sets. The proofs show
 * that the removed walls form a spanning tree of the grid: every cell
 * reaches every other, and exactly rows·cols - 1 walls go.
 */
module Kruskal {
  import opened Common
  import opened MazeGrid
  import opened Solver
  import opened Generator

  // ---------------------------------------------------------------------
  // Cell ids
  // ---------------------------------------------------------------------

  /** The DSU element of a cell: `R*Cols + C`. */
  function Id(cols: int, p: Point): int
  {
    p.row * cols + p.col
  }

  /** The cell of a DSU element. */
  function CellOf(cols: int, id: int): Point
    requires cols > 0
  {
    Point(id / cols, id % cols)
  }

  /** Dividing `q * cols + m` by `cols` gives back `q` and `m` when `0 <= m < cols`. */
  lemma DivModUnique(cols: int, q: int, m: int)
    requires cols > 0 && 0 <= m < cols
    ensures (q * cols + m) / cols == q && (q * cols + m) % cols == m
  {
    var x := q * cols + m;
    var q', m' := x / cols, x % cols;
    assert q' * cols + m' == x;
    assert (q' - q) * cols == m - m';
    if q' > q {
      MulLe(1, q' - q, cols);
    } else if q' < q {
      MulLe(1, q - q', cols);
    }
  }

  /** Cell ids number the cells 0 .. rows·cols - 1, and the cell can be read back from its id. */
  lemma IdInBounds(rows: int, cols: int, p: Point)
    requires InBounds(rows, cols, p)
    ensures 0 <= Id(cols, p) < rows * cols && CellOf(cols, Id(cols, p)) == p
  {
    MulLe(p.row, rows - 1, cols);
    MulLe(0, p.row, cols);
    assert (rows - 1) * cols + cols == rows * cols;
    DivModUnique(cols, p.row, p.col);
  }

  /** Every element 0 .. rows·cols - 1 is the id of a cell of the grid. */
  lemma CellOfInBounds(rows: int, cols: int, id: int)
    requires cols > 0 && 0 <= id < rows * cols
    ensures InBounds(rows, cols, CellOf(cols, id)) && Id(cols, CellOf(cols, id)) == id
  {
    var q := id / cols;
    if q >= rows {
      MulLe(rows, q, cols);
    }
    if q < 0 {
      MulLe(q, -1, cols);
    }
  }

  // ---------------------------------------------------------------------
  // The disjoint-set structure
  // ---------------------------------------------------------------------

  /** Each element names its set by a member that names itself. */
  ghost predicate Partition(rep: seq<int>)
  {
    forall i :: 0 <= i < |rep| ==> 0 <= rep[i] < |rep| && rep[rep[i]] == rep[i]
  }

  /** The names in use: one per set. */
  ghost function Labels(rep: seq<int>): set<int>
  {
    set i | 0 <= i < |rep| :: rep[i]
  }

  /** The partition after the sets of `a` and `b` are merged under `a`'s name. */
  function Merge(rep: seq<int>, a: int, b: int): (rep': seq<int>)
    requires 0 <= a < |rep| && 0 <= b < |rep|
    ensures |rep'| == |rep|
  {
    seq(|rep|, i requires 0 <= i < |rep| => if rep[i] == rep[b] then rep[a] else rep[i])
  }

  /**
   * The union-find structure `NewDSU(n)` returns. Its code is not part of
   * this model; it is represented by the partition it maintains, `rep[i]`
   * naming the set that holds element `i`.
   */
  class DSU {
    var rep: seq<int>

    ghost predicate Valid()
      reads this
    {
      Partition(rep)
    }

    /** `NewDSU(n)`: `n` singleton sets. */
    constructor (n: nat)
      ensures Valid() && |rep| == n
      ensures forall i :: 0 <= i < n ==> rep[i] == i
    {
      rep := seq(n, i => i);
    }

    /** `Find(i)`: the name of the set holding `i`; two elements share a set iff their names agree. */
    method Find(i: int) returns (r: int)
      requires Valid() && 0 <= i < |rep|
      ensures r == rep[i] && 0 <= r < |rep|
    {
      r := rep[i];
    }

    /** `Union(a, b)`: the sets of `a` and `b` become one; every other set stays as it is. */
    method Union(a: int, b: int)
      requires Valid() && 0 <= a < |rep| && 0 <= b < |rep|
      modifies this
      ensures Valid()
      ensures rep == Merge(old(rep), a, b)
    {
      rep := Merge(rep, a, b);
    }
  }

  /** Merging keeps the names valid, joins the two sets, and splits none. */
  lemma MergeKeepsPartition(rep: seq<int>, a: int, b: int)
    requires Partition(rep) && 0 <= a < |rep| && 0 <= b < |rep|
    ensures Partition(Merge(rep, a, b))
    ensures Merge(rep, a, b)[a] == Merge(rep, a, b)[b]
    ensures forall i, j :: 0 <= i < |rep| && 0 <= j < |rep| && rep[i] == rep[j] ==>
              Merge(rep, a, b)[i] == Merge(rep, a, b)[j]
  {
  }

  /** Merging two different sets removes exactly one name. */
  lemma MergeDropsOneLabel(rep: seq<int>, a: int, b: int)
    requires Partition(rep) && 0 <= a < |rep| && 0 <= b < |rep| && rep[a] != rep[b]
    ensures |Labels(Merge(rep, a, b))| == |Labels(rep)| - 1
  {
    var merged := Merge(rep, a, b);
    var before, after := Labels(rep), Labels(merged);
    forall x | x in after ensures x in before - {rep[b]} {
      var i :| 0 <= i < |merged| && merged[i] == x;
      if rep[i] == rep[b] {
        assert rep[a] in before;
      } else {
        assert rep[i] in before;
      }
    }
    forall x | x in before - {rep[b]} ensures x in after {
      var i :| 0 <= i < |rep| && rep[i] == x;
      assert merged[i] == x;
    }
    assert after == before - {rep[b]};
    assert rep[b] in before;
  }

  /** `n` singletons have `n` names. */
  lemma {:induction false} SingletonLabels(rep: seq<int>, n: nat)
    requires |rep| >= n && forall i :: 0 <= i < |rep| ==> rep[i] == i
    ensures |Labels(rep[..n])| == n
  {
    if n > 0 {
      SingletonLabels(rep, n - 1);
      var now, before := Labels(rep[..n]), Labels(rep[..n - 1]);
      forall x | x in now ensures x in before + {n - 1} {
        var i :| 0 <= i < n && rep[..n][i] == x;
        if i < n - 1 {
          assert rep[..n - 1][i] == x;
        }
      }
      forall x | x in before + {n - 1} ensures x in now {
        if x == n - 1 {
          assert rep[..n][n - 1] == x;
        } else {
          var i :| 0 <= i < n - 1 && rep[..n - 1][i] == x;
          assert rep[..n][i] == x;
        }
      }
      assert now == before + {n - 1};
    }
  }

  // ---------------------------------------------------------------------
  // What the processing loop keeps
  // ---------------------------------------------------------------------

  /** The two cells of a pair are in the same set. */
  predicate SameSet(rep: seq<int>, cols: int, pr: (Point, Point))
  {
    0 <= Id(cols, pr.0) < |rep| && 0 <= Id(cols, pr.1) < |rep| && rep[Id(cols, pr.0)] == rep[Id(cols, pr.1)]
  }

  /**
   * A table of the cells by DSU element: entry `i` is the cell whose id is
   * `i`. Reasoning about reachability goes through this table rather than
   * through the division in `CellOf`.
   */
  ghost predicate CellTable(cells: seq<Point>, rows: int, cols: int)
  {
    |cells| == rows * cols &&
    forall i :: 0 <= i < |cells| ==> InBounds(rows, cols, cells[i]) && Id(cols, cells[i]) == i
  }

  /** The cells in id order. */
  ghost function Cells(rows: int, cols: int): seq<Point>
    requires rows >= 0 && cols >= 0
  {
    if cols == 0 then [] else
    MulLe(0, rows, cols);
    seq(rows * cols, i requires 0 <= i < rows * cols => CellOf(cols, i))
  }

  /** `Cells` is such a table. */
  lemma CellsTable(rows: int, cols: int)
    requires rows >= 0 && cols >= 0
    ensures CellTable(Cells(rows, cols), rows, cols)
  {
    if cols > 0 {
      forall i | 0 <= i < rows * cols ensures InBounds(rows, cols, Cells(rows, cols)[i]) && Id(cols, Cells(rows, cols)[i]) == i {
        CellOfInBounds(rows, cols, i);
      }
    }
  }

  /** Every cell of the grid sits in the table at its id. */
  lemma CellAt(cells: seq<Point>, rows: int, cols: int, p: Point)
    requires CellTable(cells, rows, cols) && InBounds(rows, cols, p)
    ensures 0 <= Id(cols, p) < |cells| && cells[Id(cols, p)] == p
  {
    IdInBounds(rows, cols, p);
    var q := cells[Id(cols, p)];
    IdInBounds(rows, cols, q);
  }

  /** The cell of element `i` reaches the cell naming its set, and back, through open passages. */
  ghost predicate JoinedAt(g: seq<seq<Cell>>, rows: int, cols: int, cells: seq<Point>, rep: seq<int>, i: int)
    requires Shaped(g, rows, cols) && 0 <= i < |rep|
  {
    |cells| == |rep| && 0 <= rep[i] < |rep| &&
    Reachable(g, rows, cols, cells[i], cells[rep[i]]) &&
    Reachable(g, rows, cols, cells[rep[i]], cells[i])
  }

  /** Every cell reaches the cell naming its set, and back. */
  ghost predicate Joined(g: seq<seq<Cell>>, rows: int, cols: int, cells: seq<Point>, rep: seq<int>)
    requires Shaped(g, rows, cols)
  {
    forall i :: 0 <= i < |rep| ==> JoinedAt(g, rows, cols, cells, rep, i)
  }

  /**
   * The removed walls and the sets: each removed wall joins two cells of one
   * set, none is removed twice, and every removal has merged two sets, so
   * that sets plus removed walls always number rows·cols.
   */
  ghost predicate Forest(g: seq<seq<Cell>>, rows: int, cols: int, cells: seq<Point>, rep: seq<int>,
                         removed: seq<(Point, Point)>)
    requires Shaped(g, rows, cols)
  {
    CellTable(cells, rows, cols) &&
    |rep| == rows * cols && Partition(rep) &&
    |Labels(rep)| + |removed| == rows * cols &&
    Joined(g, rows, cols, cells, rep) &&
    NoDuplicates(removed) &&
    (forall t :: 0 <= t < |removed| ==> AdjacentPair(rows, cols, removed[t]) && SameSet(rep, cols, removed[t]))
  }

  /** The wall slots `RemoveWalls` clears for a pair of neighbours. */
  function SlotsOf(pr: (Point, Point)): set<(Point, nat)>
  {
    {(pr.0, DirTo(pr.0, pr.1)), (pr.1, DirTo(pr.1, pr.0))}
  }

  /** The wall slots cleared for all the removed pairs. */
  function OpenedSlots(removed: seq<(Point, Point)>): set<(Point, nat)>
  {
    if removed == [] then {} else OpenedSlots(removed[..|removed| - 1]) + SlotsOf(removed[|removed| - 1])
  }

  /** The walls of `g` are those of `g0` minus the slots of the removed pairs. */
  ghost predicate WallsCarved(g0: seq<seq<Cell>>, g: seq<seq<Cell>>, rows: int, cols: int, removed: seq<(Point, Point)>)
    requires Shaped(g0, rows, cols) && Shaped(g, rows, cols)
  {
    forall r, c, e :: 0 <= r < rows && 0 <= c < cols && 0 <= e < 4 ==>
      g[r][c].walls[e] == (g0[r][c].walls[e] && (Point(r, c), e) !in OpenedSlots(removed))
  }

  /** Visited marks and coordinates are untouched. */
  ghost predicate CellsKept(g0: seq<seq<Cell>>, g: seq<seq<Cell>>, rows: int, cols: int)
    requires Shaped(g0, rows, cols) && Shaped(g, rows, cols)
  {
    forall r, c :: 0 <= r < rows && 0 <= c < cols ==>
      g[r][c].visited == g0[r][c].visited && g[r][c].row == g0[r][c].row && g[r][c].col == g0[r][c].col
  }

  /**
   * Image mode: both cells of the wall carry its weight, in slots 1 and 3
   * for cells side by side, 2 and 0 for cells one above the other.
   */
  predicate WeightWritten(g: seq<seq<Cell>>, rows: int, cols: int, w: Wall)
    requires Shaped(g, rows, cols)
  {
    InBounds(rows, cols, Point(w.r1, w.c1)) && InBounds(rows, cols, Point(w.r2, w.c2)) &&
    if w.r1 == w.r2 then g[w.r1][w.c1].weights[Right] == w.weight && g[w.r2][w.c2].weights[Left] == w.weight
    else g[w.r1][w.c1].weights[Bottom] == w.weight && g[w.r2][w.c2].weights[Top] == w.weight
  }

  /** The grid after the image-mode weight writes for `w`. */
  function WriteWeights(g: seq<seq<Cell>>, rows: int, cols: int, w: Wall): (g2: seq<seq<Cell>>)
    requires Shaped(g, rows, cols)
    requires InBounds(rows, cols, Point(w.r1, w.c1)) && InBounds(rows, cols, Point(w.r2, w.c2))
    ensures Shaped(g2, rows, cols)
  {
    if w.r1 == w.r2 then
      SetWeight(SetWeight(g, rows, cols, Point(w.r1, w.c1), Right, w.weight), rows, cols, Point(w.r2, w.c2), Left, w.weight)
    else
      SetWeight(SetWeight(g, rows, cols, Point(w.r1, w.c1), Bottom, w.weight), rows, cols, Point(w.r2, w.c2), Top, w.weight)
  }

  /**
   * Writing a candidate's weights changes only those two slots: walls,
   * marks and the weights of every other candidate stay.
   */
  lemma WriteWeightsEffect(g: seq<seq<Cell>>, rows: int, cols: int, w: Wall)
    requires Shaped(g, rows, cols) && AdjacentPair(rows, cols, Ends(w))
    ensures var g2 := WriteWeights(g, rows, cols, w);
      WeightWritten(g2, rows, cols, w) &&
      (forall r, c :: 0 <= r < rows && 0 <= c < cols ==>
         g2[r][c].walls == g[r][c].walls && g2[r][c].visited == g[r][c].visited &&
         g2[r][c].row == g[r][c].row && g2[r][c].col == g[r][c].col) &&
      (forall w' :: AdjacentPair(rows, cols, Ends(w')) && Ends(w') != Ends(w) && WeightWritten(g, rows, cols, w') ==>
         WeightWritten(g2, rows, cols, w'))
  {
  }

  // ---------------------------------------------------------------------
  // One wall of the processing loop
  // ---------------------------------------------------------------------

  /** Reachability in both directions survives walls that are only opened. */
  lemma JoinedPersists(g: seq<seq<Cell>>, g2: seq<seq<Cell>>, rows: int, cols: int, cells: seq<Point>, rep: seq<int>)
    requires Shaped(g, rows, cols) && Shaped(g2, rows, cols) && OnlyOpens(g, g2, rows, cols)
    requires Joined(g, rows, cols, cells, rep)
    ensures Joined(g2, rows, cols, cells, rep)
  {
    forall i | 0 <= i < |rep| ensures JoinedAt(g2, rows, cols, cells, rep, i) {
      assert JoinedAt(g, rows, cols, cells, rep, i);
      ReachablePersists(g, g2, rows, cols, cells[i], cells[rep[i]]);
      ReachablePersists(g, g2, rows, cols, cells[rep[i]], cells[i]);
    }
  }

  /** One element after a merge: a member of `b`'s old set reaches `a`'s name by way of `b`'s. */
  lemma JoinedAtMerge(g: seq<seq<Cell>>, rows: int, cols: int, cells: seq<Point>, rep: seq<int>, a: int, b: int, i: int)
    requires Shaped(g, rows, cols) && 0 <= a < |rep| && 0 <= b < |rep| && 0 <= i < |rep|
    requires Partition(rep) && |cells| == |rep|
    requires JoinedAt(g, rows, cols, cells, rep, i)
    requires Reachable(g, rows, cols, cells[rep[b]], cells[rep[a]])
    requires Reachable(g, rows, cols, cells[rep[a]], cells[rep[b]])
    ensures JoinedAt(g, rows, cols, cells, Merge(rep, a, b), i)
  {
    if rep[i] == rep[b] {
      var x, ra, rb := cells[i], cells[rep[a]], cells[rep[b]];
      ReachableTrans(g, rows, cols, x, rb, ra);
      ReachableTrans(g, rows, cols, ra, rb, x);
    }
  }

  /** An open passage is a walk of one step. */
  lemma PassageReachable(g: seq<seq<Cell>>, rows: int, cols: int, p: Point, q: Point)
    requires Shaped(g, rows, cols) && Passage(g, rows, cols, p, q)
    ensures Reachable(g, rows, cols, p, q)
  {
    assert IsPath(g, rows, cols, [p, q], p, q);
  }

  /** The names of the two sets reach each other through the new passage between the cells of `a` and `b`. */
  lemma NamesJoined(g: seq<seq<Cell>>, rows: int, cols: int, cells: seq<Point>, rep: seq<int>, a: int, b: int)
    requires Shaped(g, rows, cols) && 0 <= a < |rep| && 0 <= b < |rep|
    requires JoinedAt(g, rows, cols, cells, rep, a) && JoinedAt(g, rows, cols, cells, rep, b)
    requires Passage(g, rows, cols, cells[a], cells[b]) && Passage(g, rows, cols, cells[b], cells[a])
    ensures Reachable(g, rows, cols, cells[rep[b]], cells[rep[a]])
    ensures Reachable(g, rows, cols, cells[rep[a]], cells[rep[b]])
  {
    var pa, pb, ra, rb := cells[a], cells[b], cells[rep[a]], cells[rep[b]];
    PassageReachable(g, rows, cols, pb, pa);
    PassageReachable(g, rows, cols, pa, pb);
    ReachableTrans(g, rows, cols, rb, pb, pa);
    ReachableTrans(g, rows, cols, rb, pa, ra);
    ReachableTrans(g, rows, cols, ra, pa, pb);
    ReachableTrans(g, rows, cols, ra, pb, rb);
  }

  /**
   * After the wall between the cells of `a` and `b` is removed and their
   * sets merged, every cell of `b`'s old set reaches `a`'s name through the
   * two cells.
   */
  lemma JoinedMerge(g: seq<seq<Cell>>, rows: int, cols: int, cells: seq<Point>, rep: seq<int>, a: int, b: int)
    requires Shaped(g, rows, cols) && Joined(g, rows, cols, cells, rep) && Partition(rep)
    requires 0 <= a < |rep| && 0 <= b < |rep| && |cells| == |rep|
    requires Passage(g, rows, cols, cells[a], cells[b]) && Passage(g, rows, cols, cells[b], cells[a])
    ensures Joined(g, rows, cols, cells, Merge(rep, a, b))
  {
    assert JoinedAt(g, rows, cols, cells, rep, a) && JoinedAt(g, rows, cols, cells, rep, b);
    NamesJoined(g, rows, cols, cells, rep, a, b);
    forall i | 0 <= i < |rep| ensures JoinedAt(g, rows, cols, cells, Merge(rep, a, b), i) {
      JoinedAtMerge(g, rows, cols, cells, rep, a, b, i);
    }
  }

  /** Clearing the slots of one more pair extends the carved-walls account by that pair. */
  lemma WallsCarvedStep(g0: seq<seq<Cell>>, g: seq<seq<Cell>>, rows: int, cols: int, removed: seq<(Point, Point)>,
                        p1: Point, p2: Point)
    requires Shaped(g0, rows, cols) && Shaped(g, rows, cols) && WallsCarved(g0, g, rows, cols, removed)
    requires InBounds(rows, cols, p1) && InBounds(rows, cols, p2) && Manhattan(p1, p2) == 1
    ensures WallsCarved(g0, RemoveWallsSpec(g, rows, cols, p1.row, p1.col, p2.row, p2.col), rows, cols,
                        removed + [(p1, p2)])
  {
    RemoveWallsEffect(g, rows, cols, p1, p2);
    var removed' := removed + [(p1, p2)];
    assert removed'[..|removed'| - 1] == removed;
  }

  /** Merging under a new name keeps the removed pairs each within one set, and adds a pair not seen before. */
  lemma PairsMerge(rows: int, cols: int, rep: seq<int>, removed: seq<(Point, Point)>, p1: Point, p2: Point)
    requires Partition(rep) && |rep| == rows * cols && NoDuplicates(removed)
    requires forall t :: 0 <= t < |removed| ==> AdjacentPair(rows, cols, removed[t]) && SameSet(rep, cols, removed[t])
    requires AdjacentPair(rows, cols, (p1, p2)) && !SameSet(rep, cols, (p1, p2))
    ensures 0 <= Id(cols, p1) < |rep| && 0 <= Id(cols, p2) < |rep|
    ensures var merged, removed' := Merge(rep, Id(cols, p1), Id(cols, p2)), removed + [(p1, p2)];
      NoDuplicates(removed') &&
      forall t :: 0 <= t < |removed'| ==> AdjacentPair(rows, cols, removed'[t]) && SameSet(merged, cols, removed'[t])
  {
    var a, b := Id(cols, p1), Id(cols, p2);
    IdInBounds(rows, cols, p1);
    IdInBounds(rows, cols, p2);
    var merged := Merge(rep, a, b);
    MergeKeepsPartition(rep, a, b);
    var removed' := removed + [(p1, p2)];
    forall t | 0 <= t < |removed'| ensures SameSet(merged, cols, removed'[t]) {
      if t < |removed| {
        assert SameSet(rep, cols, removed[t]);
      }
    }
    forall i, j | 0 <= i < j < |removed'| ensures removed'[i] != removed'[j] {
      if j == |removed| {
        assert SameSet(rep, cols, removed[i]);
      }
    }
  }

  /**
   * The processing of one candidate wall whose cells lie in different sets:
   * the wall goes, the sets merge, and the loop's account of the forest
   * carries over.
   */
  lemma ForestMerge(g: seq<seq<Cell>>, g2: seq<seq<Cell>>, rows: int, cols: int, cells: seq<Point>, rep: seq<int>,
                    removed: seq<(Point, Point)>, p1: Point, p2: Point)
    requires Shaped(g, rows, cols) && Forest(g, rows, cols, cells, rep, removed)
    requires AdjacentPair(rows, cols, (p1, p2)) && !SameSet(rep, cols, (p1, p2))
    requires 0 <= Id(cols, p1) < |rep| && 0 <= Id(cols, p2) < |rep|
    requires g2 == RemoveWallsSpec(g, rows, cols, p1.row, p1.col, p2.row, p2.col)
    ensures Shaped(g2, rows, cols)
    ensures Forest(g2, rows, cols, cells, Merge(rep, Id(cols, p1), Id(cols, p2)), removed + [(p1, p2)])
  {
    CellAt(cells, rows, cols, p1);
    CellAt(cells, rows, cols, p2);
    var a, b := Id(cols, p1), Id(cols, p2);
    RemoveWallsOpens(g, rows, cols, p1, p2);
    JoinedPersists(g, g2, rows, cols, cells, rep);
    JoinedMerge(g2, rows, cols, cells, rep, a, b);
    MergeKeepsPartition(rep, a, b);
    MergeDropsOneLabel(rep, a, b);
    PairsMerge(rows, cols, rep, removed, p1, p2);
  }

  /** After writing weights or merging, the pairs already in one set stay in one set. */
  lemma SameSetKept(rep: seq<int>, cols: int, a: int, b: int, walls: seq<Wall>, k: nat)
    requires Partition(rep) && 0 <= a < |rep| && 0 <= b < |rep| && k <= |walls|
    requires forall j :: 0 <= j < k ==> SameSet(rep, cols, Ends(walls[j]))
    ensures forall j :: 0 <= j < k ==> SameSet(Merge(rep, a, b), cols, Ends(walls[j]))
  {
    MergeKeepsPartition(rep, a, b);
  }

  // ---------------------------------------------------------------------
  // The end of the loop
  // ---------------------------------------------------------------------

  /** When every pair of neighbours shares a set, all cells share the set of (0, 0). */
  lemma {:induction false} OneSet(rows: int, cols: int, rep: seq<int>, q: Point, n: nat)
    requires |rep| == rows * cols && InBounds(rows, cols, q) && Manhattan(Point(0, 0), q) == n
    requires forall pr :: AdjacentPair(rows, cols, pr) ==> SameSet(rep, cols, pr)
    ensures 0 <= Id(cols, q) < |rep| && rep[Id(cols, q)] == rep[0]
    decreases n
  {
    IdInBounds(rows, cols, q);
    if n > 0 {
      var back := if q.row > 0 then Point(q.row - 1, q.col) else Point(q.row, q.col - 1);
      OneSet(rows, cols, rep, back, n - 1);
      assert AdjacentPair(rows, cols, (back, q));
    }
  }

  /** With a single set, every cell reaches every other by way of the cell naming it. */
  lemma AllJoined(g: seq<seq<Cell>>, rows: int, cols: int, cells: seq<Point>, rep: seq<int>, p: Point, q: Point)
    requires Shaped(g, rows, cols) && CellTable(cells, rows, cols) && Joined(g, rows, cols, cells, rep)
    requires |rep| == rows * cols && InBounds(rows, cols, p) && InBounds(rows, cols, q)
    requires forall i :: 0 <= i < |rep| ==> rep[i] == rep[0]
    ensures Reachable(g, rows, cols, p, q)
  {
    CellAt(cells, rows, cols, p);
    CellAt(cells, rows, cols, q);
    assert JoinedAt(g, rows, cols, cells, rep, Id(cols, p)) && JoinedAt(g, rows, cols, cells, rep, Id(cols, q));
    ReachableTrans(g, rows, cols, p, cells[rep[0]], q);
  }

  /**
   * The loop's end: once every candidate has been processed, one set is
   * left, so exactly rows·cols - 1 walls were removed and every cell
   * reaches every other.
   */
  lemma SpanningTree(g: seq<seq<Cell>>, rows: int, cols: int, cells: seq<Point>, rep: seq<int>,
                     removed: seq<(Point, Point)>)
    requires rows >= 1 && cols >= 1 && Shaped(g, rows, cols) && Forest(g, rows, cols, cells, rep, removed)
    requires forall pr :: AdjacentPair(rows, cols, pr) ==> SameSet(rep, cols, pr)
    ensures |removed| == rows * cols - 1
    ensures forall p, q :: InBounds(rows, cols, p) && InBounds(rows, cols, q) ==> Reachable(g, rows, cols, p, q)
  {
    MulLe(1, rows, cols);
    forall i | 0 <= i < |rep| ensures rep[i] == rep[0] {
      OneSet(rows, cols, rep, cells[i], Manhattan(Point(0, 0), cells[i]));
    }
    assert Labels(rep) == {rep[0]};
    forall p, q | InBounds(rows, cols, p) && InBounds(rows, cols, q) ensures Reachable(g, rows, cols, p, q) {
      AllJoined(g, rows, cols, cells, rep, p, q);
    }
  }

  // ---------------------------------------------------------------------
  // generateWeightedKruskal
  // ---------------------------------------------------------------------

  /** Each candidate once, and each joining two neighbouring cells. */
  predicate CandidateOrder(rows: int, cols: int, order: seq<Wall>)
  {
    NoDuplicates(PairsOf(order)) && forall i :: 0 <= i < |order| ==> AdjacentPair(rows, cols, Ends(order[i]))
  }

  /**
   * The sorted candidate list: ordered by weight, a rearrangement of the
   * scan, each pair of neighbours exactly once, each weight from its source.
   */
  lemma OrderFacts(rows: int, cols: int, cands: seq<Wall>, edgeWeights: Option<map<WeightKey, int>>)
    requires PairsOf(cands) == CandidatePairs(rows, cols)
    requires forall i :: 0 <= i < |cands| ==> WeightFromSource(edgeWeights, cands[i])
    ensures var order := SortByWeight(cands);
      SortedByWeight(order) && multiset(order) == multiset(cands) && CandidateOrder(rows, cols, order) &&
      (forall i :: 0 <= i < |order| ==> WeightFromSource(edgeWeights, order[i])) &&
      (forall pr :: AdjacentPair(rows, cols, pr) ==> pr in PairsOf(order))
  {
    var order := SortByWeight(cands);
    SortByWeightCorrect(cands);
    if rows >= 1 && cols >= 1 {
      CandidatesExactlyOnce(rows, cols);
    } else {
      assert CandidatePairs(rows, cols) == [];
    }
    SortKeepsDistinctPairs(cands);
    forall i | 0 <= i < |cands| ensures AdjacentPair(rows, cols, Ends(cands[i])) {
      assert PairsOf(cands)[i] in CandidatePairs(rows, cols);
    }
    PermutedWalls(rows, cols, cands, order, edgeWeights);
    PermutedCovers(rows, cols, cands, order);
  }

  /** A rearrangement of candidate walls holds candidate walls only, each with its weight from the source. */
  lemma PermutedWalls(rows: int, cols: int, cands: seq<Wall>, order: seq<Wall>, edgeWeights: Option<map<WeightKey, int>>)
    requires multiset(order) == multiset(cands)
    requires forall i :: 0 <= i < |cands| ==>
               AdjacentPair(rows, cols, Ends(cands[i])) && WeightFromSource(edgeWeights, cands[i])
    ensures forall i :: 0 <= i < |order| ==>
              AdjacentPair(rows, cols, Ends(order[i])) && WeightFromSource(edgeWeights, order[i])
  {
    forall i | 0 <= i < |order|
      ensures AdjacentPair(rows, cols, Ends(order[i])) && WeightFromSource(edgeWeights, order[i])
    {
      assert order[i] in multiset(cands);
      var u :| 0 <= u < |cands| && cands[u] == order[i];
    }
  }

  /** A rearrangement of a list covering every pair of neighbours covers them too. */
  lemma PermutedCovers(rows: int, cols: int, cands: seq<Wall>, order: seq<Wall>)
    requires multiset(order) == multiset(cands)
    requires forall pr :: AdjacentPair(rows, cols, pr) ==> pr in PairsOf(cands)
    ensures forall pr :: AdjacentPair(rows, cols, pr) ==> pr in PairsOf(order)
  {
    forall pr | AdjacentPair(rows, cols, pr) ensures pr in PairsOf(order) {
      var u :| 0 <= u < |cands| && PairsOf(cands)[u] == pr;
      assert cands[u] in multiset(order);
      var i :| 0 <= i < |order| && order[i] == cands[u];
      assert PairsOf(order)[i] == pr;
    }
  }

  /**
   * The processing loop after `k` walls: the forest account, the cells of
   * each processed wall in one set, walls carved for the removed pairs only,
   * marks untouched, and the weights untouched in plain mode or written for
   * every processed wall in image mode.
   */
  ghost predicate Processed(g0: seq<seq<Cell>>, g: seq<seq<Cell>>, rows: int, cols: int, cells: seq<Point>,
                            rep: seq<int>, removed: seq<(Point, Point)>, order: seq<Wall>, k: int, image: bool)
    requires Shaped(g0, rows, cols) && Shaped(g, rows, cols)
  {
    0 <= k <= |order| &&
    Forest(g, rows, cols, cells, rep, removed) &&
    (forall j :: 0 <= j < k ==> SameSet(rep, cols, Ends(order[j]))) &&
    WallsCarved(g0, g, rows, cols, removed) && CellsKept(g0, g, rows, cols) &&
    (!image ==> forall r, c :: 0 <= r < rows && 0 <= c < cols ==> g[r][c].weights == g0[r][c].weights) &&
    (image ==> forall j :: 0 <= j < k ==> WeightWritten(g, rows, cols, order[j]))
  }

  /** Image mode, before the set test: the weights of wall `k` are written and nothing else moves. */
  lemma WriteStep(g0: seq<seq<Cell>>, g: seq<seq<Cell>>, rows: int, cols: int, cells: seq<Point>, rep: seq<int>,
                  removed: seq<(Point, Point)>, order: seq<Wall>, k: int)
    requires Shaped(g0, rows, cols) && Shaped(g, rows, cols) && CandidateOrder(rows, cols, order) && 0 <= k < |order|
    requires Processed(g0, g, rows, cols, cells, rep, removed, order, k, true)
    ensures AdjacentPair(rows, cols, Ends(order[k]))
    ensures var g2 := WriteWeights(g, rows, cols, order[k]);
      Processed(g0, g2, rows, cols, cells, rep, removed, order, k, true) && WeightWritten(g2, rows, cols, order[k])
  {
    var w := order[k];
    var g2 := WriteWeights(g, rows, cols, w);
    WriteWeightsEffect(g, rows, cols, w);
    assert OnlyOpens(g, g2, rows, cols);
    JoinedPersists(g, g2, rows, cols, cells, rep);
    forall j | 0 <= j < k ensures WeightWritten(g2, rows, cols, order[j]) {
      assert PairsOf(order)[j] != PairsOf(order)[k];
    }
  }

  /** Wall `k` joins two sets: it is removed, the sets merge, and the loop's account moves past it. */
  lemma MergeStep(g0: seq<seq<Cell>>, g: seq<seq<Cell>>, rows: int, cols: int, cells: seq<Point>, rep: seq<int>,
                  removed: seq<(Point, Point)>, order: seq<Wall>, k: int, image: bool, g2: seq<seq<Cell>>)
    requires Shaped(g0, rows, cols) && Shaped(g, rows, cols) && CandidateOrder(rows, cols, order) && 0 <= k < |order|
    requires Processed(g0, g, rows, cols, cells, rep, removed, order, k, image)
    requires image ==> WeightWritten(g, rows, cols, order[k])
    requires !SameSet(rep, cols, Ends(order[k]))
    requires InBounds(rows, cols, Ends(order[k]).0) && InBounds(rows, cols, Ends(order[k]).1)
    requires 0 <= Id(cols, Ends(order[k]).0) < |rep| && 0 <= Id(cols, Ends(order[k]).1) < |rep|
    requires g2 == RemoveWallsSpec(g, rows, cols, order[k].r1, order[k].c1, order[k].r2, order[k].c2)
    ensures Processed(g0, g2, rows, cols, cells, Merge(rep, Id(cols, Ends(order[k]).0), Id(cols, Ends(order[k]).1)),
                      removed + [Ends(order[k])], order, k + 1, image)
  {
    var (p1, p2) := Ends(order[k]);
    assert AdjacentPair(rows, cols, (p1, p2));
    var a, b := Id(cols, p1), Id(cols, p2);
    ForestMerge(g, g2, rows, cols, cells, rep, removed, p1, p2);
    WallsCarvedStep(g0, g, rows, cols, removed, p1, p2);
    RemoveWallsEffect(g, rows, cols, p1, p2);
    SameSetKept(rep, cols, a, b, order, k);
    MergeKeepsPartition(rep, a, b);
    if image {
      WeightsKept(g, g2, rows, cols, order, k + 1);
    }
  }

  /** A step that leaves every cell's weights alone keeps the weights already written. */
  lemma WeightsKept(g: seq<seq<Cell>>, g2: seq<seq<Cell>>, rows: int, cols: int, order: seq<Wall>, n: int)
    requires Shaped(g, rows, cols) && Shaped(g2, rows, cols) && 0 <= n <= |order|
    requires forall r, c :: 0 <= r < rows && 0 <= c < cols ==> g2[r][c].weights == g[r][c].weights
    requires forall j :: 0 <= j < n ==> WeightWritten(g, rows, cols, order[j])
    ensures forall j :: 0 <= j < n ==> WeightWritten(g2, rows, cols, order[j])
  {
    forall j | 0 <= j < n ensures WeightWritten(g2, rows, cols, order[j]) {
      assert WeightWritten(g, rows, cols, order[j]);
    }
  }

  /** Wall `k` lies inside one set: it stays, and the loop's account moves past it. */
  lemma KeepStep(g0: seq<seq<Cell>>, g: seq<seq<Cell>>, rows: int, cols: int, cells: seq<Point>, rep: seq<int>,
                 removed: seq<(Point, Point)>, order: seq<Wall>, k: int, image: bool)
    requires Shaped(g0, rows, cols) && Shaped(g, rows, cols) && 0 <= k < |order|
    requires Processed(g0, g, rows, cols, cells, rep, removed, order, k, image)
    requires image ==> WeightWritten(g, rows, cols, order[k])
    requires SameSet(rep, cols, Ends(order[k]))
    ensures Processed(g0, g, rows, cols, cells, rep, removed, order, k + 1, image)
  {
  }

  /** Once every wall is processed the removed walls span the grid. */
  lemma Finished(g0: seq<seq<Cell>>, g: seq<seq<Cell>>, rows: int, cols: int, cells: seq<Point>, rep: seq<int>,
                 removed: seq<(Point, Point)>, order: seq<Wall>, image: bool)
    requires Shaped(g0, rows, cols) && Shaped(g, rows, cols)
    requires Processed(g0, g, rows, cols, cells, rep, removed, order, |order|, image)
    requires forall pr :: AdjacentPair(rows, cols, pr) ==> pr in PairsOf(order)
    ensures rows >= 1 && cols >= 1 ==> |removed| == rows * cols - 1
    ensures forall p, q :: InBounds(rows, cols, p) && InBounds(rows, cols, q) ==> Reachable(g, rows, cols, p, q)
  {
    if rows >= 1 && cols >= 1 {
      forall pr | AdjacentPair(rows, cols, pr) ensures SameSet(rep, cols, pr) {
        var j :| 0 <= j < |order| && PairsOf(order)[j] == pr;
      }
      SpanningTree(g, rows, cols, cells, rep, removed);
    }
  }

  /** The grid of a valid maze has rows·cols cells, a number that is never negative. */
  lemma CellCount(g: seq<seq<Cell>>, rows: int, cols: int)
    requires Shaped(g, rows, cols)
    ensures rows >= 0 && rows * cols >= 0 && (rows == 0 || cols >= 0)
  {
    if rows > 0 {
      assert |g[0]| == cols;
      MulLe(0, rows, cols);
    }
  }

  /** Before the loop: singleton sets, nothing removed, nothing written. */
  lemma ProcessedAtStart(g0: seq<seq<Cell>>, rows: int, cols: int, cells: seq<Point>, rep: seq<int>,
                         order: seq<Wall>, image: bool)
    requires Shaped(g0, rows, cols) && CellTable(cells, rows, cols)
    requires |rep| == rows * cols && forall i :: 0 <= i < |rep| ==> rep[i] == i
    ensures Processed(g0, g0, rows, cols, cells, rep, [], order, 0, image)
  {
    SingletonLabels(rep, |rep|);
    assert rep[..|rep|] == rep;
    forall i | 0 <= i < |rep| ensures JoinedAt(g0, rows, cols, cells, rep, i) {
      assert IsPath(g0, rows, cols, [cells[i]], cells[i], cells[i]);
    }
  }

  /** The grid after the image-mode write of `w`, or unchanged in plain mode. */
  function Written(g: seq<seq<Cell>>, rows: int, cols: int, w: Wall, image: bool): (g2: seq<seq<Cell>>)
    requires Shaped(g, rows, cols) && AdjacentPair(rows, cols, Ends(w))
    ensures Shaped(g2, rows, cols)
  {
    if image then WriteWeights(g, rows, cols, w) else g
  }

  /**
   * One turn of the loop, with the state after it: the wall's weights
   * written in image mode, then, if its cells lie in different sets, the
   * wall removed and the sets merged.
   */
  lemma ProcessStep(g0: seq<seq<Cell>>, g: seq<seq<Cell>>, rows: int, cols: int, cells: seq<Point>, rep: seq<int>,
                    removed: seq<(Point, Point)>, order: seq<Wall>, k: int, image: bool)
    returns (g2: seq<seq<Cell>>, rep2: seq<int>, removed2: seq<(Point, Point)>)
    requires Shaped(g0, rows, cols) && Shaped(g, rows, cols) && CandidateOrder(rows, cols, order) && 0 <= k < |order|
    requires Processed(g0, g, rows, cols, cells, rep, removed, order, k, image)
    ensures AdjacentPair(rows, cols, Ends(order[k]))
    ensures 0 <= Id(cols, Ends(order[k]).0) < |rep| && 0 <= Id(cols, Ends(order[k]).1) < |rep|
    ensures Shaped(g2, rows, cols) && Processed(g0, g2, rows, cols, cells, rep2, removed2, order, k + 1, image)
    ensures var w := order[k];
      var g1 := Written(g, rows, cols, w, image);
      if SameSet(rep, cols, Ends(w)) then
        g2 == g1 && rep2 == rep && removed2 == removed
      else
        g2 == RemoveWallsSpec(g1, rows, cols, w.r1, w.c1, w.r2, w.c2) &&
        rep2 == Merge(rep, Id(cols, Ends(w).0), Id(cols, Ends(w).1)) && removed2 == removed + [Ends(w)]
  {
    var w := order[k];
    assert AdjacentPair(rows, cols, Ends(w));
    IdInBounds(rows, cols, Ends(w).0);
    IdInBounds(rows, cols, Ends(w).1);
    var g1 := Written(g, rows, cols, w, image);
    if image {
      WriteStep(g0, g, rows, cols, cells, rep, removed, order, k);
    }
    if SameSet(rep, cols, Ends(w)) {
      KeepStep(g0, g1, rows, cols, cells, rep, removed, order, k, image);
      g2, rep2, removed2 := g1, rep, removed;
    } else {
      g2 := RemoveWallsSpec(g1, rows, cols, w.r1, w.c1, w.r2, w.c2);
      MergeStep(g0, g1, rows, cols, cells, rep, removed, order, k, image, g2);
      rep2, removed2 := Merge(rep, Id(cols, Ends(w).0), Id(cols, Ends(w).1)), removed + [Ends(w)];
    }
  }

  /** The image-mode write of a wall's weight into its two cells. */
  method WriteWallWeights(m: Maze, w: Wall)
    requires m.Valid() && AdjacentPair(m.rows, m.cols, Ends(w))
    modifies m`grid
    ensures m.Valid() && m.grid == WriteWeights(old(m.grid), m.rows, m.cols, w)
  {
    if w.r1 == w.r2 {
      m.grid := SetWeight(m.grid, m.rows, m.cols, Point(w.r1, w.c1), Right, w.weight);
      m.grid := SetWeight(m.grid, m.rows, m.cols, Point(w.r2, w.c2), Left, w.weight);
    } else {
      m.grid := SetWeight(m.grid, m.rows, m.cols, Point(w.r1, w.c1), Bottom, w.weight);
      m.grid := SetWeight(m.grid, m.rows, m.cols, Point(w.r2, w.c2), Top, w.weight);
    }
  }

  /**
   * The second loop of `generateWeightedKruskal`: each sorted wall in turn,
   * its weight written in image mode, then removed when `Find` puts its
   * cells in different sets, whose union follows.
   */
  method ProcessWalls(m: Maze, dsu: DSU, walls: seq<Wall>, isImageMode: bool, ghost g0: seq<seq<Cell>>,
                      ghost cells: seq<Point>)
    returns (ghost removed: seq<(Point, Point)>)
    requires m.Valid() && dsu.Valid() && Shaped(g0, m.rows, m.cols) && CandidateOrder(m.rows, m.cols, walls)
    requires Processed(g0, m.grid, m.rows, m.cols, cells, dsu.rep, [], walls, 0, isImageMode)
    modifies m`grid, dsu
    ensures m.Valid() && dsu.Valid()
    ensures Processed(g0, m.grid, m.rows, m.cols, cells, dsu.rep, removed, walls, |walls|, isImageMode)
  {
    var rows, cols := m.rows, m.cols;
    removed := [];
    var k := 0;
    while k < |walls|
      invariant Shaped(m.grid, rows, cols) && dsu.Valid()
      invariant Processed(g0, m.grid, rows, cols, cells, dsu.rep, removed, walls, k, isImageMode)
    {
      var w := walls[k];
      ghost var g, rep := m.grid, dsu.rep;
      ghost var g2, rep2, removed2 := ProcessStep(g0, g, rows, cols, cells, rep, removed, walls, k, isImageMode);
      if isImageMode {
        WriteWallWeights(m, w);
      }
      assert m.grid == Written(g, rows, cols, w, isImageMode);
      var id1 := w.r1 * cols + w.c1;
      var id2 := w.r2 * cols + w.c2;
      assert id1 == Id(cols, Ends(w).0) && id2 == Id(cols, Ends(w).1);
      var f1 := dsu.Find(id1);
      var f2 := dsu.Find(id2);
      if f1 != f2 {
        assert !SameSet(rep, cols, Ends(w));
        m.RemoveWalls(w.r1, w.c1, w.r2, w.c2);
        dsu.Union(id1, id2);
        removed := removed + [Ends(w)];
      } else {
        assert SameSet(rep, cols, Ends(w));
      }
      assert m.grid == g2 && dsu.rep == rep2 && removed == removed2;
      k := k + 1;
    }
  }

  /**
   * `generateWeightedKruskal(edgeWeights)`: the candidate walls, sorted by
   * weight, are processed in order; in image mode each writes its weight
   * into the two cells first; a wall whose cells `Find` puts in different
   * sets is removed and the sets are united. `draw(n)` stands for the n-th
   * `rand.IntN(100)`. The ghost results are the processing order and the
   * pairs whose walls were removed.
   */
  method GenerateWeightedKruskal(m: Maze, edgeWeights: Option<map<WeightKey, int>>, draw: nat -> int)
    returns (ghost order: seq<Wall>, ghost removed: seq<(Point, Point)>)
    requires m.Valid()
    requires forall n :: 0 <= draw(n) < 100
    modifies m`grid
    ensures m.Valid()
    ensures SortedByWeight(order) && CandidateOrder(m.rows, m.cols, order)
    ensures forall pr :: AdjacentPair(m.rows, m.cols, pr) ==> pr in PairsOf(order)
    ensures forall i :: 0 <= i < |order| ==> WeightFromSource(edgeWeights, order[i])
    ensures m.rows >= 1 && m.cols >= 1 ==> |removed| == m.rows * m.cols - 1
    ensures NoDuplicates(removed) && forall t :: 0 <= t < |removed| ==> AdjacentPair(m.rows, m.cols, removed[t])
    ensures forall p, q :: InBounds(m.rows, m.cols, p) && InBounds(m.rows, m.cols, q) ==>
              Reachable(m.grid, m.rows, m.cols, p, q)
    ensures WallsCarved(old(m.grid), m.grid, m.rows, m.cols, removed)
    ensures CellsKept(old(m.grid), m.grid, m.rows, m.cols)
    ensures edgeWeights.None? ==>
              forall r, c :: 0 <= r < m.rows && 0 <= c < m.cols ==> m.grid[r][c].weights == old(m.grid)[r][c].weights
    ensures edgeWeights.Some? ==> forall i :: 0 <= i < |order| ==> WeightWritten(m.grid, m.rows, m.cols, order[i])
  {
    CellCount(m.grid, m.rows, m.cols);
    var rows, cols := m.rows, m.cols;
    ghost var g0 := m.grid;
    ghost var cells: seq<Point> := [];
    if cols >= 0 {
      cells := Cells(rows, cols);
      CellsTable(rows, cols);
    }
    var dsu := new DSU(rows * cols);
    var isImageMode := edgeWeights.Some?;

    var cands := Candidates(rows, cols, edgeWeights, draw);
    var walls := SortByWeight(cands);
    OrderFacts(rows, cols, cands, edgeWeights);
    order, removed := walls, [];
    ProcessedAtStart(g0, rows, cols, cells, dsu.rep, walls, isImageMode);

    removed := ProcessWalls(m, dsu, walls, isImageMode, g0, cells);
    Finished(g0, m.grid, rows, cols, cells, dsu.rep, removed, walls, isImageMode);
  }

  /**
   * `GenerateKruskal`: every weight set to 255, then plain randomized
   * Kruskal. The maze becomes a spanning tree of the grid with solid walls.
   */
  method GenerateKruskal(m: Maze, draw: nat -> int) returns (ghost removed: seq<(Point, Point)>)
    requires m.Valid()
    requires forall n :: 0 <= draw(n) < 100
    modifies m`grid
    ensures m.Valid()
    ensures forall r, c :: 0 <= r < m.rows && 0 <= c < m.cols ==> m.grid[r][c].weights == [255, 255, 255, 255]
    ensures m.rows >= 1 && m.cols >= 1 ==> |removed| == m.rows * m.cols - 1
    ensures NoDuplicates(removed) && forall t :: 0 <= t < |removed| ==> AdjacentPair(m.rows, m.cols, removed[t])
    ensures forall p, q :: InBounds(m.rows, m.cols, p) && InBounds(m.rows, m.cols, q) ==>
              Reachable(m.grid, m.rows, m.cols, p, q)
    ensures WallsCarved(old(m.grid), m.grid, m.rows, m.cols, removed)
    ensures CellsKept(old(m.grid), m.grid, m.rows, m.cols)
  {
    InitializeWallWeights(m, 255);
    ghost var order: seq<Wall>;
    order, removed := GenerateWeightedKruskal(m, None, draw);
  }

  /**
   * `GenerateImageMaze(weights)`: the map is kept on the maze, then Kruskal
   * runs guided by it; every wall ends up carrying the weight it was
   * processed with, the mapped value wherever the map has its key.
   */
  method GenerateImageMaze(m: Maze, weights: map<WeightKey, int>, draw: nat -> int)
    returns (ghost order: seq<Wall>, ghost removed: seq<(Point, Point)>)
    requires m.Valid()
    requires forall n :: 0 <= draw(n) < 100
    modifies m`grid, m`imageWeights
    ensures m.Valid() && m.imageWeights == Some(weights)
    ensures SortedByWeight(order) && CandidateOrder(m.rows, m.cols, order)
    ensures forall pr :: AdjacentPair(m.rows, m.cols, pr) ==> pr in PairsOf(order)
    ensures forall i :: 0 <= i < |order| ==>
              WeightFromSource(Some(weights), order[i]) && WeightWritten(m.grid, m.rows, m.cols, order[i])
    ensures m.rows >= 1 && m.cols >= 1 ==> |removed| == m.rows * m.cols - 1
    ensures NoDuplicates(removed) && forall t :: 0 <= t < |removed| ==> AdjacentPair(m.rows, m.cols, removed[t])
    ensures forall p, q :: InBounds(m.rows, m.cols, p) && InBounds(m.rows, m.cols, q) ==>
              Reachable(m.grid, m.rows, m.cols, p, q)
    ensures WallsCarved(old(m.grid), m.grid, m.rows, m.cols, removed)
    ensures CellsKept(old(m.grid), m.grid, m.rows, m.cols)
  {
    m.imageWeights := Some(weights);
    order, removed := GenerateWeightedKruskal(m, Some(weights), draw);
  }
}
