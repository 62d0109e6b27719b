/**
 * The maze generators of backend/maze/generator.go: uniform wall weights,
 * Kruskal's algorithm over the candidate walls between adjacent cells
 * (random weights, or weights read from an image), and the recursive
 * depth-first carver. Randomness (`rand.IntN`, `rand.Shuffle`) is an input;
 * the disjoint-set structure is modelled by the sets it represents.
 */
module Generator {
  import opened Common
  import opened MazeGrid
  import opened Solver

  // ---------------------------------------------------------------------
  // initializeWallWeights
  // ---------------------------------------------------------------------

  /** The grid after weight slot `i` of the cell at `p` is set to `v`. */
  function SetWeight(g: seq<seq<Cell>>, rows: int, cols: int, p: Point, i: nat, v: int): (g2: seq<seq<Cell>>)
    requires Shaped(g, rows, cols) && InBounds(rows, cols, p) && i < 4
    ensures Shaped(g2, rows, cols)
  {
    g[p.row := g[p.row][p.col := g[p.row][p.col].(weights := g[p.row][p.col].weights[i := v])]]
  }

  /**
   * `initializeWallWeights(val)`: all four weights of every cell become
   * `val`; wall flags and every other field are untouched.
   */
  method InitializeWallWeights(m: Maze, val: int)
    requires m.Valid()
    modifies m`grid
    ensures m.Valid()
    ensures forall r, c :: 0 <= r < m.rows && 0 <= c < m.cols ==>
              m.grid[r][c] == old(m.grid[r][c]).(weights := [val, val, val, val])
  {
    ghost var g0: seq<seq<Cell>> := m.grid;
    for r := 0 to m.rows
      invariant Shaped(m.grid, m.rows, m.cols)
      invariant forall i, c :: 0 <= i < m.rows && 0 <= c < m.cols ==>
                  m.grid[i][c] == if i < r then g0[i][c].(weights := [val, val, val, val]) else g0[i][c]
    {
      assert |m.grid[r]| == m.cols;
      for c := 0 to m.cols
        invariant Shaped(m.grid, m.rows, m.cols)
        invariant forall i, j :: 0 <= i < m.rows && 0 <= j < m.cols ==>
                    m.grid[i][j] == if i < r || (i == r && j < c) then g0[i][j].(weights := [val, val, val, val])
                                    else g0[i][j]
      {
        for k := 0 to 4
          invariant Shaped(m.grid, m.rows, m.cols)
          invariant forall i, j :: 0 <= i < m.rows && 0 <= j < m.cols && (i, j) != (r, c) ==>
                      m.grid[i][j] == if i < r || (i == r && j < c) then g0[i][j].(weights := [val, val, val, val])
                                      else g0[i][j]
          invariant m.grid[r][c] == g0[r][c].(weights := seq(4, s requires 0 <= s < 4 =>
                                                          if s < k then val else g0[r][c].weights[s]))
        {
          m.grid := SetWeight(m.grid, m.rows, m.cols, Point(r, c), k, val);
        }
      }
    }
  }

  // ---------------------------------------------------------------------
  // The candidate walls of generateWeightedKruskal
  // ---------------------------------------------------------------------

  /** `Wall`: the boundary between cell 1 and cell 2, with its Kruskal priority. */
  datatype Wall = Wall(r1: int, c1: int, r2: int, c2: int, weight: int)

  /** The two cells of a wall, upper or left one first. */
  function Ends(w: Wall): (Point, Point)
  {
    (Point(w.r1, w.c1), Point(w.r2, w.c2))
  }

  /** The walls' cell pairs, in order. */
  function PairsOf(walls: seq<Wall>): (ps: seq<(Point, Point)>)
    ensures |ps| == |walls| && forall i :: 0 <= i < |walls| ==> ps[i] == Ends(walls[i])
  {
    seq(|walls|, i requires 0 <= i < |walls| => Ends(walls[i]))
  }

  /** The candidates contributed by cell (r, c): the wall below it, then the wall to its right. */
  function CellPairs(rows: int, cols: int, r: int, c: int): seq<(Point, Point)>
  {
    (if r < rows - 1 then [(Point(r, c), Point(r + 1, c))] else []) +
    (if c < cols - 1 then [(Point(r, c), Point(r, c + 1))] else [])
  }

  /** The candidates of cells (r, 0) .. (r, c - 1). */
  function RowPairs(rows: int, cols: int, r: int, c: int): seq<(Point, Point)>
    decreases c
  {
    if c <= 0 then [] else RowPairs(rows, cols, r, c - 1) + CellPairs(rows, cols, r, c - 1)
  }

  /** The candidates of rows 0 .. r - 1, row by row. */
  function GridPairs(rows: int, cols: int, r: int): seq<(Point, Point)>
    decreases r
  {
    if r <= 0 then [] else GridPairs(rows, cols, r - 1) + RowPairs(rows, cols, r - 1, cols)
  }

  /** The pair of cells is a candidate: both in the grid, the second just below or just right of the first. */
  predicate AdjacentPair(rows: int, cols: int, pq: (Point, Point))
  {
    InBounds(rows, cols, pq.0) && InBounds(rows, cols, pq.1) &&
    (pq.1 == Point(pq.0.row + 1, pq.0.col) || pq.1 == Point(pq.0.row, pq.0.col + 1))
  }

  /** The candidates of one cell are the adjacent pairs starting at it. */
  lemma CellPairsMembers(rows: int, cols: int, r: int, c: int)
    requires 0 <= r < rows && 0 <= c < cols
    ensures forall pq :: pq in CellPairs(rows, cols, r, c) <==> AdjacentPair(rows, cols, pq) && pq.0 == Point(r, c)
  {
  }

  /** The candidates of the first `c` cells of row `r` are the adjacent pairs starting there. */
  lemma {:induction false} RowPairsMembers(rows: int, cols: int, r: int, c: int)
    requires 0 <= r < rows && 0 <= c <= cols
    ensures forall pq :: pq in RowPairs(rows, cols, r, c) <==>
              AdjacentPair(rows, cols, pq) && pq.0.row == r && pq.0.col < c
    decreases c
  {
    if c > 0 {
      RowPairsMembers(rows, cols, r, c - 1);
      CellPairsMembers(rows, cols, r, c - 1);
      RowMembersStep(RowPairs(rows, cols, r, c - 1), CellPairs(rows, cols, r, c - 1), rows, cols, r, c);
    }
  }

  /** Appending cell (r, c - 1)'s candidates to those of the cells before it in its row. */
  lemma RowMembersStep(prefix: seq<(Point, Point)>, cell: seq<(Point, Point)>, rows: int, cols: int, r: int, c: int)
    requires forall pq :: pq in prefix <==> AdjacentPair(rows, cols, pq) && pq.0.row == r && pq.0.col < c - 1
    requires forall pq :: pq in cell <==> AdjacentPair(rows, cols, pq) && pq.0 == Point(r, c - 1)
    ensures forall pq :: pq in prefix + cell <==> AdjacentPair(rows, cols, pq) && pq.0.row == r && pq.0.col < c
  {
    forall pq ensures pq in prefix + cell <==> AdjacentPair(rows, cols, pq) && pq.0.row == r && pq.0.col < c {
      assert pq in prefix + cell <==> pq in prefix || pq in cell;
      if AdjacentPair(rows, cols, pq) && pq.0.row == r && pq.0.col < c && pq.0.col == c - 1 {
        assert pq.0 == Point(r, c - 1);
      }
    }
  }

  /** No candidate of row `r` is listed twice; the first `c` cells' candidates start left of column `c`. */
  lemma {:induction false} RowPairsUnique(rows: int, cols: int, r: int, c: int)
    requires 0 <= r < rows && 0 <= c <= cols
    ensures NoDuplicates(RowPairs(rows, cols, r, c))
    ensures forall k :: 0 <= k < |RowPairs(rows, cols, r, c)| ==>
              RowPairs(rows, cols, r, c)[k].0.row == r && RowPairs(rows, cols, r, c)[k].0.col < c
    decreases c
  {
    if c > 0 {
      RowPairsUnique(rows, cols, r, c - 1);
      var prefix: seq<(Point, Point)>, cell: seq<(Point, Point)> := RowPairs(rows, cols, r, c - 1), CellPairs(rows, cols, r, c - 1);
      assert RowPairs(rows, cols, r, c) == prefix + cell;
      forall i, j | 0 <= i < j < |prefix + cell| ensures (prefix + cell)[i] != (prefix + cell)[j] {
        if j >= |prefix| && i < |prefix| {
          assert (prefix + cell)[i].0.col < c - 1;
        }
      }
    }
  }

  /** Row `r` contributes one vertical wall per cell unless it is the last row, and one horizontal wall per cell but the last. */
  lemma {:induction false} RowPairsCount(rows: int, cols: int, r: int, c: int)
    requires 0 <= r < rows && 0 <= c <= cols && cols >= 1
    ensures |RowPairs(rows, cols, r, c)| == (if r < rows - 1 then c else 0) + (if c == cols then c - 1 else c)
    decreases c
  {
    if c > 0 {
      RowPairsCount(rows, cols, r, c - 1);
      assert RowPairs(rows, cols, r, c) == RowPairs(rows, cols, r, c - 1) + CellPairs(rows, cols, r, c - 1);
      assert |CellPairs(rows, cols, r, c - 1)| == (if r < rows - 1 then 1 else 0) + (if c < cols then 1 else 0);
    }
  }

  /** The candidates of rows 0 .. r - 1 are the adjacent pairs starting there. */
  lemma {:induction false} GridPairsMembers(rows: int, cols: int, r: int)
    requires 0 <= r <= rows && cols >= 1
    ensures forall pq :: pq in GridPairs(rows, cols, r) <==> AdjacentPair(rows, cols, pq) && pq.0.row < r
    decreases r
  {
    if r > 0 {
      GridPairsMembers(rows, cols, r - 1);
      RowPairsMembers(rows, cols, r - 1, cols);
      GridMembersStep(GridPairs(rows, cols, r - 1), RowPairs(rows, cols, r - 1, cols), rows, cols, r);
    }
  }

  /** Appending row r - 1's candidates to those of the rows above it. */
  lemma GridMembersStep(prefix: seq<(Point, Point)>, row: seq<(Point, Point)>, rows: int, cols: int, r: int)
    requires forall pq :: pq in prefix <==> AdjacentPair(rows, cols, pq) && pq.0.row < r - 1
    requires forall pq :: pq in row <==> AdjacentPair(rows, cols, pq) && pq.0.row == r - 1 && pq.0.col < cols
    ensures forall pq :: pq in prefix + row <==> AdjacentPair(rows, cols, pq) && pq.0.row < r
  {
    forall pq ensures pq in prefix + row <==> AdjacentPair(rows, cols, pq) && pq.0.row < r {
      assert pq in prefix + row <==> pq in prefix || pq in row;
    }
  }

  /** No candidate of rows 0 .. r - 1 is listed twice; they all start above row `r`. */
  lemma {:induction false} GridPairsUnique(rows: int, cols: int, r: int)
    requires 0 <= r <= rows && cols >= 1
    ensures NoDuplicates(GridPairs(rows, cols, r))
    ensures forall k :: 0 <= k < |GridPairs(rows, cols, r)| ==> GridPairs(rows, cols, r)[k].0.row < r
    decreases r
  {
    if r > 0 {
      GridPairsUnique(rows, cols, r - 1);
      RowPairsUnique(rows, cols, r - 1, cols);
      var prefix: seq<(Point, Point)>, row: seq<(Point, Point)> := GridPairs(rows, cols, r - 1), RowPairs(rows, cols, r - 1, cols);
      assert GridPairs(rows, cols, r) == prefix + row;
      forall i, j | 0 <= i < j < |prefix + row| ensures (prefix + row)[i] != (prefix + row)[j] {
        if j >= |prefix| && i < |prefix| {
          assert (prefix + row)[i].0.row < r - 1;
        }
      }
    }
  }

  /** Rows 0 .. r - 1 contribute `cols` vertical walls each (none in the last row) and `cols - 1` horizontal ones. */
  lemma {:induction false} GridPairsCount(rows: int, cols: int, r: int)
    requires 0 <= r <= rows && rows >= 1 && cols >= 1
    ensures |GridPairs(rows, cols, r)| == (if r == rows then (r - 1) * cols else r * cols) + r * (cols - 1)
    decreases r
  {
    if r > 0 {
      GridPairsCount(rows, cols, r - 1);
      RowPairsCount(rows, cols, r - 1, cols);
      assert GridPairs(rows, cols, r) == GridPairs(rows, cols, r - 1) + RowPairs(rows, cols, r - 1, cols);
      assert (r - 1) * (cols - 1) + (cols - 1) == r * (cols - 1);
      assert (r - 1) * cols + cols == r * cols;
    }
  }

  /** All candidate walls of a `rows` x `cols` grid, in the order the nested loops visit them. */
  function CandidatePairs(rows: int, cols: int): seq<(Point, Point)>
  {
    if cols <= 0 then [] else GridPairs(rows, cols, rows)
  }

  /**
   * The candidate list holds each pair of adjacent cells exactly once (upper
   * or left cell first): (Rows-1)·Cols vertical walls and Rows·(Cols-1)
   * horizontal ones.
   */
  lemma CandidatesExactlyOnce(rows: int, cols: int)
    requires rows >= 1 && cols >= 1
    ensures forall pq :: pq in CandidatePairs(rows, cols) <==> AdjacentPair(rows, cols, pq)
    ensures NoDuplicates(CandidatePairs(rows, cols))
    ensures |CandidatePairs(rows, cols)| == (rows - 1) * cols + rows * (cols - 1)
  {
    GridPairsMembers(rows, cols, rows);
    GridPairsUnique(rows, cols, rows);
    GridPairsCount(rows, cols, rows);
  }

  /** The weight map lookup of Go: a nil map (plain Kruskal) or a missing key gives nothing. */
  function Lookup(weights: Option<map<WeightKey, int>>, k: WeightKey): Option<int>
  {
    if weights.Some? && k in weights.value then Some(weights.value[k]) else None
  }

  /** The key read for a wall: "r-c-top" of the lower cell, or "r-c-left" of the right one. */
  function KeyOf(w: Wall): WeightKey
  {
    if w.r1 == w.r2 then LeftKey(w.r2, w.c2) else TopKey(w.r2, w.c2)
  }

  /** A wall's weight is the mapped value for its key when there is one, else a draw in [0, 100). */
  predicate WeightFromSource(weights: Option<map<WeightKey, int>>, w: Wall)
  {
    match Lookup(weights, KeyOf(w))
    case Some(v) => w.weight == v
    case None => 0 <= w.weight < 100
  }

  /**
   * The first loop of `generateWeightedKruskal`: for every cell in row-major
   * order, the wall below it and then the wall to its right, each weighted
   * from `edgeWeights` or, failing that, by the next `rand.IntN(100)` draw,
   * here `draw(n)` for the n-th draw.
   */
  method Candidates(rows: int, cols: int, edgeWeights: Option<map<WeightKey, int>>, draw: nat -> int)
    returns (walls: seq<Wall>)
    requires forall n :: 0 <= draw(n) < 100
    ensures PairsOf(walls) == CandidatePairs(rows, cols)
    ensures forall i :: 0 <= i < |walls| ==> WeightFromSource(edgeWeights, walls[i])
  {
    walls := [];
    var n := 0;
    var r := 0;
    while r < rows
      invariant 0 <= r && (r <= rows || r == 0)
      invariant PairsOf(walls) == if cols <= 0 then [] else GridPairs(rows, cols, r)
      invariant forall i :: 0 <= i < |walls| ==> WeightFromSource(edgeWeights, walls[i])
      decreases rows - r
    {
      var row;
      row, n := RowCandidates(rows, cols, r, edgeWeights, draw, n);
      PairsOfAppend(walls, row);
      walls := walls + row;
      r := r + 1;
    }
  }

  /** The inner loop of the candidate scan: the walls of row `r`, cell by cell. */
  method RowCandidates(rows: int, cols: int, r: int, edgeWeights: Option<map<WeightKey, int>>,
                       draw: nat -> int, n: nat)
    returns (row: seq<Wall>, n': nat)
    requires forall n :: 0 <= draw(n) < 100
    ensures PairsOf(row) == if cols <= 0 then [] else RowPairs(rows, cols, r, cols)
    ensures forall i :: 0 <= i < |row| ==> WeightFromSource(edgeWeights, row[i])
  {
    row, n' := [], n;
    var c := 0;
    while c < cols
      invariant 0 <= c && (c <= cols || c == 0)
      invariant PairsOf(row) == RowPairs(rows, cols, r, c)
      invariant forall i :: 0 <= i < |row| ==> WeightFromSource(edgeWeights, row[i])
      decreases cols - c
    {
      var cell;
      cell, n' := CellCandidates(rows, cols, r, c, edgeWeights, draw, n');
      PairsOfAppend(row, cell);
      row := row + cell;
      c := c + 1;
    }
  }

  /** The walls of one cell in the candidate loop, drawing from `draw(n)` on for missing weights. */
  method CellCandidates(rows: int, cols: int, r: int, c: int, edgeWeights: Option<map<WeightKey, int>>,
                        draw: nat -> int, n: nat)
    returns (cell: seq<Wall>, n': nat)
    requires forall n :: 0 <= draw(n) < 100
    ensures PairsOf(cell) == CellPairs(rows, cols, r, c)
    ensures forall i :: 0 <= i < |cell| ==> WeightFromSource(edgeWeights, cell[i])
  {
    cell, n' := [], n;
    if r < rows - 1 {
      var w := Wall(r, c, r + 1, c, 0);
      match Lookup(edgeWeights, TopKey(r + 1, c)) {
        case Some(v) => w := w.(weight := v);
        case None => w := w.(weight := draw(n')); n' := n' + 1;
      }
      cell := cell + [w];
    }
    if c < cols - 1 {
      var w := Wall(r, c, r, c + 1, 0);
      match Lookup(edgeWeights, LeftKey(r, c + 1)) {
        case Some(v) => w := w.(weight := v);
        case None => w := w.(weight := draw(n')); n' := n' + 1;
      }
      cell := cell + [w];
    }
  }

  lemma PairsOfAppend(a: seq<Wall>, b: seq<Wall>)
    ensures PairsOf(a + b) == PairsOf(a) + PairsOf(b)
  {
  }

  // ---------------------------------------------------------------------
  // sort.Slice(walls, by Weight)
  // ---------------------------------------------------------------------

  /** Non-decreasing weight order, the order Kruskal processes the walls in. */
  predicate SortedByWeight(walls: seq<Wall>)
  {
    forall i, j :: 0 <= i < j < |walls| ==> walls[i].weight <= walls[j].weight
  }

  /** `w` placed before the first wall of `s` that is at least as heavy. */
  function Insert(w: Wall, s: seq<Wall>): seq<Wall>
  {
    if s == [] || w.weight <= s[0].weight then [w] + s else [s[0]] + Insert(w, s[1..])
  }

  /**
   * The walls ordered by weight. `sort.Slice` is not stable and leaves the
   * order of equal weights unspecified; this one keeps them in input order.
   */
  function SortByWeight(walls: seq<Wall>): seq<Wall>
  {
    if walls == [] then [] else Insert(walls[0], SortByWeight(walls[1..]))
  }

  /** Inserting splits `s` at some position `k` and puts `w` there, keeping the order. */
  lemma {:induction false} InsertSplit(w: Wall, s: seq<Wall>) returns (k: nat)
    ensures k <= |s| && Insert(w, s) == s[..k] + [w] + s[k..]
  {
    if s == [] || w.weight <= s[0].weight {
      k := 0;
      assert s[..0] + [w] + s[0..] == [w] + s;
    } else {
      var k' := InsertSplit(w, s[1..]);
      k := k' + 1;
      assert [s[0]] + (s[1..][..k'] + [w] + s[1..][k'..]) == s[..k] + [w] + s[k..];
    }
  }

  /** Inserting into a list ordered by weight keeps it ordered. */
  lemma {:induction false} InsertSorted(w: Wall, s: seq<Wall>)
    requires SortedByWeight(s)
    ensures SortedByWeight(Insert(w, s))
    decreases |s|
  {
    var r := Insert(w, s);
    if s == [] || w.weight <= s[0].weight {
      assert r == [w] + s;
      forall i, j | 0 <= i < j < |r| ensures r[i].weight <= r[j].weight {
        if i == 0 {
          assert r[j] == s[j - 1];
          assert s[0].weight <= s[j - 1].weight;
        } else {
          assert r[i] == s[i - 1] && r[j] == s[j - 1];
        }
      }
    } else {
      var t := s[1..];
      InsertSorted(w, t);
      var k := InsertSplit(w, t);
      var q := Insert(w, t);
      assert r == [s[0]] + q;
      forall i, j | 0 <= i < j < |r| ensures r[i].weight <= r[j].weight {
        if i == 0 {
          assert r[j] == q[j - 1];
          if j - 1 < k {
            assert q[j - 1] == s[j];
          } else if j - 1 > k {
            assert q[j - 1] == s[j - 1];
          }
        } else {
          assert r[i] == q[i - 1] && r[j] == q[j - 1];
        }
      }
    }
  }

  /** Inserting adds exactly one copy of `w`. */
  lemma InsertMultiset(w: Wall, s: seq<Wall>)
    ensures multiset(Insert(w, s)) == multiset(s) + multiset{w}
  {
    var k := InsertSplit(w, s);
    assert s == s[..k] + s[k..];
  }

  /** The result of `SortByWeight` is ordered by weight and a rearrangement of its input. */
  lemma {:induction false} SortByWeightCorrect(walls: seq<Wall>)
    ensures SortedByWeight(SortByWeight(walls))
    ensures multiset(SortByWeight(walls)) == multiset(walls)
  {
    if walls != [] {
      SortByWeightCorrect(walls[1..]);
      InsertSorted(walls[0], SortByWeight(walls[1..]));
      InsertMultiset(walls[0], SortByWeight(walls[1..]));
      assert walls == [walls[0]] + walls[1..];
    }
  }

  /** Putting a wall with a new cell pair into a list of distinct pairs keeps them distinct. */
  lemma InsertFreshPair(w: Wall, s: seq<Wall>, k: nat)
    requires k <= |s| && NoDuplicates(PairsOf(s))
    requires forall t :: 0 <= t < |s| ==> Ends(s[t]) != Ends(w)
    ensures NoDuplicates(PairsOf(s[..k] + [w] + s[k..]))
  {
    var r := s[..k] + [w] + s[k..];
    forall i, j | 0 <= i < j < |r| ensures Ends(r[i]) != Ends(r[j]) {
      if i != k && j != k {
        var i', j' := if i < k then i else i - 1, if j < k then j else j - 1;
        assert r[i] == s[i'] && r[j] == s[j'] && i' < j';
        assert PairsOf(s)[i'] != PairsOf(s)[j'];
      } else if i == k {
        assert r[j] == s[j - 1];
      } else {
        assert r[i] == s[i];
      }
    }
  }

  /** Sorting keeps the walls' cell pairs pairwise distinct. */
  lemma {:induction false} SortKeepsDistinctPairs(walls: seq<Wall>)
    requires NoDuplicates(PairsOf(walls))
    ensures NoDuplicates(PairsOf(SortByWeight(walls)))
  {
    if walls != [] {
      var rest := SortByWeight(walls[1..]);
      assert PairsOf(walls[1..]) == PairsOf(walls)[1..];
      SortKeepsDistinctPairs(walls[1..]);
      SortByWeightCorrect(walls[1..]);
      forall t | 0 <= t < |rest| ensures Ends(rest[t]) != Ends(walls[0]) {
        assert rest[t] in multiset(walls[1..]);
        var u :| 0 <= u < |walls[1..]| && walls[1..][u] == rest[t];
        assert PairsOf(walls)[0] != PairsOf(walls)[u + 1];
      }
      var k := InsertSplit(walls[0], rest);
      InsertFreshPair(walls[0], rest, k);
    }
  }

  // ---------------------------------------------------------------------
  // Passages that stay open
  // ---------------------------------------------------------------------

  /** `g2` differs from `g` at most by opened walls: every wall up in `g2` was up in `g`. */
  ghost predicate OnlyOpens(g: seq<seq<Cell>>, g2: seq<seq<Cell>>, rows: int, cols: int)
    requires Shaped(g, rows, cols) && Shaped(g2, rows, cols)
  {
    forall r, c, e :: 0 <= r < rows && 0 <= c < cols && 0 <= e < 4 && g2[r][c].walls[e] ==> g[r][c].walls[e]
  }

  lemma OnlyOpensTrans(g: seq<seq<Cell>>, g2: seq<seq<Cell>>, g3: seq<seq<Cell>>, rows: int, cols: int)
    requires Shaped(g, rows, cols) && Shaped(g2, rows, cols) && Shaped(g3, rows, cols)
    requires OnlyOpens(g, g2, rows, cols) && OnlyOpens(g2, g3, rows, cols)
    ensures OnlyOpens(g, g3, rows, cols)
  {
  }

  /** A walk stays a walk when walls are only opened. */
  lemma ReachablePersists(g: seq<seq<Cell>>, g2: seq<seq<Cell>>, rows: int, cols: int, s: Point, e: Point)
    requires Shaped(g, rows, cols) && Shaped(g2, rows, cols) && OnlyOpens(g, g2, rows, cols)
    requires Reachable(g, rows, cols, s, e)
    ensures Reachable(g2, rows, cols, s, e)
  {
    var path :| IsPath(g, rows, cols, path, s, e);
    forall i | 0 <= i < |path| - 1 ensures Passage(g2, rows, cols, path[i], path[i + 1]) {
      assert Passage(g, rows, cols, path[i], path[i + 1]);
    }
    assert IsPath(g2, rows, cols, path, s, e);
  }

  /** A walk to `b` followed by a passage from `b` to `c` is a walk to `c`. */
  lemma ReachableStep(g: seq<seq<Cell>>, rows: int, cols: int, a: Point, b: Point, c: Point)
    requires Shaped(g, rows, cols) && Reachable(g, rows, cols, a, b) && Passage(g, rows, cols, b, c)
    ensures Reachable(g, rows, cols, a, c)
  {
    var path :| IsPath(g, rows, cols, path, a, b);
    assert IsPath(g, rows, cols, path + [c], a, c);
  }

  /** Walks compose. */
  lemma ReachableTrans(g: seq<seq<Cell>>, rows: int, cols: int, a: Point, b: Point, c: Point)
    requires Shaped(g, rows, cols) && Reachable(g, rows, cols, a, b) && Reachable(g, rows, cols, b, c)
    ensures Reachable(g, rows, cols, a, c)
  {
    var p1 :| IsPath(g, rows, cols, p1, a, b);
    var p2 :| IsPath(g, rows, cols, p2, b, c);
    var p := p1 + p2[1..];
    forall i | 0 <= i < |p| - 1 ensures Passage(g, rows, cols, p[i], p[i + 1]) {
      if i < |p1| - 1 {
        assert p[i] == p1[i] && p[i + 1] == p1[i + 1];
      } else {
        assert p[i] == p2[i - |p1| + 1] && p[i + 1] == p2[i - |p1| + 2];
      }
    }
    assert IsPath(g, rows, cols, p, a, c);
  }

  /** `RemoveWalls` between neighbours opens a passage from cell 1 to cell 2 and closes nothing. */
  lemma RemoveWallsOpens(g: seq<seq<Cell>>, rows: int, cols: int, p1: Point, p2: Point)
    requires Shaped(g, rows, cols) && InBounds(rows, cols, p1) && InBounds(rows, cols, p2)
    requires Manhattan(p1, p2) == 1
    ensures var g2 := RemoveWallsSpec(g, rows, cols, p1.row, p1.col, p2.row, p2.col);
      OnlyOpens(g, g2, rows, cols) && Passage(g2, rows, cols, p1, p2) && Passage(g2, rows, cols, p2, p1)
  {
    RemoveWallsEffect(g, rows, cols, p1, p2);
    assert DirTo(p2, p1) < 4;
  }

  // ---------------------------------------------------------------------
  // GenerateRecursive / recursiveDFS
  // ---------------------------------------------------------------------

  /** The cell at `q` exists and is marked `Visited`. */
  predicate VisitedAt(g: seq<seq<Cell>>, rows: int, cols: int, q: Point)
    requires Shaped(g, rows, cols)
  {
    InBounds(rows, cols, q) && g[q.row][q.col].visited
  }

  /** Every neighbour of `q` inside the grid is visited. */
  predicate NeighboursVisited(g: seq<seq<Cell>>, rows: int, cols: int, q: Point)
    requires Shaped(g, rows, cols)
  {
    forall d :: 0 <= d < 4 && InBounds(rows, cols, Step(q, d)) ==> VisitedAt(g, rows, cols, Step(q, d))
  }

  /** The cells not yet visited, whose number bounds the recursion. */
  ghost function Unvisited(g: seq<seq<Cell>>, rows: int, cols: int): set<Point>
    requires Shaped(g, rows, cols)
  {
    set r, c | 0 <= r < rows && 0 <= c < cols && !g[r][c].visited :: Point(r, c)
  }

  /** Visited marks are never cleared and walls never put back; weights and coordinates stay. */
  ghost predicate Grows(g: seq<seq<Cell>>, g2: seq<seq<Cell>>, rows: int, cols: int)
    requires Shaped(g, rows, cols) && Shaped(g2, rows, cols)
  {
    OnlyOpens(g, g2, rows, cols) &&
    (forall q :: VisitedAt(g, rows, cols, q) ==> VisitedAt(g2, rows, cols, q)) &&
    (forall r, c :: 0 <= r < rows && 0 <= c < cols ==>
       g2[r][c].weights == g[r][c].weights && g2[r][c].row == g[r][c].row && g2[r][c].col == g[r][c].col)
  }

  /**
   * What a `recursiveDFS` from `p` has done since grid `g0`: each cell it
   * newly visited (other than `p`) is joined to `p` by carved passages and
   * has all its neighbours visited.
   */
  ghost predicate CarvedFrom(g0: seq<seq<Cell>>, g: seq<seq<Cell>>, rows: int, cols: int, p: Point)
    requires Shaped(g0, rows, cols) && Shaped(g, rows, cols)
  {
    forall q :: q != p && !VisitedAt(g0, rows, cols, q) && VisitedAt(g, rows, cols, q) ==>
      Reachable(g, rows, cols, p, q) && NeighboursVisited(g, rows, cols, q)
  }

  /** A shuffle of the four directions. */
  predicate DirOrder(order: seq<nat>)
  {
    |order| == 4 && (forall i :: 0 <= i < 4 ==> order[i] < 4) && forall d :: 0 <= d < 4 ==> d in order
  }

  /** The grid after the cell at `p` is marked visited. */
  function Visit(g: seq<seq<Cell>>, rows: int, cols: int, p: Point): (g2: seq<seq<Cell>>)
    requires Shaped(g, rows, cols) && InBounds(rows, cols, p)
    ensures Shaped(g2, rows, cols)
  {
    g[p.row := g[p.row][p.col := g[p.row][p.col].(visited := true)]]
  }

  lemma GrowsTrans(g: seq<seq<Cell>>, g2: seq<seq<Cell>>, g3: seq<seq<Cell>>, rows: int, cols: int)
    requires Shaped(g, rows, cols) && Shaped(g2, rows, cols) && Shaped(g3, rows, cols)
    requires Grows(g, g2, rows, cols) && Grows(g2, g3, rows, cols)
    ensures Grows(g, g3, rows, cols)
  {
  }

  /** `RemoveWalls` toward a neighbour only opens walls, and opens the passage to it. */
  lemma RemoveWallsGrows(g: seq<seq<Cell>>, rows: int, cols: int, p: Point, q: Point)
    requires Shaped(g, rows, cols) && InBounds(rows, cols, p) && InBounds(rows, cols, q) && Manhattan(p, q) == 1
    ensures var g2 := RemoveWallsSpec(g, rows, cols, p.row, p.col, q.row, q.col);
      Grows(g, g2, rows, cols) && Passage(g2, rows, cols, p, q) &&
      forall x :: VisitedAt(g2, rows, cols, x) == VisitedAt(g, rows, cols, x)
  {
    RemoveWallsOpens(g, rows, cols, p, q);
    RemoveWallsEffect(g, rows, cols, p, q);
  }

  /**
   * One descent of `recursiveDFS` from `p` into the unvisited neighbour
   * `next`: everything the recursive call carved is reachable from `p`
   * through the wall just removed.
   */
  lemma DescendStep(g0: seq<seq<Cell>>, g1: seq<seq<Cell>>, g2: seq<seq<Cell>>, g3: seq<seq<Cell>>,
                    rows: int, cols: int, p: Point, next: Point)
    requires Shaped(g0, rows, cols) && Shaped(g1, rows, cols) && Shaped(g2, rows, cols) && Shaped(g3, rows, cols)
    requires Grows(g0, g1, rows, cols) && VisitedAt(g1, rows, cols, p) && CarvedFrom(g0, g1, rows, cols, p)
    requires InBounds(rows, cols, next) && !VisitedAt(g1, rows, cols, next)
    requires Grows(g1, g2, rows, cols) && Passage(g2, rows, cols, p, next)
    requires forall x :: VisitedAt(g2, rows, cols, x) == VisitedAt(g1, rows, cols, x)
    requires Grows(g2, g3, rows, cols) && VisitedAt(g3, rows, cols, next) && NeighboursVisited(g3, rows, cols, next)
    requires CarvedFrom(g2, g3, rows, cols, next)
    ensures Grows(g0, g3, rows, cols) && Grows(g1, g3, rows, cols)
    ensures CarvedFrom(g0, g3, rows, cols, p)
  {
    GrowsTrans(g0, g1, g2, rows, cols);
    GrowsTrans(g0, g2, g3, rows, cols);
    GrowsTrans(g1, g2, g3, rows, cols);
    assert IsPath(g3, rows, cols, [p, next], p, next);
    forall q | q != p && !VisitedAt(g0, rows, cols, q) && VisitedAt(g3, rows, cols, q)
      ensures Reachable(g3, rows, cols, p, q) && NeighboursVisited(g3, rows, cols, q)
    {
      if VisitedAt(g1, rows, cols, q) {
        ReachablePersists(g1, g3, rows, cols, p, q);
      } else if q != next {
        ReachableTrans(g3, rows, cols, p, next, q);
      }
    }
  }

  /** Visiting more cells leaves fewer unvisited ones. */
  lemma UnvisitedShrinks(g: seq<seq<Cell>>, g2: seq<seq<Cell>>, rows: int, cols: int, p: Point)
    requires Shaped(g, rows, cols) && Shaped(g2, rows, cols) && InBounds(rows, cols, p)
    requires forall q :: VisitedAt(g, rows, cols, q) ==> VisitedAt(g2, rows, cols, q)
    requires VisitedAt(g2, rows, cols, p)
    ensures |Unvisited(g2, rows, cols)| < |Unvisited(g, rows, cols)| + (if VisitedAt(g, rows, cols, p) then 1 else 0)
  {
    var u, u2 := Unvisited(g, rows, cols), Unvisited(g2, rows, cols);
    forall q | q in u2 ensures q in u - {p} {
      assert !VisitedAt(g2, rows, cols, q);
    }
    SubsetSize(u2, u - {p});
    if !VisitedAt(g, rows, cols, p) {
      assert u == (u - {p}) + {p};
    }
  }

  lemma {:induction false} SubsetSize<T>(a: set<T>, b: set<T>)
    requires a <= b
    ensures |a| <= |b|
    decreases a
  {
    if a != {} {
      var x :| x in a;
      SubsetSize(a - {x}, b - {x});
    }
  }

  /** The neighbours in directions `dirs[0 .. i]` stay visited, and the one in direction `dirs[i]` now is too. */
  lemma DirsVisited(g1: seq<seq<Cell>>, g3: seq<seq<Cell>>, rows: int, cols: int, p: Point, dirs: seq<nat>, i: int)
    requires Shaped(g1, rows, cols) && Shaped(g3, rows, cols) && DirOrder(dirs) && 0 <= i < 4
    requires forall q :: VisitedAt(g1, rows, cols, q) ==> VisitedAt(g3, rows, cols, q)
    requires forall j :: 0 <= j < i && InBounds(rows, cols, Step(p, dirs[j])) ==> VisitedAt(g1, rows, cols, Step(p, dirs[j]))
    requires InBounds(rows, cols, Step(p, dirs[i])) ==> VisitedAt(g3, rows, cols, Step(p, dirs[i]))
    ensures forall j :: 0 <= j < i + 1 && InBounds(rows, cols, Step(p, dirs[j])) ==> VisitedAt(g3, rows, cols, Step(p, dirs[j]))
  {
  }

  /**
   * `recursiveDFS(r, c)`: marks the cell visited, then tries its four
   * neighbours in the order `shuffle(p)` (`rand.Shuffle` of the direction
   * list) and, for each one in the grid and still unvisited, removes the
   * wall between them and recurses there.
   */
  method RecursiveDfs(m: Maze, p: Point, shuffle: Point -> seq<nat>)
    requires m.Valid() && InBounds(m.rows, m.cols, p)
    requires forall q :: DirOrder(shuffle(q))
    modifies m`grid
    ensures m.Valid()
    ensures Grows(old(m.grid), m.grid, m.rows, m.cols)
    ensures VisitedAt(m.grid, m.rows, m.cols, p) && NeighboursVisited(m.grid, m.rows, m.cols, p)
    ensures CarvedFrom(old(m.grid), m.grid, m.rows, m.cols, p)
    decreases |Unvisited(m.grid, m.rows, m.cols)| + (if VisitedAt(m.grid, m.rows, m.cols, p) then 1 else 0)
  {
    ghost var g0 := m.grid;
    m.grid := Visit(m.grid, m.rows, m.cols, p);
    var dirs := shuffle(p);
    for i := 0 to 4
      invariant m.Valid() && Grows(g0, m.grid, m.rows, m.cols)
      invariant VisitedAt(m.grid, m.rows, m.cols, p)
      invariant CarvedFrom(g0, m.grid, m.rows, m.cols, p)
      invariant forall j :: 0 <= j < i && InBounds(m.rows, m.cols, Step(p, dirs[j])) ==>
                  VisitedAt(m.grid, m.rows, m.cols, Step(p, dirs[j]))
    {
      var next := Step(p, dirs[i]);
      ghost var g1 := m.grid;
      if InBounds(m.rows, m.cols, next) && !m.grid[next.row][next.col].visited {
        m.RemoveWalls(p.row, p.col, next.row, next.col);
        ghost var g2 := m.grid;
        RemoveWallsGrows(g1, m.rows, m.cols, p, next);
        GrowsTrans(g0, g1, g2, m.rows, m.cols);
        UnvisitedShrinks(g0, g2, m.rows, m.cols, p);
        RecursiveDfs(m, next, shuffle);
        DescendStep(g0, g1, g2, m.grid, m.rows, m.cols, p, next);
      }
      DirsVisited(g1, m.grid, m.rows, m.cols, p, dirs, i);
    }
    forall d | 0 <= d < 4 && InBounds(m.rows, m.cols, Step(p, d))
      ensures VisitedAt(m.grid, m.rows, m.cols, Step(p, d))
    {
      assert d in dirs;
      var j :| 0 <= j < 4 && dirs[j] == d;
    }
  }

  /**
   * When every visited cell has all its neighbours visited, visiting spreads
   * from `p` over the whole grid: by induction on the distance from `p`.
   */
  lemma {:induction false} VisitedSpreads(g: seq<seq<Cell>>, rows: int, cols: int, p: Point, q: Point, n: nat)
    requires Shaped(g, rows, cols) && VisitedAt(g, rows, cols, p) && InBounds(rows, cols, q)
    requires forall x :: VisitedAt(g, rows, cols, x) ==> NeighboursVisited(g, rows, cols, x)
    requires Manhattan(p, q) == n
    ensures VisitedAt(g, rows, cols, q)
    decreases n
  {
    if n > 0 {
      var (back, d) :=
        if q.row > p.row then (Point(q.row - 1, q.col), Bottom)
        else if q.row < p.row then (Point(q.row + 1, q.col), Top)
        else if q.col > p.col then (Point(q.row, q.col - 1), Right)
        else (Point(q.row, q.col + 1), Left);
      VisitedSpreads(g, rows, cols, p, back, n - 1);
      assert Step(back, d) == q;
    }
  }

  /**
   * `GenerateRecursive(r, c)`: weights are reset to 255 only when the walk
   * starts at (0, 0); then `recursiveDFS(r, c)`. On a grid with nothing
   * visited yet, every cell ends up visited and joined to (r, c) by carved
   * passages, and no wall is ever put back.
   */
  method GenerateRecursive(m: Maze, r: int, c: int, shuffle: Point -> seq<nat>)
    requires m.Valid() && InBounds(m.rows, m.cols, Point(r, c))
    requires forall q :: DirOrder(shuffle(q))
    modifies m`grid
    ensures m.Valid() && OnlyOpens(old(m.grid), m.grid, m.rows, m.cols)
    ensures forall i, j :: 0 <= i < m.rows && 0 <= j < m.cols ==>
              m.grid[i][j].weights == if r == 0 && c == 0 then [255, 255, 255, 255] else old(m.grid[i][j].weights)
    ensures (forall q :: !VisitedAt(old(m.grid), m.rows, m.cols, q)) ==>
              forall q :: InBounds(m.rows, m.cols, q) ==>
                VisitedAt(m.grid, m.rows, m.cols, q) && Reachable(m.grid, m.rows, m.cols, Point(r, c), q)
  {
    ghost var g0 := m.grid;
    if r == 0 && c == 0 {
      InitializeWallWeights(m, 255);
    }
    ghost var g1 := m.grid;
    assert forall q :: VisitedAt(g1, m.rows, m.cols, q) == VisitedAt(g0, m.rows, m.cols, q);
    assert OnlyOpens(g0, g1, m.rows, m.cols);
    RecursiveDfs(m, Point(r, c), shuffle);
    OnlyOpensTrans(g0, g1, m.grid, m.rows, m.cols);
    if forall q :: !VisitedAt(g0, m.rows, m.cols, q) {
      var p := Point(r, c);
      forall q | InBounds(m.rows, m.cols, q)
        ensures VisitedAt(m.grid, m.rows, m.cols, q) && Reachable(m.grid, m.rows, m.cols, p, q)
      {
        VisitedSpreads(m.grid, m.rows, m.cols, p, q, Manhattan(p, q));
        if q == p {
          assert IsPath(m.grid, m.rows, m.cols, [p], p, p);
        }
      }
    }
  }
}
