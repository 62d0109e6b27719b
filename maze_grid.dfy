/**
 * The backend maze grid (backend/maze/maze.go): a rectangular grid of cells,
 * each with four wall flags and four integer wall weights ordered Top,
 * Right, Bottom, Left, together with the start and end points and the
 * operations that build the grid, knock walls down, open the border at the
 * endpoints and list the open neighbours of a cell.
 */
module MazeGrid {
  import opened Common

  /** Wall slots and directions, in the order every cell stores them. */
  const Top: nat := 0
  const Right: nat := 1
  const Bottom: nat := 2
  const Left: nat := 3

  datatype Cell = Cell(row: int, col: int, visited: bool, walls: seq<bool>, weights: seq<int>)

  /** A key of the image-derived weight map: "r-c-top" or "r-c-left". */
  datatype WeightKey = TopKey(r: int, c: int) | LeftKey(r: int, c: int)

  /** A cell as `NewMaze` creates it: enclosed on all four sides. */
  function EnclosedCell(r: int, c: int): Cell
  {
    Cell(r, c, false, [true, true, true, true], [0, 0, 0, 0])
  }

  predicate InBounds(rows: int, cols: int, p: Point)
  {
    0 <= p.row < rows && 0 <= p.col < cols
  }

  /** `g` has `rows` rows of `cols` cells, each with four wall flags and four weights. */
  predicate Shaped(g: seq<seq<Cell>>, rows: int, cols: int)
  {
    |g| == rows &&
    (forall r :: 0 <= r < rows ==> |g[r]| == cols) &&
    (forall r, c :: 0 <= r < rows && 0 <= c < cols ==>
       |g[r][c].walls| == 4 && |g[r][c].weights| == 4)
  }

  /** The wall flag in slot `d` of the cell at `p`. */
  function WallAt(g: seq<seq<Cell>>, rows: int, cols: int, p: Point, d: nat): bool
    requires Shaped(g, rows, cols) && InBounds(rows, cols, p) && d < 4
  {
    g[p.row][p.col].walls[d]
  }

  /**
   * Adjacent cells agree about the wall between them: a cell's Right flag is
   * its east neighbour's Left flag, and its Bottom flag is its south
   * neighbour's Top flag.
   */
  predicate Symmetric(g: seq<seq<Cell>>, rows: int, cols: int)
    requires Shaped(g, rows, cols)
  {
    (forall r, c :: 0 <= r < rows && 0 <= c < cols - 1 ==>
       g[r][c].walls[Right] == g[r][c + 1].walls[Left]) &&
    (forall r, c :: 0 <= r < rows - 1 && 0 <= c < cols ==>
       g[r][c].walls[Bottom] == g[r + 1][c].walls[Top])
  }

  /** The neighbour of `p` in direction `d` (North, East, South, West). */
  function Step(p: Point, d: nat): Point
    requires d < 4
  {
    if d == Top then Point(p.row - 1, p.col)
    else if d == Right then Point(p.row, p.col + 1)
    else if d == Bottom then Point(p.row + 1, p.col)
    else Point(p.row, p.col - 1)
  }

  function Opposite(d: nat): (e: nat)
    requires d < 4
    ensures e < 4
  {
    (d + 2) % 4
  }

  /** The direction in which `q` lies next to `p`, or 4 when the two are not adjacent. */
  function DirTo(p: Point, q: Point): (d: nat)
    ensures d <= 4
    ensures d < 4 ==> Step(p, d) == q && Manhattan(p, q) == 1
    ensures d == 4 <==> Manhattan(p, q) != 1
  {
    if q == Point(p.row - 1, p.col) then Top
    else if q == Point(p.row, p.col + 1) then Right
    else if q == Point(p.row + 1, p.col) then Bottom
    else if q == Point(p.row, p.col - 1) then Left
    else 4
  }

  /**
   * A solver may move from `p` to `q`: both are in the grid, they are
   * adjacent, and `p`'s own wall slot toward `q` is open.
   */
  predicate Passage(g: seq<seq<Cell>>, rows: int, cols: int, p: Point, q: Point)
    requires Shaped(g, rows, cols)
  {
    InBounds(rows, cols, p) && InBounds(rows, cols, q) && DirTo(p, q) < 4 &&
    !g[p.row][p.col].walls[DirTo(p, q)]
  }

  /**
   * `GetNeighbors` may be asked about `p`: either `p` is in the grid, or no
   * neighbour of `p` is, so that the cell at `p` is never read.
   */
  predicate Probeable(rows: int, cols: int, p: Point)
  {
    InBounds(rows, cols, p) || forall d :: 0 <= d < 4 ==> !InBounds(rows, cols, Step(p, d))
  }

  /** The open neighbours of `p` among the first `k` directions, in N, E, S, W order. */
  function OpenNeighborsUpTo(g: seq<seq<Cell>>, rows: int, cols: int, p: Point, k: nat): seq<Point>
    requires Shaped(g, rows, cols) && Probeable(rows, cols, p) && k <= 4
  {
    if k == 0 then []
    else
      OpenNeighborsUpTo(g, rows, cols, p, k - 1) +
      (if InBounds(rows, cols, Step(p, k - 1)) && !g[p.row][p.col].walls[k - 1]
       then [Step(p, k - 1)] else [])
  }

  function OpenNeighbors(g: seq<seq<Cell>>, rows: int, cols: int, p: Point): seq<Point>
    requires Shaped(g, rows, cols) && Probeable(rows, cols, p)
  {
    OpenNeighborsUpTo(g, rows, cols, p, 4)
  }

  lemma {:induction false} OpenNeighborsUpToMembers(g: seq<seq<Cell>>, rows: int, cols: int, p: Point, k: nat)
    requires Shaped(g, rows, cols) && Probeable(rows, cols, p) && k <= 4
    ensures |OpenNeighborsUpTo(g, rows, cols, p, k)| <= k
    ensures NoDuplicates(OpenNeighborsUpTo(g, rows, cols, p, k))
    ensures forall q :: q in OpenNeighborsUpTo(g, rows, cols, p, k) <==>
              Passage(g, rows, cols, p, q) && DirTo(p, q) < k
  {
    if k > 0 {
      OpenNeighborsUpToMembers(g, rows, cols, p, k - 1);
      var s := OpenNeighborsUpTo(g, rows, cols, p, k - 1);
      var q := Step(p, k - 1);
      assert DirTo(p, q) == k - 1;
      forall x | x in s ensures x != q { }
    }
  }

  /**
   * `GetNeighbors`'s answer holds at most four points, each of them in the
   * grid, adjacent to `p` and behind an open wall slot of `p`, and it holds
   * every such point.
   */
  lemma OpenNeighborsCharacterized(g: seq<seq<Cell>>, rows: int, cols: int, p: Point)
    requires Shaped(g, rows, cols) && Probeable(rows, cols, p)
    ensures |OpenNeighbors(g, rows, cols, p)| <= 4
    ensures NoDuplicates(OpenNeighbors(g, rows, cols, p))
    ensures forall q :: q in OpenNeighbors(g, rows, cols, p) <==> Passage(g, rows, cols, p, q)
  {
    OpenNeighborsUpToMembers(g, rows, cols, p, 4);
  }

  /** The grid after slot `d` of the cell at `p` is set to `b`. */
  function SetWall(g: seq<seq<Cell>>, rows: int, cols: int, p: Point, d: nat, b: bool): (g2: seq<seq<Cell>>)
    requires Shaped(g, rows, cols) && InBounds(rows, cols, p) && d < 4
    ensures Shaped(g2, rows, cols)
    ensures forall r, c :: 0 <= r < rows && 0 <= c < cols ==>
              g2[r][c].row == g[r][c].row && g2[r][c].col == g[r][c].col &&
              g2[r][c].visited == g[r][c].visited && g2[r][c].weights == g[r][c].weights
    ensures forall r, c, e :: 0 <= r < rows && 0 <= c < cols && 0 <= e < 4 ==>
              g2[r][c].walls[e] == if Point(r, c) == p && e == d then b else g[r][c].walls[e]
  {
    g[p.row := g[p.row][p.col := g[p.row][p.col].(walls := g[p.row][p.col].walls[d := b])]]
  }

  /** The slot of cell 1 that `RemoveWalls(r1, c1, r2, c2)` clears. */
  function FirstSlot(r1: int, c1: int, r2: int, c2: int): (d: nat)
    ensures d < 4
  {
    if r1 == r2 then (if c1 < c2 then Right else Left)
    else (if r1 < r2 then Bottom else Top)
  }

  /**
   * The grid after `RemoveWalls(r1, c1, r2, c2)`: cell 1 loses its wall
   * toward cell 2 and cell 2 the opposite wall.
   */
  function RemoveWallsSpec(g: seq<seq<Cell>>, rows: int, cols: int, r1: int, c1: int, r2: int, c2: int): (g2: seq<seq<Cell>>)
    requires Shaped(g, rows, cols)
    requires InBounds(rows, cols, Point(r1, c1)) && InBounds(rows, cols, Point(r2, c2))
    ensures Shaped(g2, rows, cols)
  {
    var d := FirstSlot(r1, c1, r2, c2);
    SetWall(SetWall(g, rows, cols, Point(r1, c1), d, false), rows, cols, Point(r2, c2), Opposite(d), false)
  }

  /**
   * On horizontal neighbours `RemoveWalls` clears the left cell's Right wall
   * and the right cell's Left wall; on vertical neighbours the upper cell's
   * Bottom wall and the lower cell's Top wall. Every other wall flag and every
   * other field of every cell is unchanged.
   */
  lemma RemoveWallsEffect(g: seq<seq<Cell>>, rows: int, cols: int, p1: Point, p2: Point)
    requires Shaped(g, rows, cols) && InBounds(rows, cols, p1) && InBounds(rows, cols, p2)
    requires Manhattan(p1, p2) == 1
    ensures var g2 := RemoveWallsSpec(g, rows, cols, p1.row, p1.col, p2.row, p2.col);
      DirTo(p1, p2) == FirstSlot(p1.row, p1.col, p2.row, p2.col) &&
      (forall r, c :: 0 <= r < rows && 0 <= c < cols ==>
         g2[r][c].row == g[r][c].row && g2[r][c].col == g[r][c].col &&
         g2[r][c].visited == g[r][c].visited && g2[r][c].weights == g[r][c].weights) &&
      (forall r, c, e :: 0 <= r < rows && 0 <= c < cols && 0 <= e < 4 ==>
         g2[r][c].walls[e] ==
           if (Point(r, c) == p1 && e == DirTo(p1, p2)) || (Point(r, c) == p2 && e == DirTo(p2, p1))
           then false else g[r][c].walls[e])
  {
    var d := FirstSlot(p1.row, p1.col, p2.row, p2.col);
    assert DirTo(p1, p2) == d && DirTo(p2, p1) == Opposite(d);
  }

  /** Opening the wall between two neighbouring cells on both sides keeps wall symmetry. */
  lemma RemoveWallsKeepsSymmetry(g: seq<seq<Cell>>, rows: int, cols: int, p1: Point, p2: Point)
    requires Shaped(g, rows, cols) && InBounds(rows, cols, p1) && InBounds(rows, cols, p2)
    requires Manhattan(p1, p2) == 1 && Symmetric(g, rows, cols)
    ensures Symmetric(RemoveWallsSpec(g, rows, cols, p1.row, p1.col, p2.row, p2.col), rows, cols)
  {
    var g2: seq<seq<Cell>> := RemoveWallsSpec(g, rows, cols, p1.row, p1.col, p2.row, p2.col);
    RemoveWallsEffect(g, rows, cols, p1, p2);
    forall r: int, c: int | 0 <= r < rows && 0 <= c < cols - 1
      ensures g2[r][c].walls[Right] == g2[r][c + 1].walls[Left]
    {
    }
    forall r: int, c: int | 0 <= r < rows - 1 && 0 <= c < cols
      ensures g2[r][c].walls[Bottom] == g2[r + 1][c].walls[Top]
    {
    }
  }

  /** A point on one of the four border lines of the grid. */
  predicate OnBorder(rows: int, cols: int, p: Point)
  {
    p.row == 0 || p.row == rows - 1 || p.col == 0 || p.col == cols - 1
  }

  /**
   * The grid after `clipBorderWall(r, c)`: the cell loses each wall slot
   * that faces the outside of the grid.
   */
  function ClipSpec(g: seq<seq<Cell>>, rows: int, cols: int, p: Point): (g2: seq<seq<Cell>>)
    requires Shaped(g, rows, cols) && InBounds(rows, cols, p)
    ensures Shaped(g2, rows, cols)
  {
    var g1 := if p.row == 0 then SetWall(g, rows, cols, p, Top, false) else g;
    var g2 := if p.row == rows - 1 then SetWall(g1, rows, cols, p, Bottom, false) else g1;
    var g3 := if p.col == 0 then SetWall(g2, rows, cols, p, Left, false) else g2;
    if p.col == cols - 1 then SetWall(g3, rows, cols, p, Right, false) else g3
  }

  /** The wall slot `d` of the cell at `p` faces the outside of the grid. */
  predicate FacesOutside(rows: int, cols: int, p: Point, d: nat)
    requires d < 4
  {
    !InBounds(rows, cols, Step(p, d))
  }

  /**
   * `clipBorderWall` clears exactly the wall slots of that cell which face the
   * outside of the grid (so only on the sides where the cell touches the
   * border) and changes nothing else.
   */
  lemma ClipEffect(g: seq<seq<Cell>>, rows: int, cols: int, p: Point)
    requires Shaped(g, rows, cols) && InBounds(rows, cols, p)
    ensures var g2 := ClipSpec(g, rows, cols, p);
      (forall r, c :: 0 <= r < rows && 0 <= c < cols ==>
         g2[r][c].row == g[r][c].row && g2[r][c].col == g[r][c].col &&
         g2[r][c].visited == g[r][c].visited && g2[r][c].weights == g[r][c].weights) &&
      (forall r, c, e :: 0 <= r < rows && 0 <= c < cols && 0 <= e < 4 ==>
         g2[r][c].walls[e] ==
           if Point(r, c) == p && FacesOutside(rows, cols, p, e) then false else g[r][c].walls[e])
  {
  }

  /** Clearing only outward-facing wall slots keeps wall symmetry, which pairs inner slots only. */
  lemma ClipKeepsSymmetry(g: seq<seq<Cell>>, rows: int, cols: int, p: Point)
    requires Shaped(g, rows, cols) && InBounds(rows, cols, p) && Symmetric(g, rows, cols)
    ensures Symmetric(ClipSpec(g, rows, cols, p), rows, cols)
  {
    var g2: seq<seq<Cell>> := ClipSpec(g, rows, cols, p);
    ClipEffect(g, rows, cols, p);
    forall r: int, c: int | 0 <= r < rows && 0 <= c < cols - 1
      ensures g2[r][c].walls[Right] == g2[r][c + 1].walls[Left]
    {
      assert !FacesOutside(rows, cols, Point(r, c), Right);
      assert !FacesOutside(rows, cols, Point(r, c + 1), Left);
    }
    forall r: int, c: int | 0 <= r < rows - 1 && 0 <= c < cols
      ensures g2[r][c].walls[Bottom] == g2[r + 1][c].walls[Top]
    {
      assert !FacesOutside(rows, cols, Point(r, c), Bottom);
      assert !FacesOutside(rows, cols, Point(r + 1, c), Top);
    }
  }

  /** One outcome of `getRandomBorderPoint`: the side drawn, then the offset along it. */
  datatype BorderDraw = BorderDraw(side: int, offset: int)

  /**
   * The draws `rand.IntN(4)` and then `rand.IntN(Cols)` or `rand.IntN(Rows)`
   * can produce on a grid with at least one cell (`rand.IntN` panics on an
   * empty range, and `clipBorderWall` on a grid without rows).
   */
  predicate ValidDraw(rows: int, cols: int, d: BorderDraw)
  {
    rows >= 1 && cols >= 1 && 0 <= d.side < 4 &&
    0 <= d.offset < (if d.side == 0 || d.side == 2 then cols else rows)
  }

  /**
   * `getRandomBorderPoint`: side 0 is the top row, 1 the last column, 2 the
   * bottom row and any other side the first column. The point is always in
   * the grid and on its border.
   */
  function BorderPoint(rows: int, cols: int, d: BorderDraw): (p: Point)
    requires ValidDraw(rows, cols, d)
    ensures InBounds(rows, cols, p) && OnBorder(rows, cols, p)
  {
    if d.side == 0 then Point(0, d.offset)
    else if d.side == 1 then Point(d.offset, cols - 1)
    else if d.side == 2 then Point(rows - 1, d.offset)
    else Point(d.offset, 0)
  }

  /**
   * The acceptance test of `SetRandomStartEnd`: distinct points whose
   * Manhattan distance is at least half of Rows + Cols.
   */
  predicate FarApart(rows: int, cols: int, s: Point, e: Point)
  {
    s != e && 2 * Manhattan(s, e) >= rows + cols
  }

  /**
   * On a grid of at least 2 x 2 cells the opposite corners are a pair that
   * `SetRandomStartEnd` accepts, so its retry loop can end.
   */
  lemma {:induction false} CornersAccepted(rows: int, cols: int)
    requires rows >= 2 && cols >= 2
    ensures FarApart(rows, cols, BorderPoint(rows, cols, BorderDraw(0, 0)),
                     BorderPoint(rows, cols, BorderDraw(2, cols - 1)))
  {
    assert BorderPoint(rows, cols, BorderDraw(2, cols - 1)) == Point(rows - 1, cols - 1);
  }

  /**
   * On a 1 x 1, 1 x 2 or 2 x 1 grid no pair of border points is accepted, so
   * `SetRandomStartEnd` retries forever there.
   */
  lemma NoPairOnTinyGrid(rows: int, cols: int, s: Point, e: Point)
    requires (rows, cols) in {(1, 1), (1, 2), (2, 1)}
    requires InBounds(rows, cols, s) && InBounds(rows, cols, e)
    ensures !FarApart(rows, cols, s, e)
  {
  }

  class Maze {
    var rows: int
    var cols: int
    var grid: seq<seq<Cell>>
    var start: Point
    var end: Point
    /** The `Weights` field: the image weight map, nil unless an image maze was generated. */
    var imageWeights: Option<map<WeightKey, int>>

    ghost predicate Valid()
      reads this
    {
      Shaped(grid, rows, cols)
    }

    /**
     * `NewMaze(rows, cols)`: `rows` rows of `cols` cells, each enclosed on all
     * four sides, unvisited, with zero weights and Row/Col equal to its indices.
     * (Go's `make` panics on a negative size.)
     */
    constructor (rows: int, cols: int)
      requires rows >= 0 && cols >= 0
      ensures Valid() && this.rows == rows && this.cols == cols
      ensures forall r, c :: 0 <= r < rows && 0 <= c < cols ==> grid[r][c] == EnclosedCell(r, c)
      ensures start == Point(0, 0) && end == Point(0, 0) && imageWeights == None
    {
      var g: seq<seq<Cell>> := [];
      var r := 0;
      while r < rows
        invariant 0 <= r <= rows && |g| == r
        invariant forall i :: 0 <= i < r ==> |g[i]| == cols
        invariant forall i, c :: 0 <= i < r && 0 <= c < cols ==> g[i][c] == EnclosedCell(i, c)
      {
        var line: seq<Cell> := [];
        var c := 0;
        while c < cols
          invariant 0 <= c <= cols && |line| == c
          invariant forall j :: 0 <= j < c ==> line[j] == EnclosedCell(r, j)
        {
          line := line + [EnclosedCell(r, c)];
          c := c + 1;
        }
        g := g + [line];
        r := r + 1;
      }
      this.rows, this.cols, this.grid := rows, cols, g;
      this.start, this.end, this.imageWeights := Point(0, 0), Point(0, 0), None;
    }

    /**
     * `RemoveWalls(r1, c1, r2, c2)`: no bounds or adjacency check is made,
     * so both cells must be in the grid (Go panics otherwise).
     */
    method RemoveWalls(r1: int, c1: int, r2: int, c2: int)
      requires Valid()
      requires InBounds(rows, cols, Point(r1, c1)) && InBounds(rows, cols, Point(r2, c2))
      modifies this`grid
      ensures Valid()
      ensures grid == RemoveWallsSpec(old(grid), rows, cols, r1, c1, r2, c2)
    {
      if r1 == r2 {
        if c1 < c2 {
          grid := SetWall(grid, rows, cols, Point(r1, c1), Right, false);
          grid := SetWall(grid, rows, cols, Point(r2, c2), Left, false);
        } else {
          grid := SetWall(grid, rows, cols, Point(r1, c1), Left, false);
          grid := SetWall(grid, rows, cols, Point(r2, c2), Right, false);
        }
      } else {
        if r1 < r2 {
          grid := SetWall(grid, rows, cols, Point(r1, c1), Bottom, false);
          grid := SetWall(grid, rows, cols, Point(r2, c2), Top, false);
        } else {
          grid := SetWall(grid, rows, cols, Point(r1, c1), Top, false);
          grid := SetWall(grid, rows, cols, Point(r2, c2), Bottom, false);
        }
      }
    }

    /** `clipBorderWall(r, c)`: opens the cell's walls that face the outside of the grid. */
    method ClipBorderWall(p: Point)
      requires Valid() && InBounds(rows, cols, p)
      modifies this`grid
      ensures Valid()
      ensures grid == ClipSpec(old(grid), rows, cols, p)
    {
      if p.row == 0 {
        grid := SetWall(grid, rows, cols, p, Top, false);
      }
      if p.row == rows - 1 {
        grid := SetWall(grid, rows, cols, p, Bottom, false);
      }
      if p.col == 0 {
        grid := SetWall(grid, rows, cols, p, Left, false);
      }
      if p.col == cols - 1 {
        grid := SetWall(grid, rows, cols, p, Right, false);
      }
    }

    /**
     * `SetManualStartEnd(sr, sc, er, ec)`: both points must pass the border
     * test, otherwise an error is returned and nothing changes. The points are
     * not bounds-checked, so a point that passes the border test must lie in
     * the grid (Go panics in `clipBorderWall` otherwise).
     */
    method SetManualStartEnd(s: Point, e: Point) returns (ok: bool)
      requires Valid()
      requires OnBorder(rows, cols, s) && OnBorder(rows, cols, e) ==>
                 InBounds(rows, cols, s) && InBounds(rows, cols, e)
      modifies this`start, this`end, this`grid
      ensures Valid()
      ensures ok <==> OnBorder(rows, cols, s) && OnBorder(rows, cols, e)
      ensures !ok ==> start == old(start) && end == old(end) && grid == old(grid)
      ensures ok ==> start == s && end == e &&
                     grid == ClipSpec(ClipSpec(old(grid), rows, cols, s), rows, cols, e)
    {
      if !OnBorder(rows, cols, s) || !OnBorder(rows, cols, e) {
        return false;
      }
      start := s;
      end := e;
      ClipBorderWall(s);
      ClipBorderWall(e);
      return true;
    }

    /**
     * `SetRandomStartEnd`: `draws` are the successive pairs of border draws
     * the random source produces; the loop takes the first pair whose points
     * are distinct and at least (Rows + Cols) / 2 apart, and then opens the
     * border walls at both points. The source retries forever until such a
     * pair comes, hence the requirement that one does.
     */
    method SetRandomStartEnd(draws: seq<(BorderDraw, BorderDraw)>) returns (used: nat)
      requires Valid()
      requires forall i :: 0 <= i < |draws| ==> ValidDraw(rows, cols, draws[i].0) && ValidDraw(rows, cols, draws[i].1)
      requires exists i :: 0 <= i < |draws| &&
                 FarApart(rows, cols, BorderPoint(rows, cols, draws[i].0), BorderPoint(rows, cols, draws[i].1))
      modifies this`start, this`end, this`grid
      ensures Valid()
      ensures used < |draws| && start == BorderPoint(rows, cols, draws[used].0) && end == BorderPoint(rows, cols, draws[used].1)
      ensures forall i :: 0 <= i < used ==>
                !FarApart(rows, cols, BorderPoint(rows, cols, draws[i].0), BorderPoint(rows, cols, draws[i].1))
      ensures start != end && 2 * Manhattan(start, end) >= rows + cols
      ensures InBounds(rows, cols, start) && OnBorder(rows, cols, start)
      ensures InBounds(rows, cols, end) && OnBorder(rows, cols, end)
      ensures grid == ClipSpec(ClipSpec(old(grid), rows, cols, start), rows, cols, end)
    {
      var i := 0;
      while true
        invariant 0 <= i < |draws|
        invariant forall j :: 0 <= j < i ==>
                    !FarApart(rows, cols, BorderPoint(rows, cols, draws[j].0), BorderPoint(rows, cols, draws[j].1))
        invariant grid == old(grid)
        decreases |draws| - i
      {
        var s := BorderPoint(rows, cols, draws[i].0);
        var e := BorderPoint(rows, cols, draws[i].1);
        if s != e && 2 * Manhattan(s, e) >= rows + cols {
          start := s;
          end := e;
          used := i;
          break;
        }
        i := i + 1;
      }
      ClipBorderWall(start);
      ClipBorderWall(end);
    }

    /**
     * `GetNeighbors(p)`: the open neighbours of `p` in North, East, South,
     * West order.
     */
    method GetNeighbors(p: Point) returns (nbrs: seq<Point>)
      requires Valid() && Probeable(rows, cols, p)
      ensures nbrs == OpenNeighbors(grid, rows, cols, p)
      ensures |nbrs| <= 4 && NoDuplicates(nbrs)
      ensures forall q :: q in nbrs <==> Passage(grid, rows, cols, p, q)
    {
      nbrs := [];
      var dirs := [(-1, 0, Top), (0, 1, Right), (1, 0, Bottom), (0, -1, Left)];
      for i := 0 to 4
        invariant nbrs == OpenNeighborsUpTo(grid, rows, cols, p, i)
      {
        var (dr, dc, wallIdx) := dirs[i];
        assert Point(p.row + dr, p.col + dc) == Step(p, i) && wallIdx == i;
        var nr, nc := p.row + dr, p.col + dc;
        if nr >= 0 && nr < rows && nc >= 0 && nc < cols {
          if !grid[p.row][p.col].walls[wallIdx] {
            nbrs := nbrs + [Point(nr, nc)];
          }
        }
      }
      OpenNeighborsCharacterized(grid, rows, cols, p);
    }
  }
}
