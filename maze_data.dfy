/**
 * The maze as the frontend receives it (the `MazeData` interface of
 * frontend/src/hooks/useMazeGeneration.ts) and the drawing vocabulary the
 * canvas components share: colours, segments and canvas commands.
 */
module MazeData {
  import opened Common

  /** One grid cell: four wall flags and four wall weights, top, right, bottom, left. */
  datatype CellView = CellView(walls: seq<bool>, weights: seq<int>)

  datatype Maze = Maze(rows: int, cols: int, start: Point, end: Point, grid: seq<seq<CellView>>)

  /** `grid` has `rows` rows of `cols` cells with four flags and four weights each. */
  predicate WellFormed(m: Maze)
  {
    m.rows >= 0 && m.cols >= 0 && |m.grid| == m.rows &&
    (forall r :: 0 <= r < m.rows ==> |m.grid[r]| == m.cols) &&
    (forall r, c :: 0 <= r < m.rows && 0 <= c < m.cols ==>
       |m.grid[r][c].walls| == 4 && |m.grid[r][c].weights| == 4)
  }

  /**
   * A canvas style: CSS named black, an `rgb(v,v,v)` grey, or one of the
   * fixed colours of the components. Distinct values are distinct style
   * strings.
   */
  datatype Paint = Black | Grey(level: int) | LightGreen | Tomato | Lavender | SolutionRed

  /** A straight line from (x1, y1) to (x2, y2): one `moveTo` plus `lineTo`. */
  datatype Segment = Segment(x1: real, y1: real, x2: real, y2: real)

  /** The canvas coordinate of grid line `i` at cell size `cs`. */
  function Pixel(i: int, cs: real): real
  {
    i as real * cs
  }

  /** At a positive cell size different grid lines are at different coordinates. */
  lemma PixelInjective(i: int, j: int, cs: real)
    requires cs > 0.0 && i != j
    ensures Pixel(i, cs) != Pixel(j, cs)
  {
    if i < j {
      assert Pixel(j, cs) - Pixel(i, cs) == (j - i) as real * cs;
    } else {
      assert Pixel(i, cs) - Pixel(j, cs) == (i - j) as real * cs;
    }
  }

  /** The side `d` (0 top, 1 right, 2 bottom, 3 left) of the square of size `s` at (x, y). */
  function Side(x: real, y: real, s: real, d: int): Segment
  {
    if d == 0 then Segment(x, y, x + s, y)
    else if d == 1 then Segment(x + s, y, x + s, y + s)
    else if d == 2 then Segment(x, y + s, x + s, y + s)
    else Segment(x, y, x, y + s)
  }

  /** The four sides of a square of positive size are four different segments. */
  lemma SidesDistinct(x: real, y: real, s: real, d: int, e: int)
    requires s != 0.0 && 0 <= d < 4 && 0 <= e < 4 && d != e
    ensures Side(x, y, s, d) != Side(x, y, s, e)
  {
  }

  /** One canvas call, as the components issue them. */
  datatype Cmd =
    | Clear(w: real, h: real)
    | Save
    | Translate(dx: real, dy: real)
    | Scale(s: real)
    | Restore
    | FillRect(x: real, y: real, w: real, h: real, paint: Paint)
    | Polyline(points: seq<(real, real)>, width: real, paint: Paint)
    | StrokePath(paint: Paint, segs: seq<Segment>, width: real)

  /** The number of raised wall flags. */
  function Raised(walls: seq<bool>): nat
  {
    if walls == [] then 0 else Raised(walls[..|walls| - 1]) + (if walls[|walls| - 1] then 1 else 0)
  }
}
