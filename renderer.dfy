/**
 * backend/maze/renderer.go: the maze drawn into an RGBA pixel buffer. The
 * goroutines of `drawMaze` each take a contiguous band of rows; this model
 * runs the bands one after the other, in order, so the final colour of a
 * pixel shared by two cells is the colour of the last stroke in row-major
 * order that covers it.
 */
module Renderer {
  import opened Common
  import opened MazeGrid

  /** `color.RGBA`: four channels 0 .. 255. */
  datatype Rgba = Rgba(r: int, g: int, b: int, a: int)

  const White := Rgba(255, 255, 255, 255)
  const Black := Rgba(0, 0, 0, 255)
  const LightGreen := Rgba(144, 238, 144, 255)
  const Tomato := Rgba(255, 99, 71, 255)

  /** Go's `uint8(x)`: the low eight bits. */
  function Uint8(x: int): (b: int)
    ensures 0 <= b < 256
    ensures 0 <= x < 256 ==> b == x
  {
    x % 256
  }

  /** `getWallColor`: opaque black from weight 1000 up, else the grey `uint8(230 - weight%30)`. */
  function WallColor(weight: int): Rgba
  {
    if weight >= 1000 then Black
    else
      var intensity := Uint8(230 - TruncMod(weight, 30));
      Rgba(intensity, intensity, intensity, 255)
  }

  /**
   * Heavy walls are black; every weight in [0, 1000) gives an opaque grey
   * between 201 and 230, so never black.
   */
  lemma WallColorRange(weight: int)
    ensures weight >= 1000 ==> WallColor(weight) == Black
    ensures 0 <= weight < 1000 ==>
      var col := WallColor(weight);
      col.r == col.g == col.b && 201 <= col.r <= 230 && col.a == 255 && col != Black
  {
  }

  // ---------------------------------------------------------------------
  // The pixel buffer
  // ---------------------------------------------------------------------

  /** `image.RGBA`: a `width` x `height` buffer, indexed `[x, y]`. */
  class Image {
    const width: int
    const height: int
    const pix: array2<Rgba>

    ghost predicate Valid()
      reads this
    {
      pix.Length0 == width && pix.Length1 == height
    }

    /** `image.NewRGBA` filled by `draw.Draw` with one uniform colour. */
    constructor (width: nat, height: nat, col: Rgba)
      ensures Valid() && this.width == width && this.height == height && fresh(pix)
      ensures forall x, y :: 0 <= x < width && 0 <= y < height ==> pix[x, y] == col
    {
      this.width, this.height := width, height;
      pix := new Rgba[width, height]((x, y) => col);
    }

    /** `img.Set(x, y, col)`: a point outside the buffer is ignored. */
    method Set(x: int, y: int, col: Rgba)
      requires Valid()
      modifies pix
      ensures forall px, py :: 0 <= px < width && 0 <= py < height ==>
                pix[px, py] == if px == x && py == y then col else old(pix[px, py])
    {
      if 0 <= x < width && 0 <= y < height {
        pix[x, y] := col;
      }
    }
  }

  // ---------------------------------------------------------------------
  // Strokes: what fillCell and paintWall cover
  // ---------------------------------------------------------------------

  /** One call of `fillCell` or `paintWall`, with the colour it paints. */
  datatype Stroke =
    | Fill(x: int, y: int, size: int, col: Rgba)
    | Edge(x: int, y: int, size: int, dir: int, col: Rgba)

  /**
   * The pixels a stroke sets: the interior of a square for `fillCell`, and
   * for `paintWall` the top, right, bottom or left side (`dir` 0 .. 3) of
   * the square, corners included.
   */
  predicate Covers(s: Stroke, px: int, py: int)
  {
    match s
    case Fill(x, y, size, _) => x + 1 <= px < x + size && y + 1 <= py < y + size
    case Edge(x, y, size, dir, _) =>
      if dir == 0 then py == y && x <= px <= x + size
      else if dir == 1 then px == x + size && y <= py <= y + size
      else if dir == 2 then py == y + size && x <= px <= x + size
      else if dir == 3 then px == x && y <= py <= y + size
      else false
  }

  function ColorOf(s: Stroke): Rgba
  {
    s.col
  }

  /** The colour of a pixel after the strokes, in order, over `base`: the last stroke covering it wins. */
  function Shade(strokes: seq<Stroke>, px: int, py: int, base: Rgba): Rgba
  {
    if strokes == [] then base
    else if Covers(strokes[|strokes| - 1], px, py) then ColorOf(strokes[|strokes| - 1])
    else Shade(strokes[..|strokes| - 1], px, py, base)
  }

  /** Strokes applied in two runs shade like the whole sequence. */
  lemma {:induction false} ShadeAppend(a: seq<Stroke>, b: seq<Stroke>, px: int, py: int, base: Rgba)
    ensures Shade(a + b, px, py, base) == Shade(b, px, py, Shade(a, px, py, base))
    decreases |b|
  {
    if b == [] {
      assert a + b == a;
    } else {
      assert (a + b)[..|a + b| - 1] == a + b[..|b| - 1];
      ShadeAppend(a, b[..|b| - 1], px, py, base);
    }
  }

  /** A pixel no stroke covers keeps its colour. */
  lemma {:induction false} ShadeUncovered(strokes: seq<Stroke>, px: int, py: int, base: Rgba)
    requires forall i :: 0 <= i < |strokes| ==> !Covers(strokes[i], px, py)
    ensures Shade(strokes, px, py, base) == base
    decreases |strokes|
  {
    if strokes != [] {
      ShadeUncovered(strokes[..|strokes| - 1], px, py, base);
    }
  }

  /** A pixel covered by one stroke only, anywhere in the run, takes that stroke's colour. */
  lemma {:induction false} ShadeOnlyCover(strokes: seq<Stroke>, k: int, px: int, py: int, base: Rgba)
    requires 0 <= k < |strokes| && Covers(strokes[k], px, py)
    requires forall i :: 0 <= i < |strokes| && i != k ==> !Covers(strokes[i], px, py)
    ensures Shade(strokes, px, py, base) == ColorOf(strokes[k])
    decreases |strokes|
  {
    if k < |strokes| - 1 {
      ShadeOnlyCover(strokes[..|strokes| - 1], k, px, py, base);
    }
  }

  /** The pixels of a `paintWall` stroke, in the order the loop sets them. */
  function EdgePixels(x: int, y: int, size: nat, dir: int): seq<(int, int)>
  {
    seq(size + 1, i requires 0 <= i <= size =>
      if dir == 0 then (x + i, y)
      else if dir == 1 then (x + size, y + i)
      else if dir == 2 then (x + i, y + size)
      else (x, y + i))
  }

  /**
   * `paintWall` sets exactly cellSize + 1 distinct pixels along the chosen
   * side, and they are exactly the pixels its stroke covers.
   */
  lemma EdgePixelsExact(x: int, y: int, size: nat, dir: int, col: Rgba)
    requires 0 <= dir < 4
    ensures |EdgePixels(x, y, size, dir)| == size + 1 && NoDuplicates(EdgePixels(x, y, size, dir))
    ensures forall px, py :: (px, py) in EdgePixels(x, y, size, dir) <==> Covers(Edge(x, y, size, dir, col), px, py)
  {
    var e := EdgePixels(x, y, size, dir);
    forall px, py | Covers(Edge(x, y, size, dir, col), px, py) ensures (px, py) in e {
      var i := if dir == 0 || dir == 2 then px - x else py - y;
      assert e[i] == (px, py);
    }
  }

  // ---------------------------------------------------------------------
  // fillCell and paintWall
  // ---------------------------------------------------------------------

  /** `fillCell`: the interior pixels x+1 .. x+size-1 by y+1 .. y+size-1, never the square's sides. */
  method FillCell(img: Image, x: int, y: int, size: int, col: Rgba)
    requires img.Valid()
    modifies img.pix
    ensures forall px, py :: 0 <= px < img.width && 0 <= py < img.height ==>
              img.pix[px, py] == Shade([Fill(x, y, size, col)], px, py, old(img.pix[px, py]))
  {
    var i := 1;
    while i < size
      invariant 1 <= i && (i <= size || i == 1)
      invariant forall px, py :: 0 <= px < img.width && 0 <= py < img.height ==>
                  img.pix[px, py] == if x + 1 <= px < x + i && y + 1 <= py < y + size then col
                                     else old(img.pix[px, py])
    {
      var j := 1;
      while j < size
        invariant 1 <= j <= size
        invariant forall px, py :: 0 <= px < img.width && 0 <= py < img.height ==>
                    img.pix[px, py] == if (x + 1 <= px < x + i && y + 1 <= py < y + size) ||
                                          (px == x + i && y + 1 <= py < y + j) then col
                                       else old(img.pix[px, py])
      {
        img.Set(x + i, y + j, col);
        j := j + 1;
      }
      i := i + 1;
    }
  }

  /** `paintWall`: the side `direction` of the square, cellSize + 1 pixels, in the wall's colour. */
  method PaintWall(img: Image, x: int, y: int, cellSize: int, direction: int, weight: int)
    requires img.Valid()
    modifies img.pix
    ensures forall px, py :: 0 <= px < img.width && 0 <= py < img.height ==>
              img.pix[px, py] == Shade([Edge(x, y, cellSize, direction, WallColor(weight))], px, py, old(img.pix[px, py]))
  {
    var col := WallColor(weight);
    var s := Edge(x, y, cellSize, direction, col);
    if 0 <= direction < 4 {
      var i := 0;
      while i <= cellSize
        invariant 0 <= i && (i <= cellSize + 1 || i == 0)
        invariant forall px, py :: 0 <= px < img.width && 0 <= py < img.height ==>
                    img.pix[px, py] == if Covers(s, px, py) && (if direction % 2 == 0 then px - x else py - y) < i
                                       then col else old(img.pix[px, py])
      {
        if direction == 0 {
          img.Set(x + i, y, col);
        } else if direction == 1 {
          img.Set(x + cellSize, y + i, col);
        } else if direction == 2 {
          img.Set(x + i, y + cellSize, col);
        } else {
          img.Set(x, y + i, col);
        }
        i := i + 1;
      }
    }
  }

  // ---------------------------------------------------------------------
  // drawMaze
  // ---------------------------------------------------------------------

  /**
   * The strokes for cell (r, c) at x = c·cellSize, y = r·cellSize: the Start
   * fill in light green, otherwise the End fill in red, then each side
   * whose wall flag is up, top, right, bottom, left, in its weight's colour.
   */
  function CellStrokes(cell: Cell, start: Point, end: Point, cellSize: int, r: int, c: int): seq<Stroke>
    requires |cell.walls| == 4 && |cell.weights| == 4
  {
    CellStrokesUpTo(cell, start, end, cellSize, r, c, |cell.walls|)
  }

  /** `t` holds `rows` rows of `cols` stroke lists, one per cell. */
  predicate Table(t: seq<seq<seq<Stroke>>>, rows: int, cols: int)
  {
    |t| == rows && forall r :: 0 <= r < rows ==> |t[r]| == cols
  }

  /** The strokes of every cell of the grid, indexed [r][c]. */
  function CellTable(g: seq<seq<Cell>>, rows: int, cols: int, start: Point, end: Point, cellSize: int)
    : (t: seq<seq<seq<Stroke>>>)
    requires Shaped(g, rows, cols)
    ensures Table(t, rows, cols)
    ensures forall r, c :: 0 <= r < rows && 0 <= c < cols ==> t[r][c] == CellStrokes(g[r][c], start, end, cellSize, r, c)
  {
    seq(rows, r requires 0 <= r < rows =>
      seq(|g[r]|, c requires 0 <= c < |g[r]| => CellStrokes(g[r][c], start, end, cellSize, r, c)))
  }

  /** The strokes of cells (r, 0) .. (r, c - 1), in drawing order. */
  function RowStrokes(t: seq<seq<seq<Stroke>>>, r: int, c: int): seq<Stroke>
    requires 0 <= r < |t| && c <= |t[r]|
    decreases c
  {
    if c <= 0 then [] else RowStrokes(t, r, c - 1) + t[r][c - 1]
  }

  /** The strokes of rows 0 .. r - 1, the order the sequential model draws them in. */
  function GridStrokes(t: seq<seq<seq<Stroke>>>, rows: int, cols: int, r: int): seq<Stroke>
    requires Table(t, rows, cols) && r <= rows
    decreases r
  {
    if r <= 0 then [] else GridStrokes(t, rows, cols, r - 1) + RowStrokes(t, r - 1, cols)
  }

  /** The body of the inner loop of `drawMaze`, for cell (r, c). */
  method DrawCell(m: Maze, img: Image, cellSize: int, r: int, c: int)
    requires m.Valid() && img.Valid() && 0 <= r < m.rows && 0 <= c < m.cols
    modifies img.pix
    ensures forall px, py :: 0 <= px < img.width && 0 <= py < img.height ==>
              img.pix[px, py] == Shade(CellStrokes(m.grid[r][c], m.start, m.end, cellSize, r, c), px, py,
                                       old(img.pix[px, py]))
  {
    var x := c * cellSize;
    var y := r * cellSize;
    var cell := m.grid[r][c];
    ghost var s: seq<Stroke> := [];
    if r == m.start.row && c == m.start.col {
      FillCell(img, x, y, cellSize, LightGreen);
      s := [Fill(x, y, cellSize, LightGreen)];
    } else if r == m.end.row && c == m.end.col {
      FillCell(img, x, y, cellSize, Tomato);
      s := [Fill(x, y, cellSize, Tomato)];
    }
    assert s == if Point(r, c) == m.start then [Fill(x, y, cellSize, LightGreen)]
                else if Point(r, c) == m.end then [Fill(x, y, cellSize, Tomato)] else [];
    for d := 0 to 4
      invariant forall px, py :: 0 <= px < img.width && 0 <= py < img.height ==>
                  img.pix[px, py] == Shade(s, px, py, old(img.pix[px, py]))
      invariant s == CellStrokesUpTo(cell, m.start, m.end, cellSize, r, c, d)
    {
      if cell.walls[d] {
        ghost var before := s;
        PaintWall(img, x, y, cellSize, d, cell.weights[d]);
        s := s + [Edge(x, y, cellSize, d, WallColor(cell.weights[d]))];
        forall px, py | 0 <= px < img.width && 0 <= py < img.height
          ensures img.pix[px, py] == Shade(s, px, py, old(img.pix[px, py]))
        {
          ShadeAppend(before, [Edge(x, y, cellSize, d, WallColor(cell.weights[d]))], px, py, old(img.pix[px, py]));
        }
      }
    }
  }

  /** The strokes of cell (r, c) up to, not including, wall slot `d`. */
  function CellStrokesUpTo(cell: Cell, start: Point, end: Point, cellSize: int, r: int, c: int, d: int): seq<Stroke>
    requires |cell.walls| == 4 && |cell.weights| == 4 && 0 <= d <= 4
    decreases d
  {
    var x, y := c * cellSize, r * cellSize;
    if d == 0 then
      (if Point(r, c) == start then [Fill(x, y, cellSize, LightGreen)]
       else if Point(r, c) == end then [Fill(x, y, cellSize, Tomato)]
       else [])
    else
      CellStrokesUpTo(cell, start, end, cellSize, r, c, d - 1) +
      (if cell.walls[d - 1] then [Edge(x, y, cellSize, d - 1, WallColor(cell.weights[d - 1]))] else [])
  }

  /**
   * The row bands of the `drawMaze` workers: `Rows / numCPU` rows each, the
   * last one taking the remainder, or a single band of all rows when there
   * are fewer rows than CPUs.
   */
  method WorkerRanges(rows: int, numCPU: int) returns (ranges: seq<(int, int)>)
    requires rows >= 0 && numCPU >= 1
    ensures |ranges| == if rows / numCPU == 0 then 1 else numCPU
    ensures ranges[0].0 == 0 && ranges[|ranges| - 1].1 == rows
    ensures forall w :: 0 <= w < |ranges| - 1 ==> ranges[w].1 == ranges[w + 1].0
    ensures forall w :: 0 <= w < |ranges| ==> ranges[w].0 <= ranges[w].1
  {
    var workers := numCPU;
    var rowsPerWorker := rows / numCPU;
    if rowsPerWorker == 0 {
      workers := 1;
      rowsPerWorker := rows;
    }
    assert workers * rowsPerWorker <= rows by {
      if workers == numCPU {
        assert numCPU * (rows / numCPU) <= rows;
      }
    }
    ranges := [];
    for w := 0 to workers
      invariant |ranges| == w
      invariant forall v :: 0 <= v < w ==> ranges[v] == Band(v, workers, rowsPerWorker, rows)
    {
      var startY := w * rowsPerWorker;
      var endY := startY + rowsPerWorker;
      if w == workers - 1 {
        endY := rows;
      }
      assert (startY, endY) == Band(w, workers, rowsPerWorker, rows) by {
        assert (w + 1) * rowsPerWorker == w * rowsPerWorker + rowsPerWorker;
      }
      ranges := ranges + [(startY, endY)];
    }
    BandsOrdered(rows, workers, rowsPerWorker, ranges);
  }

  /** Band `v` of `workers` bands of `per` rows, the last one reaching `rows`. */
  function Band(v: int, workers: int, per: int, rows: int): (int, int)
  {
    (v * per, if v == workers - 1 then rows else (v + 1) * per)
  }

  lemma BandsOrdered(rows: int, workers: int, per: int, ranges: seq<(int, int)>)
    requires workers >= 1 && per >= 0 && workers * per <= rows && |ranges| == workers
    requires forall v :: 0 <= v < workers ==> ranges[v] == Band(v, workers, per, rows)
    ensures ranges[0].0 == 0 && ranges[workers - 1].1 == rows
    ensures forall w :: 0 <= w < workers - 1 ==> ranges[w].1 == ranges[w + 1].0
    ensures forall w :: 0 <= w < workers ==> ranges[w].0 <= ranges[w].1
  {
    forall w | 0 <= w < workers ensures ranges[w].0 <= ranges[w].1 {
      assert (w + 1) * per == w * per + per;
      if w == workers - 1 {
        assert w * per + per == workers * per;
      }
    }
  }

  /**
   * `drawMaze`, sequentialised: the bands of `WorkerRanges` one after the
   * other, each row of a band left to right. Every pixel ends with the
   * colour of the last stroke of the row-major stroke list that covers it.
   */
  method DrawMaze(m: Maze, img: Image, cellSize: int, numCPU: int)
    requires m.Valid() && img.Valid() && numCPU >= 1
    modifies img.pix
    ensures forall px, py :: 0 <= px < img.width && 0 <= py < img.height ==>
              img.pix[px, py] == Shade(GridStrokes(CellTable(m.grid, m.rows, m.cols, m.start, m.end, cellSize), m.rows, m.cols,
                                                   m.rows), px, py, old(img.pix[px, py]))
  {
    ghost var t := CellTable(m.grid, m.rows, m.cols, m.start, m.end, cellSize);
    var ranges := WorkerRanges(m.rows, numCPU);
    forall v | 0 <= v < |ranges| ensures 0 <= ranges[v].0 <= ranges[v].1 <= m.rows {
      BandsWithin(ranges, m.rows, v);
    }
    for w := 0 to |ranges|
      invariant forall v :: 0 <= v < |ranges| ==> 0 <= ranges[v].0 <= ranges[v].1 <= m.rows
      invariant forall px, py :: 0 <= px < img.width && 0 <= py < img.height ==>
                  img.pix[px, py] == Shade(GridStrokes(t, m.rows, m.cols, if w < |ranges| then ranges[w].0 else m.rows),
                                           px, py, old(img.pix[px, py]))
    {
      var rMin, rMax := ranges[w].0, ranges[w].1;
      ghost var done := GridStrokes(t, m.rows, m.cols, rMin);
      ghost var band := BandStrokes(t, m.rows, m.cols, rMin, rMax);
      DrawBand(m, img, cellSize, rMin, rMax);
      GridBand(t, m.rows, m.cols, rMin, rMax);
      assert (if w + 1 < |ranges| then ranges[w + 1].0 else m.rows) == rMax;
      forall px, py | 0 <= px < img.width && 0 <= py < img.height
        ensures img.pix[px, py] == Shade(done + band, px, py, old(img.pix[px, py]))
      {
        ShadeAppend(done, band, px, py, old(img.pix[px, py]));
      }
    }
  }

  /** Contiguous ordered bands from 0 to `rows` each lie within [0, rows]. */
  lemma {:induction false} BandsWithin(ranges: seq<(int, int)>, rows: int, w: int)
    requires |ranges| >= 1 && ranges[0].0 == 0 && ranges[|ranges| - 1].1 == rows && 0 <= w < |ranges|
    requires forall v :: 0 <= v < |ranges| - 1 ==> ranges[v].1 == ranges[v + 1].0
    requires forall v :: 0 <= v < |ranges| ==> ranges[v].0 <= ranges[v].1
    ensures 0 <= ranges[w].0 <= ranges[w].1 <= rows
    decreases |ranges| - w
  {
    if w < |ranges| - 1 {
      BandsWithin(ranges, rows, w + 1);
    }
    LowerBand(ranges, w);
  }

  lemma {:induction false} LowerBand(ranges: seq<(int, int)>, w: int)
    requires |ranges| >= 1 && ranges[0].0 == 0 && 0 <= w < |ranges|
    requires forall v :: 0 <= v < |ranges| - 1 ==> ranges[v].1 == ranges[v + 1].0
    requires forall v :: 0 <= v < |ranges| ==> ranges[v].0 <= ranges[v].1
    ensures 0 <= ranges[w].0
  {
    if w > 0 {
      LowerBand(ranges, w - 1);
    }
  }

  /** The strokes of rows rMin .. r - 1. */
  function BandStrokes(t: seq<seq<seq<Stroke>>>, rows: int, cols: int, rMin: int, r: int): seq<Stroke>
    requires Table(t, rows, cols) && 0 <= rMin && r <= rows
    decreases r
  {
    if r <= rMin then [] else BandStrokes(t, rows, cols, rMin, r - 1) + RowStrokes(t, r - 1, cols)
  }

  /** The rows up to r are the rows up to rMin followed by the band rMin .. r - 1. */
  lemma {:induction false} GridBand(t: seq<seq<seq<Stroke>>>, rows: int, cols: int, rMin: int, r: int)
    requires Table(t, rows, cols) && 0 <= rMin <= r <= rows
    ensures GridStrokes(t, rows, cols, r) == GridStrokes(t, rows, cols, rMin) + BandStrokes(t, rows, cols, rMin, r)
    decreases r
  {
    if r > rMin {
      GridBand(t, rows, cols, rMin, r - 1);
      Regroup(GridStrokes(t, rows, cols, rMin), BandStrokes(t, rows, cols, rMin, r - 1), RowStrokes(t, r - 1, cols));
    } else {
      Regroup(GridStrokes(t, rows, cols, rMin), [], []);
    }
  }

  lemma Regroup(a: seq<Stroke>, b: seq<Stroke>, c: seq<Stroke>)
    ensures (a + b) + c == a + (b + c) && a + [] == a
  {
  }

  /** One worker's band: rows rMin .. rMax - 1, each left to right. */
  method DrawBand(m: Maze, img: Image, cellSize: int, rMin: int, rMax: int)
    requires m.Valid() && img.Valid() && 0 <= rMin <= rMax <= m.rows
    modifies img.pix
    ensures forall px, py :: 0 <= px < img.width && 0 <= py < img.height ==>
              img.pix[px, py] == Shade(BandStrokes(CellTable(m.grid, m.rows, m.cols, m.start, m.end, cellSize), m.rows, m.cols,
                                                   rMin, rMax), px, py, old(img.pix[px, py]))
  {
    ghost var t := CellTable(m.grid, m.rows, m.cols, m.start, m.end, cellSize);
    for r := rMin to rMax
      invariant forall px, py :: 0 <= px < img.width && 0 <= py < img.height ==>
                  img.pix[px, py] == Shade(BandStrokes(t, m.rows, m.cols, rMin, r), px, py, old(img.pix[px, py]))
    {
      ghost var band := BandStrokes(t, m.rows, m.cols, rMin, r);
      ghost var row := RowStrokes(t, r, m.cols);
      DrawRow(m, img, cellSize, r);
      forall px, py | 0 <= px < img.width && 0 <= py < img.height
        ensures img.pix[px, py] == Shade(band + row, px, py, old(img.pix[px, py]))
      {
        ShadeAppend(band, row, px, py, old(img.pix[px, py]));
      }
    }
  }

  /** Row r of a band, cell by cell from column 0. */
  method DrawRow(m: Maze, img: Image, cellSize: int, r: int)
    requires m.Valid() && img.Valid() && 0 <= r < m.rows
    modifies img.pix
    ensures forall px, py :: 0 <= px < img.width && 0 <= py < img.height ==>
              img.pix[px, py] == Shade(RowStrokes(CellTable(m.grid, m.rows, m.cols, m.start, m.end, cellSize), r, m.cols),
                                       px, py, old(img.pix[px, py]))
  {
    ghost var t := CellTable(m.grid, m.rows, m.cols, m.start, m.end, cellSize);
    assert |m.grid[r]| == m.cols;
    for c := 0 to m.cols
      invariant forall px, py :: 0 <= px < img.width && 0 <= py < img.height ==>
                  img.pix[px, py] == Shade(RowStrokes(t, r, c), px, py, old(img.pix[px, py]))
    {
      ghost var done := RowStrokes(t, r, c);
      ghost var cell := t[r][c];
      DrawCell(m, img, cellSize, r, c);
      forall px, py | 0 <= px < img.width && 0 <= py < img.height
        ensures img.pix[px, py] == Shade(done + cell, px, py, old(img.pix[px, py]))
      {
        ShadeAppend(done, cell, px, py, old(img.pix[px, py]));
      }
    }
  }

  /**
   * `prepareCanvas`: a (Cols·cellSize + 1) x (Rows·cellSize + 1) image, all
   * white; the extra pixel holds the closing right and bottom sides.
   */
  method PrepareCanvas(m: Maze, cellSize: int) returns (img: Image)
    requires m.Valid() && m.cols >= 0 && cellSize >= 0
    ensures fresh(img) && fresh(img.pix) && img.Valid()
    ensures img.width == m.cols * cellSize + 1 && img.height == m.rows * cellSize + 1
    ensures forall x, y :: 0 <= x < img.width && 0 <= y < img.height ==> img.pix[x, y] == White
  {
    MulLe(0, m.cols, cellSize);
    MulLe(0, m.rows, cellSize);
    img := new Image(m.cols * cellSize + 1, m.rows * cellSize + 1, White);
  }

  // ---------------------------------------------------------------------
  // What the strokes paint
  // ---------------------------------------------------------------------

  /** The square a stroke is drawn on, sides included, lies in the box [x0, x1] x [y0, y1]. */
  predicate Within(s: Stroke, x0: int, y0: int, x1: int, y1: int)
  {
    x0 <= s.x && s.x + s.size <= x1 && y0 <= s.y && s.y + s.size <= y1
  }

  /** A stroke within a box sets no pixel outside it. */
  lemma CoversWithin(s: Stroke, x0: int, y0: int, x1: int, y1: int, px: int, py: int)
    requires Within(s, x0, y0, x1, y1) && Covers(s, px, py)
    ensures x0 <= px <= x1 && y0 <= py <= y1
  {
  }

  /** The strokes of cell (r, c) stay on its square, sides included. */
  lemma {:induction false} CellStrokesWithin(cell: Cell, start: Point, end: Point, cellSize: int, r: int, c: int, d: int)
    requires |cell.walls| == 4 && |cell.weights| == 4 && 0 <= d <= 4 && cellSize >= 0
    ensures forall st :: st in CellStrokesUpTo(cell, start, end, cellSize, r, c, d) ==>
              Within(st, c * cellSize, r * cellSize, c * cellSize + cellSize, r * cellSize + cellSize)
    decreases d
  {
    var x, y := c * cellSize, r * cellSize;
    var s := CellStrokesUpTo(cell, start, end, cellSize, r, c, d);
    if d == 0 {
      assert s == [] || s == [Fill(x, y, cellSize, LightGreen)] || s == [Fill(x, y, cellSize, Tomato)];
    } else {
      CellStrokesWithin(cell, start, end, cellSize, r, c, d - 1);
      var prev := CellStrokesUpTo(cell, start, end, cellSize, r, c, d - 1);
      var e := Edge(x, y, cellSize, d - 1, WallColor(cell.weights[d - 1]));
      assert s == prev + (if cell.walls[d - 1] then [e] else []);
      forall st | st in s
        ensures Within(st, x, y, x + cellSize, y + cellSize)
      {
        if st in prev {
          assert Within(st, c * cellSize, r * cellSize, c * cellSize + cellSize, r * cellSize + cellSize);
        } else {
          assert st == e;
        }
      }
    }
  }

  /** Every stroke of `s` lies in the box [x0, x1] x [y0, y1]. */
  predicate AllWithin(s: seq<Stroke>, x0: int, y0: int, x1: int, y1: int)
  {
    forall i :: 0 <= i < |s| ==> Within(s[i], x0, y0, x1, y1)
  }

  /** Two stroke lists in a box make one in that box. */
  lemma AllWithinConcat(a: seq<Stroke>, b: seq<Stroke>, x0: int, y0: int, x1: int, y1: int)
    requires AllWithin(a, x0, y0, x1, y1) && AllWithin(b, x0, y0, x1, y1)
    ensures AllWithin(a + b, x0, y0, x1, y1)
  {
    forall i | 0 <= i < |a + b| ensures Within((a + b)[i], x0, y0, x1, y1) {
      if i >= |a| {
        assert (a + b)[i] == b[i - |a|];
      }
    }
  }

  /** Every cell's strokes lie in the box [0, x1] x [0, y1]. */
  predicate CellsWithin(t: seq<seq<seq<Stroke>>>, rows: int, cols: int, x1: int, y1: int)
  {
    Table(t, rows, cols) && forall r, c :: 0 <= r < rows && 0 <= c < cols ==> AllWithin(t[r][c], 0, 0, x1, y1)
  }

  /** The strokes of cells (r, 0) .. (r, c - 1) stay in the box their cells stay in. */
  lemma {:induction false} RowStrokesInside(t: seq<seq<seq<Stroke>>>, rows: int, cols: int, x1: int, y1: int, r: int, c: int)
    requires CellsWithin(t, rows, cols, x1, y1) && 0 <= r < rows && 0 <= c <= cols
    ensures AllWithin(RowStrokes(t, r, c), 0, 0, x1, y1)
    decreases c
  {
    if c > 0 {
      RowStrokesInside(t, rows, cols, x1, y1, r, c - 1);
      AllWithinConcat(RowStrokes(t, r, c - 1), t[r][c - 1], 0, 0, x1, y1);
    }
  }

  /** The strokes of rows 0 .. r - 1 stay in the box their cells stay in. */
  lemma {:induction false} GridStrokesInside(t: seq<seq<seq<Stroke>>>, rows: int, cols: int, x1: int, y1: int, r: int)
    requires CellsWithin(t, rows, cols, x1, y1) && 0 <= r <= rows && cols >= 0
    ensures AllWithin(GridStrokes(t, rows, cols, r), 0, 0, x1, y1)
    decreases r
  {
    if r > 0 {
      GridStrokesInside(t, rows, cols, x1, y1, r - 1);
      RowStrokesInside(t, rows, cols, x1, y1, r - 1, cols);
      AllWithinConcat(GridStrokes(t, rows, cols, r - 1), RowStrokes(t, r - 1, cols), 0, 0, x1, y1);
    }
  }

  /** The square of an in-bounds cell lies on the canvas. */
  lemma CellInCanvas(rows: int, cols: int, cellSize: int, r: int, c: int)
    requires 0 <= r < rows && 0 <= c < cols && cellSize >= 0
    ensures 0 <= c * cellSize && c * cellSize + cellSize <= cols * cellSize
    ensures 0 <= r * cellSize && r * cellSize + cellSize <= rows * cellSize
  {
    MulLe(0, c, cellSize);
    MulLe(0, r, cellSize);
    MulLe(c + 1, cols, cellSize);
    MulLe(r + 1, rows, cellSize);
  }

  /** The strokes of an in-bounds cell stay on the canvas. */
  lemma CellInside(cell: Cell, start: Point, end: Point, rows: int, cols: int, cellSize: int, r: int, c: int)
    requires |cell.walls| == 4 && |cell.weights| == 4 && 0 <= r < rows && 0 <= c < cols && cellSize >= 0
    ensures AllWithin(CellStrokes(cell, start, end, cellSize, r, c), 0, 0, cols * cellSize, rows * cellSize)
  {
    var s := CellStrokes(cell, start, end, cellSize, r, c);
    CellStrokesWithin(cell, start, end, cellSize, r, c, 4);
    CellInCanvas(rows, cols, cellSize, r, c);
    forall i | 0 <= i < |s| ensures Within(s[i], 0, 0, cols * cellSize, rows * cellSize) {
      assert s[i] in s;
    }
  }

  /**
   * Every stroke of `drawMaze` lies inside the canvas `prepareCanvas` makes
   * (Cols·cellSize + 1 by Rows·cellSize + 1 pixels), so no `img.Set` of
   * `drawMaze` falls outside the image.
   */
  lemma StrokesOnCanvas(g: seq<seq<Cell>>, rows: int, cols: int, start: Point, end: Point, cellSize: int)
    requires Shaped(g, rows, cols) && cols >= 0 && cellSize >= 0
    ensures AllWithin(GridStrokes(CellTable(g, rows, cols, start, end, cellSize), rows, cols, rows),
                      0, 0, cols * cellSize, rows * cellSize)
  {
    var t := CellTable(g, rows, cols, start, end, cellSize);
    forall r, c | 0 <= r < rows && 0 <= c < cols ensures AllWithin(t[r][c], 0, 0, cols * cellSize, rows * cellSize) {
      CellInside(g[r][c], start, end, rows, cols, cellSize, r, c);
    }
    GridStrokesInside(t, rows, cols, cols * cellSize, rows * cellSize, rows);
  }

  /**
   * Only raised walls are painted: cell (r, c) has a stroke along side `d`
   * exactly when its wall flag `d` is up, in the colour of weight `d`, and
   * every other stroke of the cell is its Start or End fill.
   */
  lemma {:induction false} CellWalls(cell: Cell, start: Point, end: Point, cellSize: int, r: int, c: int, n: int)
    requires |cell.walls| == 4 && |cell.weights| == 4 && 0 <= n <= 4
    ensures var s := CellStrokesUpTo(cell, start, end, cellSize, r, c, n);
      (forall d :: 0 <= d < n ==>
        (cell.walls[d] <==> Edge(c * cellSize, r * cellSize, cellSize, d, WallColor(cell.weights[d])) in s)) &&
      (forall i :: 0 <= i < |s| && s[i].Edge? ==>
        0 <= s[i].dir < n && cell.walls[s[i].dir] &&
        s[i] == Edge(c * cellSize, r * cellSize, cellSize, s[i].dir, WallColor(cell.weights[s[i].dir]))) &&
      (forall i :: 0 <= i < |s| && s[i].Fill? ==>
        i == 0 && s[i] == Fill(c * cellSize, r * cellSize, cellSize, if Point(r, c) == start then LightGreen else Tomato) &&
        (Point(r, c) == start || Point(r, c) == end))
    decreases n
  {
    if n > 0 {
      CellWalls(cell, start, end, cellSize, r, c, n - 1);
      var s := CellStrokesUpTo(cell, start, end, cellSize, r, c, n);
      var prev := CellStrokesUpTo(cell, start, end, cellSize, r, c, n - 1);
      var e := Edge(c * cellSize, r * cellSize, cellSize, n - 1, WallColor(cell.weights[n - 1]));
      forall d | 0 <= d < n ensures cell.walls[d] <==> Edge(c * cellSize, r * cellSize, cellSize, d, WallColor(cell.weights[d])) in s {
        if d < n - 1 && Edge(c * cellSize, r * cellSize, cellSize, d, WallColor(cell.weights[d])) in s {
          assert Edge(c * cellSize, r * cellSize, cellSize, d, WallColor(cell.weights[d])) in prev;
        }
      }
    }
  }

  /** A pixel strictly inside the square of cell (r, c). */
  predicate InteriorOf(cellSize: int, r: int, c: int, px: int, py: int)
  {
    c * cellSize < px < c * cellSize + cellSize && r * cellSize < py < r * cellSize + cellSize
  }

  /** A value strictly between two consecutive multiples of `cellSize` is no multiple, and fixes its square. */
  lemma BetweenMultiples(cellSize: int, c: int, k: int, v: int)
    requires cellSize > 0 && c * cellSize < v < c * cellSize + cellSize
    ensures v != k * cellSize && v != k * cellSize + cellSize
    ensures k * cellSize < v < k * cellSize + cellSize ==> k == c
  {
    if k < c {
      MulLe(k + 1, c, cellSize);
    } else if k > c {
      MulLe(c + 1, k, cellSize);
    }
    assert (k + 1) * cellSize == k * cellSize + cellSize;
    assert (c + 1) * cellSize == c * cellSize + cellSize;
  }

  /** The colour the fills give the interior of cell (r, c): green at Start, else red at End, else none. */
  function FillColor(start: Point, end: Point, r: int, c: int, base: Rgba): Rgba
  {
    if Point(r, c) == start then LightGreen else if Point(r, c) == end then Tomato else base
  }

  /** A stroke whose square has no side through (px, py) does not cover it. */
  lemma EdgeMisses(e: Stroke, px: int, py: int)
    requires e.Edge? && px != e.x && px != e.x + e.size && py != e.y && py != e.y + e.size
    ensures !Covers(e, px, py)
  {
  }

  /** A stroke that misses a pixel leaves its shade alone. */
  lemma ShadeMiss(e: Stroke, px: int, py: int, base: Rgba)
    requires !Covers(e, px, py)
    ensures Shade([e], px, py, base) == base
  {
    assert [e][..0] == [];
  }

  /** The strokes of cell (r', c') leave the interior of cell (r, c) alone unless it is the same cell's fill. */
  lemma {:induction false} CellShade(cell: Cell, start: Point, end: Point, cellSize: int, r': int, c': int,
                                     r: int, c: int, px: int, py: int, base: Rgba, n: int)
    requires |cell.walls| == 4 && |cell.weights| == 4 && 0 <= n <= 4
    requires InteriorOf(cellSize, r, c, px, py)
    ensures Shade(CellStrokesUpTo(cell, start, end, cellSize, r', c', n), px, py, base) ==
            if (r', c') == (r, c) then FillColor(start, end, r, c, base) else base
    decreases n
  {
    if n == 0 {
      FillShade(cell, start, end, cellSize, r', c', r, c, px, py, base);
    } else {
      CellShade(cell, start, end, cellSize, r', c', r, c, px, py, base, n - 1);
      WallMisses(cell, start, end, cellSize, r', c', r, c, px, py, base, n);
    }
  }

  /** The fill of cell (r', c') paints the interior of cell (r, c) only when they are the same cell. */
  lemma FillShade(cell: Cell, start: Point, end: Point, cellSize: int, r': int, c': int,
                  r: int, c: int, px: int, py: int, base: Rgba)
    requires |cell.walls| == 4 && |cell.weights| == 4
    requires InteriorOf(cellSize, r, c, px, py)
    ensures Shade(CellStrokesUpTo(cell, start, end, cellSize, r', c', 0), px, py, base) ==
            if (r', c') == (r, c) then FillColor(start, end, r, c, base) else base
  {
    BetweenMultiples(cellSize, c, c', px);
    BetweenMultiples(cellSize, r, r', py);
    if Point(r', c') == start || Point(r', c') == end {
      var f := Fill(c' * cellSize, r' * cellSize, cellSize, if Point(r', c') == start then LightGreen else Tomato);
      assert CellStrokesUpTo(cell, start, end, cellSize, r', c', 0) == [f];
      assert [f][..0] == [];
      assert Covers(f, px, py) <==> (r', c') == (r, c);
    }
  }

  /** No wall stroke of any cell reaches the interior of cell (r, c). */
  lemma WallMisses(cell: Cell, start: Point, end: Point, cellSize: int, r': int, c': int,
                   r: int, c: int, px: int, py: int, base: Rgba, n: int)
    requires |cell.walls| == 4 && |cell.weights| == 4 && 0 < n <= 4
    requires InteriorOf(cellSize, r, c, px, py)
    ensures Shade(CellStrokesUpTo(cell, start, end, cellSize, r', c', n), px, py, base) ==
            Shade(CellStrokesUpTo(cell, start, end, cellSize, r', c', n - 1), px, py, base)
  {
    var prev := CellStrokesUpTo(cell, start, end, cellSize, r', c', n - 1);
    if cell.walls[n - 1] {
      var e := Edge(c' * cellSize, r' * cellSize, cellSize, n - 1, WallColor(cell.weights[n - 1]));
      assert CellStrokesUpTo(cell, start, end, cellSize, r', c', n) == prev + [e];
      BetweenMultiples(cellSize, c, c', px);
      BetweenMultiples(cellSize, r, r', py);
      ShadeAppend(prev, [e], px, py, base);
      EdgeMisses(e, px, py);
      ShadeMiss(e, px, py, Shade(prev, px, py, base));
    } else {
      assert CellStrokesUpTo(cell, start, end, cellSize, r', c', n) == prev + [];
      assert prev + [] == prev;
    }
  }

  /**
   * At pixel (px, py) only cell (r, c) paints: its strokes give the pixel
   * its fill colour over any base, every other cell's strokes leave it.
   */
  ghost predicate OnlyCellPaints(t: seq<seq<seq<Stroke>>>, rows: int, cols: int, start: Point, end: Point,
                                 r: int, c: int, px: int, py: int)
  {
    Table(t, rows, cols) &&
    forall r', c', b {:trigger Shade(t[r'][c'], px, py, b)} :: 0 <= r' < rows && 0 <= c' < cols ==>
      Shade(t[r'][c'], px, py, b) == if (r', c') == (r, c) then FillColor(start, end, r, c, b) else b
  }

  /** A pixel strictly inside cell (r, c) is painted by that cell's fill alone. */
  lemma CellTableShades(g: seq<seq<Cell>>, rows: int, cols: int, start: Point, end: Point, cellSize: int,
                        r: int, c: int, px: int, py: int)
    requires Shaped(g, rows, cols) && InteriorOf(cellSize, r, c, px, py)
    ensures OnlyCellPaints(CellTable(g, rows, cols, start, end, cellSize), rows, cols, start, end, r, c, px, py)
  {
    var t := CellTable(g, rows, cols, start, end, cellSize);
    forall r', c', b {:trigger Shade(t[r'][c'], px, py, b)} | 0 <= r' < rows && 0 <= c' < cols
      ensures Shade(t[r'][c'], px, py, b) == if (r', c') == (r, c) then FillColor(start, end, r, c, b) else b
    {
      var cell := g[r'][c'];
      assert t[r'][c'] == CellStrokesUpTo(cell, start, end, cellSize, r', c', 4);
      CellShade(cell, start, end, cellSize, r', c', r, c, px, py, b, 4);
    }
  }

  /** Along row r', the pixel takes its fill colour once column c has been drawn, and is otherwise left alone. */
  lemma {:induction false} RowShade(t: seq<seq<seq<Stroke>>>, rows: int, cols: int, start: Point, end: Point,
                                    r': int, c': int, r: int, c: int, px: int, py: int, base: Rgba)
    requires OnlyCellPaints(t, rows, cols, start, end, r, c, px, py) && 0 <= r' < rows && c' <= cols
    ensures r' == r && 0 <= c < c' ==> Shade(RowStrokes(t, r', c'), px, py, base) == FillColor(start, end, r, c, base)
    ensures !(r' == r && 0 <= c < c') ==> Shade(RowStrokes(t, r', c'), px, py, base) == base
    decreases c'
  {
    if c' > 0 {
      RowShade(t, rows, cols, start, end, r', c' - 1, r, c, px, py, base);
      var prev := RowStrokes(t, r', c' - 1);
      ShadeAppend(prev, t[r'][c' - 1], px, py, base);
      var mid := Shade(prev, px, py, base);
      assert Shade(t[r'][c' - 1], px, py, mid) ==
             if (r', c' - 1) == (r, c) then FillColor(start, end, r, c, mid) else mid;
    }
  }

  /** Over rows 0 .. r' - 1, the pixel takes its fill colour once row r has been drawn, and is otherwise left alone. */
  lemma {:induction false} GridShade(t: seq<seq<seq<Stroke>>>, rows: int, cols: int, start: Point, end: Point,
                                     r': int, r: int, c: int, px: int, py: int, base: Rgba)
    requires OnlyCellPaints(t, rows, cols, start, end, r, c, px, py) && r' <= rows && 0 <= c < cols
    ensures Shade(GridStrokes(t, rows, cols, r'), px, py, base) == if 0 <= r < r' then FillColor(start, end, r, c, base) else base
    decreases r'
  {
    if r' > 0 {
      GridShade(t, rows, cols, start, end, r' - 1, r, c, px, py, base);
      GridShadeStep(t, rows, cols, start, end, r', r, c, px, py, base);
    } else {
      assert GridStrokes(t, rows, cols, r') == [];
    }
  }

  /** Drawing row r' - 1 after the rows before it paints the pixel exactly when r' - 1 is its row. */
  lemma GridShadeStep(t: seq<seq<seq<Stroke>>>, rows: int, cols: int, start: Point, end: Point,
                      r': int, r: int, c: int, px: int, py: int, base: Rgba)
    requires OnlyCellPaints(t, rows, cols, start, end, r, c, px, py) && 0 < r' <= rows && 0 <= c < cols
    requires Shade(GridStrokes(t, rows, cols, r' - 1), px, py, base) ==
             if 0 <= r < r' - 1 then FillColor(start, end, r, c, base) else base
    ensures Shade(GridStrokes(t, rows, cols, r'), px, py, base) == if 0 <= r < r' then FillColor(start, end, r, c, base) else base
  {
    var prev := GridStrokes(t, rows, cols, r' - 1);
    var row := RowStrokes(t, r' - 1, cols);
    ShadeAppend(prev, row, px, py, base);
    var mid := Shade(prev, px, py, base);
    RowShade(t, rows, cols, start, end, r' - 1, cols, r, c, px, py, mid);
  }

  /**
   * The picture `drawMaze` leaves on a fresh canvas: the inside of the Start
   * cell light green, of the End cell red unless it is also Start, and of
   * every other cell white; walls never reach inside a cell.
   */
  lemma Interiors(g: seq<seq<Cell>>, rows: int, cols: int, start: Point, end: Point, cellSize: int,
                  r: int, c: int, px: int, py: int)
    requires Shaped(g, rows, cols) && InBounds(rows, cols, Point(r, c)) && InteriorOf(cellSize, r, c, px, py)
    ensures Shade(GridStrokes(CellTable(g, rows, cols, start, end, cellSize), rows, cols, rows), px, py, White) ==
            if Point(r, c) == start then LightGreen else if Point(r, c) == end then Tomato else White
  {
    CellTableShades(g, rows, cols, start, end, cellSize, r, c, px, py);
    GridShade(CellTable(g, rows, cols, start, end, cellSize), rows, cols, start, end, rows, r, c, px, py, White);
  }
}
