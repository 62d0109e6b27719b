/**
 * The decorative maze in the page margins (frontend/src/components/layout/MazeMargin.tsx):
 * a 70-pixel-wide strip of 7 columns of 10-pixel cells, as many rows as the
 * page is tall, where each cell draws one wall of a binary-tree maze, and a
 * border line on the page side. `Math.random()` is an input sequence of
 * draws, one per cell in row-major order; canvas calls are recorded as commands.
 */
module MazeMargin {
  import opened Common
  import opened MazeData

  const MarginWidth: int := 70
  const Cols: int := 7
  /** `marginWidth / cols`. */
  const CellSize: real := 10.0

  const LineWidth: real := 1.5

  datatype MarginSide = Left | Right

  /** The north side of cell (r, c). */
  function North(r: int, c: int): Segment
  {
    Side(Pixel(c, CellSize), Pixel(r, CellSize), CellSize, 0)
  }

  /** The east side of cell (r, c). */
  function East(r: int, c: int): Segment
  {
    Side(Pixel(c, CellSize), Pixel(r, CellSize), CellSize, 1)
  }

  /**
   * The path of one cell: nothing in the top-right corner, the east side in
   * the rest of the top row, the north side in the rest of the last column,
   * and elsewhere the north side when the draw exceeds 0.5, else the east side.
   */
  function CellPath(r: int, c: int, draw: real): seq<Segment>
  {
    if r == 0 && c == Cols - 1 then []
    else if r == 0 then [East(r, c)]
    else if c == Cols - 1 then [North(r, c)]
    else if draw > 0.5 then [North(r, c)]
    else [East(r, c)]
  }

  /** The draw used by cell (r, c): one `Math.random()` per cell, row by row. */
  function DrawIndex(r: int, c: int): int
  {
    7 * r + c
  }

  /** The strokes of cells (r, 0) .. (r, c - 1), one stroke call per cell. */
  function RowStrokes(r: int, c: int, draws: seq<real>): seq<Cmd>
    requires 0 <= r && c <= Cols && DrawIndex(r, c) <= |draws|
    decreases c
  {
    if c <= 0 then []
    else RowStrokes(r, c - 1, draws) + [StrokePath(Black, CellPath(r, c - 1, draws[DrawIndex(r, c - 1)]), LineWidth)]
  }

  /** The strokes of rows 0 .. r - 1. */
  function GridStrokes(r: int, draws: seq<real>): seq<Cmd>
    requires DrawIndex(r, 0) <= |draws|
    decreases r
  {
    if r <= 0 then [] else GridStrokes(r - 1, draws) + RowStrokes(r - 1, Cols, draws)
  }

  /** The number of segments the strokes draw. */
  function Drawn(cmds: seq<Cmd>): int
    decreases |cmds|
  {
    if cmds == [] then 0
    else Drawn(cmds[..|cmds| - 1]) + (if cmds[|cmds| - 1].StrokePath? then |cmds[|cmds| - 1].segs| else 0)
  }

  lemma {:induction false} DrawnAppend(a: seq<Cmd>, b: seq<Cmd>)
    ensures Drawn(a + b) == Drawn(a) + Drawn(b)
    decreases |b|
  {
    if b == [] {
      assert a + b == a;
    } else {
      assert (a + b)[..|a + b| - 1] == a + b[..|b| - 1];
      DrawnAppend(a, b[..|b| - 1]);
    }
  }

  /**
   * Every cell but the top-right one draws exactly one side, its north or its
   * east side, and the top row draws east sides only: the binary-tree shape.
   */
  lemma CellPathShape(r: int, c: int, draw: real)
    requires 0 <= r && 0 <= c < Cols
    ensures var p := CellPath(r, c, draw);
      (|p| == 0 <==> r == 0 && c == Cols - 1) &&
      (|p| == 1 ==> p[0] == North(r, c) || p[0] == East(r, c)) &&
      (r == 0 && |p| == 1 ==> p[0] == East(r, c)) &&
      (c == Cols - 1 && r > 0 ==> p == [North(r, c)])
  {
  }

  /** A row draws one segment per cell, one fewer in the top row. */
  lemma {:induction false} RowDrawn(r: int, c: int, draws: seq<real>)
    requires 0 <= r && 0 <= c <= Cols && DrawIndex(r, c) <= |draws|
    ensures r > 0 || c < Cols ==> Drawn(RowStrokes(r, c, draws)) == c
    ensures r == 0 && c == Cols ==> Drawn(RowStrokes(r, c, draws)) == c - 1
    decreases c
  {
    if c > 0 {
      var prev := RowStrokes(r, c - 1, draws);
      var path := CellPath(r, c - 1, draws[DrawIndex(r, c - 1)]);
      var s := StrokePath(Black, path, LineWidth);
      assert RowStrokes(r, c, draws) == prev + [s];
      RowDrawn(r, c - 1, draws);
      assert Drawn([s]) == |path| by {
        assert [s][..0] == [];
      }
      CellPathShape(r, c - 1, draws[DrawIndex(r, c - 1)]);
      DrawnAppend(prev, [s]);
    }
  }

  /**
   * A strip of `rows` rows draws 7 * rows - 1 segments: one per cell except
   * the top-right corner, as a spanning binary tree of the cells has.
   */
  lemma {:induction false} GridDrawn(r: int, draws: seq<real>)
    requires 1 <= r && DrawIndex(r, 0) <= |draws|
    ensures Drawn(GridStrokes(r, draws)) == 7 * r - 1
    decreases r
  {
    var prev, row := GridStrokes(r - 1, draws), RowStrokes(r - 1, Cols, draws);
    assert GridStrokes(r, draws) == prev + row;
    DrawnAppend(prev, row);
    if r > 1 {
      GridDrawn(r - 1, draws);
      RowDrawn(r - 1, Cols, draws);
    } else {
      assert prev == [];
      RowDrawn(0, Cols, draws);
    }
  }

  /** `Math.ceil(canvas.height / cellSize)`. */
  function Rows(height: int): (rows: int)
    ensures height >= 0 ==> rows >= 0
    ensures (rows - 1) as real * 10.0 < height as real <= rows as real * 10.0
  {
    Ceil(height as real / 10.0)
  }

  /** The x of the border line: the inner edge of the strip, next to the page content. */
  function BorderX(side: MarginSide): real
  {
    if side == Left then MarginWidth as real - 1.0 else 1.0
  }

  /** Appending in two steps is appending the concatenation. */
  lemma Regroup(a: seq<Cmd>, b: seq<Cmd>, c: seq<Cmd>)
    ensures a + b + c == a + (b + c)
  {
  }

  /** One margin canvas. */
  class Margin {
    var width: int
    var height: int
    var cmds: seq<Cmd>

    constructor ()
      ensures width == 0 && height == 0 && cmds == []
    {
      width := 0;
      height := 0;
      cmds := [];
    }

    /**
     * `updateCanvas`: the strip is 70 wide and as tall as the document or the
     * window, whichever is taller; it is cleared, the cells are stroked row by
     * row, and the border line is stroked last.
     */
    method UpdateCanvas(side: MarginSide, scrollHeight: int, innerHeight: int, draws: seq<real>)
      requires scrollHeight >= 0 && innerHeight >= 0
      requires DrawIndex(Rows(MaxInt(scrollHeight, innerHeight)), 0) <= |draws|
      modifies this
      ensures width == MarginWidth && height == MaxInt(scrollHeight, innerHeight)
      ensures cmds == old(cmds) + [Clear(width as real, height as real)] + GridStrokes(Rows(height), draws) +
                      [StrokePath(Black, [Segment(BorderX(side), 0.0, BorderX(side), height as real)], LineWidth)]
    {
      width := MarginWidth;
      height := MaxInt(scrollHeight, innerHeight);
      var rows := Rows(height);
      cmds := cmds + [Clear(width as real, height as real)];
      DrawRows(rows, draws);
      var borderX := if side == Left then width as real - 1.0 else 1.0;
      assert borderX == BorderX(side);
      cmds := cmds + [StrokePath(Black, [Segment(borderX, 0.0, borderX, height as real)], LineWidth)];
    }

    /** The row loop: rows 0 .. rows - 1 in order. */
    method DrawRows(rows: int, draws: seq<real>)
      requires 0 <= rows && DrawIndex(rows, 0) <= |draws|
      modifies this`cmds
      ensures cmds == old(cmds) + GridStrokes(rows, draws)
    {
      var r := 0;
      while r < rows
        invariant 0 <= r <= rows
        invariant cmds == old(cmds) + GridStrokes(r, draws)
      {
        DrawRow(r, draws);
        assert GridStrokes(r + 1, draws) == GridStrokes(r, draws) + RowStrokes(r, Cols, draws);
        Regroup(old(cmds), GridStrokes(r, draws), RowStrokes(r, Cols, draws));
        r := r + 1;
      }
    }

    /** The column loop of row r: one path and one stroke per cell. */
    method DrawRow(r: int, draws: seq<real>)
      requires 0 <= r && DrawIndex(r, Cols) <= |draws|
      modifies this`cmds
      ensures cmds == old(cmds) + RowStrokes(r, Cols, draws)
    {
      var c := 0;
      while c < Cols
        invariant 0 <= c <= Cols
        invariant cmds == old(cmds) + RowStrokes(r, c, draws)
      {
        var x, y := Pixel(c, CellSize), Pixel(r, CellSize);
        var carveNorth := draws[7 * r + c] > 0.5;
        var path: seq<Segment> := [];
        if r == 0 && c == Cols - 1 {
        } else if r == 0 {
          path := [Segment(x + CellSize, y, x + CellSize, y + CellSize)];
        } else if c == Cols - 1 {
          path := [Segment(x, y, x + CellSize, y)];
        } else if carveNorth {
          path := [Segment(x, y, x + CellSize, y)];
        } else {
          path := [Segment(x + CellSize, y, x + CellSize, y + CellSize)];
        }
        assert path == CellPath(r, c, draws[DrawIndex(r, c)]);
        cmds := cmds + [StrokePath(Black, path, LineWidth)];
        c := c + 1;
      }
    }
  }
}
