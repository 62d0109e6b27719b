/**
 * The earlier, stand-alone maze canvas of frontend/src/components/MazeCanvas.tsx:
 * a cell size fitted to the enclosing section and rounded down to hundredths,
 * a canvas exactly as large as the maze, the Start and End fills, and one
 * stroke per raised wall. Canvas calls are recorded as a command list.
 */
module LegacyCanvas {
  import opened Common
  import opened MazeData
  import opened Viewport

  /**
   * `updateSize`: the smaller of the two cell sizes that fit the section
   * less a 32-pixel margin on each side, rounded down to hundredths.
   */
  function StableSize(parentW: real, parentH: real, rows: real, cols: real): (s: real)
    requires rows > 0.0 && cols > 0.0
    ensures var fit := MinReal((parentW - 64.0) / cols, (parentH - 64.0) / rows);
      s <= fit && fit - s < 0.01
    ensures (s * 100.0).Floor as real == s * 100.0
  {
    var fit := MinReal((parentW - 64.0) / cols, (parentH - 64.0) / rows);
    var k := Floor(fit * 100.0);
    assert k as real <= fit * 100.0 < k as real + 1.0;
    k as real / 100.0
  }

  /** This component's `getWallColor`: `rgb(0, 0, 0)` from weight 1000 on, else the grey 230 - w % 30. */
  function WallPaint(w: int): Paint
  {
    if w >= 1000 then Grey(0) else Grey(230 - TruncMod(w, 30))
  }

  /**
   * Heavy walls are black; ordinary weights give greys between 201 and 230,
   * so no lighter weight is ever drawn black.
   */
  lemma WallPaintRange(w: int)
    ensures WallPaint(w) == Grey(0) <==> w >= 1000
    ensures 0 <= w < 1000 ==> 201 <= WallPaint(w).level <= 230
    ensures w < 0 ==> 230 <= WallPaint(w).level < 260
  {
  }

  /** `ctx.lineWidth`: 1 above cell size 5, else 0.5. */
  function LineWidth(cs: real): real
  {
    if cs > 5.0 then 1.0 else 0.5
  }

  /** The two fills: Start in light green, then End in tomato red. */
  function Endpoints(m: Maze, cs: real): seq<Cmd>
  {
    [FillRect(Pixel(m.start.col, cs), Pixel(m.start.row, cs), cs, cs, LightGreen),
     FillRect(Pixel(m.end.col, cs), Pixel(m.end.row, cs), cs, cs, Tomato)]
  }

  /** The colour left at the square whose corner is (x, y): that of the last fill there, if any. */
  function Shown(cmds: seq<Cmd>, x: real, y: real): Option<Paint>
    decreases |cmds|
  {
    if cmds == [] then None
    else
      var last := cmds[|cmds| - 1];
      if last.FillRect? && last.x == x && last.y == y then Some(last.paint)
      else Shown(cmds[..|cmds| - 1], x, y)
  }

  /**
   * End is filled last, so its cell always shows tomato red; at a positive
   * cell size Start's cell shows light green exactly when Start and End
   * differ.
   */
  lemma EndWins(m: Maze, cs: real)
    ensures Shown(Endpoints(m, cs), Pixel(m.end.col, cs), Pixel(m.end.row, cs)) == Some(Tomato)
    ensures cs > 0.0 ==>
      (Shown(Endpoints(m, cs), Pixel(m.start.col, cs), Pixel(m.start.row, cs)) == Some(LightGreen) <==> m.start != m.end)
  {
    var fills := Endpoints(m, cs);
    assert fills[..1] == [fills[0]];
    assert fills[..1][..0] == [];
    if cs > 0.0 && m.start != m.end {
      if m.start.col != m.end.col {
        PixelInjective(m.start.col, m.end.col, cs);
      } else {
        PixelInjective(m.start.row, m.end.row, cs);
      }
    }
  }

  /** The strokes of the raised walls among slots 0 .. d - 1 of a cell at (x, y), one path each. */
  function CellStrokes(cell: CellView, x: real, y: real, cs: real, width: real, d: int): seq<Cmd>
    requires |cell.walls| == 4 && |cell.weights| == 4 && 0 <= d <= 4
    decreases d
  {
    if d == 0 then []
    else
      CellStrokes(cell, x, y, cs, width, d - 1) +
      (if cell.walls[d - 1] then [WallStroke(cell, x, y, cs, width, d - 1)] else [])
  }

  /** The stroke of slot `k` of a cell at (x, y): its side, in its weight's colour. */
  function WallStroke(cell: CellView, x: real, y: real, cs: real, width: real, k: int): Cmd
    requires |cell.weights| == 4 && 0 <= k < 4
  {
    StrokePath(WallPaint(cell.weights[k]), [Side(x, y, cs, k)], width)
  }

  /** `s` is the stroke of a raised wall among slots 0 .. d - 1. */
  predicate RaisedStroke(s: Cmd, cell: CellView, x: real, y: real, cs: real, width: real, d: int)
    requires |cell.walls| == 4 && |cell.weights| == 4 && 0 <= d <= 4
  {
    exists k :: 0 <= k < d && cell.walls[k] && s == WallStroke(cell, x, y, cs, width, k)
  }

  /** Every stroke of `ss` is the stroke of a raised wall among slots 0 .. d - 1. */
  predicate OnlyRaisedStrokes(ss: seq<Cmd>, cell: CellView, x: real, y: real, cs: real, width: real, d: int)
    requires |cell.walls| == 4 && |cell.weights| == 4 && 0 <= d <= 4
  {
    forall i :: 0 <= i < |ss| ==> RaisedStroke(ss[i], cell, x, y, cs, width, d)
  }

  /** Every raised wall among slots 0 .. d - 1 has its stroke in `ss`. */
  predicate AllRaisedStroked(ss: seq<Cmd>, cell: CellView, x: real, y: real, cs: real, width: real, d: int)
    requires |cell.walls| == 4 && |cell.weights| == 4 && 0 <= d <= 4
  {
    forall k :: 0 <= k < d && cell.walls[k] ==> WallStroke(cell, x, y, cs, width, k) in ss
  }

  /**
   * Every raised wall flag gives exactly one stroke, of its own side in its
   * own weight's colour, and nothing else gives one.
   */
  lemma {:induction false} CellStrokesExact(cell: CellView, x: real, y: real, cs: real, width: real, d: int)
    requires |cell.walls| == 4 && |cell.weights| == 4 && 0 <= d <= 4
    ensures var ss := CellStrokes(cell, x, y, cs, width, d);
      |ss| == Raised(cell.walls[..d]) &&
      OnlyRaisedStrokes(ss, cell, x, y, cs, width, d) && AllRaisedStroked(ss, cell, x, y, cs, width, d)
    decreases d
  {
    if d > 0 {
      CellStrokesExact(cell, x, y, cs, width, d - 1);
      assert cell.walls[..d][..d - 1] == cell.walls[..d - 1];
      var prev := CellStrokes(cell, x, y, cs, width, d - 1);
      OnlyRaisedStep(cell, x, y, cs, width, d, prev);
      AllRaisedStep(cell, x, y, cs, width, d, prev);
    }
  }

  /** Appending slot `d - 1`'s stroke, if its wall is raised, adds no stroke of a lowered wall. */
  lemma OnlyRaisedStep(cell: CellView, x: real, y: real, cs: real, width: real, d: int, prev: seq<Cmd>)
    requires |cell.walls| == 4 && |cell.weights| == 4 && 0 < d <= 4
    requires OnlyRaisedStrokes(prev, cell, x, y, cs, width, d - 1)
    ensures OnlyRaisedStrokes(prev + (if cell.walls[d - 1] then [WallStroke(cell, x, y, cs, width, d - 1)] else []),
                              cell, x, y, cs, width, d)
  {
    var ss := prev + (if cell.walls[d - 1] then [WallStroke(cell, x, y, cs, width, d - 1)] else []);
    forall i | 0 <= i < |ss|
      ensures RaisedStroke(ss[i], cell, x, y, cs, width, d)
    {
      if i < |prev| {
        assert ss[i] == prev[i] && RaisedStroke(prev[i], cell, x, y, cs, width, d - 1);
        var k :| 0 <= k < d - 1 && cell.walls[k] && prev[i] == WallStroke(cell, x, y, cs, width, k);
      } else {
        assert ss[i] == WallStroke(cell, x, y, cs, width, d - 1);
      }
    }
  }

  /** Appending slot `d - 1`'s stroke, if its wall is raised, strokes every raised wall up to slot `d - 1`. */
  lemma AllRaisedStep(cell: CellView, x: real, y: real, cs: real, width: real, d: int, prev: seq<Cmd>)
    requires |cell.walls| == 4 && |cell.weights| == 4 && 0 < d <= 4
    requires AllRaisedStroked(prev, cell, x, y, cs, width, d - 1)
    ensures AllRaisedStroked(prev + (if cell.walls[d - 1] then [WallStroke(cell, x, y, cs, width, d - 1)] else []),
                             cell, x, y, cs, width, d)
  {
    var ss := prev + (if cell.walls[d - 1] then [WallStroke(cell, x, y, cs, width, d - 1)] else []);
    forall k | 0 <= k < d && cell.walls[k]
      ensures WallStroke(cell, x, y, cs, width, k) in ss
    {
      if k < d - 1 {
        assert WallStroke(cell, x, y, cs, width, k) in prev;
      } else {
        assert ss[|ss| - 1] == WallStroke(cell, x, y, cs, width, k);
      }
    }
  }

  /** The strokes of cells (r, 0) .. (r, c - 1). */
  function RowStrokes(m: Maze, r: int, c: int, cs: real, width: real): seq<Cmd>
    requires WellFormed(m) && 0 <= r < m.rows && c <= m.cols
    decreases c
  {
    if c <= 0 then []
    else RowStrokes(m, r, c - 1, cs, width) + CellStrokes(m.grid[r][c - 1], Pixel(c - 1, cs), Pixel(r, cs), cs, width, 4)
  }

  /** The strokes of rows 0 .. r - 1, in the order of the nested `forEach`. */
  function GridStrokes(m: Maze, r: int, cs: real, width: real): seq<Cmd>
    requires WellFormed(m) && r <= m.rows
    decreases r
  {
    if r <= 0 then [] else GridStrokes(m, r - 1, cs, width) + RowStrokes(m, r - 1, m.cols, cs, width)
  }

  /** Appending in two steps is appending the concatenation. */
  lemma Regroup(a: seq<Cmd>, b: seq<Cmd>, c: seq<Cmd>)
    ensures a + b + c == a + (b + c)
  {
  }

  /** The component's state: the fitted cell size and the `<canvas>` with the calls made on it. */
  class Canvas {
    var cellSize: real
    var width: real
    var height: real
    var cmds: seq<Cmd>

    constructor ()
      ensures cellSize == 0.0 && width == 0.0 && height == 0.0 && cmds == []
    {
      cellSize := 0.0;
      width := 0.0;
      height := 0.0;
      cmds := [];
    }

    /**
     * The sizing effect: nothing without a maze or an enclosing section,
     * otherwise the stable cell size for the section's client size.
     */
    method UpdateSize(section: Option<Vec>, maze: Option<Maze>)
      requires maze.Some? ==> maze.value.rows > 0 && maze.value.cols > 0
      modifies this`cellSize
      ensures section.None? || maze.None? ==> cellSize == old(cellSize)
      ensures section.Some? && maze.Some? ==>
                cellSize == StableSize(section.value.x, section.value.y, maze.value.rows as real, maze.value.cols as real)
    {
      if section.None? || maze.None? {
        return;
      }
      cellSize := StableSize(section.value.x, section.value.y, maze.value.rows as real, maze.value.cols as real);
    }

    /**
     * The drawing effect: nothing without a maze or at cell size 0;
     * otherwise the canvas is the maze's size plus one pixel, cleared, and
     * receives the Start and End fills and then the wall strokes.
     */
    method Render(maze: Option<Maze>)
      requires maze.Some? ==> WellFormed(maze.value)
      modifies this`width, this`height, this`cmds
      ensures maze.None? || cellSize == 0.0 ==>
                width == old(width) && height == old(height) && cmds == old(cmds)
      ensures maze.Some? && cellSize != 0.0 ==>
                var m := maze.value;
                width == Pixel(m.cols, cellSize) + 1.0 && height == Pixel(m.rows, cellSize) + 1.0 &&
                cmds == old(cmds) + [Clear(width, height)] + Endpoints(m, cellSize) +
                        GridStrokes(m, m.rows, cellSize, LineWidth(cellSize))
    {
      if maze.None? || cellSize == 0.0 {
        return;
      }
      var m := maze.value;
      var cs := cellSize;
      width := Pixel(m.cols, cs) + 1.0;
      height := Pixel(m.rows, cs) + 1.0;
      cmds := cmds + [Clear(width, height)];
      cmds := cmds + [FillRect(Pixel(m.start.col, cs), Pixel(m.start.row, cs), cs, cs, LightGreen)];
      cmds := cmds + [FillRect(Pixel(m.end.col, cs), Pixel(m.end.row, cs), cs, cs, Tomato)];
      ghost var c0 := cmds;
      assert c0 == old(cmds) + [Clear(width, height)] + Endpoints(m, cs);
      DrawWalls(m, cs, LineWidth(cs));
    }

    /** The outer `forEach` over the rows. */
    method DrawWalls(m: Maze, cs: real, lw: real)
      requires WellFormed(m)
      modifies this`cmds
      ensures cmds == old(cmds) + GridStrokes(m, m.rows, cs, lw)
    {
      var r := 0;
      while r < m.rows
        invariant 0 <= r <= m.rows
        invariant cmds == old(cmds) + GridStrokes(m, r, cs, lw)
      {
        DrawRow(m, r, cs, lw);
        assert GridStrokes(m, r + 1, cs, lw) == GridStrokes(m, r, cs, lw) + RowStrokes(m, r, m.cols, cs, lw);
        Regroup(old(cmds), GridStrokes(m, r, cs, lw), RowStrokes(m, r, m.cols, cs, lw));
        r := r + 1;
      }
    }

    /** The inner `forEach` over the cells of row r. */
    method DrawRow(m: Maze, r: int, cs: real, lw: real)
      requires WellFormed(m) && 0 <= r < m.rows
      modifies this`cmds
      ensures cmds == old(cmds) + RowStrokes(m, r, m.cols, cs, lw)
    {
      var c := 0;
      while c < m.cols
        invariant 0 <= c <= m.cols
        invariant cmds == old(cmds) + RowStrokes(m, r, c, cs, lw)
      {
        DrawCell(m.grid[r][c], Pixel(c, cs), Pixel(r, cs), cs, lw);
        assert RowStrokes(m, r, c + 1, cs, lw) ==
               RowStrokes(m, r, c, cs, lw) + CellStrokes(m.grid[r][c], Pixel(c, cs), Pixel(r, cs), cs, lw, 4);
        Regroup(old(cmds), RowStrokes(m, r, c, cs, lw), CellStrokes(m.grid[r][c], Pixel(c, cs), Pixel(r, cs), cs, lw, 4));
        c := c + 1;
      }
    }

    /** The four `if (cell.walls[k])` blocks of one cell: one stroked path per raised wall. */
    method DrawCell(cell: CellView, x: real, y: real, cs: real, lw: real)
      requires |cell.walls| == 4 && |cell.weights| == 4
      modifies this`cmds
      ensures cmds == old(cmds) + CellStrokes(cell, x, y, cs, lw, 4)
    {
      if cell.walls[0] {
        cmds := cmds + [StrokePath(WallPaint(cell.weights[0]), [Segment(x, y, x + cs, y)], lw)];
      }
      if cell.walls[1] {
        cmds := cmds + [StrokePath(WallPaint(cell.weights[1]), [Segment(x + cs, y, x + cs, y + cs)], lw)];
      }
      if cell.walls[2] {
        cmds := cmds + [StrokePath(WallPaint(cell.weights[2]), [Segment(x, y + cs, x + cs, y + cs)], lw)];
      }
      if cell.walls[3] {
        cmds := cmds + [StrokePath(WallPaint(cell.weights[3]), [Segment(x, y, x, y + cs)], lw)];
      }
    }
  }
}
