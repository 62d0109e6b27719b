/**
 * The incremental maze renderer of frontend/src/components/maze/MazeCanvas.tsx:
 * a counter that reveals the exploration order a few cells per animation
 * frame, and the render pass that fills the revealed cells, strokes the
 * solution once everything is revealed, fills Start and End, and strokes
 * the walls batched by colour. Canvas calls are recorded as a command list;
 * frames are discrete ticks with a timestamp.
 */
module MazeCanvas {
  import opened Common
  import opened MazeData
  import opened Viewport

  /** `PADDING`: the back-buffer extends 800 px beyond the container on each side. */
  const Padding: real := 800.0

  /** `getWallColor`: black from weight 1000 on, else the grey 220 - w % 30 (JavaScript remainder). */
  function WallPaint(w: int): Paint
  {
    if w >= 1000 then Black else Grey(220 - TruncMod(w, 30))
  }

  /** Heavy walls are black; ordinary weights give greys between 191 and 220, negative ones lighter greys. */
  lemma WallPaintRange(w: int)
    ensures w >= 1000 <==> WallPaint(w) == Black
    ensures 0 <= w < 1000 ==> WallPaint(w).Grey? && 191 <= WallPaint(w).level <= 220
    ensures w < 0 ==> WallPaint(w).Grey? && 220 <= WallPaint(w).level < 250
  {
  }

  // ---------------------------------------------------------------------
  // The reveal counter
  // ---------------------------------------------------------------------

  /** The updater of one throttled tick: five more cells, capped at the number of highlights. */
  function RevealStep(prev: int, len: int): (v: int)
    ensures 0 <= prev <= len ==> prev <= v <= len && v <= prev + 5
    ensures prev < len ==> v == MinInt(prev + 5, len)
    ensures prev >= len ==> v == prev
  {
    if prev < len then MinInt(prev + 5, len) else prev
  }

  /** The counter after `k` effective ticks from 0. */
  function Revealed(k: nat, len: int): int
  {
    if k == 0 then 0 else RevealStep(Revealed(k - 1, len), len)
  }

  /** After k ticks the first min(5k, len) highlights are visible: all of them after ceil(len / 5) ticks. */
  lemma {:induction false} RevealedAfter(k: nat, len: nat)
    ensures Revealed(k, len) == MinInt(5 * k, len)
  {
    if k > 0 {
      RevealedAfter(k - 1, len);
    }
  }

  /** The state of the reveal animation for the current `highlights` array. */
  class Reveal {
    /** `visibleHighlights`. */
    var visible: int
    /** `lastTime` of the running animation loop (0 before its first frame). */
    var lastTime: real
    /** `highlights.length`. */
    var len: int

    ghost predicate Valid()
      reads this
    {
      0 <= visible <= len
    }

    /** Mounting with a highlights array: counter 0, no frame seen yet. */
    constructor (n: nat)
      ensures Valid() && visible == 0 && lastTime == 0.0 && len == n
    {
      visible := 0;
      lastTime := 0.0;
      len := n;
    }

    /** A new `highlights` array: the counter goes back to 0 and a fresh loop starts. */
    method Reset(n: nat)
      modifies this
      ensures Valid() && visible == 0 && lastTime == 0.0 && len == n
    {
      visible := 0;
      lastTime := 0.0;
      len := n;
    }

    /**
     * One animation frame at `time`. No loop runs for empty highlights. The
     * first frame only records the time; a frame more than 16 ms after the
     * last counted one advances the counter by one step.
     */
    method Tick(time: real)
      requires Valid()
      modifies this`visible, this`lastTime
      ensures Valid()
      ensures old(visible) <= visible <= old(visible) + 5
      ensures len == 0 ==> visible == old(visible) && lastTime == old(lastTime)
      ensures len > 0 ==>
        var start := if old(lastTime) == 0.0 then time else old(lastTime);
        if time - start > 16.0 then visible == RevealStep(old(visible), len) && lastTime == time
        else visible == old(visible) && lastTime == start
    {
      if len == 0 {
        return;
      }
      if lastTime == 0.0 {
        lastTime := time;
      }
      var deltaTime := time - lastTime;
      if deltaTime > 16.0 {
        visible := RevealStep(visible, len);
        lastTime := time;
      }
    }
  }

  // ---------------------------------------------------------------------
  // What the render pass draws
  // ---------------------------------------------------------------------

  /** Step 1: the translucent fills of the first `visible` exploration cells that exist. */
  function ExploreFills(highlights: seq<Point>, visible: int, cs: real): seq<Cmd>
    decreases visible
  {
    if visible <= 0 then []
    else
      ExploreFills(highlights, visible - 1, cs) +
      (if visible - 1 < |highlights|
       then [FillRect(Pixel(highlights[visible - 1].col, cs), Pixel(highlights[visible - 1].row, cs), cs, cs, Lavender)]
       else [])
  }

  /** Only revealed cells are filled, one fill each, in exploration order. */
  lemma {:induction false} ExploreFillsRevealed(highlights: seq<Point>, visible: int, cs: real)
    requires 0 <= visible <= |highlights|
    ensures var f := ExploreFills(highlights, visible, cs);
      |f| == visible &&
      forall i :: 0 <= i < visible ==>
        f[i] == FillRect(Pixel(highlights[i].col, cs), Pixel(highlights[i].row, cs), cs, cs, Lavender)
    decreases visible
  {
    if visible > 0 {
      ExploreFillsRevealed(highlights, visible - 1, cs);
    }
  }

  /** The centre of cell (r, c). */
  function Centre(p: Point, cs: real): (real, real)
  {
    (Pixel(p.col, cs) + cs / 2.0, Pixel(p.row, cs) + cs / 2.0)
  }

  /** The polyline through the first `n` solution cells' centres. */
  function Centres(path: seq<Point>, n: int, cs: real): (pts: seq<(real, real)>)
    requires 0 <= n <= |path|
    ensures |pts| == n && forall i :: 0 <= i < n ==> pts[i] == Centre(path[i], cs)
    decreases n
  {
    if n == 0 then [] else Centres(path, n - 1, cs) + [Centre(path[n - 1], cs)]
  }

  /** Step 2: the solution, only once every highlight is visible and if there is a path. */
  function SolutionCmds(highlights: seq<Point>, visible: int, path: seq<Point>, cs: real): seq<Cmd>
  {
    if visible >= |highlights| && |path| > 0 then [Polyline(Centres(path, |path|, cs), cs * 0.4, SolutionRed)] else []
  }

  /**
   * The solution is drawn exactly when every highlight is visible and the
   * path is non-empty, as one red polyline of width 0.4·cs through the
   * centres of all the path's cells, in path order.
   */
  lemma SolutionShown(highlights: seq<Point>, visible: int, path: seq<Point>, cs: real)
    ensures var s := SolutionCmds(highlights, visible, path, cs);
      (|s| > 0 <==> visible >= |highlights| && |path| > 0) && |s| <= 1 &&
      (|s| == 1 ==> s[0].Polyline? && s[0].paint == SolutionRed && s[0].width == cs * 0.4 &&
                    |s[0].points| == |path| &&
                    forall i :: 0 <= i < |path| ==> s[0].points[i] == Centre(path[i], cs))
  {
  }

  /** The Start fill, or else the End fill, of cell (r, c). */
  function CellFill(m: Maze, r: int, c: int, cs: real): seq<Cmd>
  {
    if r == m.start.row && c == m.start.col then [FillRect(Pixel(c, cs), Pixel(r, cs), cs, cs, LightGreen)]
    else if r == m.end.row && c == m.end.col then [FillRect(Pixel(c, cs), Pixel(r, cs), cs, cs, Tomato)]
    else []
  }

  /** The Start/End fills of cells (r, 0) .. (r, c - 1). */
  function RowFills(m: Maze, r: int, c: int, cs: real): seq<Cmd>
    decreases c
  {
    if c <= 0 then [] else RowFills(m, r, c - 1, cs) + CellFill(m, r, c - 1, cs)
  }

  /** The Start/End fills of rows 0 .. r - 1. */
  function GridFills(m: Maze, r: int, cs: real): seq<Cmd>
    decreases r
  {
    if r <= 0 then [] else GridFills(m, r - 1, cs) + RowFills(m, r - 1, m.cols, cs)
  }

  /** A wall segment and the batch colour it goes into. */
  datatype Entry = Entry(paint: Paint, seg: Segment)

  /** The entries of the raised walls among slots 0 .. d - 1 of a cell at (x, y). */
  function CellEntries(cell: CellView, x: real, y: real, cs: real, d: int): seq<Entry>
    requires |cell.walls| == 4 && |cell.weights| == 4 && 0 <= d <= 4
    decreases d
  {
    if d == 0 then []
    else
      CellEntries(cell, x, y, cs, d - 1) +
      (if cell.walls[d - 1] then [Entry(WallPaint(cell.weights[d - 1]), Side(x, y, cs, d - 1))] else [])
  }

  /**
   * Each raised wall of a cell contributes exactly one segment, on the side
   * its slot names, in its own weight's colour, and nothing else does.
   */
  lemma {:induction false} CellEntriesExact(cell: CellView, x: real, y: real, cs: real, d: int)
    requires |cell.walls| == 4 && |cell.weights| == 4 && 0 <= d <= 4
    ensures var es := CellEntries(cell, x, y, cs, d);
      |es| == Raised(cell.walls[..d]) &&
      (forall i :: 0 <= i < |es| ==>
         exists k :: 0 <= k < d && cell.walls[k] && es[i] == Entry(WallPaint(cell.weights[k]), Side(x, y, cs, k))) &&
      (forall k :: 0 <= k < d && cell.walls[k] ==> Entry(WallPaint(cell.weights[k]), Side(x, y, cs, k)) in es)
    decreases d
  {
    if d > 0 {
      CellEntriesExact(cell, x, y, cs, d - 1);
      assert cell.walls[..d][..d - 1] == cell.walls[..d - 1];
      var prev := CellEntries(cell, x, y, cs, d - 1);
      var es := CellEntries(cell, x, y, cs, d);
      forall i | 0 <= i < |es|
        ensures exists k :: 0 <= k < d && cell.walls[k] && es[i] == Entry(WallPaint(cell.weights[k]), Side(x, y, cs, k))
      {
        if i < |prev| {
          assert es[i] == prev[i];
        } else {
          assert es[i] == Entry(WallPaint(cell.weights[d - 1]), Side(x, y, cs, d - 1));
        }
      }
      forall k | 0 <= k < d && cell.walls[k]
        ensures Entry(WallPaint(cell.weights[k]), Side(x, y, cs, k)) in es
      {
        if k < d - 1 {
          assert Entry(WallPaint(cell.weights[k]), Side(x, y, cs, k)) in prev;
        } else {
          assert es[|es| - 1] == Entry(WallPaint(cell.weights[k]), Side(x, y, cs, k));
        }
      }
    }
  }

  /** The wall entries of cells (r, 0) .. (r, c - 1). */
  function RowEntries(m: Maze, r: int, c: int, cs: real): seq<Entry>
    requires WellFormed(m) && 0 <= r < m.rows && c <= m.cols
    decreases c
  {
    if c <= 0 then []
    else
      RowEntries(m, r, c - 1, cs) + CellEntries(m.grid[r][c - 1], Pixel(c - 1, cs), Pixel(r, cs), cs, 4)
  }

  /** The wall entries of rows 0 .. r - 1, in the order the loops visit them. */
  function GridEntries(m: Maze, r: int, cs: real): seq<Entry>
    requires WellFormed(m) && r <= m.rows
    decreases r
  {
    if r <= 0 then [] else GridEntries(m, r - 1, cs) + RowEntries(m, r - 1, m.cols, cs)
  }

  // ---------------------------------------------------------------------
  // Colour batches
  // ---------------------------------------------------------------------

  /** `wallBatches`: one path per colour, and the colours in the order their batches were created. */
  datatype Batches = Batches(paths: map<Paint, seq<Segment>>, order: seq<Paint>)

  /** Add one segment to its colour's batch, creating the batch on first use. */
  function AddEntry(b: Batches, e: Entry): Batches
  {
    if e.paint in b.paths then Batches(b.paths[e.paint := b.paths[e.paint] + [e.seg]], b.order)
    else Batches(b.paths[e.paint := [e.seg]], b.order + [e.paint])
  }

  /** The batches after adding `es` in order. */
  function AddAll(b: Batches, es: seq<Entry>): Batches
    decreases |es|
  {
    if es == [] then b else AddEntry(AddAll(b, es[..|es| - 1]), es[|es| - 1])
  }

  /** Adding two runs of entries is adding their concatenation. */
  lemma {:induction false} AddAllAppend(b: Batches, a: seq<Entry>, c: seq<Entry>)
    ensures AddAll(b, a + c) == AddAll(AddAll(b, a), c)
    decreases |c|
  {
    if c == [] {
      assert a + c == a;
    } else {
      assert (a + c)[..|a + c| - 1] == a + c[..|c| - 1];
      AddAllAppend(b, a, c[..|c| - 1]);
    }
  }

  /** The segments of colour `p` among the entries, in order. */
  function SegsOf(es: seq<Entry>, p: Paint): seq<Segment>
    decreases |es|
  {
    if es == [] then []
    else SegsOf(es[..|es| - 1], p) + (if es[|es| - 1].paint == p then [es[|es| - 1].seg] else [])
  }

  /** The batches as a grouping: each colour's keys in creation order, without repeats. */
  ghost predicate Grouping(b: Batches, es: seq<Entry>)
  {
    NoDuplicates(b.order) &&
    (forall p :: p in b.paths <==> p in b.order) &&
    (forall p :: p in b.paths <==> SegsOf(es, p) != []) &&
    (forall p :: p in b.paths ==> b.paths[p] == SegsOf(es, p))
  }

  /**
   * Batching groups the segments by colour: there is one batch per colour
   * that occurs, created once, and it holds exactly that colour's segments
   * in drawing order, so every segment is in exactly one batch.
   */
  lemma {:induction false} BatchesGroup(es: seq<Entry>)
    ensures Grouping(AddAll(Batches(map[], []), es), es)
    decreases |es|
  {
    if es != [] {
      var prev := es[..|es| - 1];
      var e := es[|es| - 1];
      BatchesGroup(prev);
      var b := AddAll(Batches(map[], []), prev);
      var b' := AddEntry(b, e);
      forall p ensures SegsOf(es, p) == SegsOf(prev, p) + (if e.paint == p then [e.seg] else []) {
      }
      if e.paint !in b.paths {
        forall i, j | 0 <= i < j < |b'.order| ensures b'.order[i] != b'.order[j] {
          if j == |b'.order| - 1 {
            assert b'.order[i] in b.order;
          }
        }
      }
    }
  }

  /** The stroke of each batch, in creation order, at the wall line width. */
  function BatchStrokes(b: Batches, n: int, width: real): seq<Cmd>
    requires 0 <= n <= |b.order| && forall p :: p in b.order ==> p in b.paths
    decreases n
  {
    if n == 0 then []
    else BatchStrokes(b, n - 1, width) + [StrokePath(b.order[n - 1], b.paths[b.order[n - 1]], width)]
  }

  /** `ctx.lineWidth` for the walls: 1 above cell size 5, else 0.5. */
  function WallWidth(cs: real): real
  {
    if cs > 5.0 then 1.0 else 0.5
  }

  /** The whole picture of one render pass, between the transform set-up and `ctx.restore()`. */
  function Picture(m: Maze, cs: real, visible: int, highlights: seq<Point>, path: seq<Point>): seq<Cmd>
    requires WellFormed(m)
  {
    var b := AddAll(Batches(map[], []), GridEntries(m, m.rows, cs));
    BatchesGroup(GridEntries(m, m.rows, cs));
    ExploreFills(highlights, visible, cs) + SolutionCmds(highlights, visible, path, cs) +
    GridFills(m, m.rows, cs) + BatchStrokes(b, |b.order|, WallWidth(cs))
  }

  /** Appending in two steps is appending the concatenation. */
  lemma Regroup(a: seq<Cmd>, b: seq<Cmd>, c: seq<Cmd>)
    ensures a + b + c == a + (b + c)
  {
  }

  // ---------------------------------------------------------------------
  // The render pass
  // ---------------------------------------------------------------------

  /** The `<canvas>` element: its size and the calls made on its 2-D context. */
  class Canvas {
    var width: real
    var height: real
    var cmds: seq<Cmd>

    constructor ()
      ensures width == 0.0 && height == 0.0 && cmds == []
    {
      width := 0.0;
      height := 0.0;
      cmds := [];
    }

    /**
     * The render effect: nothing without a container or at cell size 0;
     * otherwise the back-buffer is the container plus the padding, and the
     * picture is drawn under the pan/zoom transform.
     */
    method Render(m: Maze, cs: real, t: Transform, visible: int, highlights: seq<Point>, path: seq<Point>,
                  container: Option<Vec>)
      requires WellFormed(m)
      modifies this
      ensures container.None? || cs == 0.0 ==>
                width == old(width) && height == old(height) && cmds == old(cmds)
      ensures container.Some? && cs != 0.0 ==>
                width == container.value.x + 2.0 * Padding && height == container.value.y + 2.0 * Padding &&
                cmds == old(cmds) + [Clear(width, height), Save, Translate(t.x + Padding, t.y + Padding), Scale(t.s)] +
                        Picture(m, cs, visible, highlights, path) + [Restore]
    {
      if container.None? || cs == 0.0 {
        return;
      }
      width := container.value.x + Padding * 2.0;
      height := container.value.y + Padding * 2.0;
      cmds := cmds + [Clear(width, height), Save, Translate(t.x + Padding, t.y + Padding), Scale(t.s)];
      ghost var c0 := cmds;
      ghost var explore := ExploreFills(highlights, visible, cs);
      ghost var solution := SolutionCmds(highlights, visible, path, cs);
      ghost var fills := GridFills(m, m.rows, cs);
      DrawExploration(highlights, visible, cs);
      DrawSolution(highlights, visible, path, cs);
      Regroup(c0, explore, solution);
      var b := CollectWalls(m, cs);
      Regroup(c0, explore + solution, fills);
      BatchesGroup(GridEntries(m, m.rows, cs));
      ghost var strokes := BatchStrokes(b, |b.order|, WallWidth(cs));
      StrokeBatches(b, WallWidth(cs));
      Regroup(c0, explore + solution + fills, strokes);
      assert Picture(m, cs, visible, highlights, path) == explore + solution + fills + strokes;
      cmds := cmds + [Restore];
    }

    /** Step 1: fill the first `visible` exploration cells that exist. */
    method DrawExploration(highlights: seq<Point>, visible: int, cs: real)
      modifies this`cmds
      ensures cmds == old(cmds) + ExploreFills(highlights, visible, cs)
    {
      var i := 0;
      while i < visible
        invariant 0 <= i && (i <= visible || i == 0)
        invariant cmds == old(cmds) + ExploreFills(highlights, i, cs)
      {
        ghost var before := cmds;
        if i < |highlights| {
          var r, c := highlights[i].row, highlights[i].col;
          var fill := FillRect(Pixel(c, cs), Pixel(r, cs), cs, cs, Lavender);
          assert fill.x == Pixel(highlights[i].col, cs) && fill.y == Pixel(highlights[i].row, cs);
          cmds := cmds + [fill];
          assert ExploreFills(highlights, i + 1, cs) == ExploreFills(highlights, i, cs) + [fill];
          Regroup(old(cmds), ExploreFills(highlights, i, cs), [fill]);
        } else {
          assert ExploreFills(highlights, i + 1, cs) == ExploreFills(highlights, i, cs) + [];
          assert ExploreFills(highlights, i, cs) + [] == ExploreFills(highlights, i, cs);
        }
        i := i + 1;
      }
    }

    /** Step 2: the solution polyline through the cell centres, built point by point. */
    method DrawSolution(highlights: seq<Point>, visible: int, path: seq<Point>, cs: real)
      modifies this`cmds
      ensures cmds == old(cmds) + SolutionCmds(highlights, visible, path, cs)
    {
      if visible >= |highlights| && |path| > 0 {
        var pts: seq<(real, real)> := [];
        var idx := 0;
        while idx < |path|
          invariant 0 <= idx <= |path| && pts == Centres(path, idx, cs)
        {
          var x := Pixel(path[idx].col, cs) + cs / 2.0;
          var y := Pixel(path[idx].row, cs) + cs / 2.0;
          assert x == Centre(path[idx], cs).0 && y == Centre(path[idx], cs).1;
          assert Centres(path, idx + 1, cs) == Centres(path, idx, cs) + [Centre(path[idx], cs)];
          pts := pts + [(x, y)];
          idx := idx + 1;
        }
        cmds := cmds + [Polyline(pts, cs * 0.4, SolutionRed)];
      }
    }

    /** Step 3, the grid loops: Start/End fills go straight to the canvas, wall segments into batches. */
    method CollectWalls(m: Maze, cs: real) returns (b: Batches)
      requires WellFormed(m)
      modifies this`cmds
      ensures cmds == old(cmds) + GridFills(m, m.rows, cs)
      ensures b == AddAll(Batches(map[], []), GridEntries(m, m.rows, cs))
    {
      b := Batches(map[], []);
      var r := 0;
      while r < m.rows
        invariant 0 <= r <= m.rows
        invariant cmds == old(cmds) + GridFills(m, r, cs)
        invariant b == AddAll(Batches(map[], []), GridEntries(m, r, cs))
      {
        ghost var c1 := cmds;
        b := CollectRow(m, r, cs, b);
        AddAllAppend(Batches(map[], []), GridEntries(m, r, cs), RowEntries(m, r, m.cols, cs));
        assert GridEntries(m, r + 1, cs) == GridEntries(m, r, cs) + RowEntries(m, r, m.cols, cs);
        assert GridFills(m, r + 1, cs) == GridFills(m, r, cs) + RowFills(m, r, m.cols, cs);
        Regroup(old(cmds), GridFills(m, r, cs), RowFills(m, r, m.cols, cs));
        r := r + 1;
      }
    }

    /** The column loop of row r. */
    method CollectRow(m: Maze, r: int, cs: real, b0: Batches) returns (b: Batches)
      requires WellFormed(m) && 0 <= r < m.rows
      modifies this`cmds
      ensures cmds == old(cmds) + RowFills(m, r, m.cols, cs)
      ensures b == AddAll(b0, RowEntries(m, r, m.cols, cs))
    {
      b := b0;
      var c := 0;
      while c < m.cols
        invariant 0 <= c <= m.cols
        invariant cmds == old(cmds) + RowFills(m, r, c, cs)
        invariant b == AddAll(b0, RowEntries(m, r, c, cs))
      {
        b := CollectCell(m, r, c, cs, b);
        AddAllAppend(b0, RowEntries(m, r, c, cs), CellEntries(m.grid[r][c], Pixel(c, cs), Pixel(r, cs), cs, 4));
        assert RowEntries(m, r, c + 1, cs) == RowEntries(m, r, c, cs) + CellEntries(m.grid[r][c], Pixel(c, cs), Pixel(r, cs), cs, 4);
        assert RowFills(m, r, c + 1, cs) == RowFills(m, r, c, cs) + CellFill(m, r, c, cs);
        Regroup(old(cmds), RowFills(m, r, c, cs), CellFill(m, r, c, cs));
        c := c + 1;
      }
    }

    /** One cell: its Start or End fill, then `cell.walls.forEach` over the four slots. */
    method CollectCell(m: Maze, r: int, c: int, cs: real, b0: Batches) returns (b: Batches)
      requires WellFormed(m) && 0 <= r < m.rows && 0 <= c < m.cols
      modifies this`cmds
      ensures cmds == old(cmds) + CellFill(m, r, c, cs)
      ensures b == AddAll(b0, CellEntries(m.grid[r][c], Pixel(c, cs), Pixel(r, cs), cs, 4))
    {
      var x, y := Pixel(c, cs), Pixel(r, cs);
      FillEndpoint(m, r, c, cs);
      b := BatchWalls(m.grid[r][c], x, y, cs, b0);
    }

    /** The Start fill in light green, or else the End fill in red. */
    method FillEndpoint(m: Maze, r: int, c: int, cs: real)
      modifies this`cmds
      ensures cmds == old(cmds) + CellFill(m, r, c, cs)
    {
      var x, y := Pixel(c, cs), Pixel(r, cs);
      if r == m.start.row && c == m.start.col {
        cmds := cmds + [FillRect(x, y, cs, cs, LightGreen)];
      } else if r == m.end.row && c == m.end.col {
        cmds := cmds + [FillRect(x, y, cs, cs, Tomato)];
      }
    }

    /** One more slot of the cell: a raised wall adds its entry to the batches, a lowered one adds nothing. */
    lemma EntriesStep(cell: CellView, x: real, y: real, cs: real, i: int, b0: Batches)
      requires |cell.walls| == 4 && |cell.weights| == 4 && 0 <= i < 4
      ensures AddAll(b0, CellEntries(cell, x, y, cs, i + 1)) ==
              if cell.walls[i] then AddEntry(AddAll(b0, CellEntries(cell, x, y, cs, i)), Entry(WallPaint(cell.weights[i]), Side(x, y, cs, i)))
              else AddAll(b0, CellEntries(cell, x, y, cs, i))
    {
      var prev := CellEntries(cell, x, y, cs, i);
      if cell.walls[i] {
        var e := Entry(WallPaint(cell.weights[i]), Side(x, y, cs, i));
        assert CellEntries(cell, x, y, cs, i + 1) == prev + [e];
        assert (prev + [e])[..|prev|] == prev;
      } else {
        assert CellEntries(cell, x, y, cs, i + 1) == prev + [];
        assert prev + [] == prev;
      }
    }

    /** `cell.walls.forEach`: each raised wall's side goes into the batch of its colour. */
    method BatchWalls(cell: CellView, x: real, y: real, cs: real, b0: Batches) returns (b: Batches)
      requires |cell.walls| == 4 && |cell.weights| == 4
      ensures b == AddAll(b0, CellEntries(cell, x, y, cs, 4))
    {
      b := b0;
      var i := 0;
      while i < 4
        invariant 0 <= i <= 4
        invariant b == AddAll(b0, CellEntries(cell, x, y, cs, i))
      {
        if cell.walls[i] {
          var color := WallPaint(cell.weights[i]);
          var seg := Side(x, y, cs, i);
          ghost var before := b;
          var path := if color in b.paths then b.paths[color] else [];
          var order := if color in b.paths then b.order else b.order + [color];
          assert color !in b.paths ==> path + [seg] == [seg];
          b := Batches(b.paths[color := path + [seg]], order);
          assert b == AddEntry(before, Entry(color, seg));
        }
        EntriesStep(cell, x, y, cs, i, b0);
        i := i + 1;
      }
    }

    /** `Object.entries(wallBatches).forEach`: one stroke per batch, in creation order. */
    method StrokeBatches(b: Batches, width: real)
      requires forall p :: p in b.order ==> p in b.paths
      modifies this`cmds
      ensures cmds == old(cmds) + BatchStrokes(b, |b.order|, width)
    {
      var k := 0;
      while k < |b.order|
        invariant 0 <= k <= |b.order|
        invariant cmds == old(cmds) + BatchStrokes(b, k, width)
      {
        var stroke := StrokePath(b.order[k], b.paths[b.order[k]], width);
        cmds := cmds + [stroke];
        Regroup(old(cmds), BatchStrokes(b, k, width), [stroke]);
        k := k + 1;
      }
    }
  }
}
