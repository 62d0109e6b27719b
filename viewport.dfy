/**
 * The pan/zoom state of the maze viewer (frontend/src/hooks/useMazeCanvas.ts):
 * a transform (scale and translation) applied to the maze drawing, a CSS
 * offset that follows the pointer while a drag is in progress, and the cell
 * size derived from the enclosing section. Arithmetic is over `real`; the
 * DOM, listeners and React's batching are not modelled.
 */
module Viewport {
  import opened Common

  /** `{ s, x, y }`: scale and top-left translation of the maze drawing. */
  datatype Transform = Transform(s: real, x: real, y: real)

  /** A 2-D vector `{ x, y }`: pointer positions, drag offsets. */
  datatype Vec = Vec(x: real, y: real)

  const MinScale: real := 1.0
  const MaxScale: real := 20.0

  /** `Math.min(Math.max(v, 1), 20)`. */
  function ClampScale(v: real): (r: real)
    ensures MinScale <= r <= MaxScale
    ensures MinScale <= v <= MaxScale ==> r == v
    ensures v < MinScale ==> r == MinScale
    ensures v > MaxScale ==> r == MaxScale
  {
    MinReal(MaxReal(v, MinScale), MaxScale)
  }

  /** The wheel step: zoom out by 10% for a positive delta, zoom in by 10% otherwise. */
  function ScaleFactor(delta: real): real
  {
    if delta > 0.0 then 0.9 else 1.1
  }

  /**
   * The updater `handleZoom` passes to `setTransform`: the clamped new
   * scale; the previous transform itself when the scale does not change;
   * otherwise, with a pivot, a translation that keeps the pivot's content
   * point in place, and without one only the scale changes.
   */
  function Zoomed(prev: Transform, delta: real, pivot: Option<Vec>): (t: Transform)
    requires prev.s >= MinScale
    ensures t.s == ClampScale(prev.s * ScaleFactor(delta))
    ensures ClampScale(prev.s * ScaleFactor(delta)) == prev.s ==> t == prev
    ensures pivot.None? ==> t.x == prev.x && t.y == prev.y
  {
    var newScale := ClampScale(prev.s * ScaleFactor(delta));
    if newScale == prev.s then prev
    else match pivot
      case Some(m) =>
        Transform(newScale, m.x - (m.x - prev.x) * (newScale / prev.s), m.y - (m.y - prev.y) * (newScale / prev.s))
      case None => Transform(newScale, prev.x, prev.y)
  }

  /** The content coordinate under screen position `v` along one axis: (v - translation) / scale. */
  function ContentAt(v: real, offset: real, scale: real): real
    requires scale > 0.0
  {
    (v - offset) / scale
  }

  /** One axis of the pivot step: the content coordinate under `m` is the same before and after. */
  lemma PivotAxis(m: real, x: real, s: real, ns: real)
    requires s > 0.0 && ns > 0.0
    ensures ContentAt(m, m - (m - x) * (ns / s), ns) == ContentAt(m, x, s)
  {
    var d := m - x;
    assert m - (m - d * (ns / s)) == d * (ns / s);
    assert d * (ns / s) == (d / s) * ns;
    assert (d / s) * ns / ns == d / s;
  }

  /**
   * Zooming about the pointer keeps the content point under the pointer
   * where it is, on both axes, and the scale stays in [1, 20].
   */
  lemma ZoomKeepsPivot(prev: Transform, delta: real, m: Vec)
    requires MinScale <= prev.s <= MaxScale
    ensures var t := Zoomed(prev, delta, Some(m));
      MinScale <= t.s <= MaxScale &&
      ContentAt(m.x, t.x, t.s) == ContentAt(m.x, prev.x, prev.s) &&
      ContentAt(m.y, t.y, t.s) == ContentAt(m.y, prev.y, prev.s)
  {
    var ns := ClampScale(prev.s * ScaleFactor(delta));
    if ns != prev.s {
      PivotAxis(m.x, prev.x, prev.s, ns);
      PivotAxis(m.y, prev.y, prev.s, ns);
    }
  }

  /** At the bounds the wheel saturates: zooming out at scale 1 or in at scale 20 changes nothing. */
  lemma ZoomSaturates(prev: Transform, delta: real, pivot: Option<Vec>)
    requires (prev.s == MinScale && delta > 0.0) || (prev.s == MaxScale && delta <= 0.0)
    ensures Zoomed(prev, delta, pivot) == prev
  {
  }

  /** The transform `centerMaze` sets: scale 1 and the maze box centred in the view. */
  function Centered(viewW: real, viewH: real, rows: real, cols: real, cellSize: real): (t: Transform)
    ensures t.s == 1.0
    ensures t.x + cols * cellSize + t.x == viewW && t.y + rows * cellSize + t.y == viewH
  {
    Transform(1.0, (viewW - cols * cellSize) / 2.0, (viewH - rows * cellSize) / 2.0)
  }

  /** `updateSize`: the largest cell size with a 64-pixel margin on every side of the section. */
  function FitCellSize(parentW: real, parentH: real, rows: real, cols: real): (cs: real)
    requires rows > 0.0 && cols > 0.0
    ensures cs * cols <= parentW - 128.0 && cs * rows <= parentH - 128.0
    ensures cs * cols == parentW - 128.0 || cs * rows == parentH - 128.0
  {
    MinReal((parentW - 128.0) / cols, (parentH - 128.0) / rows)
  }

  /** What the viewer shows: the transform's translation moved by the live CSS offset. */
  function Shown(t: Transform, offset: Vec): Vec
  {
    Vec(t.x + offset.x, t.y + offset.y)
  }

  /** The maze as `useMazeCanvas` sees it: its dimensions. */
  datatype MazeSize = MazeSize(rows: real, cols: real)

  /** The state of one `useMazeCanvas` hook. */
  class Viewer {
    var cellSize: real
    var transform: Transform
    var isDragging: bool
    var dragStart: Vec
    var cssOffset: Vec

    /** The scale stays in [1, 20]. */
    ghost predicate Valid()
      reads this
    {
      MinScale <= transform.s <= MaxScale
    }

    /** The initial state: cell size 0, identity transform, no drag. */
    constructor ()
      ensures Valid()
      ensures cellSize == 0.0 && transform == Transform(1.0, 0.0, 0.0) && !isDragging
      ensures dragStart == Vec(0.0, 0.0) && cssOffset == Vec(0.0, 0.0)
    {
      cellSize := 0.0;
      transform := Transform(1.0, 0.0, 0.0);
      isDragging := false;
      dragStart := Vec(0.0, 0.0);
      cssOffset := Vec(0.0, 0.0);
    }

    /**
     * `centerMaze`: nothing without a container, without a maze or at cell
     * size 0; otherwise the centred transform and no CSS offset.
     */
    method CenterMaze(view: Option<Vec>, maze: Option<MazeSize>, size: real)
      requires Valid()
      modifies this`transform, this`cssOffset
      ensures Valid()
      ensures view.None? || maze.None? || size == 0.0 ==>
                transform == old(transform) && cssOffset == old(cssOffset)
      ensures view.Some? && maze.Some? && size != 0.0 ==>
                transform == Centered(view.value.x, view.value.y, maze.value.rows, maze.value.cols, size) &&
                cssOffset == Vec(0.0, 0.0)
    {
      if view.None? || maze.None? || size == 0.0 {
        return;
      }
      transform := Centered(view.value.x, view.value.y, maze.value.rows, maze.value.cols, size);
      cssOffset := Vec(0.0, 0.0);
    }

    /** `handleZoom`: apply the zoom updater and drop any CSS offset. */
    method HandleZoom(delta: real, pivot: Option<Vec>)
      requires Valid()
      modifies this`transform, this`cssOffset
      ensures Valid()
      ensures transform == Zoomed(old(transform), delta, pivot) && cssOffset == Vec(0.0, 0.0)
    {
      transform := Zoomed(transform, delta, pivot);
      cssOffset := Vec(0.0, 0.0);
    }

    /** `commitDrag`: fold the offset into the translation, keep the scale, end the drag. */
    method CommitDrag(offset: Vec)
      requires Valid()
      modifies this`transform, this`cssOffset, this`isDragging
      ensures Valid()
      ensures transform == Transform(old(transform).s, old(transform).x + offset.x, old(transform).y + offset.y)
      ensures cssOffset == Vec(0.0, 0.0) && !isDragging
    {
      transform := transform.(x := transform.x + offset.x, y := transform.y + offset.y);
      cssOffset := Vec(0.0, 0.0);
      isDragging := false;
    }

    /** `onMouseDown`: start a drag at the pointer. */
    method MouseDown(pointer: Vec)
      modifies this`isDragging, this`dragStart
      ensures isDragging && dragStart == pointer
    {
      isDragging := true;
      dragStart := pointer;
    }

    /** The global `mousemove` listener, present only while dragging: the offset follows the pointer. */
    method MouseMove(pointer: Vec)
      modifies this`cssOffset
      ensures isDragging ==> cssOffset == Vec(pointer.x - dragStart.x, pointer.y - dragStart.y)
      ensures !isDragging ==> cssOffset == old(cssOffset)
    {
      if isDragging {
        cssOffset := Vec(pointer.x - dragStart.x, pointer.y - dragStart.y);
      }
    }

    /** The global `mouseup` listener, present only while dragging: commit the pointer's offset. */
    method MouseUp(pointer: Vec)
      requires Valid()
      modifies this`transform, this`cssOffset, this`isDragging
      ensures Valid()
      ensures old(isDragging) ==>
                transform == Transform(old(transform).s, old(transform).x + pointer.x - dragStart.x,
                                       old(transform).y + pointer.y - dragStart.y) &&
                cssOffset == Vec(0.0, 0.0) && !isDragging
      ensures !old(isDragging) ==> transform == old(transform) && cssOffset == old(cssOffset) && !isDragging
    {
      if isDragging {
        CommitDrag(Vec(pointer.x - dragStart.x, pointer.y - dragStart.y));
      }
    }

    /** `updateSize`: the cell size that fits the maze in the enclosing section. */
    method UpdateSize(parentW: real, parentH: real, maze: MazeSize)
      requires maze.rows > 0.0 && maze.cols > 0.0
      modifies this`cellSize
      ensures cellSize == FitCellSize(parentW, parentH, maze.rows, maze.cols)
    {
      cellSize := FitCellSize(parentW, parentH, maze.rows, maze.cols);
    }
  }

  /**
   * Releasing the pointer where it last moved leaves the maze where the
   * drag showed it: the committed translation equals the translation plus
   * the live offset before the release.
   */
  lemma ReleaseSeamless(t: Transform, dragStart: Vec, pointer: Vec)
    ensures var offset := Vec(pointer.x - dragStart.x, pointer.y - dragStart.y);
      Shown(Transform(t.s, t.x + offset.x, t.y + offset.y), Vec(0.0, 0.0)) == Shown(t, offset)
  {
  }
}
