/**
 * The solver controls (frontend/src/components/maze/SolveControls.tsx): the
 * upper-cased id field, the coordinate editors that clamp one coordinate of
 * the start or end point, and the action button's enabled state and label.
 */
module SolveControls {
  import opened Common
  import opened SolvePage

  /** ASCII `toUpperCase` of one character. */
  function Upper(ch: char): char
  {
    if 'a' <= ch <= 'z' then (ch as int - 32) as char else ch
  }

  /** The id field's `e.target.value.toUpperCase()`, on ASCII text. */
  function UpperId(s: string): (u: string)
    ensures |u| == |s|
    ensures forall i :: 0 <= i < |s| ==> u[i] == Upper(s[i])
    decreases |s|
  {
    if s == [] then [] else UpperId(s[..|s| - 1]) + [Upper(s[|s| - 1])]
  }

  /** The id holds no lower-case letter after it is upper-cased, and upper-casing again changes nothing. */
  lemma UpperIdNormal(s: string)
    ensures forall i :: 0 <= i < |s| ==> !('a' <= UpperId(s)[i] <= 'z')
    ensures UpperId(UpperId(s)) == UpperId(s)
  {
  }

  /** Which coordinate an editor changes. */
  datatype Coord = Row | Col

  /** `activeMaze?.rows || 1`, and likewise for the columns: the bound, 1 without a maze or for 0. */
  function Bound(maze: Option<MazeInfo>, coord: Coord): (b: int)
    ensures maze.None? ==> b == 1
    ensures maze.Some? && coord == Row && maze.value.rows != 0 ==> b == maze.value.rows
    ensures maze.Some? && coord == Col && maze.value.cols != 0 ==> b == maze.value.cols
  {
    if maze.None? then 1
    else
      var n := if coord == Row then maze.value.rows else maze.value.cols;
      if n == 0 then 1 else n
  }

  /** The point an editor sets: the edited coordinate validated against its bound, the other kept. */
  function Edited(p: Point, coord: Coord, val: int, maze: Option<MazeInfo>): Point
  {
    Point(if coord == Row then Validate(val, Bound(maze, Row)) else p.row,
          if coord == Col then Validate(val, Bound(maze, Col)) else p.col)
  }

  /**
   * An edit changes only its own coordinate, and for a maze with positive
   * size puts it inside the grid; without a maze it is always 0.
   */
  lemma EditedOnlyItsCoordinate(p: Point, coord: Coord, val: int, maze: Option<MazeInfo>)
    ensures var q := Edited(p, coord, val, maze);
      (coord == Row ==> q.col == p.col) && (coord == Col ==> q.row == p.row) &&
      (maze.Some? && maze.value.rows > 0 && coord == Row ==> 0 <= q.row < maze.value.rows) &&
      (maze.Some? && maze.value.cols > 0 && coord == Col ==> 0 <= q.col < maze.value.cols) &&
      (maze.None? ==> (coord == Row ==> q.row == 0) && (coord == Col ==> q.col == 0))
  {
  }

  /**
   * The action button's `disabled`: a running animation can always be
   * terminated, and otherwise the button waits for a maze to be loaded.
   */
  predicate ActionDisabled(maze: Option<MazeInfo>, isAnimating: bool): (d: bool)
    ensures isAnimating ==> !d
    ensures !isAnimating ==> (d <==> maze.None?)
  {
    maze.None? && !isAnimating
  }

  datatype Label = Initializing | TerminateSolve | RunSolver

  /** The button label: solving first, then animating, else idle. */
  function ActionLabel(isSolving: bool, isAnimating: bool): (l: Label)
    ensures l == Initializing <==> isSolving
    ensures l == TerminateSolve <==> !isSolving && isAnimating
    ensures l == RunSolver <==> !isSolving && !isAnimating
  {
    if isSolving then Initializing else if isAnimating then TerminateSolve else RunSolver
  }
}
