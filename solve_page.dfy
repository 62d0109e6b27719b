/**
 * The solver page (frontend/src/components/pages/Solve.tsx): the coordinate
 * clamp it hands to the controls, the restore of a saved solver choice, and
 * the handlers that load a maze by id and start or stop a solve. Each
 * asynchronous handler is split at its `await`: a first method for what
 * happens before the request, and a second for the outcome.
 */
module SolvePage {
  import opened Common

  /** `validate(v, m)`: `Math.min(Math.max(0, v), m - 1)`. */
  function Validate(v: int, m: int): (r: int)
    ensures m >= 1 ==> 0 <= r <= m - 1
    ensures 0 <= v <= m - 1 ==> r == v
    ensures v < 0 ==> r == MinInt(0, m - 1)
    ensures v > m - 1 ==> r == m - 1
  {
    MinInt(MaxInt(0, v), m - 1)
  }

  /** Validating an already validated coordinate changes nothing. */
  lemma ValidateIdempotent(v: int, m: int)
    requires m >= 1
    ensures Validate(Validate(v, m), m) == Validate(v, m)
  {
  }

  /** The entries of `SOLVE_ALGORITHMS`. */
  datatype SolveAlgorithm = AStar | Bfs | Greedy

  function SolveAlgorithmId(a: SolveAlgorithm): string
  {
    match a
    case AStar => "astar"
    case Bfs => "bfs"
    case Greedy => "greedy"
  }

  /** `SOLVE_ALGORITHMS.some(a => a.id === id)`, with the entry found. */
  function SolveAlgorithmOf(id: string): (a: Option<SolveAlgorithm>)
    ensures a.Some? ==> SolveAlgorithmId(a.value) == id
  {
    if id == "astar" then Some(AStar)
    else if id == "bfs" then Some(Bfs)
    else if id == "greedy" then Some(Greedy)
    else None
  }

  /** Every solver is found by its own id, and nothing else is found. */
  lemma SolveAlgorithmRoundTrip(a: SolveAlgorithm, id: string)
    ensures SolveAlgorithmOf(SolveAlgorithmId(a)) == Some(a)
    ensures SolveAlgorithmOf(id).None? <==> id != "astar" && id != "bfs" && id != "greedy"
  {
  }

  /** What the page keeps of a loaded maze. */
  datatype MazeInfo = MazeInfo(id: string, rows: int, cols: int, start: Point, end: Point)

  /** A solver response: the exploration order and the path. */
  datatype Solution = Solution(visited: seq<Point>, path: seq<Point>)

  /** A `solveMaze` request: the maze with the chosen endpoints, and the solver. */
  datatype SolveRequest = SolveRequest(maze: MazeInfo, algorithm: SolveAlgorithm)

  /** The request sent for the current choices: the maze with its endpoints replaced. */
  function RequestFor(m: MazeInfo, start: Point, end: Point, a: SolveAlgorithm): (q: SolveRequest)
    ensures q.maze.id == m.id && q.maze.rows == m.rows && q.maze.cols == m.cols
    ensures q.maze.start == start && q.maze.end == end && q.algorithm == a
  {
    SolveRequest(m.(start := start, end := end), a)
  }

  /** The id a load uses: the argument when it is non-empty, else the id typed in the field. */
  function LoadId(target: string, typed: string): (id: string)
    ensures id == "" <==> target == "" && typed == ""
    ensures target != "" ==> id == target
  {
    if target != "" then target else typed
  }

  /** The saved `solve_prefs` record. */
  datatype Prefs = Prefs(solveType: string, start: Point, end: Point, mazeId: string)

  /** The page's state. */
  class Solve {
    var activeMaze: Option<MazeInfo>
    var error: Option<string>
    var solveType: SolveAlgorithm
    var isSolving: bool
    var isAnimating: bool
    var mazeId: string
    var startPoint: Point
    var endPoint: Point
    var solution: Option<Solution>
    var hasLoaded: bool
    /** The `solveMaze` and `getMazeById` requests made, in order. */
    var solveRequests: seq<SolveRequest>
    var loadRequests: seq<string>
    /** The `savePreferences("solve_prefs", …)` and `saveSolveSession` calls, in order. */
    var savedPrefs: seq<Prefs>
    var savedSessions: seq<MazeInfo>

    /** The initial state; the id field starts from the URL's `id` parameter, if any. */
    constructor (urlId: string)
      ensures activeMaze == None && error == None && solveType == AStar && !isSolving && !isAnimating
      ensures mazeId == urlId && startPoint == Point(0, 0) && endPoint == Point(0, 0)
      ensures solution == None && !hasLoaded && solveRequests == [] && loadRequests == []
      ensures savedPrefs == [] && savedSessions == []
    {
      activeMaze := None;
      error := None;
      solveType := AStar;
      isSolving := false;
      isAnimating := false;
      mazeId := urlId;
      startPoint := Point(0, 0);
      endPoint := Point(0, 0);
      solution := None;
      hasLoaded := false;
      solveRequests := [];
      loadRequests := [];
      savedPrefs := [];
      savedSessions := [];
    }

    /**
     * The save effect: nothing before the restore has finished; afterwards
     * the choices are stored, and with a maze the session is stored with the
     * chosen endpoints.
     */
    method Persist()
      modifies this`savedPrefs, this`savedSessions
      ensures !hasLoaded ==> savedPrefs == old(savedPrefs) && savedSessions == old(savedSessions)
      ensures hasLoaded ==> savedPrefs == old(savedPrefs) + [Prefs(SolveAlgorithmId(solveType), startPoint, endPoint, mazeId)]
      ensures hasLoaded && activeMaze.Some? ==>
                savedSessions == old(savedSessions) + [activeMaze.value.(start := startPoint, end := endPoint)]
      ensures activeMaze.None? ==> savedSessions == old(savedSessions)
    {
      if hasLoaded {
        savedPrefs := savedPrefs + [Prefs(SolveAlgorithmId(solveType), startPoint, endPoint, mazeId)];
        if activeMaze.Some? {
          savedSessions := savedSessions + [activeMaze.value.(start := startPoint, end := endPoint)];
        }
      }
    }

    /** The restore effect without a URL id: a saved session becomes the active maze with its endpoints. */
    method RestoreSession(saved: Option<MazeInfo>)
      modifies this`activeMaze, this`startPoint, this`endPoint
      ensures saved.None? ==>
                activeMaze == old(activeMaze) && startPoint == old(startPoint) && endPoint == old(endPoint)
      ensures saved.Some? ==>
                activeMaze == saved && startPoint == saved.value.start && endPoint == saved.value.end
    {
      if saved.Some? {
        activeMaze := saved;
        startPoint := saved.value.start;
        endPoint := saved.value.end;
      }
    }

    /** The end of the restore effect: a saved solver is taken only if its id is known. */
    method RestorePrefs(saved: Option<string>)
      modifies this`solveType, this`hasLoaded
      ensures hasLoaded
      ensures saved.Some? && SolveAlgorithmOf(saved.value).Some? ==> solveType == SolveAlgorithmOf(saved.value).value
      ensures saved.None? || SolveAlgorithmOf(saved.value).None? ==> solveType == old(solveType)
    {
      if saved.Some? {
        var known := SolveAlgorithmOf(saved.value);
        if known.Some? {
          solveType := known.value;
        }
      }
      hasLoaded := true;
    }

    /**
     * `handleLoadID` up to its request: nothing when there is no id;
     * otherwise the page is busy, the error is cleared and the maze is requested.
     */
    method BeginLoad(target: string) returns (id: string)
      modifies this`isSolving, this`error, this`loadRequests
      ensures id == LoadId(target, mazeId)
      ensures id == "" ==> isSolving == old(isSolving) && error == old(error) && loadRequests == old(loadRequests)
      ensures id != "" ==> isSolving && error == None && loadRequests == old(loadRequests) + [id]
    {
      id := if target != "" then target else mazeId;
      if id == "" {
        return;
      }
      isSolving := true;
      error := None;
      loadRequests := loadRequests + [id];
    }

    /**
     * `handleLoadID` after its request: a found maze becomes the active one
     * with its own endpoints and is stored as the session, the old solution
     * is dropped and any animation stops; a failed lookup reports the id.
     * Either way the page is no longer busy.
     */
    method FinishLoad(id: string, found: Option<MazeInfo>)
      modifies this`activeMaze, this`startPoint, this`endPoint, this`solution, this`isAnimating,
               this`error, this`isSolving, this`savedSessions
      ensures !isSolving
      ensures found.Some? ==>
                activeMaze == found && startPoint == found.value.start && endPoint == found.value.end &&
                solution == None && !isAnimating && error == old(error) &&
                savedSessions == old(savedSessions) + [found.value]
      ensures found.None? ==>
                error == Some("COULD_NOT_FIND_REFERENCE: " + id) && activeMaze == old(activeMaze) &&
                startPoint == old(startPoint) && endPoint == old(endPoint) &&
                solution == old(solution) && isAnimating == old(isAnimating) && savedSessions == old(savedSessions)
    {
      if found.Some? {
        var data := found.value;
        activeMaze := found;
        startPoint := data.start;
        endPoint := data.end;
        solution := None;
        isAnimating := false;
        savedSessions := savedSessions + [data];
      } else {
        error := Some("COULD_NOT_FIND_REFERENCE: " + id);
      }
      isSolving := false;
    }

    /**
     * `handleAction` up to its request: while animating it stops and clears
     * the solution and asks nothing; without a maze it does nothing;
     * otherwise it marks a solve in progress, clears the old solution and
     * requests a solve of the maze with the chosen endpoints.
     */
    method HandleAction()
      modifies this`solution, this`isAnimating, this`isSolving, this`solveRequests
      ensures old(isAnimating) ==>
                solution == None && !isAnimating && isSolving == old(isSolving) && solveRequests == old(solveRequests)
      ensures !old(isAnimating) && activeMaze.None? ==>
                solution == old(solution) && !isAnimating && isSolving == old(isSolving) &&
                solveRequests == old(solveRequests)
      ensures !old(isAnimating) && activeMaze.Some? ==>
                isSolving && isAnimating && solution == None &&
                solveRequests == old(solveRequests) + [RequestFor(activeMaze.value, startPoint, endPoint, solveType)]
    {
      if isAnimating {
        solution := None;
        isAnimating := false;
        return;
      }
      if activeMaze.None? {
        return;
      }
      isSolving := true;
      isAnimating := true;
      solution := None;
      solveRequests := solveRequests + [SolveRequest(activeMaze.value.(start := startPoint, end := endPoint), solveType)];
    }

    /**
     * `handleAction` after its request: a response becomes the solution; a
     * failure stops the animation. Either way the solve is over.
     */
    method FinishSolve(response: Option<Solution>)
      modifies this`solution, this`isAnimating, this`isSolving
      ensures !isSolving
      ensures response.Some? ==> solution == response && isAnimating == old(isAnimating)
      ensures response.None? ==> solution == old(solution) && !isAnimating
    {
      if response.Some? {
        solution := response;
      } else {
        isAnimating := false;
      }
      isSolving := false;
    }
  }
}
