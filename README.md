# gridgo maze app: a Dafny model

This project models the core of gridgo, a maze application with a Go
backend and a Next.js frontend, and proves properties of that model.

The backend part covers:

- the maze grid (`maze_grid.dfy`, module `MazeGrid`): construction, wall
  removal between neighbours, clipping a border wall, Start/End placement
  and neighbour enumeration;
- the BFS and DFS solvers with path reconstruction (`solver.dfy`, module
  `Solver`, with loop predicates in `search_invariants.dfy`);
- the A* solver and its priority queue (`solver_astar.dfy`, module `AStar`);
- the generators (`generator.dfy`, `kruskal.dfy`): weight initialisation,
  the candidate walls, their weight order, weighted Kruskal over a
  union-find partition, and the recursive backtracker;
- the PNG rasteriser, drawn into a pixel array (`renderer.dfy`);
- the two discrete steps of the edge-weight pipeline, non-maximum
  suppression and the threshold into wall weights (`vision.dfy`);
- the forum handlers over a map-shaped database (`forum_handler.dfy`).

The frontend part covers:

- the pan/zoom viewport (`viewport.dfy`);
- the animated canvas renderer and the earlier stand-alone canvas
  (`maze_canvas.dfy`, `legacy_canvas.dfy`);
- the decorative margin maze (`maze_margin.dfy`);
- the grid-size state (`image_dims.dfy`);
- the home, create and solve pages and the solver controls
  (`home_page.dfy`, `create_page.dfy`, `solve_page.dfy`,
  `solve_controls.dfy`);
- the forum card, the thread page and the feed (`forum_card.dfy`,
  `post_detail.dfy`, `forum_feed.dfy`);
- the client/server vote round trip (`vote_protocol.dfy`).

Shared types live in `common.dfy` and `maze_data.dfy`.

Modelling conventions:

- Code that changes state step by step is a `class` or a method over
  arrays, with loop invariants. Its contract ties the new state to a
  specification function, and the lemmas state what that function
  promises.
- Randomness is an input. Draws, shuffles and coin flips come in as
  sequences, and the proofs hold for every such sequence.
- Canvas output is a list of draw commands. Animation frames are discrete
  ticks.
- An asynchronous handler is split at its `await` into two methods. The
  first covers what happens before the request. The second covers the
  outcome.
- Go's and JavaScript's `%` truncate toward zero. Both are written out in
  `Common.TruncMod`.
- Screen geometry is done in `real`.

Two points where the code, as written, decides what is modelled:

- frontend/src/components/pages/Solve.tsx:188-191 passes `isPaused`,
  `onComplete`, `overrideStart` and `overrideEnd` to the maze canvas, but
  frontend/src/components/maze/MazeCanvas.tsx:9-14 declares none of them.
  The model therefore has no pause, no completion callback and no override
  of the endpoints. The path is drawn whole once the exploration is fully
  revealed.
- The thumbnail of frontend/src/components/pages/Create.tsx:99-119 copies
  the back-buffer less its 800-pixel padding on each side, scaled to cover
  the thumbnail and centred on it.

Other behaviour of the code as written that the model keeps and makes
visible:

- The home page's `handleSubmit` lets a size field that parses to NaN
  through its bounds test and sends the fields' text as it stands
  (`HomePage.Home.HandleSubmit`; see "## Findings").
- `SetRandomStartEnd` never finishes on 1 × 1, 1 × 2 and 2 × 1 grids
  (`MazeGrid.NoPairOnTinyGrid`).
- Clicking the same vote button twice restores the card only when the
  vote before was 0 or that button's value (`ForumCard.ClickTwice`).
- A vote of a second type on the same target is silently refused by the
  unique index on (user, target) (`ForumHandler.VotedEffect`).
- `updateVoteCount` sums votes of every type on the id, and writes to the
  comment table for every type other than "post".
- The comment-vote `map` updates every comment carrying the id, not only
  the one found (`PostDetail.CommentVoteLocal`).
- `Solve.tsx` passes `handleLoadID` to a prop the controls read as
  `handleLoadLast`, so the LOAD_LAST button has no handler. The model
  gives the controls no load action.
- A solve response that arrives after TERMINATE_SOLVE still becomes the
  solution. `SolvePage.Solve.FinishSolve` accepts it in any state.
- The post model in backend/internal/models/forum.go declares no
  `UserVote` field, although the handlers write one. The model gives
  posts and comments that field.

## Model

| member | source | states |
|---|---|---|
| `MazeGrid.DirTo` | backend/maze/maze.go:191-196 | the direction table: `q` lies in direction `d` < 4 of `p` exactly when the two are at Manhattan distance 1, and then stepping from `p` in direction `d` lands on `q` |
| `MazeGrid.OpenNeighborsCharacterized` | backend/maze/maze.go:187-210 | the neighbour list has at most four points, none twice, and holds a point exactly when it is in the grid, adjacent, and behind an open wall slot of `p` |
| `MazeGrid.RemoveWallsEffect` | backend/maze/maze.go:163-183 | horizontal neighbours lose the left cell's Right and the right cell's Left wall, vertical ones the upper cell's Bottom and the lower cell's Top wall; every other flag and field is unchanged |
| `MazeGrid.RemoveWallsKeepsSymmetry` | backend/maze/maze.go:163-183 | removing the wall between adjacent cells keeps every pair of facing wall slots equal |
| `MazeGrid.ClipEffect` | backend/maze/maze.go:86-99 | only the cell's slots that face the outside of the grid are cleared; nothing else changes |
| `MazeGrid.ClipKeepsSymmetry` | backend/maze/maze.go:86-99 | clearing outward-facing slots keeps wall symmetry |
| `MazeGrid.BorderPoint` | backend/maze/maze.go:71-83 | every valid draw gives a point in the grid on one of its four border lines |
| `MazeGrid.CornersAccepted` | backend/maze/maze.go:53-64 | on a grid of at least 2 x 2 the opposite corners pass the retry loop's test, so the loop can end |
| `MazeGrid.NoPairOnTinyGrid` | backend/maze/maze.go:53-64 | on 1 x 1, 1 x 2 and 2 x 1 grids no pair of cells passes the test, so the loop never ends |
| `MazeGrid.Maze.constructor` | backend/maze/maze.go:102-118 | `rows` rows of `cols` cells, each enclosed on four sides, unvisited, with Row/Col equal to its indices |
| `MazeGrid.Maze.RemoveWalls` | backend/maze/maze.go:163-183 | the new grid is the old one with exactly the two facing slots cleared (see `RemoveWallsEffect`) |
| `MazeGrid.Maze.ClipBorderWall` | backend/maze/maze.go:86-99 | the new grid is the old one with the outward slots of that cell cleared (see `ClipEffect`) |
| `MazeGrid.Maze.SetManualStartEnd` | backend/maze/maze.go:33-48 | succeeds iff both points pass the border test; on failure start, end and grid are unchanged; on success they are set and both cells clipped |
| `MazeGrid.Maze.SetRandomStartEnd` | backend/maze/maze.go:51-69 | takes the first drawn pair that is distinct and at least (Rows+Cols)/2 apart, rejects every earlier pair, ends with both points in bounds on the border, and clips both cells |
| `MazeGrid.Maze.GetNeighbors` | backend/maze/maze.go:187-210 | returns the open neighbours in N, E, S, W order: at most four, no duplicates, exactly the passages out of `p` |
| `Solver.ManhattanProperties` | backend/maze/solver.go:121-123 | `manhattan` is non-negative, symmetric, and zero exactly when the points are equal |
| `Solver.ReconstructPath` | backend/maze/solver.go:125-132 | the returned path is non-empty, ends at `current`, starts at a point without a link, and each point is linked from its predecessor |
| `Solver.LinkedPathIsWalk` | backend/maze/solver.go:57-61 | a path rebuilt from links that are only set toward open neighbours is a walk of passages from Start |
| `Solver.ClosedSetHoldsReachable` | backend/maze/solver.go:76-89 | a set that holds Start and every passage target of its points holds every reachable point, so a drained search proves End unreachable |
| `Solver.PushUnseen` | backend/maze/solver.go:82-87 | the neighbour loop appends exactly the unseen open neighbours in `GetNeighbors` order, marks and links each to `curr`, leaves every open neighbour seen and shrinks the unseen cells |
| `Solver.BfsStep` | backend/maze/solver.go:76-87 | one pop and expansion keeps the bookkeeping, the sound links, the depth labels and the queue's two-level layering |
| `Solver.BfsWalkBound` | backend/maze/solver.go:70-90 | when End heads the queue no walk from Start to End is shorter than End's depth |
| `Solver.BfsFound` | backend/maze/solver.go:80 | popping End gives a duplicate-free visit list from Start and a linked path that is a shortest walk from Start to End |
| `Solver.SolveBFS` | backend/maze/solver.go:71-90 | visits start at Start, have no duplicates and stop at End; a returned path is a shortest walk from Start to End; a nil path means End was never popped and is unreachable |
| `Solver.DfsStep` | backend/maze/solver.go:99-115 | one pop from the top of the stack and expansion keeps the bookkeeping, the links, the exploration closure and the first-seen stamps |
| `Solver.DfsFound` | backend/maze/solver.go:105-107 | popping End gives a duplicate-free visit list from Start and a path that is a walk from Start to End |
| `Solver.SolveDFS` | backend/maze/solver.go:92-119 | visits start at Start, have no duplicates and stop at End; a returned path walks from Start to End through passages; a nil path means End is unreachable |
| `AStar.Item.constructor` | backend/maze/solver.go:11-15 | a new item holds its point and priority, with slot 0 |
| `AStar.PriorityQueue.constructor` | backend/maze/solver.go:47-48 | the queue starts empty and valid |
| `AStar.PriorityQueue.Swap` | backend/maze/solver.go:21-24 | the two slots are exchanged and each moved item records its new slot, so a valid queue stays valid |
| `AStar.PriorityQueue.Push` | backend/maze/solver.go:25-30 | the item is appended and records the old length as its slot; a queue not holding it stays valid |
| `AStar.PriorityQueue.Pop` | backend/maze/solver.go:31-39 | the last item is removed and returned with slot -1; the queue is one shorter and stays valid |
| `AStar.HeapPop` | backend/maze/solver.go:52 | the returned item was queued and has the least priority; every other item stays queued and nothing is added |
| `AStar.RelaxationEffect` | backend/maze/solver.go:57-65 | over the open neighbours of `curr`, exactly the neighbours whose score improves get score `gScore[curr] + 1` and a link to `curr`; they are pushed in neighbour order and all other scores and links stay as they were |
| `AStar.RelaxOne` | backend/maze/solver.go:58-64 | an improving neighbour is linked, scored one more than `curr` and pushed with priority score plus Manhattan distance to End; otherwise nothing changes |
| `AStar.Relax` | backend/maze/solver.go:57-65 | the scores and links become those of the relaxation fold over `GetNeighbors(curr)`; the old queue is kept as a prefix and each relaxed neighbour is appended with its priority |
| `AStar.ScoresStep` | backend/maze/solver.go:57-65 | one round keeps Start scored 0, every other scored point linked through a passage to a point with a smaller score, and no score negative |
| `AStar.QueueStep` | backend/maze/solver.go:51-65 | one round keeps every scored point popped or queued, no popped point equal to End, and every passage out of a popped point leading to a scored point |
| `AStar.ExpandRound` | backend/maze/solver.go:57-65 | relaxing a popped point other than End keeps the scores and the queue sound, with that point now visited |
| `AStar.AStarFound` | backend/maze/solver.go:55 | when End is popped, the visit list starts at Start with End only last, and the linked path walks from Start to End |
| `AStar.DrainedUnreachable` | backend/maze/solver.go:51-67 | when the queue runs dry, End is unreachable from Start |
| `AStar.SolveAStar` | backend/maze/solver.go:42-68 | visits start at Start and stop at End; a returned path walks from Start to End through passages; a nil path from a drained queue means End is unreachable |
| `Generator.InitializeWallWeights` | backend/maze/generator.go:18-26 | every cell's four weights become `val`; its wall flags, visited mark and coordinates are untouched |
| `Generator.CandidatesExactlyOnce` | backend/maze/generator.go:47-68 | the candidate list holds each pair of adjacent cells exactly once, upper or left cell first: (Rows-1)·Cols vertical plus Rows·(Cols-1) horizontal walls |
| `Generator.GridPairsCount` | backend/maze/generator.go:47-68 | the rows scanned so far contribute `cols` vertical walls each (none from the last row) and `cols - 1` horizontal ones |
| `Generator.Candidates` | backend/maze/generator.go:47-68 | the scan produces the candidate pairs in row-major order, each weighted by its "r-c-top"/"r-c-left" key when present and otherwise by a draw in [0, 100) |
| `Generator.RowCandidates` | backend/maze/generator.go:48-67 | one row of the scan yields that row's candidate pairs, each weighted from its key or a draw |
| `Generator.CellCandidates` | backend/maze/generator.go:49-66 | one cell yields the wall below it (unless in the last row) then the wall to its right (unless in the last column), each weighted from its key or a draw |
| `Generator.InsertSorted` | backend/maze/generator.go:70-72 | inserting a wall into a weight-ordered list keeps it ordered |
| `Generator.SortByWeightCorrect` | backend/maze/generator.go:70-72 | the sorted walls are in non-decreasing weight order and are a rearrangement of the input |
| `Generator.SortKeepsDistinctPairs` | backend/maze/generator.go:70-72 | sorting keeps the walls' cell pairs pairwise distinct |
| `Generator.RemoveWallsOpens` | backend/maze/generator.go:89 | removing the wall between neighbours opens a passage between them and closes nothing |
| `Generator.DescendStep` | backend/maze/generator.go:116-119 | after removing the wall to an unvisited neighbour and recursing there, every cell the recursion carved is reachable from the current cell |
| `Generator.RecursiveDfs` | backend/maze/generator.go:106-122 | marks the cell visited; afterwards all its in-grid neighbours are visited, every newly visited cell is joined to it by carved passages, and marks and walls are only ever added or opened |
| `Generator.VisitedSpreads` | backend/maze/generator.go:106-122 | when every visited cell has all neighbours visited, every cell of the grid is visited |
| `Generator.GenerateRecursive` | backend/maze/generator.go:96-104 | weights become 255 only when started at (0, 0); walls are only opened; from an unvisited grid every cell ends visited and reachable from the starting cell |
| `Kruskal.IdInBounds` | backend/maze/generator.go:85-86 | `R*Cols + C` numbers the cells 0 .. Rows·Cols - 1 and the cell can be read back from its id |
| `Kruskal.DSU.constructor` | backend/maze/generator.go:43 | `NewDSU(Rows*Cols)` starts with one singleton set per cell |
| `Kruskal.DSU.Find` | backend/maze/generator.go:88 | returns the name of the set holding the element; two elements share a set iff their names agree |
| `Kruskal.DSU.Union` | backend/maze/generator.go:90 | the two sets become one and every other set stays as it is |
| `Kruskal.MergeKeepsPartition` | backend/maze/generator.go:90 | a union keeps the partition well formed, puts both elements in one set and splits no set |
| `Kruskal.MergeDropsOneLabel` | backend/maze/generator.go:88-90 | uniting two different sets lowers the number of sets by exactly one |
| `Kruskal.WriteWeightsEffect` | backend/maze/generator.go:75-83 | the image-mode write changes only the two facing weight slots of the wall's cells (1/3 side by side, 2/0 one above the other) |
| `Kruskal.JoinedMerge` | backend/maze/generator.go:88-91 | after the wall between cells of two sets is removed and the sets united, every cell of the merged set reaches its name and back |
| `Kruskal.ForestMerge` | backend/maze/generator.go:88-91 | removing a wall between different sets keeps the removed walls within sets, none twice, and sets plus removed walls numbering Rows·Cols |
| `Kruskal.SpanningTree` | backend/maze/generator.go:74-92 | once one set is left, exactly Rows·Cols - 1 walls were removed and every cell reaches every other |
| `Kruskal.OrderFacts` | backend/maze/generator.go:47-72 | the sorted list is ordered by weight, a rearrangement of the scan, holds each pair of neighbours exactly once, and each weight comes from its key or a draw |
| `Kruskal.ProcessStep` | backend/maze/generator.go:74-92 | one turn of the loop writes the weights in image mode and then removes the wall and unites the sets exactly when `Find` differs; the loop's account carries over |
| `Kruskal.Finished` | backend/maze/generator.go:74-92 | after the last wall the removed walls number Rows·Cols - 1 and join every cell to every other |
| `Kruskal.WriteWallWeights` | backend/maze/generator.go:75-83 | the new grid is the old one with the wall's weight written into its two facing slots |
| `Kruskal.ProcessWalls` | backend/maze/generator.go:74-92 | after the loop the forest account holds for every wall, walls are carved only for removed pairs, marks are untouched, and weights are untouched in plain mode or written for every wall in image mode |
| `Kruskal.GenerateWeightedKruskal` | backend/maze/generator.go:42-93 | the walls are processed in weight order, each candidate once; exactly Rows·Cols - 1 distinct neighbour walls are removed, all cells end joined, nothing else changes, and in image mode every wall carries the weight it was processed with |
| `Kruskal.GenerateKruskal` | backend/maze/generator.go:29-32 | all weights become 255 and the maze becomes a spanning tree of the grid |
| `Kruskal.GenerateImageMaze` | backend/maze/generator.go:36-39 | the weight map is kept on the maze and the guided Kruskal spans the grid, each wall carrying the mapped value wherever its key is present |
| `Renderer.WallColorRange` | backend/maze/renderer.go:128-138 | weights from 1000 up give opaque black; weights in [0, 1000) give an opaque grey of intensity 230 - weight%30, between 201 and 230 |
| `Renderer.Image.constructor` | backend/maze/renderer.go:19-22 | a `width` x `height` buffer with every pixel set to the fill colour |
| `Renderer.Image.Set` | backend/maze/renderer.go:98 | sets the pixel when it lies in the buffer and changes nothing else |
| `Renderer.EdgePixelsExact` | backend/maze/renderer.go:107-124 | a wall stroke sets exactly cellSize + 1 distinct pixels, exactly those of the chosen side |
| `Renderer.FillCell` | backend/maze/renderer.go:95-101 | sets exactly the in-buffer pixels x+1 .. x+size-1 by y+1 .. y+size-1 to the colour and leaves every other pixel, the square's sides included |
| `Renderer.PaintWall` | backend/maze/renderer.go:104-125 | sets the pixels of the chosen side, all in the wall colour of the weight, and no other pixel |
| `Renderer.DrawCell` | backend/maze/renderer.go:61-86 | every pixel ends as the cell's stroke list shades it: the Start fill, else the End fill, then each raised wall in slot order |
| `Renderer.CellWalls` | backend/maze/renderer.go:72-86 | a cell has a stroke along side `d` exactly when its wall flag `d` is up, in the colour of weight `d`; its other strokes are the Start or End fill |
| `Renderer.WorkerRanges` | backend/maze/renderer.go:38-55 | the bands start at row 0, end at Rows, are contiguous, each starts no later than it ends, and there is a single band when Rows < CPUs and otherwise one per CPU |
| `Renderer.DrawRow` | backend/maze/renderer.go:60-87 | each pixel ends as the strokes of the row's cells, left to right, shade it |
| `Renderer.DrawBand` | backend/maze/renderer.go:57-89 | each pixel ends as the strokes of the band's rows, in order, shade it |
| `Renderer.DrawMaze` | backend/maze/renderer.go:35-92 | each pixel ends with the colour of the last stroke of the row-major stroke list that covers it |
| `Renderer.PrepareCanvas` | backend/maze/renderer.go:14-24 | a fresh (Cols·cellSize + 1) x (Rows·cellSize + 1) image, all white |
| `Renderer.StrokesOnCanvas` | backend/maze/renderer.go:17-18 | every stroke of the drawing lies inside the canvas, so no write falls outside the image |
| `Renderer.Interiors` | backend/maze/renderer.go:65-69 | on a fresh canvas the inside of the Start cell ends light green, of the End cell red unless it is also Start, and of every other cell white |
| `Vision.Sector` | backend/maze/vision.go:113-122 | an angle in [0, 180] picks two opposite 8-neighbours (horizontal near 0 and 180, vertical in [67.5, 112.5)); an angle outside matches no case |
| `Vision.NmsBorder` | backend/maze/vision.go:101-107 | the first and last rows and columns of the result stay 0 |
| `Vision.NmsSuppresses` | backend/maze/vision.go:124-128 | an interior pixel keeps its magnitude exactly when it is at least both compared neighbours, and is 0 otherwise |
| `Vision.ComparedNeighbours` | backend/maze/vision.go:108-122 | the compared pixels are the two opposite neighbours of the gradient's sector, both inside the table, or 0 and 0 for an angle outside [0, 180] |
| `Vision.ApplyNms` | backend/maze/vision.go:100-132 | returns a fresh height x width table holding the suppressed value at every pixel, 0 on the border |
| `Vision.NmsRow` | backend/maze/vision.go:107-129 | the inner loop writes the suppressed value at every interior pixel of row y and nothing else |
| `Vision.SampleInImage` | backend/maze/vision.go:143-144 | the sampled index `n·size/count` lies in [0, size) for n < count |
| `Vision.MapToWeights` | backend/maze/vision.go:136-157 | for each cell, both keys are 255 when the sample reaches 100, both 120 when it lies in [40, 100), and both absent below 40; no other key is written |
| `Vision.WeightRow` | backend/maze/vision.go:142-154 | one row of the loop adds the entries of that row's cells to those of the rows before |
| `Vision.WeightsPaired` | backend/maze/vision.go:141-156 | every value of the map is 120 or 255, and a cell's top and left entries are both absent or both present and equal |
| `Vision.SampleAfterNms` | backend/maze/vision.go:29-30 | sampling the table `applyNMS` returns samples the suppressed magnitudes |
| `Vision.EdgeWeights` | backend/maze/vision.go:29-30 | suppression then sampling weights each cell's walls by the thinned magnitude at its sample pixel, with values 120 or 255 only |
| `Viewport.ClampScale` | frontend/src/hooks/useMazeCanvas.ts:36 | the result lies in [1, 20], equals the input inside that range, and is the nearer bound outside it |
| `Viewport.Zoomed` | frontend/src/hooks/useMazeCanvas.ts:34-45 | the new scale is clamp(s·f, 1, 20); the transform is returned unchanged when that equals the old scale; without a pivot the translation is kept |
| `Viewport.ZoomKeepsPivot` | frontend/src/hooks/useMazeCanvas.ts:38-43 | zooming about the pointer keeps the content point under the pointer fixed on both axes, with the scale in [1, 20] |
| `Viewport.ZoomSaturates` | frontend/src/hooks/useMazeCanvas.ts:35-37 | zooming out at scale 1, or in at scale 20, leaves the transform unchanged |
| `Viewport.Centered` | frontend/src/hooks/useMazeCanvas.ts:17-26 | scale 1, and the margins left and right of the maze (and above and below it) are equal |
| `Viewport.FitCellSize` | frontend/src/hooks/useMazeCanvas.ts:67-72 | the largest cell size that leaves 64 pixels on every side: the maze fits, and it touches the margin along one axis |
| `Viewport.Viewer.constructor` | frontend/src/hooks/useMazeCanvas.ts:7-11 | cell size 0, the identity transform, no drag and no offset |
| `Viewport.Viewer.CenterMaze` | frontend/src/hooks/useMazeCanvas.ts:13-30 | no-op without a container or maze or at cell size 0; otherwise the centred transform and a zero offset, so a second call changes nothing |
| `Viewport.Viewer.HandleZoom` | frontend/src/hooks/useMazeCanvas.ts:32-49 | the transform becomes the zoom updater's result and the CSS offset is reset |
| `Viewport.Viewer.CommitDrag` | frontend/src/hooks/useMazeCanvas.ts:51-55 | the offset is added to the translation, the scale is kept, the offset is reset and the drag ends |
| `Viewport.Viewer.MouseDown` | frontend/src/hooks/useMazeCanvas.ts:115-118 | a drag starts at the pointer |
| `Viewport.Viewer.MouseMove` | frontend/src/hooks/useMazeCanvas.ts:82-87 | while dragging only the CSS offset changes, to pointer minus drag start; the transform is untouched |
| `Viewport.Viewer.MouseUp` | frontend/src/hooks/useMazeCanvas.ts:88-93 | while dragging, the pointer's offset is committed (see `CommitDrag`); otherwise nothing changes |
| `Viewport.Viewer.UpdateSize` | frontend/src/hooks/useMazeCanvas.ts:64-73 | the cell size becomes the fitted size of the section |
| `Viewport.ReleaseSeamless` | frontend/src/hooks/useMazeCanvas.ts:82-93 | releasing where the pointer last moved leaves the maze where the drag showed it |
| `MazeCanvas.WallPaintRange` | frontend/src/components/maze/MazeCanvas.tsx:129-132 | weights from 1000 up give "black"; weights in [0, 1000) a grey of level 220 - w%30 in [191, 220]; negative weights, by JavaScript's remainder, a lighter grey in [220, 250) |
| `MazeCanvas.RevealStep` | frontend/src/components/maze/MazeCanvas.tsx:66-72 | a tick moves the counter to min(prev + 5, length) when below the length and leaves it otherwise, so it never decreases and never passes the length |
| `MazeCanvas.RevealedAfter` | frontend/src/components/maze/MazeCanvas.tsx:65-72 | after k counted ticks from 0 the counter is min(5k, length) |
| `MazeCanvas.Reveal.constructor` | frontend/src/components/maze/MazeCanvas.tsx:23 | the counter starts at 0 with no frame seen, for a highlights array of the given length |
| `MazeCanvas.Reveal.Reset` | frontend/src/components/maze/MazeCanvas.tsx:50-52 | a new highlights array puts the counter back to 0 and restarts the frame clock |
| `MazeCanvas.Reveal.Tick` | frontend/src/components/maze/MazeCanvas.tsx:55-80 | no loop runs for empty highlights; the first frame only records the time; a frame more than 16 ms after the last counted one advances the counter by one step; the counter never decreases, moves by at most 5 and stays within [0, length] |
| `MazeCanvas.ExploreFillsRevealed` | frontend/src/components/maze/MazeCanvas.tsx:99-106 | while the counter is within the highlights, exactly the first `visibleHighlights` exploration cells are filled, one fill each, in exploration order |
| `MazeCanvas.SolutionShown` | frontend/src/components/maze/MazeCanvas.tsx:109-126 | the solution is drawn exactly when every highlight is visible and the path is non-empty, as one red polyline of width 0.4·cs through every path cell's centre in order |
| `MazeCanvas.CellEntriesExact` | frontend/src/components/maze/MazeCanvas.tsx:152-174 | each raised wall of a cell gives exactly one segment, on the side its slot names, in its weight's colour, and nothing else does |
| `MazeCanvas.BatchesGroup` | frontend/src/components/maze/MazeCanvas.tsx:135-176 | batching makes one batch per colour that occurs, created once, holding exactly that colour's segments in drawing order, so each segment is in exactly one batch |
| `MazeCanvas.Canvas.constructor` | frontend/src/components/maze/MazeCanvas.tsx:22 | an unsized canvas with no calls made |
| `MazeCanvas.Canvas.Render` | frontend/src/components/maze/MazeCanvas.tsx:82-190 | nothing is drawn without a container or at cell size 0; otherwise the canvas is the container plus 800 px on each side, and the calls are clear, save, translate, scale, the picture, restore |
| `MazeCanvas.Canvas.DrawExploration` | frontend/src/components/maze/MazeCanvas.tsx:99-106 | the loop appends the fills of the visible exploration cells that exist |
| `MazeCanvas.Canvas.DrawSolution` | frontend/src/components/maze/MazeCanvas.tsx:109-126 | the polyline built point by point is the solution step's commands |
| `MazeCanvas.Canvas.CollectWalls` | frontend/src/components/maze/MazeCanvas.tsx:137-176 | the grid loops draw the Start/End fills and collect the batches of every raised wall in row-major order |
| `MazeCanvas.Canvas.CollectCell` | frontend/src/components/maze/MazeCanvas.tsx:139-174 | one cell draws its Start fill, or else its End fill, then adds its raised walls to the batches |
| `MazeCanvas.Canvas.BatchWalls` | frontend/src/components/maze/MazeCanvas.tsx:152-174 | the slot loop adds each raised wall's side to the batch of its colour |
| `MazeCanvas.Canvas.StrokeBatches` | frontend/src/components/maze/MazeCanvas.tsx:178-181 | one stroke per batch, in creation order, at the wall line width |
| `MazeCanvas.Canvas.CollectRow` | frontend/src/components/maze/MazeCanvas.tsx:138-175 | the column loop draws the row's Start/End fills and adds the row's raised walls to the batches, cell by cell |
| `MazeCanvas.Canvas.FillEndpoint` | frontend/src/components/maze/MazeCanvas.tsx:144-150 | the Start cell is filled light green, otherwise the End cell tomato red, and any other cell gets no fill |
| `LegacyCanvas.StableSize` | frontend/src/components/MazeCanvas.tsx:16-21 | the cell size is the largest multiple of 0.01 not above the smaller of the two sizes that fit the section less 64 px: at most that fit and within 0.01 of it |
| `LegacyCanvas.WallPaintRange` | frontend/src/components/MazeCanvas.tsx:40-47 | the colour is rgb(0, 0, 0) exactly for weights from 1000 up; weights in [0, 1000) give greys in [201, 230]; negative weights, by JavaScript's remainder, greys in [230, 260) |
| `LegacyCanvas.EndWins` | frontend/src/components/MazeCanvas.tsx:49-64 | End is filled after Start, so End's cell shows tomato red; at a positive cell size Start's cell shows light green exactly when Start and End differ |
| `LegacyCanvas.CellStrokesExact` | frontend/src/components/MazeCanvas.tsx:74-104 | a cell gives one stroke per raised wall, of that wall's side in its weight's colour, and no stroke for a lowered wall |
| `LegacyCanvas.Canvas.constructor` | frontend/src/components/MazeCanvas.tsx:7 | cell size 0 and an empty canvas with no calls made |
| `LegacyCanvas.Canvas.UpdateSize` | frontend/src/components/MazeCanvas.tsx:9-23 | without a maze or an enclosing section the cell size is kept; otherwise it becomes the stable size for the section |
| `LegacyCanvas.Canvas.Render` | frontend/src/components/MazeCanvas.tsx:30-107 | nothing is drawn without a maze or at cell size 0; otherwise the canvas is the maze's pixel size plus 1, cleared, then the Start and End fills and every cell's wall strokes in row-major order |
| `LegacyCanvas.Canvas.DrawWalls` | frontend/src/components/MazeCanvas.tsx:68-106 | the outer loop appends the strokes of all rows in order |
| `LegacyCanvas.Canvas.DrawRow` | frontend/src/components/MazeCanvas.tsx:69-105 | the inner loop appends the strokes of the row's cells in order |
| `LegacyCanvas.Canvas.DrawCell` | frontend/src/components/MazeCanvas.tsx:70-104 | one cell appends one stroked path per raised wall, in slot order |
| `MazeMargin.CellPathShape` | frontend/src/components/layout/MazeMargin.tsx:38-59 | only the top-right cell draws nothing; every other cell draws exactly one side, north or east; the top row draws east sides and the last column north sides: the binary-tree carving |
| `MazeMargin.DrawnAppend` | frontend/src/components/layout/MazeMargin.tsx:31-62 | the segments drawn by two runs of strokes add up |
| `MazeMargin.RowDrawn` | frontend/src/components/layout/MazeMargin.tsx:32-61 | a row draws one segment per cell, and the full top row one fewer |
| `MazeMargin.GridDrawn` | frontend/src/components/layout/MazeMargin.tsx:31-62 | a strip of r ≥ 1 rows draws 7r - 1 segments, one per cell but the top-right corner, as many as the edges of a spanning tree of its cells |
| `MazeMargin.Rows` | frontend/src/components/layout/MazeMargin.tsx:24 | the row count is the least whole number of 10-pixel rows covering the height |
| `MazeMargin.Margin.constructor` | frontend/src/components/layout/MazeMargin.tsx:5 | an empty canvas with no calls made |
| `MazeMargin.Margin.UpdateCanvas` | frontend/src/components/layout/MazeMargin.tsx:8-69 | the canvas is 70 wide and as tall as the larger of the document and window heights; it is cleared, then every cell of every row is stroked with its own draw, then the border line on the page side from top to bottom |
| `MazeMargin.Margin.DrawRows` | frontend/src/components/layout/MazeMargin.tsx:31-62 | the row loop appends the strokes of rows 0 .. rows - 1 in order |
| `MazeMargin.Margin.DrawRow` | frontend/src/components/layout/MazeMargin.tsx:32-61 | the column loop appends one stroke per cell of the row, in column order |
| `ImageDimensions.Clamp` | frontend/src/hooks/useImageDimensions.ts:31-32 | the result lies in [2, 300], equals the input inside that range and is the nearer bound outside it |
| `ImageDimensions.ClampIdempotent` | frontend/src/hooks/useImageDimensions.ts:28-33 | clamping a clamped value changes nothing |
| `ImageDimensions.Clamped` | frontend/src/hooks/useImageDimensions.ts:29-34 | both sides end in [2, 300], and a size already in range is kept |
| `ImageDimensions.ClampedIdempotent` | frontend/src/hooks/useImageDimensions.ts:29-34 | clamping the dimensions twice is clamping them once |
| `ImageDimensions.WithDim` | frontend/src/hooks/useImageDimensions.ts:24-26 | the named side takes the value and the other side is unchanged |
| `ImageDimensions.ScaleFactor` | frontend/src/hooks/useImageDimensions.ts:14 | the factor is in (0, 1], scales both sides to at most 300, and is 1 or makes one side exactly 300 |
| `ImageDimensions.ImageDimsBounds` | frontend/src/hooks/useImageDimensions.ts:13-19 | an image gives rows and columns in [2, 300], never more than its own pixel height and width (beyond the minimum of 2), and an image at most 300 px each way keeps its pixel size |
| `ImageDimensions.ScaleFactorOne` | frontend/src/hooks/useImageDimensions.ts:14 | an image at most 300 px on each side has factor 1 |
| `ImageDimensions.DimsState.constructor` | frontend/src/hooks/useImageDimensions.ts:4-5 | the size starts at the initial rows and columns |
| `ImageDimensions.DimsState.UpdateDim` | frontend/src/hooks/useImageDimensions.ts:24-26 | the state becomes the single-field update of the old one |
| `ImageDimensions.DimsState.ClampDimensions` | frontend/src/hooks/useImageDimensions.ts:29-34 | the state becomes the clamped old state |
| `ImageDimensions.DimsState.HandleImageChange` | frontend/src/hooks/useImageDimensions.ts:7-22 | without a file nothing changes; a loaded image sets the size it maps to |
| `CreatePage.ThumbnailCovers` | frontend/src/components/pages/Create.tsx:99-119 | the copied rectangle is the back-buffer less exactly the 800 px padding on each side; the copy keeps the maze's aspect ratio, covers the whole 400 × 225 thumbnail, is centred on it and fits it exactly along one side |
| `CreatePage.Create.constructor` | frontend/src/components/pages/Create.tsx:23-30 | the page starts with the image algorithm, a 30 × 30 size, not loaded, no file and nothing saved |
| `CreatePage.Create.Init` | frontend/src/components/pages/Create.tsx:32-48 | the page ends loaded; without saved preferences nothing else changes; with them a known algorithm id is taken, an unknown one ignored, and the saved size taken |
| `CreatePage.Create.SavePrefs` | frontend/src/components/pages/Create.tsx:50-54 | the choices are saved, as they are, only once the page has loaded |
| `CreatePage.Create.OnImageChange` | frontend/src/components/pages/Create.tsx:56-69 | a chosen file is remembered and no file keeps the previous selection |
| `CreatePage.Create.SubmitDisabled` | frontend/src/components/pages/Create.tsx:143 | a generation in flight always disables the button, image mode keeps it disabled until a file is selected, and the other modes enable it whenever nothing is loading |
| `CreatePage.RestoreKeepsKnownAlgorithm` | frontend/src/components/pages/Create.tsx:39-41 | whatever text was stored, the restored algorithm is one of the three known ids, and a known stored id is restored as is |
| `HomePage.AlgorithmOf` | frontend/src/app/page.tsx:9-13 | an algorithm found for an id has exactly that id |
| `HomePage.AlgorithmIdRoundTrip` | frontend/src/app/page.tsx:9-13 | every algorithm is found by its own id, and the lookup fails exactly for ids other than "image", "kruskal" and "recursive" |
| `HomePage.ParseNumeral` | frontend/src/app/page.tsx:35-36 | `parseInt` reads back the numeral of any integer, after any leading white space and before any text that does not continue the number, so " 42", "-7" and "12.5" give 42, -7 and 12 |
| `HomePage.ParseBlankIsNaN` | frontend/src/app/page.tsx:35-36 | an empty or all-white-space field has no digit and `parseInt` gives NaN |
| `HomePage.EmptyFieldPassesAsWritten` | frontend/src/app/page.tsx:35-41 | an empty rows field parses to NaN and the bounds test as written lets it through beside a column count of 30: the handler as written sends the form, while the intended checks reject it with OUT_OF_BOUNDS |
| `HomePage.FractionPassesAsWritten` | frontend/src/app/page.tsx:35-38 | a rows field of "12.5" parses to 12 and passes the bounds test as written |
| `HomePage.OutOfBoundsAgreesOnNumbers` | frontend/src/app/page.tsx:38 | on two parsed numbers the intended test and the one as written agree, and whatever the test as written rejects the intended one rejects too |
| `HomePage.SubmitDisabled` | frontend/src/app/page.tsx:28 | a generation in flight always disables the button, image mode keeps it disabled until an image is chosen, and the other modes enable it whenever nothing is loading |
| `HomePage.SubmitOutcome` | frontend/src/app/page.tsx:30-49 | the corrected checks: generation is reached exactly when both fields parse to integers in [2, 300] and, in image mode, an image is present, and then with the parsed sizes; the image error is raised exactly for in-range sizes in image mode without an image |
| `HomePage.AsWrittenAgreesOnNumbers` | frontend/src/app/page.tsx:30-49 | the handler as written sends every form the corrected checks accept, and when both fields parse to numbers it refuses with the same error or sends exactly when the corrected checks generate |
| `HomePage.EnabledSubmitGenerates` | frontend/src/app/page.tsx:28-48 | when the button is enabled and the sizes are in range, typed as plain numerals, the corrected checks reach generation with those sizes |
| `HomePage.EnabledSubmitSends` | frontend/src/app/page.tsx:28-48 | the same submission as written sends the form with those numerals |
| `HomePage.Home.constructor` | frontend/src/app/page.tsx:15-21 | the page starts in image mode without an image, at 30 × 30, with no error and no request |
| `HomePage.Home.OnImageChange` | frontend/src/app/page.tsx:23-26 | `hasImage` says whether a file was chosen; a chosen image sets the size it maps to, no file keeps the size |
| `HomePage.Home.HandleSubmit` | frontend/src/app/page.tsx:30-49 | the handler as written: the size state is clamped; the bounds test on the `parseInt` results, then the image check, set their error and send nothing; otherwise the form is sent with the fields' text as it stands, so an empty field (NaN) or "12.5" is sent |
| `SolvePage.Validate` | frontend/src/components/pages/Solve.tsx:153 | for a dimension of at least 1 the coordinate lands in [0, m - 1], is kept when already there and goes to the nearer end otherwise |
| `SolvePage.ValidateIdempotent` | frontend/src/components/pages/Solve.tsx:153 | validating a validated coordinate changes nothing |
| `SolvePage.SolveAlgorithmOf` | frontend/src/components/pages/Solve.tsx:15-19 | a solver found for an id has exactly that id |
| `SolvePage.SolveAlgorithmRoundTrip` | frontend/src/components/pages/Solve.tsx:15-19 | every solver is found by its own id, and the lookup fails exactly for ids other than "astar", "bfs" and "greedy" |
| `SolvePage.RequestFor` | frontend/src/components/pages/Solve.tsx:123-126 | the solve request carries the active maze's id and size with the chosen endpoints and the chosen solver |
| `SolvePage.LoadId` | frontend/src/components/pages/Solve.tsx:92-93 | the load uses the given id when it is non-empty, else the typed one, and is empty only when both are |
| `SolvePage.Solve.constructor` | frontend/src/components/pages/Solve.tsx:36-53 | no maze, no error, A* chosen, idle, the id field from the URL, both endpoints at (0, 0), no solution, not loaded, nothing requested or saved |
| `SolvePage.Solve.Persist` | frontend/src/components/pages/Solve.tsx:78-89 | nothing is saved before loading ends; afterwards the choices are saved and, with a maze, the session with the chosen endpoints |
| `SolvePage.Solve.RestoreSession` | frontend/src/components/pages/Solve.tsx:59-66 | a saved session becomes the active maze with its own endpoints; without one nothing changes |
| `SolvePage.Solve.RestorePrefs` | frontend/src/components/pages/Solve.tsx:68-73 | loading ends; a saved solver is taken only when its id is known |
| `SolvePage.Solve.BeginLoad` | frontend/src/components/pages/Solve.tsx:91-97 | without an id nothing happens; otherwise the page is busy, the error cleared and that id requested |
| `SolvePage.Solve.FinishLoad` | frontend/src/components/pages/Solve.tsx:97-108 | a found maze becomes active with its endpoints, is stored as the session, clears the solution and stops the animation; a failed lookup reports the id and keeps the rest; either way the page is no longer busy |
| `SolvePage.Solve.HandleAction` | frontend/src/components/pages/Solve.tsx:111-126 | while animating it stops and clears the solution without a request; without a maze nothing happens; otherwise a solve is marked in progress, the solution cleared and one request sent for the maze with the chosen endpoints |
| `SolvePage.Solve.FinishSolve` | frontend/src/components/pages/Solve.tsx:127-132 | a response becomes the solution; a failure stops the animation; either way the solve ends |
| `SolveControls.UpperId` | frontend/src/components/maze/SolveControls.tsx:54 | on ASCII text the id keeps its length and each lower-case letter is upper-cased in place |
| `SolveControls.UpperIdNormal` | frontend/src/components/maze/SolveControls.tsx:54 | the stored id holds no lower-case ASCII letter, and upper-casing it again changes nothing |
| `SolveControls.Bound` | frontend/src/components/maze/SolveControls.tsx:79-82 | the bound is the maze's row or column count, or 1 without a maze or for a count of 0 (the end-point editor at lines 100 and 103 uses the same bound) |
| `SolveControls.EditedOnlyItsCoordinate` | frontend/src/components/maze/SolveControls.tsx:76-105 | an edit changes only the coordinate it names, puts it inside the grid for a maze of positive size, and sets it to 0 without a maze |
| `SolveControls.ActionDisabled` | frontend/src/components/maze/SolveControls.tsx:124 | a running animation can always be terminated; otherwise the button is disabled exactly while no maze is loaded |
| `SolveControls.ActionLabel` | frontend/src/components/maze/SolveControls.tsx:135-139 | the label reads INITIALIZING exactly while solving, TERMINATE_SOLVE exactly while animating and not solving, RUN_SOLVER otherwise |
| `ForumCard.ToggledVote` | frontend/src/components/forum/ForumCard.tsx:22 | the new vote is 0 or the clicked value, and for a real click it is 0 exactly when the clicked vote was already cast |
| `ForumCard.ClickedInStep` | frontend/src/components/forum/ForumCard.tsx:22-26 | a click moves the count by exactly the change of the vote, remembers the vote before it and that change, and leaves the vote at 0 (clicking the cast vote) or the clicked value |
| `ForumCard.RollbackRestores` | frontend/src/components/forum/ForumCard.tsx:22-37 | a click followed by its rollback gives back the vote and count before the click |
| `ForumCard.ClickTwice` | frontend/src/components/forum/ForumCard.tsx:22-26 | two clicks on the same button restore the state exactly when the vote before them was 0 or that button's vote |
| `ForumCard.ClickTwiceFromDownVote` | frontend/src/components/forum/ForumCard.tsx:22-26 | from a down-vote, two up-clicks end with no vote and the count one higher |
| `ForumCard.Card.constructor` | frontend/src/components/forum/ForumCard.tsx:11-12 | the vote and count start from the post's values, absent read as 0, and nothing is sent |
| `ForumCard.Card.SyncProps` | frontend/src/components/forum/ForumCard.tsx:14-17 | new props reset the vote and count to them, absent read as 0 |
| `ForumCard.Card.BeginVote` | frontend/src/components/forum/ForumCard.tsx:19-29 | without a user nothing changes and nothing is sent; otherwise the optimistic click is shown, remembered and the new vote sent for this post |
| `ForumCard.Card.FinishVote` | frontend/src/components/forum/ForumCard.tsx:28-37 | success keeps the shown state; failure or an error restores the vote before the click and takes the click's change off the current count |
| `PostDetail.PostVoted` | frontend/src/components/pages/PostDetail.tsx:38-46 | the voted post keeps its id and comments and now carries a vote |
| `PostDetail.PostVoteAsCard` | frontend/src/components/pages/PostDetail.tsx:38-46 | the post's vote and count change exactly as a feed card's would for the same click |
| `PostDetail.FindComment` | frontend/src/components/pages/PostDetail.tsx:54-55 | the index found is that of the first comment with the id, and none is found exactly when no comment has it |
| `PostDetail.CommentVoteLocal` | frontend/src/components/pages/PostDetail.tsx:51-68 | an unknown id changes nothing; otherwise the post's own fields and every comment with another id stay as they were, and the found comment's vote and count change as a card's would, a missing count read as 0 |
| `PostDetail.CommentVoteSingle` | frontend/src/components/pages/PostDetail.tsx:61-68 | with distinct comment ids the new list is the old one with only the found entry replaced |
| `PostDetail.Detail.constructor` | frontend/src/components/pages/PostDetail.tsx:14-21 | no post, loading, an empty form, nothing sent, and one fetch started |
| `PostDetail.Detail.FinishFetch` | frontend/src/components/pages/PostDetail.tsx:23-33 | a fetched post replaces the shown one, an error keeps it, and loading ends |
| `PostDetail.Detail.HandlePostVote` | frontend/src/components/pages/PostDetail.tsx:35-49 | without a user or a post nothing changes; otherwise the voted post is shown and its new vote sent for the post |
| `PostDetail.Detail.HandleCommentVote` | frontend/src/components/pages/PostDetail.tsx:51-71 | without a user or a post, or for an unknown comment, nothing changes; otherwise the voted comments are shown and the found comment's new vote sent |
| `Common.TrimStart` | frontend/src/components/pages/PostDetail.tsx:75 | `trim` drops exactly the leading JavaScript white space (WhiteSpace and LineTerminator, no-break and ideographic spaces included): the rest is a suffix that does not start with white space |
| `Common.TrimEnd` | frontend/src/components/pages/PostDetail.tsx:75 | `trim` drops exactly the trailing JavaScript white space: the rest is a prefix that does not end with white space |
| `PostDetail.BlankAllSpace` | frontend/src/components/pages/PostDetail.tsx:75 | `!commentText.trim()` holds exactly when every character of the text is JavaScript white space, "\u00A0" and the line separators included |
| `PostDetail.Detail.BeginAddComment` | frontend/src/components/pages/PostDetail.tsx:73-78 | blank text (only JavaScript white space, as `trim` sees it) or a submission in progress does nothing; without a post nothing is sent and submitting ends false; otherwise submitting starts and the comment is sent for the post |
| `PostDetail.Detail.FinishAddComment` | frontend/src/components/pages/PostDetail.tsx:78-86 | success clears the text and fetches the thread again; failure keeps the text; either way submitting ends |
| `ForumFeed.Unseen` | frontend/src/components/pages/Forum.tsx:28-29 | no post the filter keeps has an id already in the feed |
| `ForumFeed.UnseenSubsequence` | frontend/src/components/pages/Forum.tsx:29 | the filter keeps the page's posts in their order and keeps every post whose id is not yet in the feed |
| `ForumFeed.MergeKeepsFeed` | frontend/src/components/pages/Forum.tsx:27-31 | the merged feed starts with the old feed unchanged, appends no post with an id already shown, and appends every other post of the page in the page's order |
| `ForumFeed.UnseenIds` | frontend/src/components/pages/Forum.tsx:29 | the kept ids come from the page, and a page of distinct ids stays distinct after filtering |
| `ForumFeed.MergeDistinct` | frontend/src/components/pages/Forum.tsx:27-31 | a feed of distinct ids stays distinct when a page of distinct ids is merged into it |
| `ForumFeed.Feed.constructor` | frontend/src/components/pages/Forum.tsx:11-14 | an empty feed at offset 0, not loading, with more to fetch and nothing requested |
| `ForumFeed.Feed.BeginFetch` | frontend/src/components/pages/Forum.tsx:20-24 | a fetch starts exactly when none is in progress, and then the current offset is requested; either way the page is loading afterwards |
| `ForumFeed.Feed.FinishFetch` | frontend/src/components/pages/Forum.tsx:24-38 | a page is merged into the feed, the offset advances by 10 whatever was kept, and a page shorter than 10 ends `hasMore` for good; an error keeps feed, offset and `hasMore`; either way loading ends and the offset stays a multiple of 10 |
| `ForumHandler.VotedEffect` | backend/internal/handlers/forum_handler.go:166-184 | a vote touches only the caller's row for the target: with no row a row holding the value is created, a row of the requested type with the same value is deleted and one with another value overwritten; a row of another type blocks the insert and nothing changes |
| `ForumHandler.VoteTwice` | backend/internal/handlers/forum_handler.go:166-184 | the same request sent twice restores the table when the caller had no vote or exactly that vote, and deletes the row when the caller had another value of the same type |
| `ForumHandler.TotalRemove` | backend/internal/handlers/forum_handler.go:192 | the sum over the vote rows for a target does not depend on the order the rows are taken in |
| `ForumHandler.TotalOtherTarget` | backend/internal/handlers/forum_handler.go:192 | rows for other targets, written or removed, do not change a target's total |
| `ForumHandler.TotalAfterVote` | backend/internal/handlers/forum_handler.go:166-192 | after a vote the target's total moves by exactly the change in the caller's stored value, and every other target's total is unchanged |
| `ForumHandler.VoteMapEntry` | backend/internal/handlers/forum_handler.go:117-120 | the vote map has an entry exactly for the targets of the returned rows, each holding the value of one of those rows (the same loop is at lines 59-62 and 244-247) |
| `ForumHandler.HydrationIsStoredVote` | backend/internal/handlers/forum_handler.go:113-124 | for a listed target the hydrated vote is the caller's stored value (of the filtered type, where the query filters by type), or 0 when there is none; the feed and comment hydrations at lines 56-66 and 241-251 work the same way |
| `ForumHandler.BuildVoteMap` | backend/internal/handlers/forum_handler.go:117-120 | the loop builds the vote map of the rows in order, a later row for a target overriding an earlier one |
| `ForumHandler.Hydrate` | backend/internal/handlers/forum_handler.go:122-124 | every item's `UserVote` is written in place from the vote map, 0 for a missing id, and no other field changes (also lines 64-66 and 249-251) |
| `ForumHandler.SumVotes` | backend/internal/handlers/forum_handler.go:191-192 | the loop computes the sum of the values of every row for the target, of any type, 0 for none |
| `ForumHandler.PostId` | backend/internal/handlers/forum_handler.go:31 | the id is "P-" followed by the UUID's first eight characters, ten characters in all |
| `ForumHandler.Store.constructor` | backend/internal/handlers/forum_handler.go:18 | the store holds the given posts, comments and votes |
| `ForumHandler.Store.CreatePost` | backend/internal/handlers/forum_handler.go:18-40 | 401 without a user and 400 for a payload that does not decode, nothing stored; otherwise the post is stored under its "P-" id with the caller as creator, or 500 when that id is taken |
| `ForumHandler.Store.DeletePost` | backend/internal/handlers/forum_handler.go:133-146 | a request that is not a DELETE does nothing; the post is removed exactly when it exists and the caller created it; otherwise 403 and nothing removed |
| `ForumHandler.Store.DeleteComment` | backend/internal/handlers/forum_handler.go:258-271 | the same rule for comments |
| `ForumHandler.Store.UpdateVoteCount` | backend/internal/handlers/forum_handler.go:190-198 | the target's upvotes become the sum of every vote on its id, in the post table for type "post" and in the comment table for any other type; the other table and every other row are unchanged |
| `ForumHandler.Store.HandleVote` | backend/internal/handlers/forum_handler.go:149-188 | 401 without a user and 400 for an undecodable body, the store unchanged; otherwise the vote is written, the target's total recomputed and the answer is 200 |
| `VoteProtocol.ClientServerAgree` | frontend/src/components/forum/ForumCard.tsx:22-29 | a client in step with the stored vote sends a value the server stores as is, and the server's total moves by exactly the change the client applied, so a client that showed the stored total still shows it |
| `VoteProtocol.HydratedAfterVote` | backend/internal/handlers/forum_handler.go:99-103 | after such a vote the next hydration reports the vote the client already shows |

## Left out

- `Maze.Print` (backend/maze/maze.go): it only writes to standard output.
- Image decoding, grayscale conversion and the Sobel gradients of backend/maze/vision.go: floating-point trigonometry, a worker pool and the image codecs. `Vision.ApplyNms` and `Vision.MapToWeights` take the magnitudes as given inputs.
- `Renderer.DrawMaze`: the goroutine fan-out over row bands is modelled as the bands drawn one after another in order. Adjacent rows share pixel lines, so the model fixes a write order and does not claim the concurrent result. PNG encoding is left out.
- Randomness (`rand.IntN`, `rand.Shuffle`, `Math.random`) is not modelled as a distribution. The draws are inputs, and every property holds for all of them.
- `MazeGrid.Maze.SetRandomStartEnd`: the loop runs over a finite sequence of draws that holds an acceptable pair. The endless loop on tiny grids is exhibited by `MazeGrid.NoPairOnTinyGrid` instead of being modelled as divergence.
- `Kruskal.DSU`: `NewDSU` is not part of this model. The union-find structure is represented by the partition it maintains (a label per cell), not by parent pointers, ranks or path compression.
- `AStar.HeapPop`: the binary-heap layout of `container/heap` is not modelled. The first item of least priority is found by a scan, so the tie-breaking among equal priorities may differ from the library's.
- `AStar.SolveAStar`: termination of the loop, which re-queues points whose score improves, is not proved. The method takes a bound `fuel` on the number of pops and returns no path when the bound runs out. Unreachability is only claimed when it stopped before the bound.
- `Generator.SortByWeight`: `sort.Slice` is not stable and leaves the order of equal weights unspecified. The model sorts stably, on a sequence value rather than in place.
- `ForumHandler.Store.UpdateVoteCount`: the SQL `SUM` into an `int64` is an unbounded integer here, so overflow is not modelled.
- `ForumHandler.Store.CreatePost`: the creation time, the maze link and the association rows gorm may insert along with a post are not modelled. Client-sent upvotes are kept, as the handler keeps them.
- The read handlers (`HandleGetPosts`, `HandleGetPostByID`, `HandleGetComments`) are modelled through their query results (`ForumHandler.QueryResult`) and their hydration loops only. `HandleCreateComment` and the HTTP, JSON, gorm and JWT plumbing are not part of this model.
- IndexedDB (frontend/src/lib/db.ts) and `fetch` (frontend/src/lib/api.ts) are left out. Their results are inputs to the second half of each handler.
- DOM, canvas, `Path2D`, `ResizeObserver`, window listeners and `requestAnimationFrame` are represented by command lists, sizes passed in, and ticks. Arithmetic is over `real`, with no IEEE rounding.
- The thumbnail upload and session saving that follow a successful generation in Create.tsx are left out; only the thumbnail geometry is modelled (`CreatePage.ThumbnailCovers`).
- `HomePage.Home.HandleSubmit`: the text of the two size fields is an input of the handler, not derived from `dims`. How the backend reads the sent text (`strconv.Atoi` in backend/cmd/server/main.go) is not part of this model, so what an empty or fractional field leads to on the server is not modelled.
- `SolveControls.UpperId`: JavaScript's `toUpperCase` also maps non-ASCII letters ("é" becomes "É") and can lengthen the text ("ß" becomes "SS"). The model upper-cases ASCII letters only and keeps the length, so it agrees with the page on ASCII ids only.
- `ImageDimensions.Clamp`: sizes are integers. The controls in components/ui/GridDimensionsInput.tsx:31 store `Number(text)`, so a fractional size such as 12.5 passes through `clampDimensions` unchanged; the model carries no fractions.
- `ImageDimensions.WithDim`: the copy of GridDimensionsInput that app/page.tsx uses (components/GridDimensionsInput.tsx:24) passes the raw text to `updateDim`, so `dims` can hold "" or "12.5", and `Math.max` turns "" into 0, which clamps to 2. The model stores integers only; `ImageDimensions.DimsState.UpdateDim` inherits this.
- `SolveControls.Edited`: coordinates are integers. In the page `validate(1.5, m)` returns 1.5, so a fractional coordinate typed into an end-point editor is kept and reaches the solve request.
- Pure-UI components are left out: both AlgorithmSelect and GridDimensionsInput copies, NavBar, AuthPage, the layout, GenerateControls, MazeControls, pages/Home.tsx, app/solve/page.tsx and useMazeGeneration.ts.

## Findings

| source | as written | input that shows it | evidently intended | confidence | as-written member | corrected member |
|---|---|---|---|---|---|---|
| frontend/src/app/page.tsx:35-41 | the bounds test compares the `parseInt` results with 2 and 300, every comparison with NaN is false, and the form is then sent with the fields' raw text | an empty rows field (NaN) with cols 30 passes the test and the form is sent (`HomePage.EmptyFieldPassesAsWritten`) | a size that does not parse to an integer in [2, 300] is rejected with OUT_OF_BOUNDS | medium, not executed | `HomePage.Home.HandleSubmit` | `HomePage.SubmitOutcome` |
