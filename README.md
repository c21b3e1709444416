# AlgoFind path-finding game: a verified model

AlgoFind is a path-finding game in two parts.

- The Java backend takes a square grid of a given size, a start point, an end point and a list of barriers. It answers with a path, the points the search visited, an explored count and whether the target was found. Barriers are weighted: a weight of zero or less makes the cell impassable, and a positive weight adds to the price of entering it. Diagonal moves may be allowed. The search is one of DFS, BFS, Dijkstra or A*, picked by `PathfindingServiceFactory`. The repository also keeps an older set of BFS/Dijkstra/A* services. These use four directions, unit moves and barriers that always block.
- The React Native front end has two parts. The grid editor (`useGrid`) places the start, the end and weighted obstacles, and builds the request. The run controller (`usePathfinding`) calls the backend, animates the visited cells and then the path in batches, and computes the run statistics. Around them are the obstacle-weight stepper and the play button (`ControlPanel`), the first version of the home screen (`app/index.tsx`), and the three.js node graph drawn behind the web app (`Background.web.tsx`).

The model's modules:

- **Backend grid.**
  - `GridModel` is the grid: the direction tables, bounds, impassable and weighted barriers, the movement cost, and the neighbour loop.
  - `Walks` defines walks, reachability and walk prices, counted in moves or in price.
  - `PathUtils` reconstructs a path from the parent map.
- **Searches.**
  - `BreadthFirst` is the queue search behind both BFS services.
  - `BestFirst` is the priority-queue search behind Dijkstra and A*.
  - `SearchCore` holds the invariant of the best-first searches and the lemmas that give their optimality.
  - `AStarHeuristic` is the A* estimate: Manhattan distance, or octile distance with diagonals.
  - `Shuffling` is `Collections.shuffle`.
- **Services.**
  - `BfsService`, `DfsService`, `DijkstraService` and `AStarService` are the current services.
  - `LegacyGrid`, `LegacyBfsService`, `LegacyDijkstraService` and `LegacyAStarService` are the older ones.
  - `ServiceFactory` is the registry.
- **Front end.**
  - `Cells` holds the cell, weight and grid types.
  - `UseGrid`, `UsePathfinding`, `ControlPanel`, `LegacyScreen` and `Background` model the files named above.

Each Java search is a method with loop invariants. Its contract says the following:

- The search reports the target found exactly when a walk reaches it.
- The path is then such a walk: one with the fewest moves for BFS, and a cheapest one for Dijkstra and A*.
- For BFS, Dijkstra and A*, the visited points were settled at their least distance, without repeats; for DFS they are points reachable from the start, without repeats.

React state is replaced, never updated in place, so each hook handler is a function from the old state to the new state. The animation loops and the request builder are methods with loops. The background's cursor-edge buffer is a `Float32Array`, modelled as an `array<real>` that a class updates in place.

## Model

| member | source | states |
|---|---|---|
| `GridModel.NewGridGraph` | path_finding_game/backend/src/main/java/com/algofind/model/GridGraph.java:27-36 | The grid keeps its size and diagonal flag. Its barrier map is the one built from the list, and a null list gives an empty map. |
| `GridModel.BarrierMapLastWins` | path_finding_game/backend/src/main/java/com/algofind/model/GridGraph.java:31-35 | The map's keys are exactly the barrier positions. A key holds the weight of the last barrier listed at that position. |
| `GridModel.GetNeighbors` | path_finding_game/backend/src/main/java/com/algofind/model/GridGraph.java:46-72 | Both directions: a point is listed exactly when it is one table offset away, in bounds, not impassable and not excluded. |
| `GridModel.NeighborsProperties` | path_finding_game/backend/src/main/java/com/algofind/model/GridGraph.java:46-72 | The neighbours are in bounds, passable and not excluded. There are at most 4 of them, or 8 with diagonals, and they come in direction-table order. |
| `GridModel.NeighborsDistinct` | path_finding_game/backend/src/main/java/com/algofind/model/GridGraph.java:14-20 | The neighbour list has no repeats, because the table's offsets are distinct. |
| `GridModel.MovementCostProperties` | path_finding_game/backend/src/main/java/com/algofind/model/GridGraph.java:74-83 | A move never costs less than the same move without barriers. That plain cost is exactly 1 for a straight move and SQRT2, below two straight moves, for a diagonal one. A positive weight on the target adds exactly itself. A heavier target is never cheaper to enter. The barriers of other cells play no part. |
| `PathUtils.ReconstructPath` | path_finding_game/backend/src/main/java/com/algofind/util/PathUtils.java:13-23 | The result is the parent chain ending at `end`. Each point's parent is the point before it, and the first point has none. A parentless end gives `[end]`. |
| `PathUtils.ChainLastLink` | path_finding_game/backend/src/main/java/com/algofind/util/PathUtils.java:13-23 | A chain has length one exactly when the end has no parent. Otherwise the end's parent is the point before it. |
| `PathUtils.ParentChainUnique` | path_finding_game/backend/src/main/java/com/algofind/util/PathUtils.java:13-23 | Two parent chains ending at the same point are equal, so the reconstructed path is determined by its contract. |
| `PathUtils.ParentChainLength` | path_finding_game/backend/src/main/java/com/algofind/util/PathUtils.java:13-23 | The chain's length is the number of parent links from the end to a null parent, plus one. |
| `Shuffling.Shuffle` | path_finding_game/backend/src/main/java/com/algofind/service/algorithm/BFSService.java:45-46 | The result is a permutation: the same multiset, the same members, and still duplicate-free. |
| `BreadthFirst.QueueNeighbors` | path_finding_game/backend/src/main/java/com/algofind/service/algorithm/BFSService.java:48-53 | Each neighbour is appended to the queue and to the visited path, marked visited, and given the dequeued point as its parent. |
| `BreadthFirst.Bfs` | path_finding_game/backend/src/main/java/com/algofind/service/algorithm/BFSService.java:29-56 | See `BfsService.Execute`. This is the queue search shared by both BFS services, with or without the shuffle. |
| `BfsService.Execute` | path_finding_game/backend/src/main/java/com/algofind/service/algorithm/BFSService.java:19-57 | Found exactly when the end is reachable. The path is then a walk with the fewest moves, and otherwise empty. The visited path starts at the start and has no repeats. Every visited point other than the start is passable, and every one is reachable. The explored count is the number of dequeues: the end is the last point dequeued when found, and otherwise every visited point was dequeued and they are exactly the reachable points. Every dequeued point was reached at its least number of moves. |
| `BestFirst.PollMin` | path_finding_game/backend/src/main/java/com/algofind/service/algorithm/DijkstraService.java:50 | The polled entry has the least key in the queue. |
| `BestFirst.UnsettledNeighbors` | path_finding_game/backend/src/main/java/com/algofind/service/algorithm/DijkstraService.java:66 | Both directions: the list holds exactly the moves from the point to unsettled points, without repeats. |
| `BestFirst.RelaxNeighbors` | path_finding_game/backend/src/main/java/com/algofind/service/algorithm/DijkstraService.java:66-75 | After the relax loop, every unsettled neighbour is known no dearer than through the settled point. Each improvement is recorded as a parent and queued, and no known distance grows. |
| `BestFirst.SettleNext` | path_finding_game/backend/src/main/java/com/algofind/service/algorithm/DijkstraService.java:49-76 | One loop iteration (skip, or settle and relax) keeps the search invariant and lowers the termination measure, or ends the search with its result. |
| `BestFirst.Search` | path_finding_game/backend/src/main/java/com/algofind/service/algorithm/DijkstraService.java:32-79 | Found exactly when the end is reachable, and the path is then a cheapest walk. The settled points are distinct, each settled at its cheapest distance, and in non-decreasing key order. |
| `BestFirst.SettledByDistance` | path_finding_game/backend/src/main/java/com/algofind/service/algorithm/DijkstraService.java:57-59 | With no heuristic, points settle in non-decreasing distance. |
| `DijkstraService.Execute` | path_finding_game/backend/src/main/java/com/algofind/service/algorithm/DijkstraService.java:32-79 | Found exactly when the end is reachable. The path is then a walk no dearer than any other walk to the end, and otherwise empty. The explored count is the number of visited points. These are settled at their cheapest distance, in non-decreasing distance. The end is the last visited point when found, and otherwise the visited points are exactly the reachable ones. |
| `AStarHeuristic.Heuristic` | path_finding_game/backend/src/main/java/com/algofind/service/algorithm/AStarService.java:89-98 | The estimate is non-negative and zero exactly at the target. Without diagonals it is the Manhattan distance. |
| `AStarHeuristic.HeuristicStep` | path_finding_game/backend/src/main/java/com/algofind/service/algorithm/AStarService.java:89-98 | Consistency: one move lowers the estimate by at most the move's cost, and by at most one on a 4-direction grid. |
| `AStarHeuristic.HeuristicAdmissible` | path_finding_game/backend/src/main/java/com/algofind/service/algorithm/AStarService.java:89-98 | Admissibility: no walk to the target costs less than the estimate, in price or in moves. |
| `AStarService.Execute` | path_finding_game/backend/src/main/java/com/algofind/service/algorithm/AStarService.java:37-87 | Found exactly when the end is reachable. The path is then a cheapest walk, as cheap as Dijkstra's, and otherwise empty. Every visited point was settled at its cheapest distance, in non-decreasing distance plus estimate. The end is the last visited point when found, and otherwise the visited points are exactly the reachable ones. |
| `AStarService.TargetRank` | path_finding_game/backend/src/main/java/com/algofind/service/algorithm/AStarService.java:63-70 | A point's key is never below its distance, and equals it exactly at the target. |
| `DfsService.Dfs` | path_finding_game/backend/src/main/java/com/algofind/service/DFSService.java:39-58 | It returns true exactly once the end is visited. On false, every point the call visited has all its moves visited and the end is not visited. The visited path only grows at its end and keeps the parent-tree invariant. When the end is found beyond the current point, it is the last point appended. |
| `DfsService.Execute` | path_finding_game/backend/src/main/java/com/algofind/service/DFSService.java:15-37 | Found exactly when the end is reachable, and the path is then a walk to it. Otherwise the path is empty and the visited points are exactly the reachable ones. The visited path starts at the start, has no repeats and, when found, ends at the end. The explored count is its length. |
| `LegacyGrid.LegacyStep` | path_finding_game/backend/src/main/java/com/algofind/service/BFSService.java:40-53 | A legacy move is one of the four orthogonal offsets onto a valid cell with no barrier, whatever the barrier's weight, and it costs one. |
| `LegacyGrid.LegacyWalkCost` | path_finding_game/backend/src/main/java/com/algofind/service/DijkstraService.java:68-76 | On the legacy grid, a walk's price is its number of moves. |
| `LegacyGrid.ValidNeighbors` | path_finding_game/backend/src/main/java/com/algofind/service/BFSService.java:40-53 | Both directions: it lists exactly the offsets that pass `isValid` and hit neither a barrier nor a visited cell, in table order. It is a reference for the neighbour loop: the legacy services search `LegacyGraph`, whose `Neighbors` it is proved equal to. |
| `LegacyGrid.GetShuffledNeighbors` | path_finding_game/backend/src/main/java/com/algofind/service/DijkstraService.java:82-99 | The same candidates as the unshuffled loop, in any order and without repeats. Like `ValidNeighbors`, it is a reference equivalence with `Neighbors` of `LegacyGraph`, which the legacy Dijkstra search uses. |
| `LegacyBfsService.Execute` | path_finding_game/backend/src/main/java/com/algofind/service/BFSService.java:15-57 | Found exactly when the end is reachable by legacy moves. The path is then a walk with the fewest moves, and otherwise empty. The visited path is empty. The queued points are distinct, start with the start and are all reachable. The explored count is the number of dequeues: the end is the last point dequeued when found, and otherwise every queued point was dequeued and they are exactly the reachable points. Every dequeued point was reached at its least number of moves. |
| `LegacyDijkstraService.Execute` | path_finding_game/backend/src/main/java/com/algofind/service/DijkstraService.java:31-80 | Found exactly when the end is reachable by legacy moves. The path is then a walk with the fewest moves. The visited points are settled at their least number of moves, in non-decreasing order. The end is the last visited point when found, and otherwise the visited points are exactly the reachable ones. |
| `LegacyAStarService.ManhattanDistance` | path_finding_game/backend/src/main/java/com/algofind/service/AStarService.java:91-93 | Non-negative, and zero exactly when the points are equal. It equals the 4-direction estimate of the current A*. |
| `LegacyAStarService.ManhattanAdmissible` | path_finding_game/backend/src/main/java/com/algofind/service/AStarService.java:91-93 | It never exceeds the moves of a walk to the target, and drops by at most one per move. |
| `LegacyAStarService.Execute` | path_finding_game/backend/src/main/java/com/algofind/service/AStarService.java:32-89 | Found exactly when the end is reachable by legacy moves. The path is then a walk with the fewest moves. The closed points are settled at their least g-score, and the visited path is empty. |
| `ServiceFactory.MapServiceToAlgorithm` | path_finding_game/backend/src/main/java/com/algofind/service/PathfindingServiceFactory.java:32-45 | A name is recognised exactly when it is one of the four enum names, and then it maps to the constant with that name. |
| `ServiceFactory.NamesRoundTrip` | path_finding_game/backend/src/main/java/com/algofind/service/PathfindingServiceFactory.java:32-45 | Every algorithm's enum name maps back to that algorithm. |
| `ServiceFactory.ServicesNamed` | path_finding_game/backend/src/main/java/com/algofind/service/PathfindingServiceFactory.java:32-45 | Each of the seven services reports a name that maps to the algorithm it implements. |
| `ServiceFactory.RegistryLastWins` | path_finding_game/backend/src/main/java/com/algofind/service/PathfindingServiceFactory.java:14-22 | An algorithm is registered exactly when some listed service is filed under it, and it then holds the last such service. |
| `ServiceFactory.RegistryNamesMatch` | path_finding_game/backend/src/main/java/com/algofind/service/PathfindingServiceFactory.java:14-22 | Every registered service's name maps back to the algorithm it is filed under. |
| `ServiceFactory.PathfindingServiceFactory.constructor` | path_finding_game/backend/src/main/java/com/algofind/service/PathfindingServiceFactory.java:14-22 | The services map is the registry built from the list, with the last service winning. |
| `ServiceFactory.PathfindingServiceFactory.GetService` | path_finding_game/backend/src/main/java/com/algofind/service/PathfindingServiceFactory.java:24-30 | It returns the registered service, whose name maps back to the algorithm. Otherwise it fails with "No service found for algorithm: " and the enum name. |
| `UseGrid.Mounted` | path_finding_game/hooks/useGrid.ts:12-14 | The created grid with no flag set. |
| `UseGrid.UpdateCell` | path_finding_game/hooks/useGrid.ts:16-26 | The grid keeps its shape. The addressed cell takes the new type and the given weight, and every other cell is unchanged. |
| `UseGrid.HandleCellPress` | path_finding_game/hooks/useGrid.ts:28-51 | Every branch: ignored while running; the first press places the start and the second the end. Later, an empty cell becomes an obstacle of the selected weight. An obstacle becomes empty with weight 1, unless a drag is on. Anything else is unchanged. |
| `UseGrid.ResetGrid` | path_finding_game/hooks/useGrid.ts:53-57 | A fresh grid with both flags cleared. |
| `UseGrid.ResetPath` | path_finding_game/hooks/useGrid.ts:59-68 | Every cell loses its animation state. Type, weight and position stay. |
| `UseGrid.ResetPathIdempotent` | path_finding_game/hooks/useGrid.ts:59-68 | Resetting twice gives the same grid as resetting once. |
| `UseGrid.MountedPlaced` | path_finding_game/hooks/useGrid.ts:12-14 | A blank created grid satisfies the placement protocol, after mounting and after CLEAR. |
| `UseGrid.PressPlaced` | path_finding_game/hooks/useGrid.ts:28-51 | Every press keeps the protocol. There is at most one start and one end. There is no start before it is placed, no end before the end is placed, and the end cell is present once placed. |
| `UseGrid.SecondPressOnStart` | path_finding_game/hooks/useGrid.ts:37-41 | Pressing the start cell again turns it into the end: startSet stays true, but no start cell is left. |
| `UseGrid.WireWeight` | path_finding_game/hooks/useGrid.ts:87 | The weight sent is zero or below, which the backend reads as impassable, exactly for Infinity or a non-positive weight. |
| `UseGrid.WireAlgorithm` | path_finding_game/hooks/useGrid.ts:98 | "A*" becomes "A_STAR", and any other name is sent unchanged. |
| `UseGrid.BuildRequest` | path_finding_game/hooks/useGrid.ts:70-101 | The start and end are the last cells of their type in row-major order, or null. The barriers are the obstacle cells in row-major order. The size, diagonal flag and algorithm name are passed on. |
| `UseGrid.ScanRow` | path_finding_game/hooks/useGrid.ts:76-90 | One row appends its obstacles to the barriers, and its last start or end overrides earlier ones. |
| `UseGrid.RowBarriersMembers` | path_finding_game/hooks/useGrid.ts:83-89 | A row's barriers are exactly those of its obstacle cells. |
| `UseGrid.GridBarriersMembers` | path_finding_game/hooks/useGrid.ts:75-91 | The barriers sent are exactly those of the grid's obstacle cells. |
| `UseGrid.ObstaclesReachBackend` | path_finding_game/hooks/useGrid.ts:83-89 | On a well-formed grid the backend's barrier map holds exactly the obstacle cells, each with its wire weight. An Infinity obstacle is impassable, and no other cell is when the finite weights are positive. |
| `UseGrid.LastInRowFinds` | path_finding_game/hooks/useGrid.ts:77-82 | A row's find is a cell of that type, and it is null exactly when the row has none. |
| `UseGrid.LastInGridFinds` | path_finding_game/hooks/useGrid.ts:75-82 | The start or end sent is null exactly when the grid has no such cell. With only one such cell, it is that cell's position. |
| `UsePathfinding.Instruction` | path_finding_game/hooks/usePathfinding.ts:38-60 | Each of the five messages, in both directions, with the priority running, then completed, then no start, then no end, then ready. It is never an error message. |
| `UsePathfinding.BatchSize` | path_finding_game/hooks/usePathfinding.ts:62-69 | One of 1, 2, 4, 10, 15 or 20. It is 1 exactly below speed 20, and 20 exactly from speed 95. |
| `UsePathfinding.BatchSizeMonotone` | path_finding_game/hooks/usePathfinding.ts:62-69 | A faster speed never gives a smaller batch. |
| `UsePathfinding.MarkCells` | path_finding_game/hooks/usePathfinding.ts:77-90 | The start and end cells are untouched. Any other cell in the batch takes the mark, and the rest are unchanged. |
| `UsePathfinding.MarkCellsConcat` | path_finding_game/hooks/usePathfinding.ts:74-93 | Marking one batch and then another equals marking both at once. |
| `UsePathfinding.Animate` | path_finding_game/hooks/usePathfinding.ts:71-94 | The batches are consecutive slices of batchSize points, the last possibly shorter, that together make up the list. The grid ends marked as by the whole list at once. |
| `UsePathfinding.ResetUndoesMarks` | path_finding_game/hooks/usePathfinding.ts:182-189 | RESET takes back every animation mark. |
| `UsePathfinding.RunThenReset` | path_finding_game/hooks/usePathfinding.ts:182-189 | A completed run followed by RESET leaves the same grid as RESET alone. |
| `UsePathfinding.SumWeightsConcat` | path_finding_game/hooks/usePathfinding.ts:146-150 | The summed weight of a path splits at any point, with Infinity absorbing. |
| `UsePathfinding.UnitWeights` | path_finding_game/hooks/usePathfinding.ts:146-150 | On unit-weight cells the sum is the number of nodes. |
| `UsePathfinding.InfiniteCell` | path_finding_game/hooks/usePathfinding.ts:146-150 | A path over an infinite-weight cell weighs Infinity. |
| `UsePathfinding.PathWeight` | path_finding_game/hooks/usePathfinding.ts:146-150 | The cost accumulated from -1 over the path's cell weights, where a node off the grid counts as 1. |
| `UsePathfinding.Stats` | path_finding_game/hooks/usePathfinding.ts:141-168 | The visited count is the visited list's length minus two, floored at zero. The path length is its moves, at least one. The weight is -1 plus the summed weights. Both path figures read "No path found" exactly for an empty path. |
| `UsePathfinding.ComputeStats` | path_finding_game/hooks/usePathfinding.ts:141-168 | The statistics block computes `Stats`. |
| `UsePathfinding.VisitedExcludesEnds` | path_finding_game/hooks/usePathfinding.ts:143 | When the visited list is distinct and holds both ends, the count is the number of other visited cells. |
| `UsePathfinding.RunAlgorithm` | path_finding_game/hooks/usePathfinding.ts:121-180 | No effect while running or before both ends are placed. Otherwise it ends not running, with the instruction the flags call for. On success the grid is marked visited and then path, the run is completed, and the stats are shown. On an error the grid and stats are untouched. |
| `UsePathfinding.HandleRunOrReset` | path_finding_game/hooks/usePathfinding.ts:182-189 | After a completed run it clears the flag and every mark and keeps the stats. Otherwise it does nothing while running or before both ends are placed. A response draws the visited cells and then the path, completes the run and shows its stats. A failure leaves the grid, the stats and the completed flag as they were. |
| `UsePathfinding.Reset` | path_finding_game/hooks/usePathfinding.ts:191-194 | Both flags are cleared, the instruction follows them, and the stats are kept. When no flag was up, the instruction is unchanged. |
| `ControlPanel.ChangeWeight` | path_finding_game/components/ui/ControlPanel.tsx:45-59 | From Infinity, up gives 2 and down gives 9. Otherwise the weight moves by one, and leaving 2..9 gives Infinity. The result is always selectable. |
| `ControlPanel.StepsUndo` | path_finding_game/components/ui/ControlPanel.tsx:45-59 | A step up and a step down undo each other on every selectable weight. |
| `ControlPanel.StepUpCycle` | path_finding_game/components/ui/ControlPanel.tsx:45-59 | Stepping up from Infinity runs 2, 3, ..., 9 and back to Infinity, with period nine. |
| `ControlPanel.PlayLabel` | path_finding_game/components/ui/ControlPanel.tsx:157-163 | "RUNNING..." exactly while running. Otherwise "RESET" exactly after a completed run, and "PLAY" exactly otherwise. |
| `LegacyScreen.Instruction` | path_finding_game/app/index.tsx:230-240 | Each of the four messages, in both directions, with the priority running, then no start, then no end, then ready. |
| `LegacyScreen.Mounted` | path_finding_game/app/index.tsx:227-240 | The created grid, all flags down, showing "Place the starting node". |
| `LegacyScreen.UpdateCell` | path_finding_game/app/index.tsx:242-252 | The addressed cell takes the new type, and every other cell is unchanged. |
| `LegacyScreen.HandleCellPress` | path_finding_game/app/index.tsx:254-278 | Every branch: running, first press, second press, empty cell, obstacle without a drag, otherwise unchanged. The instruction keeps following the flags. |
| `LegacyScreen.PressPlaced` | path_finding_game/app/index.tsx:254-278 | Every press keeps the editor's placement protocol. |
| `LegacyScreen.ClearPath` | path_finding_game/app/index.tsx:87-99 | Visited and path cells become empty, and every other cell stays. |
| `LegacyScreen.ResetPath` | path_finding_game/app/index.tsx:87-99 | The run is no longer complete, the grid is cleared of marks, and nothing else changes. |
| `LegacyScreen.ResetGrid` | path_finding_game/app/index.tsx:79-85 | A fresh grid with all flags down except the pressing flag, which is kept. The instruction follows and reads "Place the starting node" if a start had been placed. |
| `LegacyScreen.MarkVisited` | path_finding_game/app/index.tsx:183-203 | Every empty cell at a listed point becomes visited, and every other cell stays. |
| `LegacyScreen.MarkPath` | path_finding_game/app/index.tsx:161-182 | Every listed cell other than the start and the end becomes a path cell. |
| `LegacyScreen.VisitStep` | path_finding_game/app/index.tsx:186-197 | One more frame of the visited animation marks one more point. |
| `LegacyScreen.PathStep` | path_finding_game/app/index.tsx:164-176 | One more frame of the path animation marks one more point. |
| `LegacyScreen.AnimateVisited` | path_finding_game/app/index.tsx:183-203 | The frames, one per point in order, draw `MarkVisited` of the whole list. |
| `LegacyScreen.AnimatePath` | path_finding_game/app/index.tsx:161-182 | The frames, one per point in order, draw `MarkPath` of the whole list. |
| `LegacyScreen.RunThenReset` | path_finding_game/app/index.tsx:87-99 | On a grid with no leftover marks, RESET after a run restores it when the path crosses no obstacle. |
| `LegacyScreen.ObstacleOnPathLost` | path_finding_game/app/index.tsx:168-172 | An obstacle on the path becomes a path cell, and after RESET it is empty. |
| `LegacyScreen.BuildRequest` | path_finding_game/app/index.tsx:51-77 | Start and end are the last cells of their type, or null. The barriers are the positions of the obstacle cells in row-major order, without weights. |
| `LegacyScreen.ScanRow` | path_finding_game/app/index.tsx:57-67 | One row appends its obstacle positions, and its last start or end overrides earlier ones. |
| `LegacyScreen.BarriersAreObstacles` | path_finding_game/app/index.tsx:64-66 | On a well-formed grid the positions sent are exactly the obstacle cells. |
| `LegacyScreen.RunAlgorithm` | path_finding_game/app/index.tsx:107-158 | No effect while running or before both ends are placed. Otherwise it ends not running, showing "Draw obstacles or press PLAY". An ok response draws visited and then path cells and completes the run, and a failure leaves the grid alone. |
| `LegacyScreen.HandleRunOrReset` | path_finding_game/app/index.tsx:100-106 | After a completed run it does `ResetPath`. Otherwise it does nothing while running or before both ends are placed. A successful response draws `MarkPath` over `MarkVisited` of the grid and completes the run. A failure leaves the grid and the completed flag as they were. Either way it ends not running, showing the ready message. |
| `Background.RandomColor` | components/Background.web.tsx:12-17 | Cyan exactly below 0.60, blue exactly on [0.60, 0.85), pink exactly from 0.85. |
| `Background.BuildEdges` | components/Background.web.tsx:69-76 | The edge points are the two positions of each joined pair, pair after pair, six numbers per pair. |
| `Background.PushRow` | components/Background.web.tsx:71-75 | The inner loop appends the segments of the pairs (i, j), j > i, that are near, in order of j. |
| `Background.EdgeListMembers` | components/Background.web.tsx:69-76 | The static edges are exactly the pairs i < j closer than CONNECT_DIST. |
| `Background.EdgeListIncreasing` | components/Background.web.tsx:69-76 | The edges come in strictly increasing lexicographic order, so no pair appears twice. |
| `Background.QualifyingMembers` | components/Background.web.tsx:169-171 | A node qualifies exactly when it lies within CURSOR_CONNECT_DIST of the cursor. The qualifying indices are increasing. |
| `Background.QualifyingCap` | components/Background.web.tsx:169 | Where the cursor loop stops, the nodes found are the first MAX_CURSOR_LINES qualifying ones. |
| `Background.Fill` | components/Background.web.tsx:172-178 | The k-th six numbers are the segment from the cursor to the k-th node, and the numbers beyond them are unchanged. |
| `Background.CursorLayer.constructor` | components/Background.web.tsx:100-109 | A zeroed buffer of 48 numbers, with nothing drawn or visible. |
| `Background.CursorLayer.OnMouseMove` | components/Background.web.tsx:119-124 | The cursor becomes active and nothing else changes. |
| `Background.CursorLayer.OnMouseLeave` | components/Background.web.tsx:126-132 | The cursor, halo and edges are hidden and the draw range is zero. |
| `Background.CursorLayer.Frame` | components/Background.web.tsx:151-185 | When the cursor is active and the ray hits the plane, the buffer holds segments to the first qualifying nodes, at most eight, and the draw range covers exactly those segments. Otherwise nothing changes. |
| `Background.CursorLayer.WriteCursorEdges` | components/Background.web.tsx:168-184 | The line count is the number of qualifying nodes, capped at 8, and the buffer is filled with their segments. |
| `Background.CursorLayer.WriteSegment` | components/Background.web.tsx:172-178 | Six numbers are written at `base`, and the rest of the buffer is unchanged. |
| `Background.Page.Mount` | components/Background.web.tsx:22-201 | With a mount element, the three listeners are added, the canvas is attached and a frame is scheduled. Without one, nothing changes. |
| `Background.Page.Cleanup` | components/Background.web.tsx:203-213 | This mount's three listeners are removed, the frame is cancelled and the canvas is detached. |
| `Background.Page.MountThenCleanup` | components/Background.web.tsx:203-213 | A mount followed by its cleanup leaves the page's listeners exactly as they were, with no canvas attached and no frame scheduled. |
| `Background.Page.Remount` | components/Background.web.tsx:203-213 | A mount, its cleanup and a second mount, as StrictMode's double effect runs them, leave exactly the first state plus the second mount's listeners, with one canvas attached and a frame scheduled. |

## Left out

- The HTTP layer, controllers, DTO validation and JSON (de)serialisation are not modelled. Requests and responses are datatypes.
- `executionTimeMs` is modelled as 0, as every service passes it. Timing, `requestAnimationFrame`, `setTimeout` (the 1500 ms pause, `101 - speed` delays) and every `await` are sequential steps of a method. User events that interleave with an `await` are not modelled.
- `Random` and `Collections.shuffle`'s random source are not modelled: `Shuffling.Shuffle` may return any permutation that Fisher-Yates can produce. `Math.random` in the background is a parameter.
- `BestFirst.PollMin`: picks any least-key entry. The order in which `java.util.PriorityQueue` breaks ties is not modelled, so the visited order is stated up to ties.
- `LegacyBfsService.Execute`, `LegacyAStarService.Execute`: service/BFSService.java and service/AStarService.java build their responses with a five-argument constructor that neither PathfindingResponse class declares, so those files do not compile as written. The model answers with the same fields and an empty visited path. The queued or closed points are ghost outputs.
- The backend has two request/response families: the root com.algofind classes, used by PathfindingService and GridGraph.from, and the com.algofind.dto classes, used by the algorithm services. The model uses one `Request` and one `Response` datatype for both, because their fields agree.
- `DfsService.Dfs`: recursion depth is unbounded in the model. The Java dfs recurses once per newly visited cell, so on a large open grid (around 10^4 cells on 100x100) it may throw StackOverflowError; that failure is not modelled.
- The legacy services' `int` distances and g-scores are modelled as reals whose steps are all 1.0, and Java `int` overflow is not modelled. These services ignore `allowDiagonal` and barrier weights, which the model reproduces.
- `SQRT2` is the decimal that denotes the double `Math.sqrt(2)`. Floating-point rounding of path prices is not modelled: prices are exact reals.
- Java `int` grid coordinates and sizes are unbounded integers.
- `PathUtils.ReconstructPath`: requires the parent chain to be acyclic, given as ghost fuel. Every search guarantees this, and the Java loop would not terminate otherwise.
- `createGrid` and `GRID_SIZE` (utils/createGrid.ts) are not part of this model. The created grid and the grid size are parameters.
- `UseGrid.UpdateCell`: `cell.weight ?? c.weight` is modelled as taking `cell.weight`, because a cell always carries a weight.
- `UsePathfinding.Stats`: the weight is computed on the grid from before the run, as the handler's closure sees it. The text `${GRID_SIZE} x ${GRID_SIZE}` is kept as the number.
- `UsePathfinding.RunAlgorithm`, `LegacyScreen.RunAlgorithm`: the error and result messages are set in the same render in which `finally` clears `isRunning`. The instruction effect then overwrites them, so the model states the message the flags call for, not "Error running algorithm" or "Path found!".
- `fetchPathfinding` and `fetch` are parameters, the outcome of the call. The request timeout is the `Aborted` outcome.
- `animateCells` (path_finding_game/app/index.tsx:204-225) is never called and is not modelled.
- Layout arithmetic in path_finding_game/app/index.tsx (cell size from window dimensions) and all rendering are not modelled. So are the ControlPanel's hover state and algorithm descriptions.
- Background: three.js objects, the renderer, raycasting (the hit point is an input), mouse NDC coordinates, the group rotation (world positions are an input), the pulse scale and the `onResize` body are not modelled. `Vector3.distanceTo` is a parameter function.
- Background: the cursor-edge buffer is a `Float32Array`, so the positions written there are rounded to single precision. The model writes exact reals into an `array<real>`, and that rounding is not modelled.
