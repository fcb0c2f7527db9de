# Grid path finder: first step of an A* search

This project models the path finder of `resources/public/js/path-finder.js`,
a grid A* search over a tile map. Given a start tile and an end tile, the
search returns only the **first step** from the start towards the end.

Moves go in eight directions:
- orthogonal moves cost 10;
- diagonal moves cost 15;
- a diagonal move is generated only when both orthogonal moves beside it are
  open, so a path never cuts a wall corner.

The search keeps three tables:
- an open list sorted by non-increasing total cost, so that popping the last
  entry takes a cheapest node;
- a cost table keyed by location;
- an open/closed status table keyed by location.

When the end location is popped, the search follows the parent links back
towards the start. It returns the location of the node whose parent is the
start, or the start itself when start and end coincide.

The model is split into modules that follow the program:

- `Grid` (`grid.dfy`): locations, clamping to the map, and the wall test.
- `PathNodes` (`path_nodes.dfy`): search nodes, node construction, and
  equality by location.
- `SparseGrid` (`sparse_grid.dfy`): the two-level table keyed by x and then
  by y.
- `OpenList` (`open_list.dfy`): the sorted insertion, specified as a
  function, with its lemmas.
- `Adjacency` (`adjacency.dfy`): neighbour expansion.
  - A reference definition, `Candidates`, filters a table of the eight moves.
  - The method `FindAdjacentNodes` keeps the four corner flags of `findAdjacentNodes`.
  - The method is proved to return exactly the reference list.
- `Search` (`search.dfy`): the search itself.
  - The class `SearchState` holds the tables that the original program keeps
    in module-level variables.
  - Its methods insert into the open list, pop from it, expand a node and walk
    the parent chain back.
  - The method `FindPath` runs the main loop under the invariant
    `SearchInvariant`. That invariant says:
    - the list is sorted;
    - every parent chain is a walk of generated moves from the start;
    - every open location is listed;
    - every location generated from a closed location has been discovered.

Several modelling decisions differ from the program's own form:

- **Parent references.** They become indices into `expanded`, the sequence of
  expanded nodes. A node's parent always precedes it there.
- **Costs.** A node's direct cost (the sum of the 10 and 15 step costs) is an
  `int`; its total cost, which adds the heuristic distance, is a `real`. The
  heuristic distance is a parameter `dist`.
- **Cost table entries.**
  - The program stores `null` in a popped node's cost entry (line 201). The
    model stores `Cleared` there.
  - The comparison at line 210 treats an absent entry as false and a cleared
    entry as 0, as JavaScript does (`NotCheaper`).
- **An empty open list.** The loop at line 189 never stops on its own: an
  array is always truthy. When the open list runs dry, `pop()` yields
  `undefined` and line 192 dereferences it. So the `return null` at line 222
  is unreachable and the program fails.
  - Here that case is the explicit outcome `Exhausted`.
  - `FindPath` proves that no walk joins start and end when it happens.
  - The model thus replaces that crash, a `TypeError` thrown at line 192,
    with an explicit outcome; the program itself returns nothing there.

## Model

| member | source | states |
|---|---|---|
| Grid.Clamp | resources/public/js/path-finder.js:6-16 | with `min <= max` the result lies in `[min, max]`; it is `v` when `v` is in range and `max` when `v > max`; and it is the value of the range nearest to `v` |
| Grid.MakeGridLocation | resources/public/js/path-finder.js:18-21 | both coordinates are clamped into `[0, mapWidth] x [0, mapHeight]`, inclusive of width and height; a location already there is unchanged |
| Grid.IsWallTile | resources/public/js/path-finder.js:38-45 | false for every coordinate outside `[0, mapWidth) x [0, mapHeight)`; inside, exactly `tiles[x][y] >= wallTileStart` |
| PathNodes.PathNode | resources/public/js/path-finder.js:51-61 | keeps the parent and the direct cost; the location is the clamped one and lies in the map's box; total cost is direct cost plus the heuristic from the end node when one is given, 0 otherwise |
| PathNodes.IsEq | resources/public/js/path-finder.js:47-49 | two nodes are equal exactly when their locations are |
| SparseGrid.HsGet | resources/public/js/path-finder.js:70-75 | absent when the x-row was never set, without failing; present exactly when row and cell exist, and then it is the stored value |
| SparseGrid.HsSet | resources/public/js/path-finder.js:63-68 | reading back the written key gives `v`; every other key reads as before |
| OpenList.InsertIndex | resources/public/js/path-finder.js:81-83 | the splice position lies past every entry that costs strictly more, and the entry found there, if any, costs no more |
| OpenList.Insert | resources/public/js/path-finder.js:85 | the list grows by one; the new node stands at the insertion index; the multiset of entries gains exactly that node |
| OpenList.ScanStopsAtInsertIndex | resources/public/js/path-finder.js:78-83 | the index where the scanning loop stops is the insertion index |
| OpenList.InsertPreservesSorted | resources/public/js/path-finder.js:77-88 | insertion keeps the list in non-increasing total-cost order |
| OpenList.InsertKeepsOthers | resources/public/js/path-finder.js:85 | removing the new node from the result gives back the old list, so the other entries keep their relative order |
| OpenList.InsertAheadOfTies | resources/public/js/path-finder.js:81-85 | the new node goes in front of every entry of equal cost, so those older entries are popped before it |
| OpenList.InsertLocs | resources/public/js/path-finder.js:85 | after insertion the new node's location is listed, and every location listed before still is |
| OpenList.DropLastLocs | resources/public/js/path-finder.js:190 | popping the last node delists no location other than its own |
| Adjacency.KeptUpToMembers | resources/public/js/path-finder.js:90-170 | the move filter keeps exactly the allowed moves of the prefix of the direction table |
| Adjacency.DirectionsAreMoves | resources/public/js/path-finder.js:101-167 | the direction table lists exactly the eight moves of at most one step on each axis |
| Adjacency.GeneratedIsAllowed | resources/public/js/path-finder.js:101-167 | every generated move is one of the eight and passes its bound and wall tests |
| Adjacency.AllowedIsGenerated | resources/public/js/path-finder.js:101-167 | every move among the eight that passes its tests is generated |
| Adjacency.Targets | resources/public/js/path-finder.js:90-170 | one location per generated move, each the clamped shifted location, in the order moves are tried |
| Adjacency.Candidates | resources/public/js/path-finder.js:90-170 | one node per generated move, in order, each built by the node constructor from the move's target and step cost |
| Adjacency.FindAdjacentNodes | resources/public/js/path-finder.js:90-170 | the flag-driven expansion returns exactly the reference candidate list, in the same order |
| Adjacency.OrthogonalMoves | resources/public/js/path-finder.js:91-139 | the four orthogonal pushes happen under the bound and wall tests of `findAdjacentNodes`; each corner flag ends true exactly when both orthogonal tests beside it passed |
| Adjacency.DiagonalMoves | resources/public/js/path-finder.js:141-167 | given the corner flags, each diagonal is appended when both flanking tests passed and its own cell is not a wall |
| Adjacency.CandidatesInPushOrder | resources/public/js/path-finder.js:96-167 | the reference candidates equal the orthogonal pushes followed by the diagonal pushes, as `findAdjacentNodes` performs them |
| Adjacency.OrthogonalPushesPerMove | resources/public/js/path-finder.js:101-139 | the four orthogonal pushes of `findAdjacentNodes` are, move by move, the nodes of the generated orthogonal moves |
| Adjacency.DiagonalPushesPerMove | resources/public/js/path-finder.js:141-167 | the four diagonal pushes of `findAdjacentNodes` are, move by move, the nodes of the generated diagonal moves |
| Adjacency.OrthogonalTests | resources/public/js/path-finder.js:101-131 | each orthogonal move is allowed exactly when the test `findAdjacentNodes` makes for it passes (`x > 0`, `x < 49`, `y > 0`, `y < 49` and not a wall) |
| Adjacency.DiagonalTests | resources/public/js/path-finder.js:96-162 | each diagonal is allowed exactly when both flanking orthogonal tests pass and the diagonal cell is not a wall |
| Adjacency.NeighbourOfEachMove | resources/public/js/path-finder.js:102-166 | each move's node has the shifted location and costs 10 more for an orthogonal move, 15 more for a diagonal one |
| Adjacency.CandidatesUnrolled | resources/public/js/path-finder.js:90-170 | the candidates are the per-move contributions concatenated in the order left, right, up, down, up-left, up-right, down-left, down-right |
| Adjacency.AllowedDirsUnrolled | resources/public/js/path-finder.js:101-167 | the generated moves are the per-move filters concatenated in the order the moves are tried |
| Adjacency.NoCornerCutting | resources/public/js/path-finder.js:96-167 | a generated diagonal implies both flanking orthogonal moves are generated and the diagonal cell is not a wall |
| Adjacency.TargetOfAllowedMove | resources/public/js/path-finder.js:101-167 | an allowed move from inside the box lands inside the box, on no wall, within one step on each axis |
| Adjacency.TargetsAreOpen | resources/public/js/path-finder.js:90-170 | every generated location lies inside the box, is not a wall, and is within one step on each axis |
| Adjacency.CandidateShape | resources/public/js/path-finder.js:102-166 | each generated node has the expanded node as parent, costs 10 or 15 more by move kind, stands at the matching target, and has total cost direct cost plus heuristic |
| Adjacency.AtMostEight | resources/public/js/path-finder.js:90-170 | at most eight nodes are generated |
| Search.ShouldInsert | resources/public/js/path-finder.js:204-216 | a closed location is never queued; an undiscovered one always is; an open one only when strictly cheaper than its recorded cost, or below 0 once that cost was cleared |
| Search.SearchState.constructor | resources/public/js/path-finder.js:178-180 | a search starts with an empty open list, empty tables and no expanded nodes |
| Search.SearchState.AddNodeToOpenList | resources/public/js/path-finder.js:77-88 | the scanning loop splices the node in at the insertion index and records its cost and its open status |
| Search.SearchState.Pop | resources/public/js/path-finder.js:190 | takes off the last node of a non-empty list; an empty list yields nothing |
| Search.SearchState.WalkBack | resources/public/js/path-finder.js:193-198 | the parent-chain loop returns the location of the chain node just before the root, or the node's own when it has no parent |
| Search.SearchState.Expand | resources/public/js/path-finder.js:201-219 | expansion clears the node's cost entry, relaxes every generated node in order, closes its location, and records the node as expanded |
| Search.SearchState.QueueAdjacent | resources/public/js/path-finder.js:203-217 | the loop with its two `continue` tests relaxes the generated nodes one after another |
| Search.FindPath | resources/public/js/path-finder.js:172-223 | returns no path exactly when the raw start or end tile is a wall; a returned step is the start itself when start and end coincide, otherwise a generated move from the start that begins a walk to the end; exhaustion happens only when no walk joins them |
| Search.InitialInvariant | resources/public/js/path-finder.js:178-187 | the tables after queueing the start node satisfy the loop invariant |
| Search.ExpandPreserves | resources/public/js/path-finder.js:190-219 | popping a node that is not the end node and expanding it keeps the loop invariant |
| Search.PopKeeps | resources/public/js/path-finder.js:190-201 | after the pop and the cost clearing, the only open location possibly missing from the list is the popped one |
| Search.CandidatesLinked | resources/public/js/path-finder.js:203 | every generated node points at the newly expanded node and stands on a location generated from it |
| Search.RelaxKeeps | resources/public/js/path-finder.js:204-216 | one relaxation keeps the list sorted and linked and keeps the discovery bookkeeping |
| Search.RelaxDiscovers | resources/public/js/path-finder.js:204-216 | a relaxation discovers the relaxed node's location and forgets no discovered location |
| Search.RelaxUpToKeeps | resources/public/js/path-finder.js:203-217 | relaxing a prefix of the generated nodes keeps what a single relaxation keeps |
| Search.RelaxUpToDiscovers | resources/public/js/path-finder.js:203-217 | relaxing a prefix discovers each relaxed location and forgets none |
| Search.ClosedStaysClosed | resources/public/js/path-finder.js:204-207 | relaxations leave a closed location closed and add no node at it to the open list |
| Search.ExpandCloses | resources/public/js/path-finder.js:201-219 | after an expansion the expanded location is closed, and every location closed before still is |
| Search.CloseKeeps | resources/public/js/path-finder.js:219 | closing the expanded location, once its generated locations are discovered, restores the bookkeeping |
| Search.RelaxAndClose | resources/public/js/path-finder.js:203-219 | relaxing all generated nodes and closing the expanded location restores the bookkeeping |
| Search.GeneratedDiscovered | resources/public/js/path-finder.js:203-217 | once every generated node is discovered, every location generated from the expanded one is |
| Search.GoalReached | resources/public/js/path-finder.js:192-199 | when the end node is popped, the step read back is the start if the popped node has no parent (then start equals end), otherwise a generated move from the start that is the second location of a walk to the end |
| Search.FirstStepOnWalk | resources/public/js/path-finder.js:193-198 | the location read back along a parent chain is generated from the start and is the second location of a walk from the start to the node |
| Search.PathToIsWalk | resources/public/js/path-finder.js:194-197 | the parent chain of a linked node is a walk of generated moves from the start to the node |
| Search.PathToSecond | resources/public/js/path-finder.js:194-198 | below its root, the second location of a parent chain is the one the walk-back loop returns |
| Search.ArenaParentsPrecede | resources/public/js/path-finder.js:194-196 | parent links of expanded nodes point to earlier expanded nodes, so the walk back ends |
| Search.NoWalkWhenExhausted | resources/public/js/path-finder.js:189-190 | with the open list empty, no walk of generated moves joins the start to the end |
| Search.NothingOpen | resources/public/js/path-finder.js:189-190 | with the open list empty, every discovered location is closed |
| Search.DiscoveredAlongWalk | resources/public/js/path-finder.js:203-219 | with nothing open, every location along a walk from a discovered location is discovered |

## Left out

- The heuristic `distance`/`linearCost` (lines 23-31) computes a square root in floating point. Here it is an arbitrary function `dist: (Loc, Loc) -> real`, and total costs are exact reals. No property depends on its value.
- Search.FindPath: does not claim the returned step lies on a shortest path. The heuristic is abstract and may be inadmissible, so no optimality holds in general.
- Search.FindPath: takes a `fuel` bound on the number of expansions and returns `OutOfFuel` when it is spent. The loop of `findPath` has no bound, and its termination is not modelled.
- Search.FindPath: returns `Exhausted` where `findPath` throws on an empty open list, as described above.
- The global configuration `games.robot_rampage.tile_map` and the module-level `tiles` become the value `TileMap` (width, height, first wall code and the tile grid). Nothing is read from globals.
- The module-level `openList`, `nodeCosts` and `nodeStatus` become fields of a fresh `SearchState` per search. State shared between calls, and aliasing of these arrays, is not modelled.
- SparseGrid.HsSet: modelled as a function on a map of maps that the methods reassign to their fields. The in-place mutation of nested JavaScript arrays is not modelled.
- The implicit global `currentNode` (line 190) becomes a local variable.
- Nodes reference their parent by index into the expanded nodes, not by object reference. The `endNode` reference that every other node carries (lines 54, 58 and 103) becomes the `goal` parameter, which holds the end node's location; the end node itself is built without one (line 184).
- Search.SearchState.Expand: `findPath` calls `findAdjacentNodes` once per expansion. The model splits that work into `OrthogonalMoves` and `DiagonalMoves`, and the loop over the result into `QueueAdjacent`. This keeps each proof small and does not change the order of the pushes.
