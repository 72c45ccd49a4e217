# Maze carving and NPC path search, in Dafny

This project models the two algorithms of a small Unity game.

- **The maze generator** (`MazeGenerator`) carves a perfect maze into a `width` x `height` grid. It uses a randomized Prim's-style process:
  - Cells with both coordinates odd are rooms.
  - Cells with exactly one even coordinate are walls between two rooms.
  - Cells with both coordinates even are pillars.
  - The generator opens a random start room and lists the interior walls around it.
  - It then repeatedly takes a random wall out of the list. It carves the wall only when the wall separates a visited room from an unvisited one.
- **The NPC path search** (`NPCController.FindPath`) is an A* search over a 4-connected grid.
  - Steps cost one, and the heuristic is the Manhattan distance over `(x, z)`.
  - It keeps an open list, a closed set, cost-so-far and heuristic maps, and predecessor links.
  - It returns the path from the start to the goal, start excluded.

## Modules

- `Lists`: the `List<T>` removals used by both algorithms, on sequences.
- `MazeGrid`: positions, cells, the generator's state, and the grid initialisation.
- `MazeSteps`: the start room, `AddWallsToList`, `GetNeighbors` and `ProcessWall`.
- `MazeInvariant`: the loop invariant of `GenerateMaze`, its preservation, and termination. It also proves that every room is visited once the wall list is empty.
- `MazeRoutes`: connectivity. Every visited cell has a route of passages from the start room.
- `MazeGenerator`: `GenerateMaze` itself.
- `NpcGrid`: integer positions, the four directions, the heuristic, and walks through a walkable set.
- `AStarSteps`: the search state, selection of the lowest estimate, closing, relaxation, and `ReconstructPath`.
- `AStarInvariant`: the search invariant, its preservation, optimality of the chosen node, and unreachability when the open list runs dry.
- `NPCController`: `FindPath`.

## Modelling choices

- The generator's `Cell` objects become a `map<Pos, Cell>` of immutable `(isWall, isVisited)` records. The map holds one entry for every in-bounds position. A fresh cell is an unvisited wall.
  - The source mutates `cell1`/`cell2` through references into the grid. The model writes the new value into the map at the same position.
- `Random.Range(a, b)` is an arbitrary integer in `[a, b)`, chosen with `:|`. Every property holds for every sequence of draws.
- The generator's oddness test `v % 2 == 1` uses C#'s truncating remainder. `MazeSteps.OddTruncated` models it: it is false for every negative `v`.
- The NPC's `Vector3` positions become integer `(x, z)` pairs. The height is constant and `nodeSize` is 1.
- `IsWalkable`/`IsBlocked` become membership in a finite set `walkable`. The start is never checked for walkability, as in the source.
- `openList.OrderBy(f).First()` is a stable sort followed by taking the first element. `AStarSteps.LowestFCost` returns the first position of lowest `g + h`.
- `ReconstructPath` builds the path from the goal backwards and then reverses it. The model builds the same sequence in forward order directly.
  - The model's `ReconstructPath` takes the cost map as a ghost argument. The costs drop by one along every link, which is why following the links stops.

## Model

| member | source | states |
|---|---|---|
| `Lists.RemoveAt` | Assets/MazeGenerator.cs:57-59 | Removing the entry at an index leaves every other entry, as a multiset |
| `Lists.IndexOf` | Assets/NPC.cs:63 | The index of the first occurrence: it holds the element and nothing before it does |
| `Lists.Remove` | Assets/NPC.cs:63 | `List.Remove` cuts out the first occurrence of a present element, keeping the rest in order, and leaves a list without it unchanged |
| `Lists.RemoveFromDistinct` | Assets/NPC.cs:63 | On a duplicate-free open list, removing the current node leaves exactly the other nodes, still without duplicates |
| `Lists.AppendFresh` | Assets/NPC.cs:77-80 | Appending a neighbour not yet in the open list keeps it free of duplicates |
| `MazeGrid.InitializeGrid` | Assets/MazeGenerator.cs:22-33 | The grid has a cell for exactly the in-bounds positions, each an unvisited wall |
| `MazeSteps.StartCoordinate` | Assets/MazeGenerator.cs:39-44 | An even draw from `[1, size-1)` steps back to the odd number below it; the start coordinate is odd and lies in `[1, size-2]` |
| `MazeSteps.StartState` | Assets/MazeGenerator.cs:36-51 | After the start is opened, it is a visited passage, no other cell changes, and the list holds exactly the interior walls beside the start room; `MazeInvariant.StartEstablishesInv` shows this state meets the loop invariant |
| `MazeSteps.RoomWalls` | Assets/MazeGenerator.cs:67-77 | The walls chosen around a room are each one unit from it; for an in-bounds room they are exactly the interior wall slots beside it |
| `MazeSteps.AddWallsToList` | Assets/MazeGenerator.cs:65-78 | Only appends to the list, at most four entries, each one unit from the room; for an in-bounds room the appended entries are exactly the interior wall slots beside it |
| `MazeSteps.RoomWallsAreInterior` | Assets/MazeGenerator.cs:67-77 | Each of the four bounds checks holds exactly when the wall on that side is an interior wall slot |
| `MazeSteps.GetNeighbors` | Assets/MazeGenerator.cs:115-133 | At most two positions, each one unit away and in bounds; none for a pillar; for an interior wall, exactly the two distinct rooms beside it |
| `MazeSteps.Separates` | Assets/MazeGenerator.cs:88-94 | The condition under which a wall is carved: for an interior wall, it holds exactly when one room beside the wall is visited and another is not |
| `MazeSteps.FarSide` | Assets/MazeGenerator.cs:100-110 | The cell the carving opens is a neighbour of the wall and is unvisited |
| `MazeSteps.ProcessWall` | Assets/MazeGenerator.cs:80-114 | No change unless exactly one neighbour is visited; otherwise the wall becomes a passage, the unvisited neighbour a visited passage, no other cell changes, and that neighbour's walls are listed |
| `MazeInvariant.Step` | Assets/MazeGenerator.cs:57-62 | One iteration takes the drawn entry out of the list, keeps the others in order and appends after them; a wall that separates nothing leaves the grid unchanged and the list one shorter; `MazeInvariant.StepPreservesInv` shows the loop invariant survives |
| `MazeInvariant.StartEstablishesInv` | Assets/MazeGenerator.cs:36-51 | After the start room is opened and its walls listed, the loop invariant holds |
| `MazeInvariant.SkipPreservesInv` | Assets/MazeGenerator.cs:88-94 | An iteration that carves nothing keeps the invariant |
| `MazeInvariant.CarveEffect` | Assets/MazeGenerator.cs:94-111 | A carving iteration opens an interior wall that was untouched and the unvisited room beyond it, and lists exactly the interior walls around that room |
| `MazeInvariant.CarveCells` | Assets/MazeGenerator.cs:94-109 | A carving turns the untouched wall into a passage and the unvisited room into a visited passage, leaving every other cell alone |
| `MazeInvariant.CarveStepCells` | Assets/MazeGenerator.cs:94-109 | When the drawn interior wall separates two rooms, the wall loses its wall flag, the unvisited room beyond it becomes a visited passage, and no other cell changes |
| `MazeInvariant.CarveLists` | Assets/MazeGenerator.cs:104-110 | A carving keeps the remaining entries in order and appends exactly the interior walls around the newly visited room |
| `MazeInvariant.CarveCounts` | Assets/MazeGenerator.cs:97-110 | A carving adds one visited room and one carved wall, and removes one unvisited room, so the count of carved walls stays the count of visited rooms minus one |
| `MazeInvariant.CarveKeepsGridInv` | Assets/MazeGenerator.cs:97-110 | A carving keeps every grid part of the invariant: visited means an open room, boundary and pillars untouched, carved walls join two visited rooms |
| `MazeInvariant.CarveKeepsListInv` | Assets/MazeGenerator.cs:104-110 | After a carving, every listed wall still touches a visited room, and every interior wall beside a visited room is listed or joins two visited rooms |
| `MazeInvariant.CarvePreservesInv` | Assets/MazeGenerator.cs:94-111 | A carving iteration keeps the invariant and leaves one room fewer unvisited |
| `MazeInvariant.StepPreservesInv` | Assets/MazeGenerator.cs:54-63 | Every iteration keeps the invariant, and the unvisited rooms shrink, or stay the same while the list shrinks; so the loop terminates |
| `MazeInvariant.CrossWall` | Assets/MazeGenerator.cs:119-130 | When no wall beside a visited room is left to examine, the rooms two steps from a visited room are visited |
| `MazeInvariant.RoomReached` | Assets/MazeGenerator.cs:54-78 | In that situation every room is visited, by induction on the distance to a visited room |
| `MazeInvariant.AllRoomsReached` | Assets/MazeGenerator.cs:54-63 | When the wall list runs empty, every room is visited |
| `MazeRoutes.StartRoutes` | Assets/MazeGenerator.cs:46-51 | The start room is the only visited cell and is a route to itself |
| `MazeRoutes.CarveExtendsRoutes` | Assets/MazeGenerator.cs:97-110 | Carving extends the route to the visited room through the carved wall to the newly visited room, and keeps every other route open |
| `MazeRoutes.StepExtendsRoutes` | Assets/MazeGenerator.cs:54-63 | Every iteration keeps a route of passages from the start room to every visited cell |
| `MazeRoutes.AllRoomsConnected` | Assets/MazeGenerator.cs:54-63 | Once every room is visited, any two rooms are joined by a route of passages |
| `MazeGenerator.GenerateMaze` | Assets/MazeGenerator.cs:34-64 | The boundary and pillars stay walls; visited means an open room; every room is visited; carved walls join two rooms and number one fewer than the rooms; any two rooms are connected |
| `NpcGrid.Neighbors` | Assets/NPC.cs:67-69 | The four positions examined are exactly the positions one unit step away, tried forward, back, left and right |
| `NpcGrid.CalculateHeuristic` | Assets/NPC.cs:97-100 | The heuristic is never negative and is zero exactly when the two positions coincide |
| `NpcGrid.HeuristicSymmetric` | Assets/NPC.cs:97-100 | The heuristic is symmetric |
| `NpcGrid.HeuristicTriangle` | Assets/NPC.cs:97-100 | The heuristic obeys the triangle inequality, so it is consistent for unit steps |
| `NpcGrid.HeuristicStep` | Assets/NPC.cs:14-16 | Each of the four directions changes the heuristic by exactly one |
| `NpcGrid.UnitStepIsNeighbor` | Assets/NPC.cs:67-69 | A position is one unit step away exactly when it is among the four examined, and exactly when its heuristic distance is one |
| `NpcGrid.WalkCoversHeuristic` | Assets/NPC.cs:97-100 | No walk is shorter than the Manhattan distance between its ends, so the heuristic never overestimates |
| `NpcGrid.StraightWalk` | Assets/NPC.cs:97-100 | A staircase of unit steps inside the rectangle between two positions reaches the second in exactly as many steps as their Manhattan distance |
| `NpcGrid.OpenBoxWalk` | Assets/NPC.cs:97-100 | When that rectangle is walkable, a walk as short as the heuristic exists, so the heuristic is exact on open ground |
| `AStarSteps.InitialSearch` | Assets/NPC.cs:39-50 | Before the loop only the start is open, nothing is closed and nothing is linked; the start costs nothing and its estimate is the full Manhattan distance; `AStarInvariant.InitialSearchInv` shows this meets the search invariant |
| `AStarSteps.LowestFCost` | Assets/NPC.cs:55 | Returns the first position in the open list whose `g + h` is lowest |
| `AStarSteps.CloseCurrent` | Assets/NPC.cs:63-64 | The current node joins the closed set and its first occurrence leaves the open list, the rest keeping their order; costs and links are untouched; `AStarInvariant.CloseKeepsInv` shows the invariant survives |
| `AStarSteps.Relax` | Assets/NPC.cs:67-89 | Unwalkable and closed neighbours are skipped; otherwise the neighbour ends up open with a cost at most one more than the current node's; an open neighbour changes only when going through the current node is strictly cheaper; costs only ever drop; an update records the current node as predecessor, the cost through it, and the heuristic; no other node changes |
| `AStarSteps.ReconstructPath` | Assets/NPC.cs:103-115 | The path ends at the given node and leaves out the first node without a predecessor; each element's predecessor is the element before it; its length is the cost difference between its ends |
| `AStarInvariant.KnownIsWalkable` | Assets/NPC.cs:72-79 | Every open or closed node is walkable or is the start |
| `AStarInvariant.InitialSearchInv` | Assets/NPC.cs:39-50 | The initial open list, empty closed set and start costs satisfy the search invariant |
| `AStarInvariant.LowestIsOptimal` | Assets/NPC.cs:54-55 | The open node of lowest `g + h` has as its cost a length no walk from the start to it beats |
| `AStarInvariant.CloseKeepsInv` | Assets/NPC.cs:63-64 | Closing the chosen non-goal node keeps the invariant, apart from the frontier around that node, and settles one more node |
| `AStarInvariant.CloseKeepsCore` | Assets/NPC.cs:63-64 | Closing keeps costs recorded, open and closed disjoint, links sound, the goal open, and closed costs optimal |
| `AStarInvariant.MovedToClosedKeepsCore` | Assets/NPC.cs:63-64 | Any state that only moves an optimally costed open node to the closed set, keeping the open list duplicate-free, keeps the core of the invariant |
| `AStarInvariant.CloseKeepsFrontier` | Assets/NPC.cs:63-64 | After closing, every walkable node beside an earlier closed node is still closed or open |
| `AStarInvariant.CloseSettles` | Assets/NPC.cs:52-64 | Each iteration closes one more node of the finite walkable set, so the loop terminates |
| `AStarInvariant.RelaxKeepsInv` | Assets/NPC.cs:67-89 | Relaxing each neighbour in turn keeps the invariant and extends the frontier toward that neighbour |
| `AStarInvariant.RelaxKeepsCore` | Assets/NPC.cs:75-88 | An update keeps every lookup defined and every predecessor link closed, one step away, and one cheaper |
| `AStarInvariant.RelaxAdvancesFrontier` | Assets/NPC.cs:71-88 | After relaxing a neighbour it is closed, or open and at most one dearer than the current node |
| `AStarInvariant.FrontierRestored` | Assets/NPC.cs:67-89 | After all four directions the full invariant holds again |
| `AStarInvariant.LinksDescend` | Assets/NPC.cs:86-87 | Along every link the cost drops by exactly one and stays non-negative, so following links terminates |
| `AStarInvariant.LinkedChainIsWalk` | Assets/NPC.cs:107-113 | A chain of linked nodes hanging off the start is a walk from the start through walkable positions |
| `AStarInvariant.PathFromLinks` | Assets/NPC.cs:58-61 | The path read off the links for the goal is a walk from the start through walkable positions, leaves the start out, and is as long as the goal's cost |
| `AStarInvariant.GoalPathIsShortest` | Assets/NPC.cs:55-61 | When the goal is chosen, the path read off the links is empty exactly when the goal is the start; otherwise it is a walk from the start, start excluded; no walk is shorter, and it is no shorter than the Manhattan distance |
| `AStarInvariant.WalkStaysClosed` | Assets/NPC.cs:52-93 | With the open list empty, every walk from the start stays among the closed nodes |
| `AStarInvariant.ExhaustedMeansUnreachable` | Assets/NPC.cs:92-93 | With the open list empty, no walk from the start reaches the goal |
| `NPCController.ExploreNeighbors` | Assets/NPC.cs:67-89 | After all four directions, every walkable neighbour that is not closed is open and costs at most one more than the current node; the closed set is unchanged and the invariant holds again |
| `NPCController.FindPath` | Assets/NPC.cs:36-94 | The result is empty when start and goal coincide, and also exactly when the goal is unreachable. Otherwise it is a shortest walk from the start, start excluded, never shorter than the Manhattan distance, and exactly that long when the rectangle between the two is walkable |

## Left out

- `DrawMaze` (Assets/MazeGenerator.cs:134-152) is left out: it only instantiates prefabs.
- `Start` in both classes, and `Update` and `MoveAlongPath` (Assets/NPC.cs:20-33, 138-154), are left out. They are per-frame game glue, with float distances and `Time.deltaTime`.
- `Player.cs` and `cellstate.cs` are left out. The first is keyboard input and transform movement; the second is a data holder with no behaviour.
- The `Cell` class is not modelled as code. It is assumed to be a reference type whose new instances are unvisited walls.
- Unity's random number distribution and seeding are left out. Draws are arbitrary, so nothing about uniformity or reproducibility is claimed.
- `MazeGenerator.GenerateMaze` requires odd dimensions of at least 3. The source has no such check; its default is 21 x 21. The guarantees are stated only for the dimensions the algorithm is designed for.
- `MazeSteps.ProcessWall` requires the wall to be in bounds. For an out-of-bounds wall the source either finds fewer than two neighbours and does nothing, or finds two and throws when indexing the grid. Every listed wall is interior, so the loop always meets this requirement.
- The specific blocked cells `(2, 1, 2)` and `(3, 1, 3)` (Assets/NPC.cs:127-135) are left out. They become a finite walkable set.
  - The source's walkable region is unbounded. Its search therefore has no bound on its work when the goal cannot be reached, for example when the goal itself is blocked.
  - Over a finite set the search provably stops.
- The start and goal are not rejected when unwalkable, because the source does not reject them. An unwalkable goal is never opened, so the search returns an empty path.
- Float semantics of `Vector3` are left out: approximate `==` versus exact hashing, a `nodeSize` other than 1, and the `(int)` cast in `CalculateHeuristic`. Positions are integers.
- 32-bit overflow of the integer costs is not modelled. Costs are bounded by the number of walkable positions.
- `AStarSteps.ReconstructPath` requires the links to descend in cost. Over arbitrary links, the source's loop would not end on a cycle. Inside the search the links always descend (`AStarInvariant.PathFromLinks`).
