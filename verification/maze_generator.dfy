/**
 The randomized Prim's-style maze generator: from an all-wall grid it opens a
 random start room and then examines randomly chosen walls from the wall list
 until the list is empty.

 Every random draw is an arbitrary choice in the draw's range, so every
 property below holds whatever numbers the random source produces.
 */
module MazeGenerator {
  import opened Lists
  import opened MazeGrid
  import opened MazeSteps
  import opened MazeInvariant
  import opened MazeRoutes

  /**
   Carves a perfect maze into the freshly initialized grid of `init`: on
   return the wall list is empty, the boundary and the pillars are untouched
   walls, every room is a visited passage, the only other passages are
   interior walls between two rooms, and there is exactly one fewer of them
   than there are rooms. Any two rooms are joined by a route of passages, so
   the passages form a spanning tree over the rooms.
   */
  method GenerateMaze(init: Maze) returns (m: Maze)
    requires ValidDims(init.width, init.height) && WellFormed(init)
    requires forall p :: p in init.grid ==> init.grid[p] == NewCell
    ensures m.width == init.width && m.height == init.height && m.grid.Keys == init.grid.Keys
    ensures m.wallList == []
    ensures forall p :: p in m.grid && (OnBoundary(m.width, m.height, p) || IsPillar(p)) ==> m.grid[p] == NewCell
    ensures forall p :: p in m.grid ==> (m.grid[p].isVisited <==> IsRoom(p) && !m.grid[p].isWall)
    ensures forall p :: p in m.grid && IsRoom(p) ==> m.grid[p].isVisited && !m.grid[p].isWall
    ensures forall p :: p in m.grid && !IsRoom(p) && !m.grid[p].isWall ==>
              InteriorWall(m.width, m.height, p) && BothVisited(m, p)
    ensures |CarvedWalls(m)| + 1 == |VisitedCells(m)|
    ensures forall a, b :: a in m.grid && IsRoom(a) && b in m.grid && IsRoom(b) ==>
              exists route :: PassageRoute(m, a, route, b)
  {
    // Random.Range(1, width - 1) and Random.Range(1, height - 1)
    var drawX :| 1 <= drawX < init.width - 1;
    var drawY :| 1 <= drawY < init.height - 1;
    var start := Pos(StartCoordinate(drawX, init.width), StartCoordinate(drawY, init.height));
    StartEstablishesInv(init, start);
    m := StartState(init, start);
    ghost var routes := map[start := [start]];
    StartRoutes(init, start);
    while |m.wallList| > 0
      invariant Inv(m)
      invariant RoutesFrom(m, start, routes)
      invariant m.width == init.width && m.height == init.height && m.grid.Keys == init.grid.Keys
      decreases |UnvisitedRooms(m)|, |m.wallList|
    {
      // Random.Range(0, wallList.Count)
      var randomIndex :| 0 <= randomIndex < |m.wallList|;
      StepPreservesInv(m, randomIndex);
      routes := StepExtendsRoutes(m, randomIndex, start, routes);
      var wall := m.wallList[randomIndex];
      m := m.(wallList := RemoveAt(m.wallList, randomIndex));
      m := ProcessWall(m, wall);
    }
    AllRoomsReached(m);
    AllRoomsConnected(m, start, routes);
  }
}
