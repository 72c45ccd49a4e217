/**
 The NPC's A* path search from `start` to `end` over a 4-connected grid with
 unit step costs, restricted to a finite set of walkable positions.
 */
module NPCController {
  import opened NpcGrid
  import opened AStarSteps
  import opened AStarInvariant

  /**
   Searches for a path from `start` to `end`. The result leaves the start out
   and ends at the goal; it is empty when start and goal coincide and when
   the goal cannot be reached. A non-empty result is a walk through walkable
   positions, each a unit step from the one before, and no walk from the
   start to the goal is shorter, nor is the result shorter than the
   Manhattan distance between them. When nothing in the rectangle between
   start and goal is blocked, the result is exactly that distance long.
   */
  method FindPath(start: Coord, end: Coord, walkable: set<Coord>) returns (path: seq<Coord>)
    ensures start == end ==> path == []
    ensures path == [] && start != end ==> forall w :: !WalkTo(start, w, end, walkable)
    ensures path != [] ==> WalkTo(start, path, end, walkable) && start !in path
    ensures path != [] ==> forall w :: WalkTo(start, w, end, walkable) ==> |path| <= |w|
    ensures path != [] ==> |path| >= CalculateHeuristic(start, end)
    ensures (forall c :: InBox(c, start, end) ==> c in walkable) ==> |path| == CalculateHeuristic(start, end)
  {
    if forall c :: InBox(c, start, end) ==> c in walkable {
      OpenBoxWalk(start, end, walkable);
    }
    var s := InitialSearch(start, end);
    InitialSearchInv(start, end, walkable);
    while |s.openList| > 0
      invariant Inv(s, start, end, walkable)
      decreases |Unsettled(s, start, walkable)|
    {
      var i := LowestFCost(s.openList, s.gCosts, s.hCosts);
      var current := s.openList[i];
      if current == end {
        GoalPathIsShortest(s, start, end, walkable, i);
        path := ReconstructPath(s.cameFrom, current, s.gCosts);
        return;
      }
      CloseKeepsInv(s, start, end, walkable, i);
      s := CloseCurrent(s, current);
      s := ExploreNeighbors(s, start, end, walkable, current);
    }
    path := [];
    ExhaustedMeansUnreachable(s, start, end, walkable);
  }

  /**
   Relaxes the four neighbours of the freshly closed node `current` in turn.
   Afterwards every walkable neighbour of `current` that is not closed is
   open with a cost so far at most one more than that of `current`, the
   closed set is unchanged, and the search invariant holds again.
   */
  method ExploreNeighbors(s0: Search, start: Coord, end: Coord, walkable: set<Coord>, current: Coord) returns (s: Search)
    requires Core(s0, start, end, walkable) && current in s0.closedList
    requires FrontierExcept(s0, walkable, current, Neighbors(current))
    ensures Inv(s, start, end, walkable)
    ensures s.closedList == s0.closedList
    ensures forall q :: q in Neighbors(current) && q in walkable && q !in s.closedList ==>
              q in s.openList && s.gCosts[q] <= s.gCosts[current] + 1
  {
    s := s0;
    assert Neighbors(current)[0..] == Neighbors(current);
    for k := 0 to |Directions|
      invariant Core(s, start, end, walkable) && current in s.closedList
      invariant FrontierExcept(s, walkable, current, Neighbors(current)[k..])
      invariant s.closedList == s0.closedList
    {
      var neighbor := Add(current, Directions[k]);
      RelaxKeepsInv(s, start, end, walkable, current, k);
      s := Relax(s, current, neighbor, end, walkable);
    }
    FrontierRestored(s, start, end, walkable, current);
    forall q | q in Neighbors(current) && q in walkable && q !in s.closedList
      ensures q in s.openList && s.gCosts[q] <= s.gCosts[current] + 1
    {
      UnitStepIsNeighbor(current, q);
      assert FrontierOk(s, walkable, current, q);
    }
  }
}
