/**
 The A* search's state and its individual steps: the initial state, choosing
 the open node of lowest estimated total cost, closing it, relaxing one
 neighbour, and following the `cameFrom` links back to the start.
 */
module AStarSteps {
  import opened Lists
  import opened NpcGrid

  /**
   The search's bookkeeping: the open list (in insertion order), the closed
   set, the cost-so-far and heuristic maps, and the predecessor links.
   */
  datatype Search = Search(
    openList: seq<Coord>,
    closedList: set<Coord>,
    gCosts: map<Coord, int>,
    hCosts: map<Coord, int>,
    cameFrom: map<Coord, Coord>)

  /**
   Before the first iteration only the start is open, nothing is closed and
   nothing has a predecessor; the start's cost so far is zero and its
   estimate is the whole Manhattan distance to the goal.
   */
  function InitialSearch(start: Coord, end: Coord): (s: Search)
    ensures forall c :: c in s.openList <==> c == start
    ensures s.closedList == {} && s.cameFrom == map[]
    ensures s.gCosts.Keys == s.hCosts.Keys == {start}
    ensures s.gCosts[start] == 0 && s.hCosts[start] == CalculateHeuristic(start, end)
  {
    Search([start], {}, map[start := 0], map[start := CalculateHeuristic(start, end)], map[])
  }

  /** Every open node has both costs recorded, so the estimate of each can be looked up. */
  ghost predicate OpenCosted(openList: seq<Coord>, gCosts: map<Coord, int>, hCosts: map<Coord, int>) {
    forall c :: c in openList ==> c in gCosts && c in hCosts
  }

  /** The estimated total cost through `c`. */
  function FCost(gCosts: map<Coord, int>, hCosts: map<Coord, int>, c: Coord): int
    requires c in gCosts && c in hCosts
  {
    gCosts[c] + hCosts[c]
  }

  /**
   Index `i` is where a stable sort of the open list by estimated total cost
   puts its first element: no entry is cheaper, and every earlier entry is
   strictly dearer.
   */
  ghost predicate FirstLowest(openList: seq<Coord>, gCosts: map<Coord, int>, hCosts: map<Coord, int>, i: int)
    requires OpenCosted(openList, gCosts, hCosts)
  {
    && 0 <= i < |openList|
    && (forall j :: 0 <= j < |openList| ==> FCost(gCosts, hCosts, openList[i]) <= FCost(gCosts, hCosts, openList[j]))
    && (forall j :: 0 <= j < i ==> FCost(gCosts, hCosts, openList[i]) < FCost(gCosts, hCosts, openList[j]))
  }

  /**
   Scans the open list once and returns the position of the first entry of
   lowest estimated total cost, the entry a stable ordering by that cost
   puts first.
   */
  method LowestFCost(openList: seq<Coord>, gCosts: map<Coord, int>, hCosts: map<Coord, int>) returns (i: int)
    requires |openList| > 0
    requires OpenCosted(openList, gCosts, hCosts)
    ensures FirstLowest(openList, gCosts, hCosts, i)
  {
    i := 0;
    var k := 1;
    while k < |openList|
      invariant 0 <= i < k <= |openList|
      invariant forall j :: 0 <= j < k ==> FCost(gCosts, hCosts, openList[i]) <= FCost(gCosts, hCosts, openList[j])
      invariant forall j :: 0 <= j < i ==> FCost(gCosts, hCosts, openList[i]) < FCost(gCosts, hCosts, openList[j])
    {
      if FCost(gCosts, hCosts, openList[k]) < FCost(gCosts, hCosts, openList[i]) {
        i := k;
      }
      k := k + 1;
    }
  }

  /**
   Moves `current` from the open list to the closed set: its first occurrence,
   if any, leaves the open list, everything else stays in order, and the
   costs and links are untouched.
   */
  function CloseCurrent(s: Search, current: Coord): (s': Search)
    ensures s'.closedList == s.closedList + {current}
    ensures current !in s.openList ==> s'.openList == s.openList
    ensures current in s.openList ==>
              var k := IndexOf(s.openList, current);
              s'.openList == s.openList[..k] + s.openList[k + 1..]
    ensures s'.gCosts == s.gCosts && s'.hCosts == s.hCosts && s'.cameFrom == s.cameFrom
  {
    s.(openList := Remove(s.openList, current), closedList := s.closedList + {current})
  }

  /**
   Looks at one `neighbor` of the closed node `current`. A neighbour that is
   not walkable or already closed is skipped, and so is an open one whose
   recorded cost is no worse than going through `current`. Otherwise the
   neighbour is opened if need be and gets `current` as predecessor, the cost
   through `current`, and its heuristic.
   */
  function Relax(s: Search, current: Coord, neighbor: Coord, end: Coord, walkable: set<Coord>): (s': Search)
    requires current in s.gCosts
    requires neighbor in s.openList ==> neighbor in s.gCosts
    ensures s'.closedList == s.closedList
    ensures neighbor !in walkable || neighbor in s.closedList ==> s' == s
    ensures forall n :: n in s'.openList <==> n in s.openList || (n == neighbor && n in walkable && n !in s.closedList)
    ensures s'.openList == s.openList || (neighbor !in s.openList && s'.openList == s.openList + [neighbor])
    ensures forall n :: n != neighbor ==> (n in s'.gCosts <==> n in s.gCosts) && (n in s.gCosts ==> s'.gCosts[n] == s.gCosts[n])
    ensures forall n :: n != neighbor ==> (n in s'.hCosts <==> n in s.hCosts) && (n in s.hCosts ==> s'.hCosts[n] == s.hCosts[n])
    ensures forall n :: n != neighbor ==> (n in s'.cameFrom <==> n in s.cameFrom) && (n in s.cameFrom ==> s'.cameFrom[n] == s.cameFrom[n])
    ensures neighbor in s.openList ==> neighbor in s'.gCosts && s'.gCosts[neighbor] <= s.gCosts[neighbor]
    ensures neighbor in s.openList && s' != s ==> s.gCosts[current] + 1 < s.gCosts[neighbor]
    ensures neighbor in walkable && neighbor !in s.closedList ==>
              neighbor in s'.gCosts && s'.gCosts[neighbor] <= s.gCosts[current] + 1
    ensures s' != s ==>
              && neighbor in s'.cameFrom && s'.cameFrom[neighbor] == current
              && neighbor in s'.gCosts && s'.gCosts[neighbor] == s.gCosts[current] + 1
              && neighbor in s'.hCosts && s'.hCosts[neighbor] == CalculateHeuristic(neighbor, end)
  {
    if neighbor !in walkable || neighbor in s.closedList then
      s
    else
      var tentativeGCost := s.gCosts[current] + 1;
      if neighbor in s.openList && tentativeGCost >= s.gCosts[neighbor] then
        s
      else
        var openList := if neighbor !in s.openList then s.openList + [neighbor] else s.openList;
        Search(
          openList,
          s.closedList,
          s.gCosts[neighbor := tentativeGCost],
          s.hCosts[neighbor := CalculateHeuristic(neighbor, end)],
          s.cameFrom[neighbor := current])
  }

  /**
   Along every link the cost so far drops by exactly one and stays
   non-negative, so following links from any node must stop.
   */
  ghost predicate Descending(cameFrom: map<Coord, Coord>, gCosts: map<Coord, int>) {
    forall n :: n in cameFrom ==>
      && n in gCosts && cameFrom[n] in gCosts
      && gCosts[cameFrom[n]] >= 0 && gCosts[n] == gCosts[cameFrom[n]] + 1
  }

  /**
   Follows the predecessor links back from `current` until a node without a
   predecessor is reached, and returns the nodes passed in forward order:
   the origin is left out and `current` comes last. Every element has a
   link, each element's link points at the element before it, and there are
   as many elements as the cost so far grows from the origin to `current`.
   */
  function ReconstructPath(cameFrom: map<Coord, Coord>, current: Coord, ghost gCosts: map<Coord, int>): (r: seq<Coord>)
    requires Descending(cameFrom, gCosts) && current in gCosts
    ensures r == [] <==> current !in cameFrom
    ensures r != [] ==> r[|r| - 1] == current
    ensures forall i :: 0 <= i < |r| ==> r[i] in cameFrom
    ensures forall i :: 0 < i < |r| ==> cameFrom[r[i]] == r[i - 1]
    ensures var origin := if r == [] then current else cameFrom[r[0]];
            origin in gCosts && origin !in cameFrom && |r| == gCosts[current] - gCosts[origin]
    decreases if current in cameFrom then gCosts[current] else 0
  {
    if current in cameFrom then
      ReconstructPath(cameFrom, cameFrom[current], gCosts) + [current]
    else
      []
  }
}
