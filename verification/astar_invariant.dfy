/**
 The invariant of the A* search loop, its preservation by each step, and
 what it says once the goal is chosen or the open list runs dry.

 Unit step costs and the Manhattan heuristic make the heuristic consistent,
 so a node is closed only once its cost so far is the length of a shortest
 walk to it; the frontier part of the invariant is what makes that argument
 go through.
 */
module AStarInvariant {
  import opened Lists
  import opened NpcGrid
  import opened AStarSteps

  /** The node has been discovered: it is open or closed. */
  ghost predicate Known(s: Search, n: Coord) {
    n in s.openList || n in s.closedList
  }

  /** Both costs of every discovered node are recorded, the heuristic one being the Manhattan distance to `end`. */
  ghost predicate CostsRecorded(s: Search, end: Coord) {
    forall n :: Known(s, n) ==>
      && n in s.gCosts && n in s.hCosts
      && s.gCosts[n] >= 0 && s.hCosts[n] == CalculateHeuristic(n, end)
  }

  /** The open list holds no node twice and no closed node. */
  ghost predicate ListsDisjoint(s: Search) {
    NoDuplicates(s.openList) && forall n :: n in s.openList ==> n !in s.closedList
  }

  /** The start costs nothing, has no predecessor, and is closed from the second iteration on. */
  ghost predicate StartRooted(s: Search, start: Coord) {
    && start in s.gCosts && s.gCosts[start] == 0 && start !in s.cameFrom
    && (start in s.closedList || (s.openList == [start] && s.closedList == {}))
  }

  /** The link of `n` points at a closed node one unit step away whose cost so far is one less. */
  ghost predicate LinkOk(s: Search, n: Coord, walkable: set<Coord>)
    requires n in s.cameFrom
  {
    var p := s.cameFrom[n];
    && p in s.closedList && UnitStep(p, n) && n in walkable
    && n in s.gCosts && p in s.gCosts && s.gCosts[n] == s.gCosts[p] + 1
  }

  /** Exactly the discovered nodes other than the start have a link, and every link is sound. */
  ghost predicate LinksOk(s: Search, start: Coord, walkable: set<Coord>) {
    && (forall n :: n in s.cameFrom <==> Known(s, n) && n != start)
    && (forall n :: n in s.cameFrom ==> LinkOk(s, n, walkable))
  }

  /** No walk from the start reaches a closed node in fewer steps than its cost so far. */
  ghost predicate ClosedOptimal(s: Search, start: Coord, walkable: set<Coord>) {
    forall n, w :: n in s.closedList && WalkTo(start, w, n, walkable) ==> n in s.gCosts && s.gCosts[n] <= |w|
  }

  /** The invariant without its frontier part. */
  ghost predicate Core(s: Search, start: Coord, end: Coord, walkable: set<Coord>) {
    && CostsRecorded(s, end)
    && ListsDisjoint(s)
    && StartRooted(s, start)
    && LinksOk(s, start, walkable)
    && end !in s.closedList
    && ClosedOptimal(s, start, walkable)
  }

  /**
   The walkable node `q` beside the closed node `p` is closed, or open with a
   cost so far at most one more than that of `p`.
   */
  ghost predicate FrontierOk(s: Search, walkable: set<Coord>, p: Coord, q: Coord) {
    q in walkable && q !in s.closedList ==>
      q in s.openList && p in s.gCosts && q in s.gCosts && s.gCosts[q] <= s.gCosts[p] + 1
  }

  /** The frontier condition holds around every closed node, except toward the `pending` neighbours of `current`. */
  ghost predicate FrontierExcept(s: Search, walkable: set<Coord>, current: Coord, pending: seq<Coord>) {
    forall p, q :: p in s.closedList && UnitStep(p, q) && !(p == current && q in pending) ==> FrontierOk(s, walkable, p, q)
  }

  /** The invariant at the top of the search loop. */
  ghost predicate Inv(s: Search, start: Coord, end: Coord, walkable: set<Coord>) {
    Core(s, start, end, walkable) && FrontierExcept(s, walkable, start, [])
  }

  /** The nodes the search may still close. */
  ghost function Unsettled(s: Search, start: Coord, walkable: set<Coord>): set<Coord> {
    (walkable + {start}) - s.closedList
  }

  /** A discovered node is walkable or the start. */
  lemma KnownIsWalkable(s: Search, start: Coord, walkable: set<Coord>, n: Coord)
    requires LinksOk(s, start, walkable) && Known(s, n)
    ensures n in walkable || n == start
  {
    if n != start {
      assert n in s.cameFrom;
    }
  }

  /** The search starts in a state that satisfies the invariant. */
  lemma InitialSearchInv(start: Coord, end: Coord, walkable: set<Coord>)
    ensures Inv(InitialSearch(start, end), start, end, walkable)
  {
    var s := InitialSearch(start, end);
    assert NoDuplicates(s.openList) by {
      assert multiset(s.openList) == multiset{start};
    }
  }

  /**
   Within a walk from a closed start to a node outside `closed`, some
   waypoint is the first one outside `closed`: the one before it (or the start) is closed.
   */
  lemma FirstUnclosed(start: Coord, w: seq<Coord>, closed: set<Coord>) returns (k: int)
    requires start in closed && EndOf(start, w) !in closed
    ensures 0 <= k < |w| && w[k] !in closed
    ensures (if k == 0 then start else w[k - 1]) in closed
  {
    k := 0;
    while w[k] in closed
      invariant 0 <= k < |w|
      invariant (if k == 0 then start else w[k - 1]) in closed
      decreases |w| - k
    {
      k := k + 1;
    }
  }

  /**
   The open node of lowest estimated total cost already has the cost of a
   shortest walk to it: a walk to it leaves the closed nodes at some open
   node whose estimate bounds the chosen node's from above.
   */
  lemma LowestIsOptimal(s: Search, start: Coord, end: Coord, walkable: set<Coord>, i: int)
    requires Inv(s, start, end, walkable)
    requires OpenCosted(s.openList, s.gCosts, s.hCosts)
    requires FirstLowest(s.openList, s.gCosts, s.hCosts, i)
    ensures forall w :: WalkTo(start, w, s.openList[i], walkable) ==> s.gCosts[s.openList[i]] <= |w|
  {
    var c := s.openList[i];
    forall w | WalkTo(start, w, c, walkable)
      ensures s.gCosts[c] <= |w|
    {
      if start in s.closedList {
        var k := FirstUnclosed(start, w, s.closedList);
        var pred := if k == 0 then start else w[k - 1];
        var m := w[k];
        WalkPrefix(start, w, k, walkable);
        assert |w[..k]| == k;
        assert s.gCosts[pred] <= k;
        assert UnitStep(pred, m);
        assert FrontierOk(s, walkable, pred, m);
        WalkSuffix(start, w, k, walkable);
        WalkCoversHeuristic(m, w[k + 1..], walkable);
        HeuristicTriangle(m, c, end);
        var j :| 0 <= j < |s.openList| && s.openList[j] == m;
        assert FCost(s.gCosts, s.hCosts, c) <= FCost(s.gCosts, s.hCosts, m);
      }
    }
  }

  /**
   Closing the chosen node keeps the invariant, except that the frontier
   around the node itself is not yet in place, and settles one more node.
   */
  lemma CloseKeepsInv(s: Search, start: Coord, end: Coord, walkable: set<Coord>, i: int)
    requires Inv(s, start, end, walkable)
    requires OpenCosted(s.openList, s.gCosts, s.hCosts)
    requires FirstLowest(s.openList, s.gCosts, s.hCosts, i)
    requires s.openList[i] != end
    ensures var s' := CloseCurrent(s, s.openList[i]);
            && Core(s', start, end, walkable)
            && FrontierExcept(s', walkable, s.openList[i], Neighbors(s.openList[i]))
            && s.openList[i] in s'.closedList
            && |Unsettled(s', start, walkable)| < |Unsettled(s, start, walkable)|
  {
    var c := s.openList[i];
    LowestIsOptimal(s, start, end, walkable, i);
    RemoveFromDistinct(s.openList, c);
    CloseKeepsCore(s, start, end, walkable, c);
    CloseKeepsFrontier(s, walkable, start, c);
    KnownIsWalkable(s, start, walkable, c);
    CloseSettles(s, start, walkable, c);
  }

  /** Closing an open node whose cost so far is that of a shortest walk keeps the core of the invariant. */
  lemma CloseKeepsCore(s: Search, start: Coord, end: Coord, walkable: set<Coord>, c: Coord)
    requires Core(s, start, end, walkable) && c in s.openList && c != end
    requires forall w :: WalkTo(start, w, c, walkable) ==> s.gCosts[c] <= |w|
    requires forall y :: y in Remove(s.openList, c) <==> y in s.openList && y != c
    requires NoDuplicates(Remove(s.openList, c))
    ensures Core(CloseCurrent(s, c), start, end, walkable)
  {
    MovedToClosedKeepsCore(s, CloseCurrent(s, c), start, end, walkable, c);
  }

  /**
   Any state that differs from `s` only by moving the open node `c`, a node no
   walk reaches more cheaply, from the open list to the closed set keeps the
   core of the invariant.
   */
  lemma MovedToClosedKeepsCore(s: Search, s': Search, start: Coord, end: Coord, walkable: set<Coord>, c: Coord)
    requires Core(s, start, end, walkable) && c in s.openList && c != end
    requires forall w :: WalkTo(start, w, c, walkable) ==> s.gCosts[c] <= |w|
    requires s'.closedList == s.closedList + {c}
    requires forall y :: y in s'.openList <==> y in s.openList && y != c
    requires NoDuplicates(s'.openList)
    requires s'.gCosts == s.gCosts && s'.hCosts == s.hCosts && s'.cameFrom == s.cameFrom
    ensures Core(s', start, end, walkable)
  {
    assert forall n :: Known(s', n) <==> Known(s, n);
    assert LinksOk(s', start, walkable) by {
      forall n | n in s'.cameFrom
        ensures LinkOk(s', n, walkable)
      {
        assert LinkOk(s, n, walkable);
      }
    }
    assert ClosedOptimal(s', start, walkable) by {
      forall n, w | n in s'.closedList && WalkTo(start, w, n, walkable)
        ensures n in s'.gCosts && s'.gCosts[n] <= |w|
      {
        if n != c {
          assert n in s.closedList;
        }
      }
    }
  }

  /** After closing `c`, the frontier holds everywhere except around `c` itself. */
  lemma CloseKeepsFrontier(s: Search, walkable: set<Coord>, start: Coord, c: Coord)
    requires FrontierExcept(s, walkable, start, [])
    requires forall y :: y in Remove(s.openList, c) <==> y in s.openList && y != c
    ensures FrontierExcept(CloseCurrent(s, c), walkable, c, Neighbors(c))
  {
    var s' := CloseCurrent(s, c);
    forall p, q | p in s'.closedList && UnitStep(p, q) && !(p == c && q in Neighbors(c))
      ensures FrontierOk(s', walkable, p, q)
    {
      UnitStepIsNeighbor(p, q);
      assert FrontierOk(s, walkable, p, q);
    }
  }

  /** Closing a discovered node that was not closed settles it. */
  lemma CloseSettles(s: Search, start: Coord, walkable: set<Coord>, c: Coord)
    requires c in walkable || c == start
    requires c !in s.closedList
    ensures c in CloseCurrent(s, c).closedList
    ensures |Unsettled(CloseCurrent(s, c), start, walkable)| < |Unsettled(s, start, walkable)|
  {
    assert Unsettled(CloseCurrent(s, c), start, walkable) == Unsettled(s, start, walkable) - {c};
  }

  /**
   Relaxing the next pending neighbour of the freshly closed `current` keeps
   the invariant's core and puts the frontier in place toward that neighbour.
   */
  lemma RelaxKeepsInv(s: Search, start: Coord, end: Coord, walkable: set<Coord>, current: Coord, k: int)
    requires Core(s, start, end, walkable) && current in s.closedList
    requires 0 <= k < |Directions|
    requires FrontierExcept(s, walkable, current, Neighbors(current)[k..])
    ensures var s' := Relax(s, current, Neighbors(current)[k], end, walkable);
            && Core(s', start, end, walkable)
            && FrontierExcept(s', walkable, current, Neighbors(current)[k + 1..])
            && s'.closedList == s.closedList
  {
    var q := Neighbors(current)[k];
    var s' := Relax(s, current, q, end, walkable);
    if s' != s {
      assert q in walkable && q !in s.closedList;
      assert start in s.closedList;
      RelaxKeepsCore(s, s', start, end, walkable, current, q);
    }
    RelaxAdvancesFrontier(s, s', end, walkable, current, Neighbors(current), k);
  }

  /**
   Relaxing the neighbour at index `k` of `order` puts the frontier in place
   between `current` and that neighbour and keeps it everywhere else.
   */
  lemma RelaxAdvancesFrontier(s: Search, s': Search, end: Coord, walkable: set<Coord>, current: Coord, order: seq<Coord>, k: int)
    requires current in s.gCosts && current in s.closedList
    requires forall n :: n in s.openList ==> n in s.gCosts
    requires forall n :: n in s.closedList ==> n in s.gCosts
    requires 0 <= k < |order|
    requires FrontierExcept(s, walkable, current, order[k..])
    requires s' == Relax(s, current, order[k], end, walkable)
    ensures FrontierExcept(s', walkable, current, order[k + 1..])
  {
    forall p, q | p in s'.closedList && UnitStep(p, q) && !(p == current && q in order[k + 1..])
      ensures FrontierOk(s', walkable, p, q)
    {
      if !(p == current && q == order[k]) {
        assert FrontierOk(s, walkable, p, q);
      }
    }
  }

  /** The core of the invariant survives a relaxation that changed the state. */
  lemma RelaxKeepsCore(s: Search, s': Search, start: Coord, end: Coord, walkable: set<Coord>, current: Coord, q: Coord)
    requires Core(s, start, end, walkable) && current in s.closedList && start in s.closedList
    requires q in Neighbors(current) && q in walkable && q !in s.closedList
    requires s' == Relax(s, current, q, end, walkable) && s' != s
    ensures Core(s', start, end, walkable)
  {
    UnitStepIsNeighbor(current, q);
    if q !in s.openList {
      AppendFresh(s.openList, q);
    }
    assert forall n :: Known(s', n) <==> Known(s, n) || n == q;
    assert CostsRecorded(s', end);
    assert LinksOk(s', start, walkable) by {
      forall n | n in s'.cameFrom
        ensures LinkOk(s', n, walkable)
      {
        if n != q {
          assert LinkOk(s, n, walkable);
        }
      }
    }
  }

  /** Once every neighbour of the closed node has been relaxed, the full invariant holds again. */
  lemma FrontierRestored(s: Search, start: Coord, end: Coord, walkable: set<Coord>, current: Coord)
    requires Core(s, start, end, walkable)
    requires FrontierExcept(s, walkable, current, Neighbors(current)[|Directions|..])
    ensures Inv(s, start, end, walkable)
  {
    assert Neighbors(current)[|Directions|..] == [];
  }

  /**
   The path read off the links when the goal is chosen is a walk from the
   start to the goal that leaves the start out and whose length is the
   goal's cost so far.
   */
  lemma PathFromLinks(s: Search, start: Coord, end: Coord, walkable: set<Coord>)
    requires Core(s, start, end, walkable) && end in s.openList
    ensures Descending(s.cameFrom, s.gCosts) && end in s.gCosts
    ensures var r := ReconstructPath(s.cameFrom, end, s.gCosts);
            WalkTo(start, r, end, walkable) && start !in r && |r| == s.gCosts[end]
  {
    LinksDescend(s, start, walkable);
    var r := ReconstructPath(s.cameFrom, end, s.gCosts);
    var origin := if r == [] then end else s.cameFrom[r[0]];
    assert Known(s, origin) by {
      if r != [] {
        assert LinkOk(s, r[0], walkable);
      }
    }
    assert origin == start;
    LinkedChainIsWalk(s, start, walkable, r);
  }

  /** Costs drop by one along every link and never go below zero. */
  lemma LinksDescend(s: Search, start: Coord, walkable: set<Coord>)
    requires LinksOk(s, start, walkable)
    requires forall n :: n in s.closedList ==> n in s.gCosts && s.gCosts[n] >= 0
    ensures Descending(s.cameFrom, s.gCosts)
  {
    forall n | n in s.cameFrom
      ensures n in s.gCosts && s.cameFrom[n] in s.gCosts
      ensures s.gCosts[s.cameFrom[n]] >= 0 && s.gCosts[n] == s.gCosts[s.cameFrom[n]] + 1
    {
      assert LinkOk(s, n, walkable);
    }
  }

  /** A chain of linked nodes that starts from a link to `start` is a walk from `start`. */
  lemma LinkedChainIsWalk(s: Search, start: Coord, walkable: set<Coord>, r: seq<Coord>)
    requires forall n :: n in s.cameFrom ==> LinkOk(s, n, walkable)
    requires forall i :: 0 <= i < |r| ==> r[i] in s.cameFrom
    requires forall i :: 0 < i < |r| ==> s.cameFrom[r[i]] == r[i - 1]
    requires r != [] ==> s.cameFrom[r[0]] == start
    ensures IsWalk(start, r, walkable)
  {
    forall i | 0 <= i < |r|
      ensures r[i] in walkable
      ensures UnitStep(s.cameFrom[r[i]], r[i])
    {
      assert LinkOk(s, r[i], walkable);
    }
  }

  /**
   When the goal is the chosen node, the path read off the links is a
   shortest walk from the start to the goal, start excluded; it is empty
   exactly when the goal is the start.
   */
  lemma GoalPathIsShortest(s: Search, start: Coord, end: Coord, walkable: set<Coord>, i: int)
    requires Inv(s, start, end, walkable)
    requires OpenCosted(s.openList, s.gCosts, s.hCosts)
    requires FirstLowest(s.openList, s.gCosts, s.hCosts, i) && s.openList[i] == end
    ensures Descending(s.cameFrom, s.gCosts) && end in s.gCosts
    ensures var r := ReconstructPath(s.cameFrom, end, s.gCosts);
            && (r == [] <==> start == end)
            && (r != [] ==> WalkTo(start, r, end, walkable) && start !in r)
            && (forall w :: WalkTo(start, w, end, walkable) ==> |r| <= |w|)
            && |r| >= CalculateHeuristic(start, end)
  {
    LowestIsOptimal(s, start, end, walkable, i);
    PathFromLinks(s, start, end, walkable);
    var r := ReconstructPath(s.cameFrom, end, s.gCosts);
    WalkCoversHeuristic(start, r, walkable);
  }

  /** With every node beside a closed one closed in turn, each waypoint of a walk from the start is closed. */
  lemma {:induction false} WalkStaysClosed(s: Search, start: Coord, end: Coord, walkable: set<Coord>, w: seq<Coord>)
    requires Inv(s, start, end, walkable) && s.openList == []
    requires IsWalk(start, w, walkable)
    ensures EndOf(start, w) in s.closedList
    decreases |w|
  {
    if w == [] {
      assert start in s.closedList;
    } else {
      var front := w[..|w| - 1];
      WalkPrefix(start, w, |w| - 1, walkable);
      WalkStaysClosed(s, start, end, walkable, front);
      assert FrontierOk(s, walkable, EndOf(start, front), w[|w| - 1]);
    }
  }

  /** When the open list runs dry, no walk from the start reaches the goal. */
  lemma ExhaustedMeansUnreachable(s: Search, start: Coord, end: Coord, walkable: set<Coord>)
    requires Inv(s, start, end, walkable) && s.openList == []
    ensures forall w :: !WalkTo(start, w, end, walkable)
  {
    forall w | IsWalk(start, w, walkable)
      ensures EndOf(start, w) != end
    {
      WalkStaysClosed(s, start, end, walkable, w);
    }
  }
}
