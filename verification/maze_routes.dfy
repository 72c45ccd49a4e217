/**
 Connectivity of the carved maze: every cell the carving visits can be
 reached from the start room through passages, so once every room is
 visited any two rooms are joined by a route of passages.
 */
module MazeRoutes {
  import opened Lists
  import opened MazeGrid
  import opened MazeSteps
  import opened MazeInvariant

  /** The cell is a passage of the grid. */
  ghost predicate Open(m: Maze, p: Pos) {
    p in m.grid && !m.grid[p].isWall
  }

  /** `route` runs from `a` to `b` through passages, each cell a unit step from the one before. */
  ghost predicate PassageRoute(m: Maze, a: Pos, route: seq<Pos>, b: Pos) {
    && |route| > 0 && route[0] == a && route[|route| - 1] == b
    && (forall i :: 0 <= i < |route| ==> Open(m, route[i]))
    && (forall i :: 0 < i < |route| ==> UnitApart(route[i - 1], route[i]))
  }

  /** `routes` records a passage route from `start` to every visited cell. */
  ghost predicate RoutesFrom(m: Maze, start: Pos, routes: map<Pos, seq<Pos>>) {
    forall r :: r in m.grid && m.grid[r].isVisited ==> r in routes && PassageRoute(m, start, routes[r], r)
  }

  function Reverse<T>(s: seq<T>): (r: seq<T>)
    ensures |r| == |s|
    ensures forall i :: 0 <= i < |s| ==> r[i] == s[|s| - 1 - i]
  {
    if s == [] then [] else Reverse(s[1..]) + [s[0]]
  }

  /** Right after the start room is opened, it is the only visited cell and its route is itself. */
  lemma StartRoutes(init: Maze, start: Pos)
    requires ValidDims(init.width, init.height) && WellFormed(init)
    requires forall p :: p in init.grid ==> init.grid[p] == NewCell
    requires InBounds(init.width, init.height, start) && IsRoom(start)
    ensures RoutesFrom(StartState(init, start), start, map[start := [start]])
  {
  }

  /** A route through passages stays one when cells are only ever opened. */
  lemma RouteSurvives(m: Maze, m': Maze, a: Pos, route: seq<Pos>, b: Pos)
    requires PassageRoute(m, a, route, b)
    requires forall p :: Open(m, p) ==> Open(m', p)
    ensures PassageRoute(m', a, route, b)
  {
  }

  /**
   One loop iteration keeps a route to every visited cell: a newly visited
   room is reached through the visited room on the other side of the wall
   just carved.
   */
  lemma StepExtendsRoutes(m: Maze, i: int, start: Pos, routes: map<Pos, seq<Pos>>) returns (routes': map<Pos, seq<Pos>>)
    requires Inv(m) && 0 <= i < |m.wallList|
    requires RoutesFrom(m, start, routes)
    ensures RoutesFrom(Step(m, i), start, routes')
  {
    var wall := m.wallList[i];
    var m' := Step(m, i);
    if Separates(m, wall) {
      CarveEffect(m, i);
      var u := FarSide(m, wall);
      var nb := GetNeighbors(m, wall.x, wall.y);
      var v := if nb[0] == u then nb[1] else nb[0];
      assert m.grid[v].isVisited && UnitApart(v, wall) && UnitApart(wall, u);
      routes' := routes[u := routes[v] + [wall, u]];
      CarveExtendsRoutes(m, m', wall, u, v, start, routes);
    } else {
      NeighborsOfSameDims(m, m.(wallList := RemoveAt(m.wallList, i)), wall);
      assert m'.grid == m.grid;
      routes' := routes;
    }
  }

  /** Carving `wall` to reach `u` from the visited room `v` extends the route to `v` into one to `u`. */
  lemma CarveExtendsRoutes(m: Maze, m': Maze, wall: Pos, u: Pos, v: Pos, start: Pos, routes: map<Pos, seq<Pos>>)
    requires CellsCarved(m, m', wall, u)
    requires v in m.grid && m.grid[v].isVisited && UnitApart(v, wall) && UnitApart(wall, u)
    requires RoutesFrom(m, start, routes)
    ensures RoutesFrom(m', start, routes[u := routes[v] + [wall, u]])
  {
    var routes' := routes[u := routes[v] + [wall, u]];
    assert forall p :: Open(m, p) ==> Open(m', p);
    forall r | r in m'.grid && m'.grid[r].isVisited
      ensures r in routes' && PassageRoute(m', start, routes'[r], r)
    {
      if r == u {
        RouteSurvives(m, m', start, routes[v], v);
      } else {
        assert m.grid[r].isVisited;
        RouteSurvives(m, m', start, routes[r], r);
      }
    }
  }

  /** Two routes out of the same cell combine into a route between their far ends. */
  lemma JoinRoutes(m: Maze, s: Pos, r1: seq<Pos>, a: Pos, r2: seq<Pos>, b: Pos)
    requires PassageRoute(m, s, r1, a) && PassageRoute(m, s, r2, b)
    ensures PassageRoute(m, a, Reverse(r1) + r2[1..], b)
  {
    var back := Reverse(r1);
    var joined := back + r2[1..];
    forall i | 0 < i < |joined|
      ensures UnitApart(joined[i - 1], joined[i])
    {
      if i < |back| {
        assert UnitApart(r1[|r1| - 1 - i], r1[|r1| - i]);
      } else {
        assert joined[i] == r2[i - |back| + 1];
        if i == |back| {
          assert joined[i - 1] == r1[0] == s == r2[0];
        }
      }
    }
    forall i | 0 <= i < |joined|
      ensures Open(m, joined[i])
    {
      if i < |back| {
        assert joined[i] == r1[|r1| - 1 - i];
      } else {
        assert joined[i] == r2[i - |back| + 1];
      }
    }
  }

  /** Once every room is visited, any two rooms are joined by a route of passages. */
  lemma AllRoomsConnected(m: Maze, start: Pos, routes: map<Pos, seq<Pos>>)
    requires RoutesFrom(m, start, routes)
    requires forall p :: p in m.grid && IsRoom(p) ==> m.grid[p].isVisited
    ensures forall a, b :: a in m.grid && IsRoom(a) && b in m.grid && IsRoom(b) ==>
              exists route :: PassageRoute(m, a, route, b)
  {
    forall a, b | a in m.grid && IsRoom(a) && b in m.grid && IsRoom(b)
      ensures exists route :: PassageRoute(m, a, route, b)
    {
      JoinRoutes(m, start, routes[a], a, routes[b], b);
    }
  }
}
