/**
 The individual steps of the randomized Prim's-style carving: choosing the
 start room, enqueueing the walls around a room, finding the cells a wall
 separates, and carving a wall.
 */
module MazeSteps {
  import opened MazeGrid

  /**
   The source tests oddness with `v % 2 == 1` on a remainder that truncates
   toward zero, so the test fails for every negative `v`.
   */
  predicate OddTruncated(v: int) {
    v >= 0 && v % 2 == 1
  }

  /**
   Turns the random draw `raw` from `[1, size - 1)` into a start coordinate by
   stepping an even draw back by one: the result is the largest odd number not
   above the draw, and it stays inside the outer boundary.
   */
  function StartCoordinate(raw: int, size: int): (c: int)
    requires 1 <= raw < size - 1
    ensures c % 2 == 1
    ensures 1 <= c <= size - 2
    ensures c <= raw < c + 2
  {
    if raw % 2 == 0 then raw - 1 else raw
  }

  /**
   The state right after the start room is opened and its walls are listed:
   the start becomes a visited passage, no other cell changes, and the list
   holds the walls around the start, which for a room are exactly the
   interior wall slots beside it.
   */
  function StartState(init: Maze, start: Pos): (m: Maze)
    requires WellFormed(init) && InBounds(init.width, init.height, start)
    ensures m.width == init.width && m.height == init.height && m.grid.Keys == init.grid.Keys
    ensures m.grid[start] == Cell(false, true)
    ensures forall p :: p in init.grid && p != start ==> m.grid[p] == init.grid[p]
    ensures ValidDims(init.width, init.height) && IsRoom(start) ==>
              forall w :: w in m.wallList <==> InteriorWall(init.width, init.height, w) && UnitApart(start, w)
  {
    var seeded := init.(grid := init.grid[start := init.grid[start].(isVisited := true, isWall := false)], wallList := []);
    var m := AddWallsToList(seeded, start.x, start.y);
    assert m.wallList[|seeded.wallList|..] == m.wallList;
    m
  }

  /**
   The walls around the room at `(x, y)` whose room on the far side is
   strictly inside the outer boundary: left, right, below, above, in that
   order. For an in-bounds room these are exactly the interior wall slots
   beside it.
   */
  function RoomWalls(width: int, height: int, x: int, y: int): (r: seq<Pos>)
    ensures |r| <= 4
    ensures forall w :: w in r ==> UnitApart(Pos(x, y), w)
    ensures ValidDims(width, height) && IsRoom(Pos(x, y)) && InBounds(width, height, Pos(x, y)) ==>
              forall w :: w in r <==> InteriorWall(width, height, w) && UnitApart(Pos(x, y), w)
  {
    var left := if x - 2 > 0 then [Pos(x - 1, y)] else [];
    var right := if x + 2 < width - 1 then [Pos(x + 1, y)] else [];
    var below := if y - 2 > 0 then [Pos(x, y - 1)] else [];
    var above := if y + 2 < height - 1 then [Pos(x, y + 1)] else [];
    var walls := left + right + below + above;
    assert ValidDims(width, height) && IsRoom(Pos(x, y)) && InBounds(width, height, Pos(x, y)) ==>
             forall w :: w in walls <==> InteriorWall(width, height, w) && UnitApart(Pos(x, y), w) by {
      if ValidDims(width, height) && IsRoom(Pos(x, y)) && InBounds(width, height, Pos(x, y)) {
        RoomWallsAreInterior(width, height, x, y);
      }
    }
    walls
  }

  /**
   Appends to the wall list the walls around the room at `(x, y)` whose room on
   the far side is strictly inside the outer boundary.
   */
  function AddWallsToList(m: Maze, x: int, y: int): (m': Maze)
    ensures m'.width == m.width && m'.height == m.height && m'.grid == m.grid
    ensures |m.wallList| <= |m'.wallList| <= |m.wallList| + 4
    ensures m'.wallList[..|m.wallList|] == m.wallList
    ensures forall w :: w in m'.wallList[|m.wallList|..] ==> UnitApart(Pos(x, y), w)
    ensures ValidDims(m.width, m.height) && IsRoom(Pos(x, y)) && InBounds(m.width, m.height, Pos(x, y)) ==>
              forall w :: w in m'.wallList[|m.wallList|..] <==> InteriorWall(m.width, m.height, w) && UnitApart(Pos(x, y), w)
  {
    var added := RoomWalls(m.width, m.height, x, y);
    assert (m.wallList + added)[|m.wallList|..] == added;
    m.(wallList := m.wallList + added)
  }

  /** Parity facts behind the choice of walls around an in-bounds room. */
  lemma RoomWallsAreInterior(width: int, height: int, x: int, y: int)
    requires ValidDims(width, height) && IsRoom(Pos(x, y)) && InBounds(width, height, Pos(x, y))
    ensures x - 2 > 0 <==> InteriorWall(width, height, Pos(x - 1, y))
    ensures x + 2 < width - 1 <==> InteriorWall(width, height, Pos(x + 1, y))
    ensures y - 2 > 0 <==> InteriorWall(width, height, Pos(x, y - 1))
    ensures y + 2 < height - 1 <==> InteriorWall(width, height, Pos(x, y + 1))
  {
    assert x <= width - 2 && y <= height - 2;
  }

  /**
   The cells on either side of the wall at `(x, y)`: above and below it when
   `x` is odd, left and right of it when only `y` is odd, and none otherwise;
   cells beyond the grid's edge in the direction of the split are dropped.
   */
  function GetNeighbors(m: Maze, x: int, y: int): (r: seq<Pos>)
    ensures |r| <= 2
    ensures forall i :: 0 <= i < |r| ==> UnitApart(Pos(x, y), r[i])
    ensures InBounds(m.width, m.height, Pos(x, y)) ==> forall i :: 0 <= i < |r| ==> InBounds(m.width, m.height, r[i])
    ensures IsPillar(Pos(x, y)) ==> r == []
    ensures ValidDims(m.width, m.height) && InteriorWall(m.width, m.height, Pos(x, y)) ==>
              && |r| == 2 && r[0] != r[1] && IsRoom(r[0]) && IsRoom(r[1])
              && forall q :: q in r <==> IsRoom(q) && UnitApart(Pos(x, y), q)
  {
    if OddTruncated(x) then
      var below := if y - 1 >= 0 then [Pos(x, y - 1)] else [];
      below + (if y + 1 < m.height then [Pos(x, y + 1)] else [])
    else if OddTruncated(y) then
      var left := if x - 1 >= 0 then [Pos(x - 1, y)] else [];
      left + (if x + 1 < m.width then [Pos(x + 1, y)] else [])
    else
      []
  }

  /**
   The wall at `w` has two neighbours and exactly one of them is visited. For
   an interior wall this means one room beside it is visited and another is
   not.
   */
  predicate Separates(m: Maze, w: Pos)
    requires WellFormed(m) && InBounds(m.width, m.height, w)
    ensures ValidDims(m.width, m.height) && InteriorWall(m.width, m.height, w) ==>
              (Separates(m, w) <==> exists a, b :: SeparatedBy(m, w, a, b))
  {
    var nb := GetNeighbors(m, w.x, w.y);
    assert ValidDims(m.width, m.height) && InteriorWall(m.width, m.height, w) && (exists a, b :: SeparatedBy(m, w, a, b)) ==>
             m.grid[nb[0]].isVisited != m.grid[nb[1]].isVisited by {
      if ValidDims(m.width, m.height) && InteriorWall(m.width, m.height, w) && (exists a, b :: SeparatedBy(m, w, a, b)) {
        var a, b :| SeparatedBy(m, w, a, b);
        assert a in nb && b in nb;
      }
    }
    assert ValidDims(m.width, m.height) && InteriorWall(m.width, m.height, w) && m.grid[nb[0]].isVisited != m.grid[nb[1]].isVisited ==>
             if m.grid[nb[0]].isVisited then SeparatedBy(m, w, nb[0], nb[1]) else SeparatedBy(m, w, nb[1], nb[0]);
    |nb| == 2 && m.grid[nb[0]].isVisited != m.grid[nb[1]].isVisited
  }

  /** The rooms `a` and `b` both lie beside the wall `w`; `a` is visited and `b` is not. */
  ghost predicate SeparatedBy(m: Maze, w: Pos, a: Pos, b: Pos) {
    && a in m.grid && b in m.grid && IsRoom(a) && IsRoom(b)
    && UnitApart(w, a) && UnitApart(w, b)
    && m.grid[a].isVisited && !m.grid[b].isVisited
  }

  /** The neighbour of a separating wall that has not been visited. */
  function FarSide(m: Maze, w: Pos): (u: Pos)
    requires WellFormed(m) && InBounds(m.width, m.height, w) && Separates(m, w)
    ensures u in GetNeighbors(m, w.x, w.y) && u in m.grid && !m.grid[u].isVisited
  {
    var nb := GetNeighbors(m, w.x, w.y);
    if m.grid[nb[0]].isVisited then nb[1] else nb[0]
  }

  /**
   Examines one wall: when it separates a visited cell from an unvisited one,
   the wall becomes a passage, the unvisited cell becomes a visited passage and
   the walls around it are enqueued; otherwise nothing changes.
   */
  function ProcessWall(m: Maze, wall: Pos): (m': Maze)
    requires WellFormed(m) && InBounds(m.width, m.height, wall)
    ensures m'.width == m.width && m'.height == m.height && m'.grid.Keys == m.grid.Keys
    ensures !Separates(m, wall) ==> m' == m
    ensures Separates(m, wall) ==>
              var u := FarSide(m, wall);
              && !m'.grid[wall].isWall && m'.grid[wall].isVisited == m.grid[wall].isVisited
              && m'.grid[u] == Cell(false, true)
              && (forall p :: p in m.grid && p != wall && p != u ==> m'.grid[p] == m.grid[p])
              && m'.wallList == AddWallsToList(m, u.x, u.y).wallList
  {
    var neighbors := GetNeighbors(m, wall.x, wall.y);
    if |neighbors| == 2 then
      var cell1 := m.grid[neighbors[0]];
      var cell2 := m.grid[neighbors[1]];
      if cell1.isVisited != cell2.isVisited then
        var breached := m.(grid := m.grid[wall := m.grid[wall].(isWall := false)]);
        if !cell1.isVisited then
          var carved := breached.(grid := breached.grid[neighbors[0] := cell1.(isVisited := true, isWall := false)]);
          AddWallsToList(carved, neighbors[0].x, neighbors[0].y)
        else
          var carved := breached.(grid := breached.grid[neighbors[1] := cell2.(isVisited := true, isWall := false)]);
          AddWallsToList(carved, neighbors[1].x, neighbors[1].y)
      else
        m
    else
      m
  }
}
