/**
 The invariant of the carving loop and the lemmas that it holds initially, is
 preserved by every iteration, and forces every room to be visited once the
 wall list is empty.
 */
module MazeInvariant {
  import opened Lists
  import opened MazeGrid
  import opened MazeSteps

  /** Both cells the wall at `w` separates have been visited. */
  predicate BothVisited(m: Maze, w: Pos)
    requires WellFormed(m) && InBounds(m.width, m.height, w)
  {
    var nb := GetNeighbors(m, w.x, w.y);
    |nb| == 2 && m.grid[nb[0]].isVisited && m.grid[nb[1]].isVisited
  }

  /** At least one of the two cells the wall at `w` separates has been visited. */
  predicate SomeVisited(m: Maze, w: Pos)
    requires WellFormed(m) && InBounds(m.width, m.height, w)
  {
    var nb := GetNeighbors(m, w.x, w.y);
    |nb| == 2 && (m.grid[nb[0]].isVisited || m.grid[nb[1]].isVisited)
  }

  /** A cell is visited exactly when it is a room that has been made a passage. */
  ghost predicate VisitedIsCarvedRoom(m: Maze)
    requires WellFormed(m)
  {
    forall p :: p in m.grid ==> (m.grid[p].isVisited <==> IsRoom(p) && !m.grid[p].isWall)
  }

  /** Boundary cells and pillars are still fresh walls. */
  ghost predicate FrameUntouched(m: Maze)
    requires WellFormed(m)
  {
    forall p :: p in m.grid && (OnBoundary(m.width, m.height, p) || IsPillar(p)) ==> m.grid[p] == NewCell
  }

  /** Every carved non-room cell is an interior wall joining two visited rooms. */
  ghost predicate CarvedJoinVisited(m: Maze)
    requires WellFormed(m)
  {
    forall p :: p in m.grid && !IsRoom(p) && !m.grid[p].isWall ==>
      InteriorWall(m.width, m.height, p) && BothVisited(m, p)
  }

  /** Every listed wall is an interior wall beside a visited room. */
  ghost predicate ListedBesideVisited(m: Maze)
    requires WellFormed(m)
  {
    forall i :: 0 <= i < |m.wallList| ==>
      InteriorWall(m.width, m.height, m.wallList[i]) && SomeVisited(m, m.wallList[i])
  }

  /**
   Every interior wall beside a visited room is still listed or already has
   both of its rooms visited.
   */
  ghost predicate FrontierListed(m: Maze)
    requires WellFormed(m)
  {
    forall r, w :: r in m.grid && m.grid[r].isVisited && InteriorWall(m.width, m.height, w) && UnitApart(r, w) ==>
      w in m.wallList || BothVisited(m, w)
  }

  /** The carved walls are one fewer than the visited rooms: the tree shape. */
  ghost predicate TreeCount(m: Maze) {
    |CarvedWalls(m)| + 1 == |VisitedCells(m)|
  }

  /** The part of the loop invariant that concerns the grid alone. */
  ghost predicate GridInv(m: Maze) {
    && ValidDims(m.width, m.height)
    && WellFormed(m)
    && VisitedIsCarvedRoom(m)
    && FrameUntouched(m)
    && CarvedJoinVisited(m)
    && TreeCount(m)
  }

  /** The invariant of the carving loop. */
  ghost predicate Inv(m: Maze) {
    && GridInv(m)
    && ListedBesideVisited(m)
    && FrontierListed(m)
  }

  /** The invariant assembled from its two halves. */
  lemma InvFromParts(m: Maze)
    requires GridInv(m) && ListedBesideVisited(m) && FrontierListed(m)
    ensures Inv(m)
  {
  }

  /** `GetNeighbors` reads only the dimensions. */
  lemma NeighborsOfSameDims(m: Maze, m': Maze, w: Pos)
    requires m.width == m'.width && m.height == m'.height
    ensures GetNeighbors(m, w.x, w.y) == GetNeighbors(m', w.x, w.y)
  {
  }

  /** Visiting more cells keeps walls with visited neighbours that way. */
  lemma VisitedGrows(m: Maze, m': Maze)
    requires WellFormed(m) && WellFormed(m')
    requires m.width == m'.width && m.height == m'.height
    requires forall p :: p in m.grid && m.grid[p].isVisited ==> m'.grid[p].isVisited
    ensures forall w :: InBounds(m.width, m.height, w) && BothVisited(m, w) ==> BothVisited(m', w)
    ensures forall w :: InBounds(m.width, m.height, w) && SomeVisited(m, w) ==> SomeVisited(m', w)
  {
    forall w | InBounds(m.width, m.height, w)
      ensures BothVisited(m, w) ==> BothVisited(m', w)
      ensures SomeVisited(m, w) ==> SomeVisited(m', w)
    {
      NeighborsOfSameDims(m, m', w);
    }
  }

  /** A room inside the grid is never on the boundary of an odd-sized grid. */
  lemma RoomOffBoundary(m: Maze, p: Pos)
    requires ValidDims(m.width, m.height) && InBounds(m.width, m.height, p) && IsRoom(p)
    ensures !OnBoundary(m.width, m.height, p) && !IsPillar(p)
  {
  }

  /** The loop invariant holds once the start room has been opened. */
  lemma StartEstablishesInv(init: Maze, start: Pos)
    requires ValidDims(init.width, init.height) && WellFormed(init)
    requires forall p :: p in init.grid ==> init.grid[p] == NewCell
    requires InBounds(init.width, init.height, start) && IsRoom(start)
    ensures Inv(StartState(init, start))
  {
    var m := StartState(init, start);
    RoomOffBoundary(init, start);
    assert VisitedCells(m) == {start};
    assert CarvedWalls(m) == {};
    forall i | 0 <= i < |m.wallList|
      ensures InteriorWall(m.width, m.height, m.wallList[i]) && SomeVisited(m, m.wallList[i])
    {
      var w := m.wallList[i];
      assert w in m.wallList[0..];
      var nb := GetNeighbors(m, w.x, w.y);
      assert start in nb;
    }
    forall r, w | r in m.grid && m.grid[r].isVisited && InteriorWall(m.width, m.height, w) && UnitApart(r, w)
      ensures w in m.wallList
    {
      assert r == start;
      assert w in m.wallList[0..];
    }
  }

  /**
   One iteration of the loop: take out entry `i` and examine that wall. The
   drawn entry leaves the list and the others keep their order; anything new
   is appended after them, and a wall that separates nothing changes no cell.
   */
  function Step(m: Maze, i: int): (m': Maze)
    requires WellFormed(m) && 0 <= i < |m.wallList| && InBounds(m.width, m.height, m.wallList[i])
    ensures m'.width == m.width && m'.height == m.height && m'.grid.Keys == m.grid.Keys
    ensures |m'.wallList| >= |m.wallList| - 1
    ensures multiset(m'.wallList[..|m.wallList| - 1]) + multiset{m.wallList[i]} == multiset(m.wallList)
    ensures !Separates(m, m.wallList[i]) ==> m'.grid == m.grid && |m'.wallList| == |m.wallList| - 1
  {
    var m1 := m.(wallList := RemoveAt(m.wallList, i));
    var wall := m.wallList[i];
    NeighborsOfSameDims(m, m1, wall);
    var m' := ProcessWall(m1, wall);
    assert m'.wallList[..|m1.wallList|] == m1.wallList by {
      if Separates(m1, wall) {
        var u := FarSide(m1, wall);
        assert m'.wallList == AddWallsToList(m1, u.x, u.y).wallList;
      }
    }
    m'
  }

  /** Whether a wall's rooms are visited does not depend on the wall list. */
  lemma VisitedIgnoresList(m: Maze, l: seq<Pos>)
    requires WellFormed(m)
    ensures forall w :: InBounds(m.width, m.height, w) ==>
              (BothVisited(m, w) <==> BothVisited(m.(wallList := l), w))
              && (SomeVisited(m, w) <==> SomeVisited(m.(wallList := l), w))
  {
    forall w | InBounds(m.width, m.height, w)
      ensures BothVisited(m, w) <==> BothVisited(m.(wallList := l), w)
      ensures SomeVisited(m, w) <==> SomeVisited(m.(wallList := l), w)
    {
      NeighborsOfSameDims(m, m.(wallList := l), w);
    }
  }

  /** Replacing the wall list leaves the grid half of the invariant alone. */
  lemma GridInvIgnoresList(m: Maze, l: seq<Pos>)
    requires GridInv(m)
    ensures GridInv(m.(wallList := l))
  {
    VisitedIgnoresList(m, l);
    assert CarvedWalls(m.(wallList := l)) == CarvedWalls(m);
    assert VisitedCells(m.(wallList := l)) == VisitedCells(m);
  }

  /** Dropping entry `i`, whose rooms are both visited, keeps the list half of the invariant. */
  lemma SkipKeepsListInv(m: Maze, i: int)
    requires WellFormed(m) && ListedBesideVisited(m) && FrontierListed(m)
    requires 0 <= i < |m.wallList| && InBounds(m.width, m.height, m.wallList[i])
    requires BothVisited(m, m.wallList[i])
    ensures ListedBesideVisited(m.(wallList := RemoveAt(m.wallList, i)))
    ensures FrontierListed(m.(wallList := RemoveAt(m.wallList, i)))
  {
    var m1 := m.(wallList := RemoveAt(m.wallList, i));
    VisitedIgnoresList(m, m1.wallList);
    forall j | 0 <= j < |m1.wallList|
      ensures InteriorWall(m.width, m.height, m1.wallList[j]) && SomeVisited(m1, m1.wallList[j])
    {
      assert m1.wallList[j] in m.wallList;
    }
    forall r, w | r in m1.grid && m1.grid[r].isVisited && InteriorWall(m.width, m.height, w) && UnitApart(r, w)
      ensures w in m1.wallList || BothVisited(m1, w)
    {
      if w !in m1.wallList {
        assert w in m.wallList || BothVisited(m, w);
      }
    }
  }

  /** An iteration that finds nothing to carve only shortens the list. */
  lemma SkipPreservesInv(m: Maze, i: int)
    requires Inv(m) && 0 <= i < |m.wallList|
    requires !Separates(m, m.wallList[i])
    ensures Step(m, i) == m.(wallList := RemoveAt(m.wallList, i))
    ensures Inv(Step(m, i))
  {
    var wall := m.wallList[i];
    var m1 := m.(wallList := RemoveAt(m.wallList, i));
    NeighborsOfSameDims(m, m1, wall);
    assert Step(m, i) == m1;
    GridInvIgnoresList(m, m1.wallList);
    assert BothVisited(m, wall) by {
      assert SomeVisited(m, wall);
    }
    SkipKeepsListInv(m, i);
  }

  /**
   How a carving iteration changes the grid: the wall `wall` between the
   visited room and the unvisited room `u` becomes a passage, `u` becomes a
   visited passage, and every other cell is unchanged.
   */
  ghost predicate CarvedBetween(m: Maze, m': Maze, wall: Pos, u: Pos) {
    && GridInv(m)
    && InteriorWall(m.width, m.height, wall)
    && Separates(m, wall) && u == FarSide(m, wall)
    && CellsCarved(m, m', wall, u)
  }

  /** The cell-by-cell part of `CarvedBetween`. */
  ghost predicate CellsCarved(m: Maze, m': Maze, wall: Pos, u: Pos) {
    && m'.width == m.width && m'.height == m.height
    && WellFormed(m) && WellFormed(m')
    && wall in m.grid && u in m.grid && IsRoom(u) && !IsRoom(wall)
    && m.grid[wall] == NewCell && m'.grid[wall] == Cell(false, false)
    && !m.grid[u].isVisited && m'.grid[u] == Cell(false, true)
    && (forall p :: p in m.grid && p != wall && p != u ==> m'.grid[p] == m.grid[p])
  }

  /** What `Step` does when the examined wall separates a visited and an unvisited room. */
  lemma CarveEffect(m: Maze, i: int)
    requires Inv(m) && 0 <= i < |m.wallList|
    requires Separates(m, m.wallList[i])
    ensures CarvedBetween(m, Step(m, i), m.wallList[i], FarSide(m, m.wallList[i]))
    ensures |Step(m, i).wallList| >= |m.wallList| - 1
    ensures Step(m, i).wallList == RemoveAt(m.wallList, i) + Step(m, i).wallList[|m.wallList| - 1..]
    ensures forall w :: w in Step(m, i).wallList[|m.wallList| - 1..] <==>
              InteriorWall(m.width, m.height, w) && UnitApart(FarSide(m, m.wallList[i]), w)
  {
    assert InteriorWall(m.width, m.height, m.wallList[i]);
    CarveCells(m, i);
    CarveLists(m, i);
  }

  /** The cells a carving iteration changes. */
  lemma CarveCells(m: Maze, i: int)
    requires GridInv(m) && 0 <= i < |m.wallList| && InteriorWall(m.width, m.height, m.wallList[i])
    requires Separates(m, m.wallList[i])
    ensures CarvedBetween(m, Step(m, i), m.wallList[i], FarSide(m, m.wallList[i]))
  {
    var wall := m.wallList[i];
    assert m.grid[wall] == NewCell by {
      assert !BothVisited(m, wall);
    }
    CarveStepCells(m, i);
  }

  /** What `Step` writes into the grid when the examined interior wall separates two rooms. */
  lemma CarveStepCells(m: Maze, i: int)
    requires ValidDims(m.width, m.height) && WellFormed(m)
    requires 0 <= i < |m.wallList| && InteriorWall(m.width, m.height, m.wallList[i])
    requires Separates(m, m.wallList[i])
    ensures var m', wall, u := Step(m, i), m.wallList[i], FarSide(m, m.wallList[i]);
            && m'.width == m.width && m'.height == m.height && WellFormed(m')
            && wall in m.grid && u in m.grid && IsRoom(u) && !IsRoom(wall)
            && m'.grid[wall] == m.grid[wall].(isWall := false)
            && !m.grid[u].isVisited && m'.grid[u] == Cell(false, true)
            && (forall p :: p in m.grid && p != wall && p != u ==> m'.grid[p] == m.grid[p])
  {
    var wall := m.wallList[i];
    var m1 := m.(wallList := RemoveAt(m.wallList, i));
    NeighborsOfSameDims(m, m1, wall);
    var u := FarSide(m, wall);
    assert Separates(m1, wall) && u == FarSide(m1, wall);
    assert IsRoom(u) && !IsRoom(wall);
  }

  /** The walls a carving iteration lists: exactly the interior ones around the newly visited room. */
  lemma CarveLists(m: Maze, i: int)
    requires ValidDims(m.width, m.height) && WellFormed(m)
    requires 0 <= i < |m.wallList| && InteriorWall(m.width, m.height, m.wallList[i])
    requires Separates(m, m.wallList[i])
    ensures |Step(m, i).wallList| >= |m.wallList| - 1
    ensures Step(m, i).wallList == RemoveAt(m.wallList, i) + Step(m, i).wallList[|m.wallList| - 1..]
    ensures forall w :: w in Step(m, i).wallList[|m.wallList| - 1..] <==>
              InteriorWall(m.width, m.height, w) && UnitApart(FarSide(m, m.wallList[i]), w)
  {
    var wall := m.wallList[i];
    var m1 := m.(wallList := RemoveAt(m.wallList, i));
    NeighborsOfSameDims(m, m1, wall);
    var u := FarSide(m, wall);
    assert Separates(m1, wall) && u == FarSide(m1, wall);
    assert IsRoom(u) && InBounds(m.width, m.height, u);
    var added := AddWallsToList(m1, u.x, u.y).wallList;
    assert Step(m, i).wallList == added;
    assert added == added[..|m1.wallList|] + added[|m1.wallList|..];
  }

  /** The visited, unvisited and carved sets after a carving iteration. */
  lemma CarveCounts(m: Maze, m': Maze, wall: Pos, u: Pos)
    requires CellsCarved(m, m', wall, u)
    ensures VisitedCells(m') == VisitedCells(m) + {u} && u !in VisitedCells(m)
    ensures CarvedWalls(m') == CarvedWalls(m) + {wall} && wall !in CarvedWalls(m)
    ensures UnvisitedRooms(m') == UnvisitedRooms(m) - {u} && u in UnvisitedRooms(m)
    ensures |UnvisitedRooms(m')| == |UnvisitedRooms(m)| - 1
    ensures TreeCount(m) ==> TreeCount(m')
  {
    assert m'.grid.Keys == m.grid.Keys;
    forall p
      ensures p in VisitedCells(m') <==> p in VisitedCells(m) || p == u
      ensures p in CarvedWalls(m') <==> p in CarvedWalls(m) || p == wall
      ensures p in UnvisitedRooms(m') <==> p in UnvisitedRooms(m) && p != u
    {
      if p in m.grid && p != wall && p != u {
        assert m'.grid[p] == m.grid[p];
      }
    }
    assert VisitedCells(m') == VisitedCells(m) + {u};
    assert CarvedWalls(m') == CarvedWalls(m) + {wall};
    assert UnvisitedRooms(m') == UnvisitedRooms(m) - {u};
    assert |VisitedCells(m')| == |VisitedCells(m)| + 1;
    assert |CarvedWalls(m')| == |CarvedWalls(m)| + 1;
  }

  /**
   The grid `m'` extends `m` by visiting the room `u` and nothing else: every
   wall keeps the visited neighbours it had.
   */
  ghost predicate GrowsFrom(m: Maze, m': Maze, u: Pos)
    requires WellFormed(m) && WellFormed(m') && m'.width == m.width && m'.height == m.height
  {
    && u in m'.grid && IsRoom(u) && m'.grid[u].isVisited
    && (forall p :: p in m'.grid && p != u && m'.grid[p].isVisited ==> m.grid[p].isVisited)
    && (forall w :: InBounds(m.width, m.height, w) && SomeVisited(m, w) ==> SomeVisited(m', w))
    && (forall w :: InBounds(m.width, m.height, w) && BothVisited(m, w) ==> BothVisited(m', w))
  }

  /** A carving iteration keeps the grid half of the invariant. */
  lemma CarveKeepsGridInv(m: Maze, m': Maze, wall: Pos, u: Pos)
    requires CarvedBetween(m, m', wall, u)
    ensures GridInv(m')
    ensures GrowsFrom(m, m', u)
    ensures BothVisited(m', wall)
  {
    RoomOffBoundary(m, u);
    VisitedGrows(m, m');
    CarveCounts(m, m', wall, u);
    assert BothVisited(m', wall) by {
      NeighborsOfSameDims(m, m', wall);
      var nb := GetNeighbors(m, wall.x, wall.y);
      assert u == nb[0] || u == nb[1];
    }
    forall p | p in m'.grid
      ensures m'.grid[p].isVisited <==> IsRoom(p) && !m'.grid[p].isWall
    {
      if p != wall && p != u {
        assert m'.grid[p] == m.grid[p];
      }
    }
    forall p | p in m'.grid && (OnBoundary(m.width, m.height, p) || IsPillar(p))
      ensures m'.grid[p] == NewCell
    {
      assert p != wall && p != u;
      assert m'.grid[p] == m.grid[p];
    }
    forall p | p in m'.grid && !IsRoom(p) && !m'.grid[p].isWall
      ensures InteriorWall(m.width, m.height, p) && BothVisited(m', p)
    {
      if p != wall {
        assert m'.grid[p] == m.grid[p];
        assert BothVisited(m, p);
      }
    }
  }

  /**
   The list half of the invariant survives a carving iteration that removed
   `wall` from the list and appended the walls `added` around the newly
   visited room `u`.
   */
  lemma CarveKeepsListInv(m: Maze, m': Maze, i: int, u: Pos, added: seq<Pos>)
    requires ValidDims(m.width, m.height) && WellFormed(m) && WellFormed(m')
    requires ListedBesideVisited(m) && FrontierListed(m)
    requires m'.width == m.width && m'.height == m.height
    requires 0 <= i < |m.wallList| && m'.wallList == RemoveAt(m.wallList, i) + added
    requires BothVisited(m', m.wallList[i])
    requires GrowsFrom(m, m', u)
    requires forall w :: w in added <==> InteriorWall(m.width, m.height, w) && UnitApart(u, w)
    ensures ListedBesideVisited(m') && FrontierListed(m')
  {
    var kept := RemoveAt(m.wallList, i);
    forall j | 0 <= j < |m'.wallList|
      ensures InteriorWall(m.width, m.height, m'.wallList[j]) && SomeVisited(m', m'.wallList[j])
    {
      var w := m'.wallList[j];
      if j < |kept| {
        assert w in kept;
      } else {
        assert w in added;
        NeighborsOfSameDims(m, m', w);
        assert u in GetNeighbors(m', w.x, w.y);
      }
    }
    forall r, w | r in m'.grid && m'.grid[r].isVisited && InteriorWall(m.width, m.height, w) && UnitApart(r, w)
      ensures w in m'.wallList || BothVisited(m', w)
    {
      if r == u {
        assert w in added;
      } else if w !in kept {
        assert m.grid[r].isVisited;
        assert w in m.wallList || BothVisited(m, w);
      }
    }
  }

  /** An iteration that carves keeps the invariant and visits one more room. */
  lemma CarvePreservesInv(m: Maze, i: int)
    requires Inv(m) && 0 <= i < |m.wallList|
    requires Separates(m, m.wallList[i])
    ensures Inv(Step(m, i))
    ensures |UnvisitedRooms(Step(m, i))| < |UnvisitedRooms(m)|
  {
    var wall := m.wallList[i];
    var u := FarSide(m, wall);
    var m' := Step(m, i);
    CarveEffect(m, i);
    CarveKeepsGridInv(m, m', wall, u);
    CarveCounts(m, m', wall, u);
    var added := m'.wallList[|m.wallList| - 1..];
    CarveKeepsListInv(m, m', i, u, added);
    InvFromParts(m');
  }

  /** Every iteration keeps the invariant and shrinks the lexicographic measure. */
  lemma StepPreservesInv(m: Maze, i: int)
    requires Inv(m) && 0 <= i < |m.wallList|
    ensures Inv(Step(m, i))
    ensures Step(m, i).width == m.width && Step(m, i).height == m.height && Step(m, i).grid.Keys == m.grid.Keys
    ensures || |UnvisitedRooms(Step(m, i))| < |UnvisitedRooms(m)|
            || (UnvisitedRooms(Step(m, i)) == UnvisitedRooms(m) && |Step(m, i).wallList| < |m.wallList|)
  {
    if Separates(m, m.wallList[i]) {
      CarvePreservesInv(m, i);
    } else {
      SkipPreservesInv(m, i);
      assert UnvisitedRooms(Step(m, i)) == UnvisitedRooms(m);
    }
  }

  /** Once the list is empty, every interior wall beside a visited room joins two visited rooms. */
  ghost predicate FrontierClosed(m: Maze)
    requires WellFormed(m)
  {
    forall r, w :: r in m.grid && m.grid[r].isVisited && InteriorWall(m.width, m.height, w) && UnitApart(r, w) ==>
      BothVisited(m, w)
  }

  /** In a grid whose frontier is closed, a visited room's neighbouring rooms are visited. */
  lemma CrossWall(m: Maze, q: Pos, p: Pos)
    requires ValidDims(m.width, m.height) && WellFormed(m) && FrontierClosed(m)
    requires q in m.grid && m.grid[q].isVisited && IsRoom(q)
    requires p in m.grid && IsRoom(p)
    requires || (p.y == q.y && (p.x == q.x + 2 || p.x == q.x - 2))
             || (p.x == q.x && (p.y == q.y + 2 || p.y == q.y - 2))
    ensures m.grid[p].isVisited
  {
    var w := Pos((p.x + q.x) / 2, (p.y + q.y) / 2);
    assert InteriorWall(m.width, m.height, w) && UnitApart(q, w);
    assert BothVisited(m, w);
    assert p in GetNeighbors(m, w.x, w.y);
  }

  /**
   In a grid whose frontier is closed, every room is reached from a visited
   room by steps of two across walls.
   */
  lemma {:induction false} RoomReached(m: Maze, s: Pos, p: Pos)
    requires ValidDims(m.width, m.height) && WellFormed(m) && FrontierClosed(m)
    requires s in m.grid && IsRoom(s) && m.grid[s].isVisited
    requires p in m.grid && IsRoom(p)
    ensures m.grid[p].isVisited
    decreases (if p.x < s.x then s.x - p.x else p.x - s.x) + (if p.y < s.y then s.y - p.y else p.y - s.y)
  {
    if p != s {
      var q;
      if p.x < s.x {
        q := Pos(p.x + 2, p.y);
      } else if p.x > s.x {
        q := Pos(p.x - 2, p.y);
      } else if p.y < s.y {
        q := Pos(p.x, p.y + 2);
      } else {
        q := Pos(p.x, p.y - 2);
      }
      RoomReached(m, s, q);
      CrossWall(m, q, p);
    }
  }

  /** When the wall list runs empty, the carving has visited every room. */
  lemma AllRoomsReached(m: Maze)
    requires Inv(m) && m.wallList == []
    ensures forall p :: p in m.grid && IsRoom(p) ==> m.grid[p].isVisited
  {
    assert |VisitedCells(m)| >= 1;
    var s :| s in VisitedCells(m);
    forall p | p in m.grid && IsRoom(p)
      ensures m.grid[p].isVisited
    {
      RoomReached(m, s, p);
    }
  }
}
