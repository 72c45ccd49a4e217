/**
 The maze generator's data model: a `width` x `height` grid of cells and the
 list of candidate walls still to be examined.

 Coordinates with both components odd are rooms; coordinates with exactly one
 even component are wall slots that separate two rooms; coordinates with both
 components even are pillars, which are never carved.
 */
module MazeGrid {
  import opened Lists

  /** A grid coordinate. */
  datatype Pos = Pos(x: int, y: int)

  /** The state of one grid cell. */
  datatype Cell = Cell(isWall: bool, isVisited: bool)

  /** A freshly allocated cell is an unvisited wall. */
  const NewCell: Cell := Cell(true, false)

  /**
   The generator's state: the grid dimensions, one cell per in-bounds
   coordinate, and the list of candidate walls (which may hold duplicates).
   */
  datatype Maze = Maze(width: int, height: int, grid: map<Pos, Cell>, wallList: seq<Pos>)

  /** Dimensions the generator is designed for: odd and at least 3. */
  predicate ValidDims(width: int, height: int) {
    width >= 3 && height >= 3 && width % 2 == 1 && height % 2 == 1
  }

  predicate InBounds(width: int, height: int, p: Pos) {
    0 <= p.x < width && 0 <= p.y < height
  }

  /** The grid holds a cell for exactly the in-bounds coordinates. */
  ghost predicate WellFormed(m: Maze) {
    forall p :: p in m.grid <==> InBounds(m.width, m.height, p)
  }

  predicate IsRoom(p: Pos) {
    p.x % 2 == 1 && p.y % 2 == 1
  }

  predicate IsPillar(p: Pos) {
    p.x % 2 == 0 && p.y % 2 == 0
  }

  /** A wall slot has exactly one even coordinate. */
  predicate IsWallSlot(p: Pos) {
    (p.x % 2 == 0) != (p.y % 2 == 0)
  }

  predicate OnBoundary(width: int, height: int, p: Pos) {
    p.x == 0 || p.x == width - 1 || p.y == 0 || p.y == height - 1
  }

  /** A wall slot that lies strictly inside the outer boundary. */
  predicate InteriorWall(width: int, height: int, w: Pos) {
    0 < w.x < width - 1 && 0 < w.y < height - 1 && IsWallSlot(w)
  }

  /** The two coordinates are one horizontal or vertical unit step apart. */
  predicate UnitApart(a: Pos, b: Pos) {
    (a.x == b.x && (a.y - b.y == 1 || b.y - a.y == 1))
    || (a.y == b.y && (a.x - b.x == 1 || b.x - a.x == 1))
  }

  /** The cells that have been reached by the carving. */
  ghost function VisitedCells(m: Maze): set<Pos> {
    set p | p in m.grid && m.grid[p].isVisited
  }

  /** The rooms the carving has not reached yet. */
  ghost function UnvisitedRooms(m: Maze): set<Pos> {
    set p | p in m.grid && IsRoom(p) && !m.grid[p].isVisited
  }

  /** The non-room cells that have been turned into passages. */
  ghost function CarvedWalls(m: Maze): set<Pos> {
    set p | p in m.grid && !IsRoom(p) && !m.grid[p].isWall
  }

  /** Allocates one fresh cell for every coordinate of a `width` x `height` grid. */
  method InitializeGrid(width: int, height: int) returns (grid: map<Pos, Cell>)
    ensures forall p :: p in grid <==> InBounds(width, height, p)
    ensures forall p :: p in grid ==> grid[p] == NewCell
  {
    grid := map[];
    var x := 0;
    while x < width
      invariant 0 <= x && (x <= width || x == 0)
      invariant forall p :: p in grid <==> 0 <= p.x < x && 0 <= p.y < height
      invariant forall p :: p in grid ==> grid[p] == NewCell
    {
      var y := 0;
      while y < height
        invariant 0 <= y && (y <= height || y == 0)
        invariant forall p :: p in grid <==> (0 <= p.x < x && 0 <= p.y < height) || (p.x == x && 0 <= p.y < y)
        invariant forall p :: p in grid ==> grid[p] == NewCell
      {
        grid := grid[Pos(x, y) := NewCell];
        y := y + 1;
      }
      x := x + 1;
    }
  }
}
