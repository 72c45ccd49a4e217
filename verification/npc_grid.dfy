/**
 The NPC's movement plane: integer positions `(x, z)` (the constant height is
 dropped and the node size is one unit), the four movement directions, the
 Manhattan heuristic, and walks through a finite set of walkable positions.
 */
module NpcGrid {

  /** A node of the search grid. */
  datatype Coord = Coord(x: int, z: int)

  /** forward, back, left and right, in the order the search tries them. */
  const Directions: seq<Coord> := [Coord(0, 1), Coord(0, -1), Coord(-1, 0), Coord(1, 0)]

  function Add(a: Coord, d: Coord): Coord {
    Coord(a.x + d.x, a.z + d.z)
  }

  function Abs(v: int): nat {
    if v < 0 then -v else v
  }

  /** The two positions are one horizontal or one vertical unit apart. */
  predicate UnitStep(a: Coord, b: Coord) {
    (a.x == b.x && Abs(a.z - b.z) == 1) || (a.z == b.z && Abs(a.x - b.x) == 1)
  }

  /**
   The four positions the search looks at around `c`, in the order it looks
   at them. They are exactly the positions one unit step from `c`.
   */
  function Neighbors(c: Coord): (r: seq<Coord>)
    ensures |r| == |Directions|
    ensures forall i :: 0 <= i < |r| ==> r[i] == Add(c, Directions[i])
    ensures forall b :: b in r <==> UnitStep(c, b)
  {
    var r := [Add(c, Directions[0]), Add(c, Directions[1]), Add(c, Directions[2]), Add(c, Directions[3])];
    assert forall b :: UnitStep(c, b) ==> b in r by {
      forall b | UnitStep(c, b)
        ensures b in r
      {
        if c.x == b.x {
          assert b == r[if b.z > c.z then 0 else 1];
        } else {
          assert b == r[if b.x > c.x then 3 else 2];
        }
      }
    }
    r
  }

  /**
   The search's estimate of the remaining cost from `a` to `b`: the Manhattan
   distance over `x` and `z`. It never goes below zero and is zero exactly at
   the goal.
   */
  function CalculateHeuristic(a: Coord, b: Coord): (h: int)
    ensures h >= 0
    ensures h == 0 <==> a == b
  {
    Abs(a.x - b.x) + Abs(a.z - b.z)
  }

  lemma HeuristicSymmetric(a: Coord, b: Coord)
    ensures CalculateHeuristic(a, b) == CalculateHeuristic(b, a)
  {
  }

  /** The heuristic obeys the triangle inequality. */
  lemma HeuristicTriangle(a: Coord, b: Coord, c: Coord)
    ensures CalculateHeuristic(a, c) <= CalculateHeuristic(a, b) + CalculateHeuristic(b, c)
  {
  }

  /** Each of the four direction steps changes the heuristic by exactly one. */
  lemma HeuristicStep(a: Coord, goal: Coord, i: int)
    requires 0 <= i < |Directions|
    ensures Abs(CalculateHeuristic(Add(a, Directions[i]), goal) - CalculateHeuristic(a, goal)) == 1
  {
  }

  /**
   The positions one unit step away are exactly the four the search looks at,
   and exactly those at heuristic distance one.
   */
  lemma UnitStepIsNeighbor(a: Coord, b: Coord)
    ensures UnitStep(a, b) <==> b in Neighbors(a)
    ensures UnitStep(a, b) <==> CalculateHeuristic(a, b) == 1
  {
  }

  /**
   `w` is a walk from `start`: each waypoint is walkable and one unit step
   from the one before it, the first one from `start` itself. The start is
   not part of the walk, just as it is not part of a returned path.
   */
  ghost predicate IsWalk(start: Coord, w: seq<Coord>, walkable: set<Coord>) {
    && (forall i :: 0 <= i < |w| ==> w[i] in walkable)
    && (|w| > 0 ==> UnitStep(start, w[0]))
    && (forall i :: 0 < i < |w| ==> UnitStep(w[i - 1], w[i]))
  }

  /** Where a walk from `start` ends. */
  function EndOf(start: Coord, w: seq<Coord>): Coord {
    if w == [] then start else w[|w| - 1]
  }

  /** `w` is a walk from `start` that ends at `goal`. */
  ghost predicate WalkTo(start: Coord, w: seq<Coord>, goal: Coord, walkable: set<Coord>) {
    IsWalk(start, w, walkable) && EndOf(start, w) == goal
  }

  /** A walk cannot be shorter than the Manhattan distance it covers. */
  lemma {:induction false} WalkCoversHeuristic(start: Coord, w: seq<Coord>, walkable: set<Coord>)
    requires IsWalk(start, w, walkable)
    ensures CalculateHeuristic(start, EndOf(start, w)) <= |w|
    decreases |w|
  {
    if w != [] {
      var front := w[..|w| - 1];
      assert IsWalk(start, front, walkable);
      WalkCoversHeuristic(start, front, walkable);
      var prev := EndOf(start, front);
      assert UnitStep(prev, w[|w| - 1]);
      HeuristicTriangle(start, prev, w[|w| - 1]);
    }
  }

  /** Every prefix of a walk is a walk, ending at the waypoint before the cut. */
  lemma WalkPrefix(start: Coord, w: seq<Coord>, k: int, walkable: set<Coord>)
    requires IsWalk(start, w, walkable) && 0 <= k <= |w|
    ensures WalkTo(start, w[..k], if k == 0 then start else w[k - 1], walkable)
  {
  }

  /** What remains of a walk after its `k`-th waypoint is a walk from that waypoint. */
  lemma WalkSuffix(start: Coord, w: seq<Coord>, k: int, walkable: set<Coord>)
    requires IsWalk(start, w, walkable) && 0 <= k < |w|
    ensures WalkTo(w[k], w[k + 1..], EndOf(start, w), walkable)
  {
    var rest := w[k + 1..];
    forall i | 0 < i < |rest|
      ensures UnitStep(rest[i - 1], rest[i])
    {
      assert rest[i - 1] == w[k + i] && rest[i] == w[k + 1 + i];
    }
  }

  /** `c` lies in the axis-aligned rectangle spanned by `a` and `b`. */
  predicate InBox(c: Coord, a: Coord, b: Coord) {
    && (a.x <= c.x <= b.x || b.x <= c.x <= a.x)
    && (a.z <= c.z <= b.z || b.z <= c.z <= a.z)
  }

  /**
   The first step of the staircase walk from `a` toward `b`: it closes the gap
   in `x` first and then the one in `z`, and never leaves their rectangle.
   */
  function StepToward(a: Coord, b: Coord): (next: Coord)
    requires a != b
    ensures UnitStep(a, next) && InBox(next, a, b)
    ensures CalculateHeuristic(next, b) == CalculateHeuristic(a, b) - 1
    ensures forall c :: InBox(c, next, b) ==> InBox(c, a, b)
  {
    if a.x < b.x then Coord(a.x + 1, a.z)
    else if a.x > b.x then Coord(a.x - 1, a.z)
    else if a.z < b.z then Coord(a.x, a.z + 1)
    else Coord(a.x, a.z - 1)
  }

  /**
   The staircase walk from `a` to `b`. It stays inside the rectangle spanned
   by `a` and `b` and takes exactly as many unit steps as their Manhattan
   distance.
   */
  function StraightWalk(a: Coord, b: Coord): (r: seq<Coord>)
    ensures |r| == CalculateHeuristic(a, b)
    ensures EndOf(a, r) == b
    ensures forall i :: 0 <= i < |r| ==> InBox(r[i], a, b)
    ensures |r| > 0 ==> UnitStep(a, r[0])
    ensures forall i :: 0 < i < |r| ==> UnitStep(r[i - 1], r[i])
    decreases CalculateHeuristic(a, b)
  {
    if a == b then []
    else
      var next := StepToward(a, b);
      var rest := StraightWalk(next, b);
      assert forall i :: 0 < i < |rest| + 1 ==> ([next] + rest)[i] == rest[i - 1];
      [next] + rest
  }

  /** When the whole rectangle between `a` and `b` is walkable, some walk between them is as short as their Manhattan distance. */
  lemma OpenBoxWalk(a: Coord, b: Coord, walkable: set<Coord>)
    requires forall c :: InBox(c, a, b) ==> c in walkable
    ensures WalkTo(a, StraightWalk(a, b), b, walkable)
    ensures |StraightWalk(a, b)| == CalculateHeuristic(a, b)
  {
  }
}
