/** Which walls may be placed, and the score the bot gives a wall: the
    specifications of the engine's wall enumeration and wall heuristic. */
module Planner {
  import opened Base
  import opened Geometry
  import opened MoveRules
  import opened Paths
  import opened Distance

  /** A player as the wall rules see it: where it stands and its goal. */
  datatype Target = Target(pos: Pos, goal: Pos)

  /** A wall from lattice point pos towards d may be placed: its far end lies in
      [-1, 8] on both axes, it overlaps no wall on the board, and with it added
      every player still has a way to its goal line. */
  ghost predicate OrientOk(walls: seq<Seg>, targets: seq<Target>, pos: Pos, d: Pos)
  {
    var end := Jump(pos, d);
    && -1 <= end.x < 9 && -1 <= end.y < 9
    && !Blocked(walls, PlacedWall(pos, d))
    && forall k :: 0 <= k < |targets| ==> HasWay(walls + [PlacedWall(pos, d)], targets[k].pos, targets[k].goal)
  }

  /** The directions among the first n of Default that may be placed, in order. */
  ghost function OrientsUpTo(walls: seq<Seg>, targets: seq<Target>, pos: Pos, n: nat): seq<Pos>
    requires n <= 4
    // walls never changes; it leads the measure so that a call whose counters are
    // literals is not unfolded all the way down by the verifier
    decreases walls, n
  {
    if n == 0 then []
    else
      var d := Default[n - 1];
      OrientsUpTo(walls, targets, pos, n - 1) + (if OrientOk(walls, targets, pos, d) then [d] else [])
  }

  ghost function Orients(walls: seq<Seg>, targets: seq<Target>, pos: Pos): seq<Pos>
  {
    OrientsUpTo(walls, targets, pos, 4)
  }

  /** The position of a direction in Default. */
  function Rank(d: Pos): int
  {
    if d == Default[0] then 0 else if d == Default[1] then 1 else if d == Default[2] then 2 else 3
  }

  lemma {:induction false} OrientsUpToChar(walls: seq<Seg>, targets: seq<Target>, pos: Pos, n: nat)
    requires n <= 4
    ensures var r := OrientsUpTo(walls, targets, pos, n);
      && (forall d :: d in r <==> exists k :: 0 <= k < n && d == Default[k] && OrientOk(walls, targets, pos, d))
      && (forall i :: 0 <= i < |r| ==> Rank(r[i]) < n)
      && (forall i, j :: 0 <= i < j < |r| ==> Rank(r[i]) < Rank(r[j]))
  {
    if n > 0 {
      OrientsUpToChar(walls, targets, pos, n - 1);
    }
  }

  /** The placeable directions are exactly the directions of Default whose wall
      may be placed, each once, in the order of Default. */
  lemma {:induction false} OrientsChar(walls: seq<Seg>, targets: seq<Target>, pos: Pos)
    ensures var r := Orients(walls, targets, pos);
      && (forall d :: d in r <==> d in Default && OrientOk(walls, targets, pos, d))
      && (forall i, j :: 0 <= i < j < |r| ==> Rank(r[i]) < Rank(r[j]))
  {
    OrientsUpToChar(walls, targets, pos, 4);
  }

  /** Lattice point a comes before b row by row (y-major). */
  predicate Before(a: Pos, b: Pos)
  {
    a.y < b.y || (a.y == b.y && a.x < b.x)
  }

  /** The points of r are in row-by-row order, each once. */
  predicate RowMajor(r: seq<Pos>)
  {
    forall i, j :: 0 <= i < j < |r| ==> Before(r[i], r[j])
  }

  /** q is one of the 8 x 8 lattice points a wall may start from. */
  predicate OnLattice(q: Pos) { 0 <= q.x < 8 && 0 <= q.y < 8 }

  /** The lattice points before (x, y) that satisfy ok, row by row: the full
      rows above y, then the first x points of row y. */
  ghost function PointsUpTo(ok: Pos -> bool, y: nat, x: nat): seq<Pos>
    requires (y < 8 && x <= 8) || (y == 8 && x == 0)
    decreases y, x
  {
    if x == 0 then
      if y == 0 then [] else PointsUpTo(ok, y - 1, 8)
    else
      var q := Pos(x - 1, y);
      PointsUpTo(ok, y, x - 1) + (if ok(q) then [q] else [])
  }

  lemma {:induction false} PointsUpToMembers(ok: Pos -> bool, y: nat, x: nat)
    requires (y < 8 && x <= 8) || (y == 8 && x == 0)
    decreases y, x
    ensures forall q :: q in PointsUpTo(ok, y, x) <==> OnLattice(q) && Before(q, Pos(x, y)) && ok(q)
  {
    if x == 0 {
      if y > 0 {
        PointsUpToMembers(ok, y - 1, 8);
      }
    } else {
      PointsUpToMembers(ok, y, x - 1);
    }
  }

  lemma {:induction false} PointsUpToSorted(ok: Pos -> bool, y: nat, x: nat)
    requires (y < 8 && x <= 8) || (y == 8 && x == 0)
    decreases y, x
    ensures RowMajor(PointsUpTo(ok, y, x))
  {
    if x == 0 {
      if y > 0 {
        PointsUpToSorted(ok, y - 1, 8);
      }
    } else {
      PointsUpToSorted(ok, y, x - 1);
      PointsUpToMembers(ok, y, x - 1);
      var r0 := PointsUpTo(ok, y, x - 1);
      assert RowMajor(r0);
      var p := Pos(x - 1, y);
      var r := PointsUpTo(ok, y, x);
      assert r == r0 + (if ok(p) then [p] else []);
      forall i, j | 0 <= i < j < |r|
        ensures Before(r[i], r[j])
      {
        assert r[i] == r0[i];
        if j == |r0| {
          assert r0[i] in r0 && r[j] == p;
        } else {
          assert r[j] == r0[j];
        }
      }
    }
  }

  /** A wall may start from q: some direction from it may be placed. */
  ghost function CanStart(walls: seq<Seg>, targets: seq<Target>): Pos -> bool
  {
    q => Orients(walls, targets, q) != []
  }

  /** The lattice points with some placeable direction are exactly the points
      of 0..7 x 0..7 that admit one, each once, row by row. */
  lemma {:induction false} StartsChar(walls: seq<Seg>, targets: seq<Target>)
    ensures forall q :: q in PointsUpTo(CanStart(walls, targets), 8, 0) <==>
      OnLattice(q) && Orients(walls, targets, q) != []
    ensures RowMajor(PointsUpTo(CanStart(walls, targets), 8, 0))
  {
    PointsUpToMembers(CanStart(walls, targets), 8, 0);
    PointsUpToSorted(CanStart(walls, targets), 8, 0);
  }

  /** One (q, d) pair per direction d of os, in order. */
  function Pairs(q: Pos, os: seq<Pos>): (r: seq<(Pos, Pos)>)
    ensures |r| == |os| && forall i :: 0 <= i < |os| ==> r[i] == (q, os[i])
  {
    seq(|os|, i requires 0 <= i < |os| => (q, os[i]))
  }

  lemma PairsMembers(q: Pos, os: seq<Pos>, c: (Pos, Pos))
    ensures c in Pairs(q, os) <==> c.0 == q && c.1 in os
  {
    var r := Pairs(q, os);
    if c.0 == q && c.1 in os {
      var i :| 0 <= i < |os| && os[i] == c.1;
      assert r[i] == c;
    }
  }

  /** The candidate walls at the lattice points before (x, y), row by row. */
  ghost function AllWallsUpTo(walls: seq<Seg>, targets: seq<Target>, y: nat, x: nat): seq<(Pos, Pos)>
    requires (y < 8 && x <= 8) || (y == 8 && x == 0)
    // walls never changes; it leads the measure so that a call whose counters are
    // literals is not unfolded all the way down by the verifier
    decreases walls, y, x
  {
    if x == 0 then
      if y == 0 then [] else AllWallsUpTo(walls, targets, y - 1, 8)
    else
      var q := Pos(x - 1, y);
      AllWallsUpTo(walls, targets, y, x - 1) + Pairs(q, Orients(walls, targets, q))
  }

  /** Every placeable wall of the board as (lattice point, direction), row by row. */
  ghost function AllWalls(walls: seq<Seg>, targets: seq<Target>): seq<(Pos, Pos)>
  {
    AllWallsUpTo(walls, targets, 8, 0)
  }

  /** The candidates at q are the pairs (q, d) of a placeable direction d. */
  lemma PairsAtChar(walls: seq<Seg>, targets: seq<Target>, q: Pos, c: (Pos, Pos))
    ensures c in Pairs(q, Orients(walls, targets, q)) <==>
      c.0 == q && c.1 in Default && OrientOk(walls, targets, q, c.1)
  {
    OrientsChar(walls, targets, q);
    PairsMembers(q, Orients(walls, targets, q), c);
  }

  /** The walls listed before (x, y) are exactly the placeable walls from lattice points before it. */
  lemma {:induction false} AllWallsUpToMembers(walls: seq<Seg>, targets: seq<Target>, y: nat, x: nat)
    requires (y < 8 && x <= 8) || (y == 8 && x == 0)
    decreases y, x
    ensures forall c :: c in AllWallsUpTo(walls, targets, y, x) <==>
      OnLattice(c.0) && Before(c.0, Pos(x, y)) && c.1 in Default && OrientOk(walls, targets, c.0, c.1)
  {
    if x == 0 {
      if y > 0 {
        AllWallsUpToMembers(walls, targets, y - 1, 8);
      }
    } else {
      AllWallsUpToMembers(walls, targets, y, x - 1);
      var q := Pos(x - 1, y);
      forall c
        ensures c in Pairs(q, Orients(walls, targets, q)) <==>
          c.0 == q && c.1 in Default && OrientOk(walls, targets, q, c.1)
      {
        PairsAtChar(walls, targets, q, c);
      }
    }
  }

  lemma AllWallsChar(walls: seq<Seg>, targets: seq<Target>)
    ensures forall c :: c in AllWalls(walls, targets) <==>
      OnLattice(c.0) && c.1 in Default && OrientOk(walls, targets, c.0, c.1)
  {
    AllWallsUpToMembers(walls, targets, 8, 0);
  }


  /** The sum of the distances of the first n players that do not stand on myPos. */
  ghost function OthersDist(g: Grid, walls: seq<Seg>, targets: seq<Target>, myPos: Pos, n: nat): int
    requires WellFormed(g) && n <= |targets|
  {
    if n == 0 then 0
    else
      var t := targets[n - 1];
      OthersDist(g, walls, targets, myPos, n - 1) + (if t.pos != myPos then Dist(g, walls, t.pos, t.goal) else 0)
  }

  /** The bot's score of a candidate wall: with the wall added, the opponents'
      distances summed, minus the bot's own. */
  ghost function WallScore(g: Grid, walls: seq<Seg>, targets: seq<Target>, myPos: Pos, win: Pos, c: (Pos, Pos)): int
    requires WellFormed(g)
  {
    var w := walls + [PlacedWall(c.0, c.1)];
    OthersDist(g, w, targets, myPos, |targets|) - Dist(g, w, myPos, win)
  }

  /** The distance to the goal line of wins from each candidate move. */
  ghost function MoveDists(g: Grid, walls: seq<Seg>, ms: seq<Pos>, wins: Pos): (r: seq<int>)
    requires WellFormed(g)
    ensures |r| == |ms| && forall i :: 0 <= i < |ms| ==> r[i] == Dist(g, walls, ms[i], wins)
  {
    seq(|ms|, i requires 0 <= i < |ms| => Dist(g, walls, ms[i], wins))
  }

  /** The score of each candidate wall. */
  ghost function WallScores(g: Grid, walls: seq<Seg>, targets: seq<Target>, myPos: Pos, win: Pos,
                            cs: seq<(Pos, Pos)>): (r: seq<int>)
    requires WellFormed(g)
    ensures |r| == |cs| && forall i :: 0 <= i < |cs| ==> r[i] == WallScore(g, walls, targets, myPos, win, cs[i])
  {
    seq(|cs|, i requires 0 <= i < |cs| => WallScore(g, walls, targets, myPos, win, cs[i]))
  }

  /** k is the first position of the least score: the choice a scan keeping the
      first strictly smaller score makes. */
  predicate FirstMin(s: seq<int>, k: int)
  {
    && 0 <= k < |s|
    && (forall j :: 0 <= j < |s| ==> s[k] <= s[j])
    && (forall j :: 0 <= j < k ==> s[k] < s[j])
  }

  /** k is the first position of the greatest score above floor, or -1 when no
      score exceeds floor: the choice a scan starting from floor and keeping the
      first strictly greater score makes. */
  predicate FirstMaxAbove(s: seq<int>, floor: int, k: int)
  {
    if k == -1 then forall j :: 0 <= j < |s| ==> s[j] <= floor
    else
      && 0 <= k < |s| && floor < s[k]
      && (forall j :: 0 <= j < |s| ==> s[j] <= s[k])
      && (forall j :: 0 <= j < k ==> s[j] < s[k])
  }

  /** `w` is the candidate wall of `cs` whose score is the first maximum
      above -1000, or none when no wall scores above that floor. */
  ghost predicate BestWallOf(g: Grid, walls: seq<Seg>, targets: seq<Target>, myPos: Pos, win: Pos,
                             cs: seq<(Pos, Pos)>, w: Option<(Pos, Pos)>)
    requires WellFormed(g)
  {
    var ss := WallScores(g, walls, targets, myPos, win, cs);
    exists k :: FirstMaxAbove(ss, -1000, k) && w == if k == -1 then None else Some(cs[k])
  }

  /** A list of scores has at most one first minimum. */
  lemma {:induction false} FirstMinUnique(s: seq<int>, k1: int, k2: int)
    requires FirstMin(s, k1) && FirstMin(s, k2)
    ensures k1 == k2
  {
    assert s[k1] == s[k2];
  }

  /** The first maximum above a floor is determined by the scores. */
  lemma FirstMaxAboveUnique(s: seq<int>, floor: int, k1: int, k2: int)
    requires FirstMaxAbove(s, floor, k1) && FirstMaxAbove(s, floor, k2)
    ensures k1 == k2
  {
  }
}
