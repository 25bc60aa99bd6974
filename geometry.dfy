/** Wall segments of the Quoridor board and the test for two of them overlapping.

    Every coordinate the game uses is a multiple of one half, so this module
    keeps them doubled: the cell (x, y) sits at (2x, 2y) and a wall drawn from
    lattice point (x, y) starts at (2x + 1, 2y + 1). */
module Geometry {

  /** A point or a direction: a board cell, a lattice point or a doubled endpoint. */
  datatype Pos = Pos(x: int, y: int)

  /** A segment between two doubled points, in the order its constructor left them. */
  datatype Seg = Seg(start: Pos, end: Pos)

  /** The four unit directions, in the order every loop of the engine visits them. */
  const Default: seq<Pos> := [Pos(-1, 0), Pos(1, 0), Pos(0, -1), Pos(0, 1)]

  function Add(p: Pos, d: Pos): Pos { Pos(p.x + d.x, p.y + d.y) }

  /** p moved two steps along d. */
  function Jump(p: Pos, d: Pos): Pos { Pos(p.x + 2 * d.x, p.y + 2 * d.y) }

  /** Doubles a point; a real wall endpoint is also moved by half a cell on both axes. */
  function Scale(p: Pos, fake: bool): (q: Pos)
    ensures fake ==> q == Pos(2 * p.x, 2 * p.y)
    ensures !fake ==> q == Pos(2 * p.x + 1, 2 * p.y + 1)
  {
    if fake then Pos(2 * p.x, 2 * p.y) else Pos(2 * p.x + 1, 2 * p.y + 1)
  }

  /** The wall constructor: shift (unless fake), then swap the ends when the
      start exceeds the end on either axis. */
  function MakeWall(start: Pos, end: Pos, fake: bool): Seg
  {
    var s := Scale(start, fake);
    var e := Scale(end, fake);
    if s.x > e.x || s.y > e.y then Seg(e, s) else Seg(s, e)
  }

  /** The segment joining two cell centres, used to ask whether a wall is in the way. */
  function Probe(a: Pos, b: Pos): Seg { MakeWall(a, b, true) }

  /** The wall that placing from lattice point pos towards dir adds to the board. */
  function PlacedWall(pos: Pos, dir: Pos): Seg { MakeWall(pos, Jump(pos, dir), false) }

  /** The overlap test, clause by clause: identical segments, collinear horizontal
      overlap (other's end, then other's start, strictly inside), the same for
      vertical segments, then the two strict crossings. */
  predicate Overlaps(a: Seg, b: Seg)
  {
    var s, e, os, oe := a.start, a.end, b.start, b.end;
    || (s == os && e == oe)
    || (s.x < oe.x < e.x && s.y == e.y && e.y == oe.y && oe.y == os.y)
    || (s.x < os.x < e.x && s.y == e.y && e.y == oe.y && oe.y == os.y)
    || (s.y < oe.y < e.y && s.x == e.x && e.x == oe.x && oe.x == os.x)
    || (s.y < os.y < e.y && s.x == e.x && e.x == oe.x && oe.x == os.x)
    || (s.y < os.y < e.y && os.x < s.x < oe.x)
    || (s.x < os.x < e.x && os.y < s.y < oe.y)
  }

  /** A wall as the board holds it: odd doubled start, two cells long, running
      right or down from its start. */
  predicate IsLatticeWall(w: Seg)
  {
    && w.start.x % 2 == 1 && w.start.y % 2 == 1
    && (w.end == Pos(w.start.x + 4, w.start.y) || w.end == Pos(w.start.x, w.start.y + 4))
  }

  predicate Horizontal(w: Seg) { w.start.y == w.end.y }

  /** The wall crosses the edge between neighbouring cells c and n: it passes
      strictly through the (doubled) midpoint c + n of that edge, across it. */
  predicate Separates(w: Seg, c: Pos, n: Pos)
  {
    if c.y == n.y then
      !Horizontal(w) && w.start.x == c.x + n.x && w.start.y < c.y + n.y < w.end.y
    else
      Horizontal(w) && w.start.y == c.y + n.y && w.start.x < c.x + n.x < w.end.x
  }

  /** An axis-aligned segment comes out with start <= end on both axes, and does
      not depend on the order its ends were given in. */
  lemma {:induction false} AxisAlignedCanonical(a: Pos, b: Pos, fake: bool)
    requires a.x == b.x || a.y == b.y
    ensures var w := MakeWall(a, b, fake);
      && w.start.x <= w.end.x && w.start.y <= w.end.y
      && {w.start, w.end} == {Scale(a, fake), Scale(b, fake)}
      && w == MakeWall(b, a, fake)
  {
  }

  /** A probe between two cells that differ on both axes is the same segment
      in both orders exactly when the cells lie on a main diagonal (both
      coordinates grow together); on an anti-diagonal the swap leaves each
      order's own start in place, so the two orders give different segments. */
  lemma DiagonalProbeOrder(a: Pos, b: Pos)
    requires a.x != b.x && a.y != b.y
    ensures Probe(a, b) == Probe(b, a) <==> (a.x < b.x <==> a.y < b.y)
  {
  }

  /** An anti-diagonal probe, from a cell to one with a larger x and a
      smaller y, can only be met by a horizontal wall; the same probe drawn in the
      other order can only be met by a vertical one. Only one of the two
      crossing clauses of the overlap test can apply to it. */
  lemma AntiDiagonalProbeMeets(a: Pos, b: Pos, w: Seg)
    requires a.x < b.x && a.y > b.y && IsLatticeWall(w)
    ensures Overlaps(Probe(a, b), w) ==> Horizontal(w)
    ensures Overlaps(Probe(b, a), w) ==> !Horizontal(w)
  {
  }

  /** Placing from any lattice point in any of the four directions gives a
      lattice wall; a negative direction starts the wall at the far end. */
  lemma {:induction false} PlacedWallIsLattice(pos: Pos, dir: Pos)
    requires dir in Default
    ensures IsLatticeWall(PlacedWall(pos, dir))
    ensures var anchor := if dir.x < 0 || dir.y < 0 then Jump(pos, dir) else pos;
      PlacedWall(pos, dir).start == Scale(anchor, false)
    ensures Horizontal(PlacedWall(pos, dir)) <==> dir.y == 0
  {
    var j := Jump(pos, dir);
    assert (2 * pos.x + 1) % 2 == 1 && (2 * pos.y + 1) % 2 == 1;
    assert (2 * j.x + 1) % 2 == 1 && (2 * j.y + 1) % 2 == 1;
  }

  /** Every segment overlaps itself. */
  lemma OverlapsIdentical(a: Seg)
    ensures Overlaps(a, a)
  {
  }

  /** Two parallel lattice walls overlap iff they lie on the same line and their
      starts are less than two cells (four doubled units) apart; walls that
      only touch end to end do not overlap. */
  lemma {:induction false} ParallelOverlap(a: Seg, b: Seg)
    requires IsLatticeWall(a) && IsLatticeWall(b)
    requires Horizontal(a) == Horizontal(b)
    ensures Overlaps(a, b) <==>
      if Horizontal(a) then a.start.y == b.start.y && -4 < a.start.x - b.start.x < 4
      else a.start.x == b.start.x && -4 < a.start.y - b.start.y < 4
  {
    OddDifference(a.start.x, b.start.x);
    OddDifference(a.start.y, b.start.y);
  }

  /** A horizontal and a vertical lattice wall overlap iff each one's fixed
      coordinate lies strictly inside the other's span, whichever is asked first. */
  lemma {:induction false} CrossingOverlap(a: Seg, b: Seg)
    requires IsLatticeWall(a) && IsLatticeWall(b)
    requires Horizontal(a) && !Horizontal(b)
    ensures Overlaps(a, b) <==> a.start.x < b.start.x < a.end.x && b.start.y < a.start.y < b.end.y
    ensures Overlaps(b, a) <==> a.start.x < b.start.x < a.end.x && b.start.y < a.start.y < b.end.y
  {
    OddDifference(a.start.x, b.start.x);
    OddDifference(a.start.y, b.start.y);
  }

  /** For walls on the board the overlap test does not depend on argument order. */
  lemma {:induction false} OverlapsSymmetric(a: Seg, b: Seg)
    requires IsLatticeWall(a) && IsLatticeWall(b)
    ensures Overlaps(a, b) == Overlaps(b, a)
  {
    if Horizontal(a) == Horizontal(b) {
      ParallelOverlap(a, b);
      ParallelOverlap(b, a);
    } else if Horizontal(a) {
      CrossingOverlap(a, b);
    } else {
      CrossingOverlap(b, a);
    }
  }

  /** The probe between neighbouring cells c and c + d meets a lattice wall iff
      that wall separates the two cells. */
  lemma {:induction false} UnitProbeBlocked(c: Pos, d: Pos, w: Seg)
    requires d in Default
    requires IsLatticeWall(w)
    ensures Overlaps(Probe(c, Add(c, d)), w) <==> Separates(w, c, Add(c, d))
  {
    OddParity(w.start.x);
    OddParity(w.start.y);
  }

  /** The two-cell probe of a straight jump meets a lattice wall iff the wall
      blocks either of the two unit edges it spans. */
  lemma {:induction false} JumpProbeBlocked(c: Pos, d: Pos, w: Seg)
    requires d in Default
    requires IsLatticeWall(w)
    ensures Overlaps(Probe(c, Jump(c, d)), w) <==>
      Overlaps(Probe(c, Add(c, d)), w) || Overlaps(Probe(Add(c, d), Jump(c, d)), w)
  {
    OddParity(w.start.x);
    OddParity(w.start.y);
    UnitProbeBlocked(c, d, w);
    UnitProbeBlocked(Add(c, d), d, w);
    assert Add(Add(c, d), d) == Jump(c, d);
  }

  lemma OddParity(v: int)
    requires v % 2 == 1
    ensures exists k :: v == 2 * k + 1
  {
    assert v == 2 * (v / 2) + 1;
  }

  lemma OddDifference(u: int, v: int)
    requires u % 2 == 1 && v % 2 == 1
    ensures (u - v) % 2 == 0
    ensures -4 < u - v < 4 <==> u - v == -2 || u - v == 0 || u - v == 2
  {
    assert u == 2 * (u / 2) + 1 && v == 2 * (v / 2) + 1;
    assert u - v == 2 * (u / 2 - v / 2);
  }
}
