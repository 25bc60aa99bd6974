/** Reachability of a goal line through walls alone (pawns do not block),
    the specification of the engine's depth-first search. */
module Paths {
  import opened Geometry
  import opened MoveRules

  /** A player's goal: a cell matches when either coordinate equals the target's
      (the unconstrained axis holds -1, which no board cell matches). */
  predicate AtGoal(p: Pos, dest: Pos) { p.x == dest.x || p.y == dest.y }

  /** The search may go from a to its neighbour b: b is on the board and no
      wall meets the unit probe from a to b. */
  predicate Open(walls: seq<Seg>, a: Pos, b: Pos)
  {
    InBounds(b) && !Blocked(walls, Probe(a, b))
  }

  /** b is one of the four neighbours of a. */
  predicate Adjacent(a: Pos, b: Pos)
  {
    exists k :: 0 <= k < 4 && b == Add(a, Default[k])
  }

  /** w is a walk from p through open edges that ends on the goal line of dest. */
  ghost predicate IsWay(walls: seq<Seg>, w: seq<Pos>, p: Pos, dest: Pos)
  {
    && |w| > 0 && w[0] == p && AtGoal(w[|w| - 1], dest)
    && forall i :: 0 <= i < |w| - 1 ==> Adjacent(w[i], w[i + 1]) && Open(walls, w[i], w[i + 1])
  }

  ghost predicate HasWay(walls: seq<Seg>, p: Pos, dest: Pos)
  {
    exists w :: IsWay(walls, w, p, dest)
  }

  /** v is not on the goal line and every open neighbour of v is in s. */
  predicate Closed(walls: seq<Seg>, s: set<Pos>, v: Pos, dest: Pos)
  {
    && !AtGoal(v, dest)
    && forall k :: 0 <= k < 4 && Open(walls, v, Add(v, Default[k])) ==> Add(v, Default[k]) in s
  }

  /** A set of cells that are all closed traps every walk: no walk from one of
      its cells reaches the goal line. */
  lemma {:induction false} ClosedHasNoWay(walls: seq<Seg>, s: set<Pos>, p: Pos, dest: Pos)
    requires p in s
    requires forall v :: v in s ==> Closed(walls, s, v, dest)
    ensures !HasWay(walls, p, dest)
  {
    if w :| IsWay(walls, w, p, dest) {
      var i := 0;
      while i < |w| - 1
        invariant 0 <= i < |w|
        invariant w[i] in s
      {
        var k :| 0 <= k < 4 && w[i + 1] == Add(w[i], Default[k]);
        assert Closed(walls, s, w[i], dest);
        i := i + 1;
      }
      assert Closed(walls, s, w[|w| - 1], dest);
    }
  }

  /** Closedness only needs more cells. */
  lemma ClosedGrows(walls: seq<Seg>, s: set<Pos>, t: set<Pos>, v: Pos, dest: Pos)
    requires Closed(walls, s, v, dest) && s <= t
    ensures Closed(walls, t, v, dest)
  {
  }

  /** Every cell of s outside base stays closed when s grows to t. */
  lemma ClosedSetGrows(walls: seq<Seg>, s: set<Pos>, t: set<Pos>, base: set<Pos>, dest: Pos)
    requires s <= t
    requires forall v :: v in s - base ==> Closed(walls, s, v, dest)
    ensures forall v :: v in s - base ==> Closed(walls, t, v, dest)
  {
    forall v | v in s - base
      ensures Closed(walls, t, v, dest)
    {
      ClosedGrows(walls, s, t, v, dest);
    }
  }

  /** A way from a neighbour, reached through an open edge, extends to a way. */
  lemma {:induction false} WayPrepend(walls: seq<Seg>, w: seq<Pos>, a: Pos, b: Pos, dest: Pos)
    requires IsWay(walls, w, b, dest)
    requires Adjacent(a, b) && Open(walls, a, b)
    ensures IsWay(walls, [a] + w, a, dest)
  {
    var v := [a] + w;
    forall i | 0 <= i < |v| - 1
      ensures Adjacent(v[i], v[i + 1]) && Open(walls, v[i], v[i + 1])
    {
      if i > 0 {
        assert v[i] == w[i - 1] && v[i + 1] == w[i];
      }
    }
  }
}
