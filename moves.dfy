/** The pawn-move rule: which cells a pawn standing on a cell may move to,
    given the occupancy grid and the walls on the board. */
module MoveRules {
  import opened Base
  import opened Geometry

  /** A grid cell holds the index of the player standing on it, if any. */
  type Cell = Option<nat>

  /** The board grid, indexed grid[x][y]. */
  type Grid = seq<seq<Cell>>

  predicate WellFormed(g: Grid)
  {
    |g| == 9 && forall i :: 0 <= i < 9 ==> |g[i]| == 9
  }

  predicate InBounds(p: Pos) { 0 <= p.x < 9 && 0 <= p.y < 9 }

  /** p is a cell of the board and nobody stands on it. */
  predicate Free(g: Grid, p: Pos)
    requires WellFormed(g)
  {
    InBounds(p) && g[p.x][p.y].None?
  }

  /** The 81 cells of the board. */
  const AllCells: set<Pos> := set x: int, y: int | 0 <= x < 9 && 0 <= y < 9 :: Pos(x, y)

  lemma AllCellsMember(p: Pos)
    ensures p in AllCells <==> InBounds(p)
  {
    if InBounds(p) {
      assert p == Pos(p.x, p.y);
    }
  }

  /** The grid with nobody on it. */
  function EmptyGrid(): (g: Grid)
    ensures WellFormed(g) && forall x, y :: 0 <= x < 9 && 0 <= y < 9 ==> g[x][y].None?
  {
    seq(9, _ => seq(9, _ => None))
  }

  /** The grid with cell p set to c. */
  function SetCell(g: Grid, p: Pos, c: Cell): (r: Grid)
    requires WellFormed(g) && InBounds(p)
    ensures WellFormed(r)
    ensures forall x, y :: 0 <= x < 9 && 0 <= y < 9 ==> r[x][y] == if Pos(x, y) == p then c else g[x][y]
  {
    g[p.x := g[p.x][p.y := c]]
  }

  /** Some wall on the board overlaps the segment c (which is asked first). */
  predicate Blocked(walls: seq<Seg>, c: Seg)
  {
    exists i :: 0 <= i < |walls| && Overlaps(c, walls[i])
  }

  function Manhattan(p: Pos, q: Pos): nat
  {
    (if p.x <= q.x then q.x - p.x else p.x - q.x) + (if p.y <= q.y then q.y - p.y else p.y - q.y)
  }

  /** The straight jump along d is open: the far cell is free and no wall meets
      the two-cell probe from p to it. */
  predicate JumpOk(g: Grid, walls: seq<Seg>, p: Pos, d: Pos)
    requires WellFormed(g)
  {
    Free(g, Jump(p, d)) && !Blocked(walls, Probe(p, Jump(p, d)))
  }

  /** The side-step to cell s, if s is on the board, free, and the (diagonal)
      probe from p to s meets no wall. */
  function Side(g: Grid, walls: seq<Seg>, p: Pos, s: Pos): seq<Pos>
    requires WellFormed(g)
  {
    if Free(g, s) && !Blocked(walls, Probe(p, s)) then [s] else []
  }

  /** The side-steps offered when the neighbour n = p + d is occupied and the
      straight jump is not open: the two cells beside n across the axis of d,
      the one with the larger coordinate first. */
  function SideSteps(g: Grid, walls: seq<Seg>, p: Pos, d: Pos): seq<Pos>
    requires WellFormed(g) && d in Default
  {
    var n := Add(p, d);
    if d.y != 0 then Side(g, walls, p, Pos(p.x + 1, n.y)) + Side(g, walls, p, Pos(p.x - 1, n.y))
    else Side(g, walls, p, Pos(n.x, p.y + 1)) + Side(g, walls, p, Pos(n.x, p.y - 1))
  }

  /** What one direction d contributes to the moves from p. */
  function DirMoves(g: Grid, walls: seq<Seg>, p: Pos, d: Pos): seq<Pos>
    requires WellFormed(g) && d in Default
  {
    var n := Add(p, d);
    if !InBounds(n) then []
    else if g[n.x][n.y].Some? then
      if JumpOk(g, walls, p, d) then [Jump(p, d)] else SideSteps(g, walls, p, d)
    else if !Blocked(walls, Probe(p, n)) then [n]
    else []
  }

  /** The moves contributed by the first k directions of Default, in order. */
  function MovesUpTo(g: Grid, walls: seq<Seg>, p: Pos, k: nat): seq<Pos>
    requires WellFormed(g) && k <= 4
    // walls never changes; it leads the measure so that a call whose counters are
    // literals is not unfolded all the way down by the verifier
    decreases walls, k
  {
    if k == 0 then [] else MovesUpTo(g, walls, p, k - 1) + DirMoves(g, walls, p, Default[k - 1])
  }

  /** The list the engine computes for a pawn on p. */
  function Moves(g: Grid, walls: seq<Seg>, p: Pos): seq<Pos>
    requires WellFormed(g)
  {
    MovesUpTo(g, walls, p, 4)
  }

  /** A cell is a move iff one of the four directions contributes it. */
  lemma {:induction false} MovesMember(g: Grid, walls: seq<Seg>, p: Pos, q: Pos)
    requires WellFormed(g)
    ensures q in Moves(g, walls, p) <==> exists k :: 0 <= k < 4 && q in DirMoves(g, walls, p, Default[k])
  {
    forall k | 0 <= k <= 4
      ensures q in MovesUpTo(g, walls, p, k) <==> exists j :: 0 <= j < k && q in DirMoves(g, walls, p, Default[j])
    {
      MovesUpToMember(g, walls, p, q, k);
    }
  }

  lemma {:induction false} MovesUpToMember(g: Grid, walls: seq<Seg>, p: Pos, q: Pos, k: nat)
    requires WellFormed(g) && k <= 4
    ensures q in MovesUpTo(g, walls, p, k) <==> exists j :: 0 <= j < k && q in DirMoves(g, walls, p, Default[j])
  {
    if k > 0 {
      MovesUpToMember(g, walls, p, q, k - 1);
    }
  }

  /** Every cell one direction contributes is a free board cell at distance one
      (a step) or two (a jump or a side-step) from p, and the kind of move is
      told by where it lies. */
  lemma {:induction false} DirMovesShape(g: Grid, walls: seq<Seg>, p: Pos, d: Pos, q: Pos)
    requires WellFormed(g) && d in Default
    requires q in DirMoves(g, walls, p, d)
    ensures Free(g, q)
    ensures q == Add(p, d) || q == Jump(p, d) || (q.x - p.x != 0 && q.y - p.y != 0)
    ensures Manhattan(p, q) == 1 <==> q == Add(p, d)
    ensures 1 <= Manhattan(p, q) <= 2
  {
    var n := Add(p, d);
    assert d == Default[0] || d == Default[1] || d == Default[2] || d == Default[3];
    assert InBounds(n);
    if g[n.x][n.y].None? {
      assert q == n;
    } else if JumpOk(g, walls, p, d) {
      assert q == Jump(p, d);
    } else {
      SideStepsShape(g, walls, p, d, q);
    }
  }

  /** A side-step is a free board cell diagonal to p. */
  lemma {:induction false} SideStepsShape(g: Grid, walls: seq<Seg>, p: Pos, d: Pos, q: Pos)
    requires WellFormed(g) && d in Default
    requires q in SideSteps(g, walls, p, d)
    ensures Free(g, q) && q.x - p.x != 0 && q.y - p.y != 0 && Manhattan(p, q) == 2
  {
    var n := Add(p, d);
    assert d == Default[0] || d == Default[1] || d == Default[2] || d == Default[3];
    if d.y != 0 {
      SideMember(g, walls, p, Pos(p.x + 1, n.y), q);
      SideMember(g, walls, p, Pos(p.x - 1, n.y), q);
    } else {
      SideMember(g, walls, p, Pos(n.x, p.y + 1), q);
      SideMember(g, walls, p, Pos(n.x, p.y - 1), q);
    }
  }

  /** Bounds: every move is a free board cell other than p, one step (orthogonal)
      or two steps (straight jump or diagonal side-step) away. */
  lemma {:induction false} MovesInBounds(g: Grid, walls: seq<Seg>, p: Pos)
    requires WellFormed(g)
    ensures forall q :: q in Moves(g, walls, p) ==>
      Free(g, q) && q != p && 1 <= Manhattan(p, q) <= 2
  {
    forall q | q in Moves(g, walls, p)
      ensures Free(g, q) && q != p && 1 <= Manhattan(p, q) <= 2
    {
      MovesMember(g, walls, p, q);
      var k :| 0 <= k < 4 && q in DirMoves(g, walls, p, Default[k]);
      DirMovesShape(g, walls, p, Default[k], q);
    }
  }

  /** Step rule: a free neighbour is a move iff no wall meets the unit probe to it. */
  lemma {:induction false} StepRule(g: Grid, walls: seq<Seg>, p: Pos, d: Pos)
    requires WellFormed(g) && d in Default
    requires Free(g, Add(p, d))
    ensures Add(p, d) in Moves(g, walls, p) <==> !Blocked(walls, Probe(p, Add(p, d)))
  {
    var n := Add(p, d);
    MovesMember(g, walls, p, n);
    if n in Moves(g, walls, p) {
      var k :| 0 <= k < 4 && n in DirMoves(g, walls, p, Default[k]);
      DirMovesShape(g, walls, p, Default[k], n);
      assert Default[k] == d;
    } else {
      assert d == Default[0] || d == Default[1] || d == Default[2] || d == Default[3];
    }
  }

  /** A cell two steps straight along d from p is reached from direction e
      only by the straight jump along d itself. */
  lemma JumpOnlyAlong(p: Pos, d: Pos, e: Pos, q: Pos)
    requires d in Default && e in Default && q == Jump(p, d)
    requires q == Add(p, e) || q == Jump(p, e) || (q.x - p.x != 0 && q.y - p.y != 0)
    ensures e == d
  {
    assert d == Default[0] || d == Default[1] || d == Default[2] || d == Default[3];
    assert e == Default[0] || e == Default[1] || e == Default[2] || e == Default[3];
  }

  /** With the neighbour along d occupied, direction d offers the straight
      jump iff the jump is open. */
  lemma JumpInDirMoves(g: Grid, walls: seq<Seg>, p: Pos, d: Pos)
    requires WellFormed(g) && d in Default
    requires InBounds(Add(p, d)) && g[p.x + d.x][p.y + d.y].Some?
    ensures Jump(p, d) in DirMoves(g, walls, p, d) <==> JumpOk(g, walls, p, d)
  {
    var j := Jump(p, d);
    if j in DirMoves(g, walls, p, d) {
      DirMovesShape(g, walls, p, d, j);
      if !JumpOk(g, walls, p, d) {
        assert d == Default[0] || d == Default[1] || d == Default[2] || d == Default[3];
        SideStepsShape(g, walls, p, d, j);
      }
    }
  }

  /** Jump rule: when the neighbour along d is occupied, the cell beyond it is a
      move iff it is on the board, free, and the two-cell probe is clear. */
  lemma {:induction false} JumpRule(g: Grid, walls: seq<Seg>, p: Pos, d: Pos)
    requires WellFormed(g) && d in Default
    requires InBounds(Add(p, d)) && g[p.x + d.x][p.y + d.y].Some?
    ensures Jump(p, d) in Moves(g, walls, p) <==> JumpOk(g, walls, p, d)
  {
    var j := Jump(p, d);
    JumpInDirMoves(g, walls, p, d);
    if JumpOk(g, walls, p, d) {
      DirMovesInMoves(g, walls, p, d, j);
    } else if j in Moves(g, walls, p) {
      MovesMember(g, walls, p, j);
      var k :| 0 <= k < 4 && j in DirMoves(g, walls, p, Default[k]);
      DirMovesShape(g, walls, p, Default[k], j);
      JumpOnlyAlong(p, d, Default[k], j);
    }
  }

  /** An occupied neighbour is never a move. */
  lemma {:induction false} OccupiedNeighbourExcluded(g: Grid, walls: seq<Seg>, p: Pos, d: Pos)
    requires WellFormed(g) && d in Default
    requires InBounds(Add(p, d)) && g[p.x + d.x][p.y + d.y].Some?
    ensures Add(p, d) !in Moves(g, walls, p)
  {
    MovesInBounds(g, walls, p);
  }

  /** Side-step rule: when the neighbour along d is occupied and the straight
      jump is not open, direction d offers a cell e beside that neighbour
      (across the axis of d) iff it is on the board, free, and the diagonal
      probe from p to it is clear; when the jump is open it offers the jump only. */
  lemma {:induction false} SideStepRule(g: Grid, walls: seq<Seg>, p: Pos, d: Pos, e: Pos)
    requires WellFormed(g) && d in Default && e in Default
    requires (d.x == 0) != (e.x == 0)
    requires InBounds(Add(p, d)) && g[p.x + d.x][p.y + d.y].Some?
    ensures JumpOk(g, walls, p, d) ==> DirMoves(g, walls, p, d) == [Jump(p, d)]
    ensures !JumpOk(g, walls, p, d) ==>
      (Add(Add(p, d), e) in DirMoves(g, walls, p, d) <==>
        Free(g, Add(Add(p, d), e)) && !Blocked(walls, Probe(p, Add(Add(p, d), e))))
  {
    var n := Add(p, d);
    var s := Add(n, e);
    if !JumpOk(g, walls, p, d) {
      assert DirMoves(g, walls, p, d) == SideSteps(g, walls, p, d);
      var a := if d.y != 0 then Pos(p.x + 1, n.y) else Pos(n.x, p.y + 1);
      var b := if d.y != 0 then Pos(p.x - 1, n.y) else Pos(n.x, p.y - 1);
      assert e == Default[0] || e == Default[1] || e == Default[2] || e == Default[3];
      SideStepsMember(g, walls, p, d, a, b, s);
    }
  }

  /** A cell beside the neighbour along d, across its axis, is a side-step
      iff it is free and the diagonal probe to it is clear. */
  lemma SideStepsMember(g: Grid, walls: seq<Seg>, p: Pos, d: Pos, a: Pos, b: Pos, s: Pos)
    requires WellFormed(g) && d in Default
    requires a == if d.y != 0 then Pos(p.x + 1, p.y + d.y) else Pos(p.x + d.x, p.y + 1)
    requires b == if d.y != 0 then Pos(p.x - 1, p.y + d.y) else Pos(p.x + d.x, p.y - 1)
    requires s == a || s == b
    ensures s in SideSteps(g, walls, p, d) <==> Free(g, s) && !Blocked(walls, Probe(p, s))
  {
    assert SideSteps(g, walls, p, d) == Side(g, walls, p, a) + Side(g, walls, p, b);
    SideMember(g, walls, p, a, s);
    SideMember(g, walls, p, b, s);
  }

  lemma SideMember(g: Grid, walls: seq<Seg>, p: Pos, a: Pos, s: Pos)
    requires WellFormed(g)
    ensures s in Side(g, walls, p, a) <==> s == a && Free(g, a) && !Blocked(walls, Probe(p, a))
  {
  }

  /** A side-step offered by any direction is also in the full list. */
  lemma {:induction false} DirMovesInMoves(g: Grid, walls: seq<Seg>, p: Pos, d: Pos, q: Pos)
    requires WellFormed(g) && d in Default
    requires q in DirMoves(g, walls, p, d)
    ensures q in Moves(g, walls, p)
  {
    MovesMember(g, walls, p, q);
    assert d == Default[0] || d == Default[1] || d == Default[2] || d == Default[3];
  }
}
