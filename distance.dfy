/** Distance to the goal line counted in legal pawn moves (jumps and
    side-steps included), the specification of the engine's breadth-first search. */
module Distance {
  import opened Geometry
  import opened MoveRules
  import opened Paths

  /** What the search answers when the goal line cannot be reached. */
  const Unreachable: int := 1000000

  /** Every element of w after the first is a move from the one before it. */
  ghost predicate IsRun(g: Grid, walls: seq<Seg>, w: seq<Pos>)
    requires WellFormed(g)
  {
    |w| > 0 && forall i :: 0 <= i < |w| - 1 ==> w[i + 1] in Moves(g, walls, w[i])
  }

  /** A run from p that ends on the goal line of wins; it takes |w| - 1 moves. */
  ghost predicate IsRunToGoal(g: Grid, walls: seq<Seg>, w: seq<Pos>, p: Pos, wins: Pos)
    requires WellFormed(g)
  {
    IsRun(g, walls, w) && w[0] == p && AtGoal(w[|w| - 1], wins)
  }

  ghost predicate Reachable(g: Grid, walls: seq<Seg>, p: Pos, wins: Pos)
    requires WellFormed(g)
  {
    exists w :: IsRunToGoal(g, walls, w, p, wins)
  }

  /** k moves suffice to reach the goal line from p, and fewer do not. */
  ghost predicate IsShortest(g: Grid, walls: seq<Seg>, p: Pos, wins: Pos, k: nat)
    requires WellFormed(g)
  {
    && (exists w :: IsRunToGoal(g, walls, w, p, wins) && |w| == k + 1)
    && forall w :: IsRunToGoal(g, walls, w, p, wins) ==> k + 1 <= |w|
  }

  /** Some run to the goal of n moves means there is a shortest one. */
  lemma {:induction false} ShortestExists(g: Grid, walls: seq<Seg>, p: Pos, wins: Pos, n: nat)
    requires WellFormed(g)
    requires exists w :: IsRunToGoal(g, walls, w, p, wins) && |w| == n + 1
    ensures exists k :: IsShortest(g, walls, p, wins, k)
    decreases n
  {
    if !IsShortest(g, walls, p, wins, n) {
      var w :| IsRunToGoal(g, walls, w, p, wins) && |w| < n + 1;
      ShortestExists(g, walls, p, wins, |w| - 1);
    }
  }

  /** The shortest number of moves is unique. */
  lemma ShortestUnique(g: Grid, walls: seq<Seg>, p: Pos, wins: Pos, k1: nat, k2: nat)
    requires WellFormed(g)
    requires IsShortest(g, walls, p, wins, k1) && IsShortest(g, walls, p, wins, k2)
    ensures k1 == k2
  {
    var w1 :| IsRunToGoal(g, walls, w1, p, wins) && |w1| == k1 + 1;
    var w2 :| IsRunToGoal(g, walls, w2, p, wins) && |w2| == k2 + 1;
  }

  /** The least number of moves from p to the goal line, or Unreachable. */
  ghost function Dist(g: Grid, walls: seq<Seg>, p: Pos, wins: Pos): (r: int)
    requires WellFormed(g)
    ensures Reachable(g, walls, p, wins) ==> r >= 0 && IsShortest(g, walls, p, wins, r)
    ensures !Reachable(g, walls, p, wins) ==> r == Unreachable
  {
    if Reachable(g, walls, p, wins) then
      var w :| IsRunToGoal(g, walls, w, p, wins);
      ShortestExists(g, walls, p, wins, |w| - 1);
      var k: nat :| IsShortest(g, walls, p, wins, k);
      k
    else
      Unreachable
  }

  /** Cutting the loop between two visits of the same cell out of a run to
      the goal line leaves a run to the goal line from the same cell. */
  lemma {:induction false} RunShortcut(g: Grid, walls: seq<Seg>, w: seq<Pos>, p: Pos, wins: Pos, i: nat, j: nat)
    requires WellFormed(g)
    requires IsRunToGoal(g, walls, w, p, wins)
    requires i < j < |w| && w[i] == w[j]
    ensures IsRunToGoal(g, walls, w[..i] + w[j..], p, wins)
  {
    var v := w[..i] + w[j..];
    assert |v| == |w| - (j - i);
    forall k | 0 <= k < |v| - 1
      ensures v[k + 1] in Moves(g, walls, v[k])
    {
      if k + 1 < i {
        assert v[k] == w[k] && v[k + 1] == w[k + 1];
      } else if k + 1 == i {
        assert v[k] == w[k] && v[k + 1] == w[j];
      } else {
        assert v[k] == w[k + j - i] && v[k + 1] == w[k + 1 + j - i];
      }
    }
    assert v[|v| - 1] == w[|w| - 1];
  }

  /** A shortest run to the goal line never visits a cell twice. */
  lemma {:induction false} ShortestRunDistinct(g: Grid, walls: seq<Seg>, w: seq<Pos>, p: Pos, wins: Pos)
    requires WellFormed(g)
    requires IsRunToGoal(g, walls, w, p, wins) && IsShortest(g, walls, p, wins, |w| - 1)
    ensures forall i, j :: 0 <= i < j < |w| ==> w[i] != w[j]
  {
    forall i, j | 0 <= i < j < |w|
      ensures w[i] != w[j]
    {
      if w[i] == w[j] {
        RunShortcut(g, walls, w, p, wins, i, j);
      }
    }
  }

  /** Distinct whole numbers below n number at most n. */
  lemma {:induction false} Pigeonhole(s: seq<int>, n: nat)
    requires forall i :: 0 <= i < |s| ==> 0 <= s[i] < n
    requires forall i, j :: 0 <= i < j < |s| ==> s[i] != s[j]
    ensures |s| <= n
  {
    if |s| > 0 {
      assert 0 <= s[0] < n;
      if j :| 0 <= j < |s| && s[j] == n - 1 {
        var t := s[..j] + s[j + 1..];
        assert forall a :: 0 <= a < |t| ==> t[a] == if a < j then s[a] else s[a + 1];
        Pigeonhole(t, n - 1);
      } else {
        Pigeonhole(s, n - 1);
      }
    }
  }

  /** A cell's place in a row-major numbering of the board. */
  function CellIndex(p: Pos): int { 9 * p.x + p.y }

  /** Distinct board cells number at most 81. */
  lemma {:induction false} DistinctCellsBound(cs: seq<Pos>)
    requires forall i :: 0 <= i < |cs| ==> InBounds(cs[i])
    requires forall i, j :: 0 <= i < j < |cs| ==> cs[i] != cs[j]
    ensures |cs| <= 81
  {
    var ids := seq(|cs|, i requires 0 <= i < |cs| => CellIndex(cs[i]));
    forall a, b | 0 <= a < b < |ids|
      ensures ids[a] != ids[b]
    {
      assert cs[a] != cs[b];
    }
    Pigeonhole(ids, 81);
  }

  /** Every cell of a run after the first is on the board. */
  lemma {:induction false} RunOnBoard(g: Grid, walls: seq<Seg>, w: seq<Pos>)
    requires WellFormed(g) && IsRun(g, walls, w)
    ensures forall i :: 1 <= i < |w| ==> InBounds(w[i])
  {
    forall i | 1 <= i < |w|
      ensures InBounds(w[i])
    {
      MovesInBounds(g, walls, w[i - 1]);
    }
  }

  /** When the goal line can be reached at all, it can be reached in at most
      81 moves, 80 from a board cell: far below the Unreachable answer, so the
      two answers of the search never meet. */
  lemma {:induction false} DistBound(g: Grid, walls: seq<Seg>, p: Pos, wins: Pos)
    requires WellFormed(g)
    requires Reachable(g, walls, p, wins)
    ensures 0 <= Dist(g, walls, p, wins) <= 81
    ensures InBounds(p) ==> Dist(g, walls, p, wins) <= 80
  {
    var k := Dist(g, walls, p, wins);
    var w :| IsRunToGoal(g, walls, w, p, wins) && |w| == k + 1;
    ShortestRunDistinct(g, walls, w, p, wins);
    RunOnBoard(g, walls, w);
    var from := if InBounds(p) then 0 else 1;
    DistinctCellsBound(w[from..]);
  }

  /** A shortest count found by other means is the distance. */
  lemma DistIsShortest(g: Grid, walls: seq<Seg>, p: Pos, wins: Pos, k: nat)
    requires WellFormed(g)
    requires IsShortest(g, walls, p, wins, k)
    ensures Dist(g, walls, p, wins) == k
  {
    var w :| IsRunToGoal(g, walls, w, p, wins) && |w| == k + 1;
    ShortestUnique(g, walls, p, wins, k, Dist(g, walls, p, wins));
  }

  /** The distance is 0 exactly when p is already on the goal line. */
  lemma {:induction false} DistZero(g: Grid, walls: seq<Seg>, p: Pos, wins: Pos)
    requires WellFormed(g)
    ensures Dist(g, walls, p, wins) == 0 <==> AtGoal(p, wins)
  {
    if AtGoal(p, wins) {
      assert IsRunToGoal(g, walls, [p], p, wins);
      DistIsShortest(g, walls, p, wins, 0);
    }
  }

  /** One move changes the distance by at most one: if q is a move from p and
      the goal is reachable from q, it is reachable from p, at most one further. */
  lemma {:induction false} DistStep(g: Grid, walls: seq<Seg>, p: Pos, q: Pos, wins: Pos)
    requires WellFormed(g)
    requires q in Moves(g, walls, p)
    requires Reachable(g, walls, q, wins)
    ensures Reachable(g, walls, p, wins)
    ensures Dist(g, walls, p, wins) <= Dist(g, walls, q, wins) + 1
  {
    var k := Dist(g, walls, q, wins);
    var w :| IsRunToGoal(g, walls, w, q, wins) && |w| == k + 1;
    var v := [p] + w;
    forall i | 0 <= i < |v| - 1
      ensures v[i + 1] in Moves(g, walls, v[i])
    {
      if i > 0 {
        assert v[i] == w[i - 1] && v[i + 1] == w[i];
      }
    }
    assert IsRunToGoal(g, walls, v, p, wins);
  }

  /** Extending a run by a move from its last cell gives a run. */
  lemma {:induction false} RunExtend(g: Grid, walls: seq<Seg>, w: seq<Pos>, m: Pos)
    requires WellFormed(g)
    requires IsRun(g, walls, w) && m in Moves(g, walls, w[|w| - 1])
    ensures IsRun(g, walls, w + [m])
  {
    var v := w + [m];
    forall i | 0 <= i < |v| - 1
      ensures v[i + 1] in Moves(g, walls, v[i])
    {
      if i < |w| - 1 {
        assert v[i] == w[i] && v[i + 1] == w[i + 1];
      }
    }
  }

  /** The cells held in a search queue of (cell, depth) pairs. */
  ghost function QueuedCells(q: seq<(Pos, int)>): set<Pos>
  {
    set i | 0 <= i < |q| :: q[i].0
  }

  /** Every cell of visited carries, in path, a run from pos that ends on it. */
  ghost predicate RunsTo(g: Grid, walls: seq<Seg>, pos: Pos, visited: set<Pos>, path: map<Pos, seq<Pos>>)
    requires WellFormed(g)
  {
    forall v :: v in visited ==>
      v in path && IsRun(g, walls, path[v]) && path[v][0] == pos && path[v][|path[v]| - 1] == v
  }

  /** Queued depths are the lengths of the recorded runs, lie in
      [level, level + 1] and never decrease along the queue. */
  ghost predicate QueueDepths(q: seq<(Pos, int)>, path: map<Pos, seq<Pos>>, level: int)
  {
    && (forall i :: 0 <= i < |q| ==> q[i].0 in path && |path[q[i].0]| == q[i].1 + 1 && level <= q[i].1 <= level + 1)
    && (forall i, j :: 0 <= i < j < |q| ==> q[i].1 <= q[j].1)
  }

  /** Expanded cells are off the goal line, no deeper than level, and every
      move from one of them is visited at most one level deeper. */
  ghost predicate ExpandedDone(g: Grid, walls: seq<Seg>, wins: Pos, expanded: set<Pos>, visited: set<Pos>,
                               path: map<Pos, seq<Pos>>, level: int)
    requires WellFormed(g)
  {
    forall u :: u in expanded ==>
      u in path && |path[u]| <= level + 1 && !AtGoal(u, wins) && MovesDone(g, walls, u, visited, path)
  }

  /** Every move from u is visited and carries a run at most one longer than u's. */
  ghost predicate MovesDone(g: Grid, walls: seq<Seg>, u: Pos, visited: set<Pos>, path: map<Pos, seq<Pos>>)
    requires WellFormed(g)
  {
    u in path && forall m :: m in Moves(g, walls, u) ==> m in visited && m in path && |path[m]| <= |path[u]| + 1
  }

  /** The breadth-first search state from pos: every visited cell is either
      expanded or queued and carries a run from pos to it; queued depths are
      sorted, lie in [level, level + 1] and are the lengths of those runs;
      expanded cells are off the goal line, lie no deeper than level, and all
      their moves are visited at most one level deeper. */
  ghost predicate Frontier(g: Grid, walls: seq<Seg>, pos: Pos, wins: Pos, q: seq<(Pos, int)>,
                           visited: set<Pos>, expanded: set<Pos>, level: int, path: map<Pos, seq<Pos>>)
    requires WellFormed(g)
  {
    && visited == expanded + QueuedCells(q)
    && pos in visited && pos in path && path[pos] == [pos]
    && RunsTo(g, walls, pos, visited, path)
    && QueueDepths(q, path, level)
    && ExpandedDone(g, walls, wins, expanded, visited, path, level)
  }

  /** Every run from pos to the goal line is at least as long as the depth at
      the head of the queue; with an empty queue there is no such run. */
  lemma {:induction false} FrontierBound(g: Grid, walls: seq<Seg>, pos: Pos, wins: Pos, q: seq<(Pos, int)>,
                                         visited: set<Pos>, expanded: set<Pos>, level: int,
                                         path: map<Pos, seq<Pos>>, w: seq<Pos>)
    requires WellFormed(g)
    requires Frontier(g, walls, pos, wins, q, visited, expanded, level, path)
    requires IsRunToGoal(g, walls, w, pos, wins)
    ensures |q| > 0 && q[0].1 + 1 <= |w|
  {
    var i := ExpandedWalk(g, walls, wins, expanded, visited, path, level, w);
    if w[i] in expanded {
      assert false;
    }
    assert w[i] in QueuedCells(q);
    var t :| 0 <= t < |q| && q[t].0 == w[i];
    assert QueueDepths(q, path, level);
    if t > 0 {
      assert q[0].1 <= q[t].1;
    }
  }

  /** Following a run from an expanded cell through expanded cells stays within
      the visited cells, at most one recorded level per move, until it leaves
      the expanded cells or ends. */
  lemma {:induction false} ExpandedWalk(g: Grid, walls: seq<Seg>, wins: Pos, expanded: set<Pos>,
                                        visited: set<Pos>, path: map<Pos, seq<Pos>>, level: int,
                                        w: seq<Pos>) returns (i: nat)
    requires WellFormed(g)
    requires ExpandedDone(g, walls, wins, expanded, visited, path, level)
    requires IsRun(g, walls, w) && w[0] in visited && w[0] in path && |path[w[0]]| <= 1
    ensures i < |w| && w[i] in visited && w[i] in path && |path[w[i]]| <= i + 1
    ensures w[i] in expanded ==> i == |w| - 1
  {
    i := 0;
    while i < |w| - 1 && w[i] in expanded
      invariant 0 <= i < |w|
      invariant w[i] in visited && w[i] in path && |path[w[i]]| <= i + 1
    {
      assert w[i + 1] in Moves(g, walls, w[i]);
      i := i + 1;
    }
  }

  lemma QueuedCellsCons(e: (Pos, int), q: seq<(Pos, int)>)
    ensures QueuedCells([e] + q) == {e.0} + QueuedCells(q)
    ensures QueuedCells(q + [e]) == QueuedCells(q) + {e.0}
  {
    var a, b := [e] + q, q + [e];
    assert forall i :: 0 <= i < |q| ==> a[i + 1] == q[i] && b[i] == q[i];
    assert a[0] == e && b[|q|] == e;
  }

  /** The search starts with pos alone, queued at depth 0. */
  lemma FrontierStart(g: Grid, walls: seq<Seg>, pos: Pos, wins: Pos)
    requires WellFormed(g)
    ensures Frontier(g, walls, pos, wins, [(pos, 0)], {pos}, {}, 0, map[pos := [pos]])
  {
    QueuedCellsCons((pos, 0), []);
  }

  /** Taking the head of the queue raises the level to its depth. */
  lemma {:induction false} FrontierPop(g: Grid, walls: seq<Seg>, pos: Pos, wins: Pos, q: seq<(Pos, int)>,
                                       visited: set<Pos>, expanded: set<Pos>, level: int, path: map<Pos, seq<Pos>>)
    requires WellFormed(g)
    requires Frontier(g, walls, pos, wins, q, visited, expanded, level, path) && |q| > 0
    ensures level <= q[0].1
    ensures Frontier(g, walls, pos, wins, q, visited, expanded, q[0].1, path)
  {
    QueueDepthsPop(q, path, level);
  }

  lemma {:induction false} QueueDepthsPop(q: seq<(Pos, int)>, path: map<Pos, seq<Pos>>, level: int)
    requires QueueDepths(q, path, level) && |q| > 0
    ensures QueueDepths(q, path, q[0].1)
  {
    forall i | 0 <= i < |q|
      ensures q[0].1 <= q[i].1
    {
      if i > 0 {
        assert q[0].1 <= q[i].1;
      }
    }
  }

  /** Queueing an unvisited move m of the head cell c, one level deeper, with
      the run to c extended by m. */
  lemma {:induction false} FrontierPush(g: Grid, walls: seq<Seg>, pos: Pos, wins: Pos, q: seq<(Pos, int)>,
                                        visited: set<Pos>, expanded: set<Pos>, level: int,
                                        path: map<Pos, seq<Pos>>, m: Pos)
    requires WellFormed(g)
    requires Frontier(g, walls, pos, wins, q, visited, expanded, level, path)
    requires |q| > 0 && q[0].1 == level
    requires m !in visited && m in Moves(g, walls, q[0].0)
    ensures q[0].0 in path
    ensures Frontier(g, walls, pos, wins, q + [(m, level + 1)], visited + {m}, expanded, level,
                     path[m := path[q[0].0] + [m]])
  {
    var c := q[0].0;
    assert c in QueuedCells(q);
    QueuedCellsCons((m, level + 1), q);
    RunsToPush(g, walls, pos, visited, path, c, m);
    QueueDepthsPush(q, path, level, m, path[c] + [m]);
    ExpandedDonePush(g, walls, wins, expanded, visited, path, level, m, path[c] + [m]);
  }

  lemma {:induction false} RunsToPush(g: Grid, walls: seq<Seg>, pos: Pos, visited: set<Pos>,
                                      path: map<Pos, seq<Pos>>, c: Pos, m: Pos)
    requires WellFormed(g)
    requires RunsTo(g, walls, pos, visited, path)
    requires c in visited && m !in visited && m in Moves(g, walls, c)
    ensures c in path
    ensures RunsTo(g, walls, pos, visited + {m}, path[m := path[c] + [m]])
  {
    var path' := path[m := path[c] + [m]];
    RunExtend(g, walls, path[c], m);
    forall v | v in visited + {m}
      ensures v in path' && IsRun(g, walls, path'[v]) && path'[v][0] == pos && path'[v][|path'[v]| - 1] == v
    {
      if v != m {
        assert path'[v] == path[v];
      }
    }
  }

  lemma {:induction false} QueueDepthsPush(q: seq<(Pos, int)>, path: map<Pos, seq<Pos>>, level: int,
                                           m: Pos, run: seq<Pos>)
    requires QueueDepths(q, path, level)
    requires m !in QueuedCells(q) && |run| == level + 2
    ensures QueueDepths(q + [(m, level + 1)], path[m := run], level)
  {
    var q', path' := q + [(m, level + 1)], path[m := run];
    forall i | 0 <= i < |q'|
      ensures q'[i].0 in path' && |path'[q'[i].0]| == q'[i].1 + 1 && level <= q'[i].1 <= level + 1
    {
      if i < |q| {
        assert q'[i] == q[i];
        assert q[i].0 in QueuedCells(q);
      }
    }
    forall i, j | 0 <= i < j < |q'|
      ensures q'[i].1 <= q'[j].1
    {
      if j < |q| {
        assert q'[i] == q[i] && q'[j] == q[j];
      }
    }
  }

  lemma {:induction false} ExpandedDonePush(g: Grid, walls: seq<Seg>, wins: Pos, expanded: set<Pos>,
                                            visited: set<Pos>, path: map<Pos, seq<Pos>>, level: int,
                                            m: Pos, run: seq<Pos>)
    requires WellFormed(g)
    requires ExpandedDone(g, walls, wins, expanded, visited, path, level)
    requires expanded <= visited && m !in visited
    ensures ExpandedDone(g, walls, wins, expanded, visited + {m}, path[m := run], level)
  {
    var path' := path[m := run];
    forall u | u in expanded
      ensures u in path' && |path'[u]| <= level + 1 && !AtGoal(u, wins)
      ensures MovesDone(g, walls, u, visited + {m}, path')
    {
      assert path'[u] == path[u];
      forall n | n in Moves(g, walls, u)
        ensures n in visited + {m} && n in path' && |path'[n]| <= |path'[u]| + 1
      {
        assert path'[n] == path[n];
      }
    }
  }

  /** Once every move of the head cell c is visited no more than one level
      deeper, c is expanded and leaves the queue. */
  lemma {:induction false} FrontierExpand(g: Grid, walls: seq<Seg>, pos: Pos, wins: Pos, q: seq<(Pos, int)>,
                                          visited: set<Pos>, expanded: set<Pos>, level: int,
                                          path: map<Pos, seq<Pos>>)
    requires WellFormed(g)
    requires Frontier(g, walls, pos, wins, q, visited, expanded, level, path)
    requires |q| > 0 && q[0].1 == level && !AtGoal(q[0].0, wins)
    requires q[0].0 in path
    requires forall m :: m in Moves(g, walls, q[0].0) ==>
      m in visited && m in path && |path[m]| <= |path[q[0].0]| + 1
    ensures Frontier(g, walls, pos, wins, q[1..], visited, expanded + {q[0].0}, level, path)
  {
    QueuedCellsCons(q[0], q[1..]);
    assert [q[0]] + q[1..] == q;
    QueueDepthsTail(q, path, level);
    ExpandedDoneAdd(g, walls, wins, expanded, visited, path, level, q[0].0);
  }

  lemma {:induction false} QueueDepthsTail(q: seq<(Pos, int)>, path: map<Pos, seq<Pos>>, level: int)
    requires QueueDepths(q, path, level) && |q| > 0
    ensures QueueDepths(q[1..], path, level)
  {
    var r := q[1..];
    forall i | 0 <= i < |r|
      ensures r[i].0 in path && |path[r[i].0]| == r[i].1 + 1 && level <= r[i].1 <= level + 1
    {
      assert r[i] == q[i + 1];
    }
    forall i, j | 0 <= i < j < |r|
      ensures r[i].1 <= r[j].1
    {
      assert r[i] == q[i + 1] && r[j] == q[j + 1];
    }
  }

  lemma {:induction false} ExpandedDoneAdd(g: Grid, walls: seq<Seg>, wins: Pos, expanded: set<Pos>,
                                           visited: set<Pos>, path: map<Pos, seq<Pos>>, level: int, c: Pos)
    requires WellFormed(g)
    requires ExpandedDone(g, walls, wins, expanded, visited, path, level)
    requires c in path && |path[c]| <= level + 1 && !AtGoal(c, wins)
    requires MovesDone(g, walls, c, visited, path)
    ensures ExpandedDone(g, walls, wins, expanded + {c}, visited, path, level)
  {
  }

  /** Every visited cell has a recorded run. */
  lemma FrontierKeys(g: Grid, walls: seq<Seg>, pos: Pos, wins: Pos, q: seq<(Pos, int)>,
                     visited: set<Pos>, expanded: set<Pos>, level: int, path: map<Pos, seq<Pos>>)
    requires WellFormed(g)
    requires Frontier(g, walls, pos, wins, q, visited, expanded, level, path)
    ensures forall v :: v in visited ==> v in path
  {
    assert RunsTo(g, walls, pos, visited, path);
  }

  /** Recording a run for a cell outside visited keeps the runs of visited. */
  lemma KeysKept(visited: set<Pos>, path: map<Pos, seq<Pos>>, m: Pos, run: seq<Pos>)
    requires forall v :: v in visited ==> v in path
    requires m !in visited
    ensures forall v :: v in visited ==> v in path[m := run] && path[m := run][v] == path[v]
  {
  }

  /** Every visited cell lies at most two levels below level: expanded ones at
      most one, queued ones at most two. */
  lemma {:induction false} FrontierDepth(g: Grid, walls: seq<Seg>, pos: Pos, wins: Pos, q: seq<(Pos, int)>,
                                         visited: set<Pos>, expanded: set<Pos>, level: int,
                                         path: map<Pos, seq<Pos>>, v: Pos)
    requires WellFormed(g)
    requires Frontier(g, walls, pos, wins, q, visited, expanded, level, path)
    requires v in visited
    ensures v in path && |path[v]| <= level + 2
  {
    assert QueueDepths(q, path, level);
    if v !in expanded {
      var t :| 0 <= t < |q| && q[t].0 == v;
    }
  }
}
