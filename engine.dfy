/** The game state the engine works on, and its operations. One object holds
    what the board, the validator and the game share: the grid, the wall list,
    the players, the turn and the search's visited set. */
module Engine {
  import opened Base
  import opened Geometry
  import opened MoveRules
  import opened Paths
  import opened Distance
  import opened Planner
  import opened Players

  /** The starting cells, in player order, for a game of n players. */
  function StartCells(n: int): seq<Pos>
  {
    if n == 2 then [Pos(4, 0), Pos(4, 8)] else [Pos(4, 0), Pos(8, 4), Pos(4, 8), Pos(0, 4)]
  }

  function Colours(n: int): seq<string>
  {
    if n == 2 then ["darkgreen", "slateblue"] else ["darkgreen", "gold", "slateblue", "plum"]
  }

  /** The pawn the first n starting cells put on p: the last of them on p wins. */
  function PawnAt(starts: seq<Pos>, n: nat, p: Pos): Cell
    requires n <= |starts|
  {
    if n == 0 then None else if starts[n - 1] == p then Some(n - 1) else PawnAt(starts, n - 1, p)
  }

  /** With distinct starting cells, cell starts[i] holds pawn i (for i < n) and
      every other cell is empty. */
  lemma {:induction false} PawnAtDistinct(starts: seq<Pos>, n: nat, p: Pos)
    requires n <= |starts|
    requires forall i, j :: 0 <= i < j < n ==> starts[i] != starts[j]
    ensures forall i :: 0 <= i < n && starts[i] == p ==> PawnAt(starts, n, p) == Some(i)
    ensures (forall i :: 0 <= i < n ==> starts[i] != p) ==> PawnAt(starts, n, p) == None
  {
    if n > 0 {
      PawnAtDistinct(starts, n - 1, p);
    }
  }

  /** The board's grid as its constructor builds it: nine rows of nine empty
      cells, appended one row at a time. */
  method NewGrid() returns (g: Grid)
    ensures g == EmptyGrid()
    ensures WellFormed(g) && forall x, y :: 0 <= x < 9 && 0 <= y < 9 ==> g[x][y].None?
  {
    g := [];
    for i := 0 to 9
      invariant |g| == i && forall k :: 0 <= k < i ==> g[k] == seq(9, _ => None)
    {
      var row: seq<Cell> := seq(9, _ => None);
      g := g + [row];
    }
    forall k | 0 <= k < 9
      ensures g[k] == EmptyGrid()[k]
    {
      assert forall y :: 0 <= y < 9 ==> g[k][y] == EmptyGrid()[k][y];
    }
  }

  /** The empty grid with pawn i put on starts[i], for i below n in order. */
  method PlacePawns(starts: seq<Pos>, n: nat) returns (g: Grid)
    requires n <= |starts| && forall i :: 0 <= i < |starts| ==> InBounds(starts[i])
    ensures WellFormed(g)
    ensures forall x, y :: 0 <= x < 9 && 0 <= y < 9 ==> g[x][y] == PawnAt(starts, n, Pos(x, y))
  {
    g := NewGrid();
    for i := 0 to n
      invariant WellFormed(g)
      invariant forall x, y :: 0 <= x < 9 && 0 <= y < 9 ==> g[x][y] == PawnAt(starts, i, Pos(x, y))
    {
      g := SetCell(g, starts[i], Some(i));
    }
  }

  /** The players of a game of n players: two with 10 walls each, or four
      with 5 each, on their starting cells. */
  method StartPlayers(n: int) returns (ps: seq<Player>)
    requires 0 < n <= 4
    ensures n <= |ps| == |StartCells(n)| && PositionsOf(ps) == StartCells(n)
    ensures forall i :: 0 <= i < |ps| ==> InBounds(ps[i].position)
    ensures forall i, j :: 0 <= i < j < |ps| ==> ps[i] != ps[j]
    ensures forall i :: 0 <= i < |ps| ==>
      && fresh(ps[i])
      && ps[i].position == StartCells(n)[i]
      && ps[i].colour == Colours(n)[i]
      && ps[i].remainingWalls == WallBudget(n)
      && ps[i].wins == GoalOf(StartCells(n)[i])
      && !ps[i].won
  {
    if n == 2 {
      var p0 := new Player("darkgreen", Pos(4, 0), 10);
      var p1 := new Player("slateblue", Pos(4, 8), 10);
      ps := [p0, p1];
    } else {
      var p0 := new Player("darkgreen", Pos(4, 0), 5);
      var p1 := new Player("gold", Pos(8, 4), 5);
      var p2 := new Player("slateblue", Pos(4, 8), 5);
      var p3 := new Player("plum", Pos(0, 4), 5);
      ps := [p0, p1, p2, p3];
    }
  }

  /** The grid a game of n players starts from. */
  method StartGrid(n: int) returns (g: Grid)
    requires 0 < n <= 4
    ensures Agrees(g, StartCells(n), n)
  {
    g := PlacePawns(StartCells(n), n);
    StartAgrees(g, n);
  }

  /** The walls each player starts with. */
  function WallBudget(n: int): int { if n == 2 then 10 else 5 }

  /** The position and goal of each player, in order. */
  ghost function TargetsOf(ps: seq<Player>): (r: seq<Target>)
    reads ps
    ensures |r| == |ps| && forall i :: 0 <= i < |ps| ==> r[i] == Target(ps[i].position, ps[i].wins)
  {
    seq(|ps|, i requires 0 <= i < |ps| reads ps => Target(ps[i].position, ps[i].wins))
  }

  /** The position of each player, in order. */
  ghost function PositionsOf(ps: seq<Player>): (r: seq<Pos>)
    reads ps
    ensures |r| == |ps| && forall i :: 0 <= i < |ps| ==> r[i] == ps[i].position
  {
    seq(|ps|, i requires 0 <= i < |ps| reads ps => ps[i].position)
  }

  /** m has a recorded run of at most n cells. */
  ghost predicate Settled(path: map<Pos, seq<Pos>>, m: Pos, n: int)
  {
    m in path && |path[m]| <= n
  }

  /** Visiting moves[i] keeps the moves before it settled, since their runs
      are unchanged. */
  lemma SettledGrows(moves: seq<Pos>, i: nat, v0: set<Pos>, visited: set<Pos>,
                     p0: map<Pos, seq<Pos>>, path: map<Pos, seq<Pos>>, n: int)
    requires i < |moves| && v0 <= visited && moves[i] in visited && Settled(path, moves[i], n)
    requires forall k :: 0 <= k < i ==> moves[k] in v0 && Settled(p0, moves[k], n)
    requires forall v :: v in v0 ==> v in p0 && v in path && path[v] == p0[v]
    ensures forall k :: 0 <= k <= i ==> moves[k] in visited && Settled(path, moves[k], n)
  {
  }

  lemma SetAddMember(s: set<Pos>, x: Pos)
    requires x in s
    ensures s + {x} == s
  {
  }

  /** Adding a board cell keeps a set of cells within the board plus pos. */
  lemma CellsAdd(visited: set<Pos>, move: Pos, pos: Pos)
    requires visited <= AllCells + {pos} && InBounds(move)
    ensures visited + {move} <= AllCells + {pos}
  {
    AllCellsMember(move);
  }

  /** acc followed by one (q, d) pair per direction d of os, in order. */
  method AppendWalls(acc: seq<(Pos, Pos)>, q: Pos, os: seq<Pos>) returns (r: seq<(Pos, Pos)>)
    ensures r == acc + Pairs(q, os)
  {
    r := acc;
    for k := 0 to |os|
      invariant r == acc + Pairs(q, os[..k])
    {
      assert Pairs(q, os[..k + 1]) == Pairs(q, os[..k]) + [(q, os[k])];
      r := r + [(q, os[k])];
    }
    assert os[..|os|] == os;
  }

  lemma KeepMin(ds: seq<int>, i: int, b: int)
    requires 0 <= i < |ds| && b <= ds[i]
    requires forall j :: 0 <= j < i ==> b <= ds[j]
    ensures forall j :: 0 <= j < i + 1 ==> b <= ds[j]
  {
  }

  lemma KeepMax(ss: seq<int>, i: int, b: int)
    requires 0 <= i < |ss| && ss[i] <= b
    requires forall j :: 0 <= j < i ==> ss[j] <= b
    ensures forall j :: 0 <= j < i + 1 ==> ss[j] <= b
  {
  }

  /** The grid after the pawn on fr is moved to to: to receives what stood on
      fr, then fr is emptied (so moving onto fr itself leaves it empty). */
  function Moved(g: Grid, fr: Pos, to: Pos): (r: Grid)
    requires WellFormed(g) && InBounds(fr) && InBounds(to)
    ensures WellFormed(r)
    ensures forall x, y :: 0 <= x < 9 && 0 <= y < 9 ==>
      r[x][y] == if Pos(x, y) == fr then None else if Pos(x, y) == to then g[fr.x][fr.y] else g[x][y]
  {
    SetCell(SetCell(g, to, g[fr.x][fr.y]), fr, None)
  }

  /** The grid and the first n pawn positions agree: pawn i stands on its
      position in the grid, and every occupied cell holds a pawn below n
      whose position it is. */
  ghost predicate Agrees(g: Grid, ps: seq<Pos>, n: int)
  {
    && WellFormed(g) && 0 <= n <= |ps|
    && (forall i :: 0 <= i < n ==> InBounds(ps[i]) && g[ps[i].x][ps[i].y] == Some(i))
    && (forall x, y :: 0 <= x < 9 && 0 <= y < 9 && g[x][y].Some? ==> g[x][y].value < n && ps[g[x][y].value] == Pos(x, y))
  }

  /** Moving pawn i onto a free cell keeps the grid and the positions in
      agreement. */
  lemma {:induction false} MovedAgrees(g: Grid, ps: seq<Pos>, n: int, i: int, to: Pos)
    requires Agrees(g, ps, n) && 0 <= i < n && Free(g, to)
    ensures Agrees(Moved(g, ps[i], to), ps[i := to], n)
  {
    var r: Grid := Moved(g, ps[i], to);
    var qs := ps[i := to];
    forall j: nat | j < n
      ensures InBounds(qs[j]) && r[qs[j].x][qs[j].y] == Some(j)
    {
      if j != i {
        assert ps[j] != ps[i] && ps[j] != to;
      }
    }
    forall x: int, y: int | 0 <= x < 9 && 0 <= y < 9 && r[x][y].Some?
      ensures r[x][y].value < n && qs[r[x][y].value] == Pos(x, y)
    {
      if Pos(x, y) != to {
        assert r[x][y] == g[x][y];
        assert g[x][y] != Some(i);
      }
    }
  }

  /** The starting grid agrees with the starting cells: no two starting cells
      coincide, and each is on the board. */
  lemma {:induction false} StartAgrees(g: Grid, n: int)
    requires 0 < n <= 4 && WellFormed(g)
    requires forall x, y :: 0 <= x < 9 && 0 <= y < 9 ==> g[x][y] == PawnAt(StartCells(n), n, Pos(x, y))
    ensures Agrees(g, StartCells(n), n)
  {
    var starts := StartCells(n);
    forall p: Pos
      ensures forall i :: 0 <= i < n && starts[i] == p ==> PawnAt(starts, n, p) == Some(i)
      ensures (forall i :: 0 <= i < n ==> starts[i] != p) ==> PawnAt(starts, n, p) == None
    {
      PawnAtDistinct(starts, n, p);
    }
    forall x: int, y: int | 0 <= x < 9 && 0 <= y < 9 && g[x][y].Some?
      ensures g[x][y].value < n && starts[g[x][y].value] == Pos(x, y)
    {
      var i :| 0 <= i < n && starts[i] == Pos(x, y);
    }
  }

  /** What the bot decides: a wall (or none found), or a move to a cell. */
  datatype BotChoice = OrientChoice(wall: Option<(Pos, Pos)>) | MoveChoice(to: Pos)

  /** The player after c in a game of n players: c + 1, wrapping round to 0. */
  function NextPlayer(c: int, n: int): (r: int)
    requires 0 <= c < n
    ensures 0 <= r < n
  {
    if c + 1 == n then 0 else c + 1
  }

  /** Passing the turn by taking c + 1 modulo n gives the next player. */
  lemma NextPlayerMod(c: int, n: int)
    requires 0 <= c < n
    ensures (c + 1) % n == NextPlayer(c, n)
  {
  }

  class Game {
    var grid: Grid
    var walls: seq<Seg>
    var players: seq<Player>
    var currplayer: int
    var numPlayers: int
    var visited: set<Pos>

    ghost predicate Valid()
      reads this, players
    {
      && WellFormed(grid)
      && 0 < numPlayers <= |players|
      && 0 <= currplayer < numPlayers
      && (forall i, j :: 0 <= i < j < |players| ==> players[i] != players[j])
      && (forall i :: 0 <= i < |players| ==> InBounds(players[i].position))
    }

    /** Each player's position and goal, in order. */
    ghost function Targets(): seq<Target>
      reads this`players, players
    {
      TargetsOf(players)
    }

    /** Each player's position, in order. */
    ghost function Positions(): seq<Pos>
      reads this`players, players
    {
      PositionsOf(players)
    }

    /** The grid shows exactly the pawns of the players in the game, where
        they stand. */
    ghost predicate Placed()
      reads this, players
    {
      Agrees(grid, Positions(), numPlayers)
    }

    /** A new game: empty board, no walls, player 0 to move, and the first
        numPlayers players standing on their starting cells. */
    constructor (numPlayers: int)
      requires 0 < numPlayers <= 4
      ensures Valid()
      ensures walls == [] && currplayer == 0 && this.numPlayers == numPlayers
      ensures |players| == |StartCells(numPlayers)|
      ensures forall i :: 0 <= i < |players| ==>
        && fresh(players[i])
        && players[i].position == StartCells(numPlayers)[i]
        && players[i].colour == Colours(numPlayers)[i]
        && players[i].remainingWalls == WallBudget(numPlayers)
        && players[i].wins == GoalOf(StartCells(numPlayers)[i])
        && !players[i].won
      ensures Placed()
    {
      var ps := StartPlayers(numPlayers);
      var g := StartGrid(numPlayers);
      grid := g;
      walls := [];
      players := ps;
      currplayer := 0;
      this.numPlayers := numPlayers;
      visited := {};
      new;
      assert Positions() == PositionsOf(ps);
    }

    /** Whether some wall on the board overlaps the segment from start to end. */
    method AnyOverlap(start: Pos, end: Pos, fake: bool) returns (r: bool)
      ensures r == Blocked(walls, MakeWall(start, end, fake))
    {
      var check := MakeWall(start, end, fake);
      for i := 0 to |walls|
        invariant forall k :: 0 <= k < i ==> !Overlaps(check, walls[k])
      {
        if Overlaps(check, walls[i]) {
          return true;
        }
      }
      return false;
    }

    /** The cells a pawn on pos may move to, direction by direction. */
    method PossibleMoves(pos: Pos) returns (ret: seq<Pos>)
      requires WellFormed(grid)
      ensures ret == Moves(grid, walls, pos)
    {
      ret := [];
      for i := 0 to 4
        invariant ret == MovesUpTo(grid, walls, pos, i)
      {
        var add := DirectionMoves(pos, Default[i]);
        ret := ret + add;
      }
    }

    /** One pass of the direction loop: a step to a free neighbour, a jump over
        an occupied one, or the side-steps when that jump is not open. */
    method DirectionMoves(pos: Pos, d: Pos) returns (ret: seq<Pos>)
      requires WellFormed(grid) && d in Default
      ensures ret == DirMoves(grid, walls, pos, d)
    {
      ret := [];
      var n := Add(pos, d);
      if 0 <= n.x < 9 && 0 <= n.y < 9 {
        if grid[n.x][n.y].Some? {
          ret := JumpMoves(pos, d);
        } else {
          ret := StepMove(pos, d);
        }
      }
    }

    /** The occupied-neighbour case: the straight jump when it is open,
        otherwise the side-steps. */
    method JumpMoves(pos: Pos, d: Pos) returns (ret: seq<Pos>)
      requires WellFormed(grid) && d in Default && InBounds(Add(pos, d))
      ensures ret == if JumpOk(grid, walls, pos, d) then [Jump(pos, d)] else SideSteps(grid, walls, pos, d)
    {
      var j := Jump(pos, d);
      var jumpOk := false;
      if 0 <= j.x < 9 && 0 <= j.y < 9 && grid[j.x][j.y].None? {
        var o := AnyOverlap(pos, j, true);
        jumpOk := !o;
      }
      if jumpOk {
        ret := [j];
      } else {
        ret := SideStepMoves(pos, d);
      }
    }

    /** The free-neighbour case: the step when no wall meets its probe. */
    method StepMove(pos: Pos, d: Pos) returns (ret: seq<Pos>)
      ensures ret == if !Blocked(walls, Probe(pos, Add(pos, d))) then [Add(pos, d)] else []
    {
      ret := [];
      var n := Add(pos, d);
      var o := AnyOverlap(pos, n, true);
      if !o {
        ret := [n];
      }
    }

    /** The four side-step tests of the direction loop; for a given d only two
        of them can apply. */
    method SideStepMoves(pos: Pos, d: Pos) returns (ret: seq<Pos>)
      requires WellFormed(grid) && d in Default && InBounds(Add(pos, d))
      ensures ret == SideSteps(grid, walls, pos, d)
    {
      var n := Add(pos, d);
      if d.y != 0 {
        var r1 := SideMove(pos, Pos(pos.x + 1, n.y));
        var r2 := SideMove(pos, Pos(pos.x - 1, n.y));
        ret := r1 + r2;
      } else {
        var r1 := SideMove(pos, Pos(n.x, pos.y + 1));
        var r2 := SideMove(pos, Pos(n.x, pos.y - 1));
        ret := r1 + r2;
      }
    }

    /** One side-step test: the cell must be on the board, free, and the
        diagonal probe to it clear. */
    method SideMove(pos: Pos, s: Pos) returns (ret: seq<Pos>)
      requires WellFormed(grid)
      ensures ret == Side(grid, walls, pos, s)
    {
      ret := [];
      if 0 <= s.x < 9 && 0 <= s.y < 9 && grid[s.x][s.y].None? {
        var o := AnyOverlap(pos, s, true);
        if !o {
          ret := [s];
        }
      }
    }

    method Reset()
      modifies this`visited
      ensures visited == {}
    {
      visited := {};
    }

    /** Depth-first search from node over open edges, ignoring pawns, sharing
        the visited set. On success the ghost w is a way to the goal line; on
        failure node and every cell this call visited are closed. */
    method WayExists(node: Pos, dest: Pos) returns (found: bool, ghost w: seq<Pos>)
      requires InBounds(node) && node !in visited && visited <= AllCells
      modifies this`visited
      ensures old(visited) <= visited <= AllCells
      ensures found ==> IsWay(walls, w, node, dest)
      ensures !found ==> node in visited && forall v :: v in visited - old(visited) ==> Closed(walls, visited, v, dest)
      decreases AllCells - visited, 0
    {
      if node.x == dest.x || node.y == dest.y {
        return true, [node];
      }
      AllCellsMember(node);
      visited := visited + {node};
      for i := 0 to 4
        invariant old(visited) + {node} <= visited <= AllCells
        invariant forall v :: v in visited - old(visited) - {node} ==> Closed(walls, visited, v, dest)
        invariant forall k :: 0 <= k < i && Open(walls, node, Add(node, Default[k])) ==> Add(node, Default[k]) in visited
      {
        ghost var before := visited;
        var f;
        ghost var rest;
        f, rest := ExploreDir(node, i, dest);
        if f {
          return true, rest;
        }
        ClosedSetGrows(walls, before, visited, old(visited) + {node}, dest);
      }
      return false, [];
    }

    /** One pass of the search's direction loop: when the neighbour of node
        along Default[i] is on the board, unvisited and behind no wall, search
        on from it. On failure that neighbour, if open, is visited, and every
        cell this call visited is closed. */
    method ExploreDir(node: Pos, i: nat, dest: Pos) returns (found: bool, ghost w: seq<Pos>)
      requires i < 4 && InBounds(node) && node in visited && visited <= AllCells
      modifies this`visited
      ensures old(visited) <= visited <= AllCells
      ensures found ==> IsWay(walls, w, node, dest)
      ensures !found ==> Open(walls, node, Add(node, Default[i])) ==> Add(node, Default[i]) in visited
      ensures !found ==> forall v :: v in visited - old(visited) ==> Closed(walls, visited, v, dest)
      decreases AllCells - visited, 1
    {
      var end := Add(node, Default[i]);
      if 0 <= end.x < 9 && 0 <= end.y < 9 && end !in visited {
        var o := AnyOverlap(node, end, true);
        if !o {
          var f;
          ghost var rest;
          f, rest := WayExists(end, dest);
          if f {
            assert Adjacent(node, end);
            WayPrepend(walls, rest, node, end, dest);
            return true, [node] + rest;
          }
        }
      }
      return false, [];
    }

    /** Breadth-first search over pawn moves (pawns do block) from pos: the
        least number of moves to the goal line of wins, or Unreachable. */
    method Bfs(pos: Pos, wins: Pos) returns (r: int)
      requires WellFormed(grid)
      modifies this`visited
      ensures r == Dist(grid, walls, pos, wins)
    {
      var queue: seq<(Pos, int)> := [];
      Reset();
      queue := queue + [(pos, 0)];
      visited := visited + {pos};
      ghost var expanded: set<Pos> := {};
      ghost var level := 0;
      ghost var path: map<Pos, seq<Pos>> := map[pos := [pos]];
      assert queue == [(pos, 0)] && visited == {pos};
      FrontierStart(grid, walls, pos, wins);
      while |queue| > 0
        invariant Frontier(grid, walls, pos, wins, queue, visited, expanded, level, path)
        invariant visited <= AllCells + {pos} && level >= 0
        decreases AllCells + {pos} - visited, |queue|
      {
        FrontierPop(grid, walls, pos, wins, queue, visited, expanded, level, path);
        level := queue[0].1;
        var curr, depth := queue[0].0, queue[0].1;
        if curr.x == wins.x || curr.y == wins.y {
          ShortestAtHead(pos, wins, queue, expanded, level, path);
          return depth;
        }
        queue, path := ExpandHead(pos, wins, queue, expanded, level, path);
        expanded := expanded + {curr};
      }
      if Reachable(grid, walls, pos, wins) {
        var w :| IsRunToGoal(grid, walls, w, pos, wins);
        FrontierBound(grid, walls, pos, wins, queue, visited, expanded, level, path, w);
        assert false;
      }
      return 1000000;
    }

    /** The body of the search loop for a head cell off the goal line: queue
        each unvisited move one level deeper, then drop the head. */
    method ExpandHead(pos: Pos, wins: Pos, q: seq<(Pos, int)>, ghost expanded: set<Pos>, ghost level: int,
                      ghost path: map<Pos, seq<Pos>>) returns (queue: seq<(Pos, int)>, ghost path': map<Pos, seq<Pos>>)
      requires WellFormed(grid)
      requires Frontier(grid, walls, pos, wins, q, visited, expanded, level, path)
      requires |q| > 0 && q[0].1 == level && !AtGoal(q[0].0, wins)
      requires visited <= AllCells + {pos}
      modifies this`visited
      ensures Frontier(grid, walls, pos, wins, queue, visited, expanded + {q[0].0}, level, path')
      ensures old(visited) <= visited <= AllCells + {pos}
      ensures visited == old(visited) ==> |queue| < |q|
    {
      var curr := q[0].0;
      var moves := PossibleMoves(curr);
      queue, path' := VisitMoves(pos, wins, q, expanded, level, path, moves);
      FrontierExpand(grid, walls, pos, wins, queue, visited, expanded, level, path');
      queue := queue[1..];
    }

    /** The inner loop of the search: each move of the head cell, in order, is
        visited; afterwards all of them are recorded at most one level deeper. */
    method VisitMoves(pos: Pos, wins: Pos, q: seq<(Pos, int)>, ghost expanded: set<Pos>, ghost level: int,
                      ghost path: map<Pos, seq<Pos>>, moves: seq<Pos>) returns (queue: seq<(Pos, int)>, ghost path': map<Pos, seq<Pos>>)
      requires WellFormed(grid)
      requires Frontier(grid, walls, pos, wins, q, visited, expanded, level, path)
      requires |q| > 0 && q[0].1 == level && moves == Moves(grid, walls, q[0].0)
      requires visited <= AllCells + {pos}
      modifies this`visited
      ensures Frontier(grid, walls, pos, wins, queue, visited, expanded, level, path')
      ensures |queue| > 0 && queue[0] == q[0]
      ensures old(visited) <= visited <= AllCells + {pos}
      ensures |queue| - |q| == |visited| - |old(visited)|
      ensures q[0].0 in path' && |path'[q[0].0]| == level + 1
      ensures forall m :: m in moves ==> m in visited && Settled(path', m, level + 2)
    {
      var curr := q[0].0;
      queue := q;
      path' := path;
      MovesInBounds(grid, walls, curr);
      assert curr in QueuedCells(q) && QueueDepths(q, path, level);
      for i := 0 to |moves|
        invariant |queue| > 0 && queue[0] == q[0]
        invariant Frontier(grid, walls, pos, wins, queue, visited, expanded, level, path')
        invariant old(visited) <= visited <= AllCells + {pos}
        invariant |queue| - |q| == |visited| - |old(visited)|
        invariant curr in visited && curr in path' && |path'[curr]| == level + 1
        invariant forall k :: 0 <= k < i ==> moves[k] in visited && Settled(path', moves[k], level + 2)
      {
        ghost var p0, v0 := path', visited;
        queue, path' := VisitMove(pos, wins, queue, expanded, level, path', moves[i]);
        SettledGrows(moves, i, v0, visited, p0, path', level + 2);
      }
    }

    /** One pass of the inner loop of the search: a move of the head cell not
        yet visited is marked visited and queued one level deeper. */
    method VisitMove(pos: Pos, wins: Pos, q: seq<(Pos, int)>, ghost expanded: set<Pos>, ghost level: int,
                     ghost path: map<Pos, seq<Pos>>, move: Pos) returns (queue: seq<(Pos, int)>, ghost path': map<Pos, seq<Pos>>)
      requires WellFormed(grid)
      requires Frontier(grid, walls, pos, wins, q, visited, expanded, level, path)
      requires |q| > 0 && q[0].1 == level && move in Moves(grid, walls, q[0].0) && InBounds(move)
      requires visited <= AllCells + {pos}
      modifies this`visited
      ensures Frontier(grid, walls, pos, wins, queue, visited, expanded, level, path')
      ensures |queue| > 0 && queue[0] == q[0]
      ensures visited == old(visited) + {move}
      ensures visited <= AllCells + {pos}
      ensures |queue| - |q| == |visited| - |old(visited)|
      ensures Settled(path', move, level + 2)
      ensures forall v :: v in old(visited) ==> v in path && v in path' && path'[v] == path[v]
    {
      queue, path' := q, path;
      var curr, depth := q[0].0, q[0].1;
      FrontierKeys(grid, walls, pos, wins, q, visited, expanded, level, path);
      if move in visited {
        FrontierDepth(grid, walls, pos, wins, queue, visited, expanded, level, path', move);
        SetAddMember(visited, move);
      } else {
        CellsAdd(visited, move, pos);
        FrontierPush(grid, walls, pos, wins, queue, visited, expanded, level, path', move);
        FrontierDepth(grid, walls, pos, wins, queue, visited, expanded, level, path', curr);
        KeysKept(visited, path, move, path[curr] + [move]);
        path' := path'[move := path'[curr] + [move]];
        visited := visited + {move};
        queue := queue + [(move, depth + 1)];
        assert |visited| == |old(visited)| + 1;
      }
    }

    /** When the head of the queue is on the goal line, its depth is the distance. */
    lemma ShortestAtHead(pos: Pos, wins: Pos, q: seq<(Pos, int)>, expanded: set<Pos>, level: int,
                         path: map<Pos, seq<Pos>>)
      requires WellFormed(grid)
      requires Frontier(grid, walls, pos, wins, q, visited, expanded, level, path)
      requires |q| > 0 && AtGoal(q[0].0, wins) && q[0].1 >= 0
      ensures Dist(grid, walls, pos, wins) == q[0].1
    {
      var c := q[0].0;
      assert c in QueuedCells(q);
      assert QueueDepths(q, path, level);
      assert IsRunToGoal(grid, walls, path[c], pos, wins);
      forall w | IsRunToGoal(grid, walls, w, pos, wins)
        ensures q[0].1 + 1 <= |w|
      {
        FrontierBound(grid, walls, pos, wins, q, visited, expanded, level, path, w);
      }
      DistIsShortest(grid, walls, pos, wins, q[0].1);
    }

    /** Whether every player (in the order of the list) still has a way to its
        goal line over the walls now on the board, each search from a fresh
        visited set; it stops at the first player without one. */
    method AllPlayersHaveWay() returns (can: bool)
      requires forall i :: 0 <= i < |players| ==> InBounds(players[i].position)
      modifies this`visited
      ensures can <==> forall k :: 0 <= k < |players| ==> HasWay(walls, players[k].position, players[k].wins)
      ensures var ts := Targets(); can <==> forall k :: 0 <= k < |ts| ==> HasWay(walls, ts[k].pos, ts[k].goal)
    {
      can := true;
      var j := 0;
      while j < |players|
        invariant 0 <= j <= |players|
        invariant forall k :: 0 <= k < j ==> HasWay(walls, players[k].position, players[k].wins)
      {
        var player := players[j];
        Reset();
        AllCellsMember(player.position);
        var found;
        ghost var w;
        found, w := WayExists(player.position, player.wins);
        if !found {
          ClosedHasNoWay(walls, visited, player.position, player.wins);
          can := false;
          break;
        }
        j := j + 1;
      }
    }

    /** The directions in which a wall may be placed from lattice point pos, in
        the order of Default; the wall list is left as it was. */
    method PossibleOrients(pos: Pos) returns (ret: seq<Pos>)
      requires forall i :: 0 <= i < |players| ==> InBounds(players[i].position)
      modifies this`walls, this`visited
      ensures walls == old(walls) && Targets() == old(Targets())
      ensures ret == Orients(walls, Targets(), pos)
    {
      ret := [];
      ghost var ts := Targets();
      for i := 0 to 4
        invariant walls == old(walls) && ts == Targets()
        invariant ret == OrientsUpTo(walls, ts, pos, i)
      {
        var d := Default[i];
        var ok := OrientAllowed(pos, d);
        if ok {
          ret := ret + [d];
        }
      }
    }

    /** Whether the wall from lattice point pos towards d may be placed: it is
        tried on the board, every player's way is searched, and it is taken
        back. */
    method OrientAllowed(pos: Pos, d: Pos) returns (ok: bool)
      requires forall i :: 0 <= i < |players| ==> InBounds(players[i].position)
      modifies this`walls, this`visited
      ensures walls == old(walls) && Targets() == old(Targets())
      ensures ok == OrientOk(walls, Targets(), pos, d)
    {
      ok := false;
      var end := Pos(pos.x + 2 * d.x, pos.y + 2 * d.y);
      if -1 <= end.x < 9 && -1 <= end.y < 9 {
        var o := AnyOverlap(pos, end, false);
        if !o {
          walls := walls + [MakeWall(pos, end, false)];
          ok := AllPlayersHaveWay();
          assert walls == old(walls) + [PlacedWall(pos, d)];
          walls := walls[..|walls| - 1];
        }
      }
    }

    /** The lattice points from which the player could place some wall, row by
        row; none when the player has no walls left. */
    method PossibleWalls(player: Player) returns (ret: seq<Pos>)
      requires forall i :: 0 <= i < |players| ==> InBounds(players[i].position)
      modifies this`walls, this`visited
      ensures walls == old(walls)
      ensures player.remainingWalls == 0 ==> ret == []
      ensures player.remainingWalls != 0 ==> ret == PointsUpTo(CanStart(walls, Targets()), 8, 0)
    {
      if player.remainingWalls == 0 {
        ret := [];
      } else {
        ret := AllStarts();
      }
    }

    /** The lattice points from which some wall may be placed, row by row. */
    method AllStarts() returns (ret: seq<Pos>)
      requires forall i :: 0 <= i < |players| ==> InBounds(players[i].position)
      modifies this`walls, this`visited
      ensures walls == old(walls) && Targets() == old(Targets())
      ensures ret == PointsUpTo(CanStart(walls, Targets()), 8, 0)
    {
      ret := [];
      ghost var ts := Targets();
      for y := 0 to 8
        invariant walls == old(walls) && ts == Targets()
        invariant ret == PointsUpTo(CanStart(walls, ts), y, 0)
      {
        ret := RowStarts(y, ret);
      }
    }

    /** acc followed by the lattice points of row y that admit a wall. */
    method RowStarts(y: int, acc: seq<Pos>) returns (ret: seq<Pos>)
      requires 0 <= y < 8 && forall i :: 0 <= i < |players| ==> InBounds(players[i].position)
      requires acc == PointsUpTo(CanStart(walls, Targets()), y, 0)
      modifies this`walls, this`visited
      ensures walls == old(walls) && Targets() == old(Targets())
      ensures ret == PointsUpTo(CanStart(walls, Targets()), y + 1, 0)
    {
      ret := acc;
      ghost var ts := Targets();
      for x := 0 to 8
        invariant walls == old(walls) && ts == Targets()
        invariant ret == PointsUpTo(CanStart(walls, ts), y, x)
      {
        var os := PossibleOrients(Pos(x, y));
        if os != [] {
          ret := ret + [Pos(x, y)];
        }
      }
    }

    /** Every placeable wall on the board as (lattice point, direction), row by
        row and, at each point, in the order of Default. */
    method AllPossibleWalls() returns (ret: seq<(Pos, Pos)>)
      requires forall i :: 0 <= i < |players| ==> InBounds(players[i].position)
      modifies this`walls, this`visited
      ensures walls == old(walls)
      ensures ret == AllWalls(walls, Targets())
    {
      ret := [];
      ghost var ts := Targets();
      for y := 0 to 8
        invariant walls == old(walls) && ts == Targets()
        invariant ret == AllWallsUpTo(walls, ts, y, 0)
      {
        ret := RowWalls(y, ret);
      }
    }

    /** acc followed by the placeable walls of row y. */
    method RowWalls(y: int, acc: seq<(Pos, Pos)>) returns (ret: seq<(Pos, Pos)>)
      requires 0 <= y < 8 && forall i :: 0 <= i < |players| ==> InBounds(players[i].position)
      requires acc == AllWallsUpTo(walls, Targets(), y, 0)
      modifies this`walls, this`visited
      ensures walls == old(walls) && Targets() == old(Targets())
      ensures ret == AllWallsUpTo(walls, Targets(), y + 1, 0)
    {
      ret := acc;
      ghost var ts := Targets();
      for x := 0 to 8
        invariant walls == old(walls) && ts == Targets()
        invariant ret == AllWallsUpTo(walls, ts, y, x)
      {
        var os := PossibleOrients(Pos(x, y));
        ret := AppendWalls(ret, Pos(x, y), os);
      }
    }

    /** The move from start that leaves the shortest way to the goal line of
        wins, the first one on a tie, with that distance. */
    method BestMove(start: Pos, wins: Pos) returns (bmove: Pos, bscore: int)
      requires WellFormed(grid) && Moves(grid, walls, start) != []
      modifies this`visited
      ensures var ms := Moves(grid, walls, start);
        exists k :: FirstMin(MoveDists(grid, walls, ms, wins), k) && bmove == ms[k] && bscore == Dist(grid, walls, bmove, wins)
    {
      var moves := PossibleMoves(start);
      ghost var ds := MoveDists(grid, walls, moves, wins);
      bmove := moves[0];
      bscore := Bfs(moves[0], wins);
      ghost var bk := 0;
      for i := 0 to |moves|
        invariant 0 <= bk < |moves| && bmove == moves[bk] && bscore == ds[bk]
        invariant forall j :: 0 <= j < i ==> bscore <= ds[j]
        invariant forall j :: 0 <= j < bk ==> bscore < ds[j]
      {
        var score := Bfs(moves[i], wins);
        assert score == ds[i];
        if score < bscore {
          bmove, bscore, bk := moves[i], score, i;
        }
        KeepMin(ds, i, bscore);
      }
      assert FirstMin(ds, bk);
    }

    /** The score of placing the wall from pos towards dir: with the wall added,
        the distances of the players not standing on myPos summed, minus the
        distance from myPos to win. The wall list is left as it was. */
    method ScoreWall(pos: Pos, dir: Pos, myPos: Pos, win: Pos) returns (score: int)
      requires WellFormed(grid)
      modifies this`walls, this`visited
      ensures walls == old(walls)
      ensures score == WallScore(grid, walls, Targets(), myPos, win, (pos, dir))
    {
      score := 0;
      walls := walls + [MakeWall(pos, Pos(pos.x + 2 * dir.x, pos.y + 2 * dir.y), false)];
      ghost var ts := Targets();
      for j := 0 to |players|
        invariant walls == old(walls) + [PlacedWall(pos, dir)] && ts == Targets()
        invariant score == OthersDist(grid, walls, ts, myPos, j)
      {
        var player := players[j];
        if player.position != myPos {
          var d := Bfs(player.position, player.wins);
          score := score + d;
        }
      }
      var mine := Bfs(myPos, win);
      score := score - mine;
      walls := walls[..|walls| - 1];
    }

    /** The placeable wall with the best score, the first one on a tie, or None
        when no wall scores above -1000. The wall list is left as it was. */
    method BestWall(myPos: Pos, win: Pos) returns (bwall: Option<(Pos, Pos)>)
      requires WellFormed(grid)
      requires forall i :: 0 <= i < |players| ==> InBounds(players[i].position)
      modifies this`walls, this`visited
      ensures walls == old(walls)
      ensures BestWallOf(grid, walls, Targets(), myPos, win, AllWalls(walls, Targets()), bwall)
    {
      var allW := AllPossibleWalls();
      bwall := BestOfWalls(allW, myPos, win);
    }

    /** Scores every candidate in turn, keeping the first one that beats
        the best score so far (which starts at -1000). */
    method BestOfWalls(allW: seq<(Pos, Pos)>, myPos: Pos, win: Pos) returns (bwall: Option<(Pos, Pos)>)
      requires WellFormed(grid)
      requires forall i :: 0 <= i < |players| ==> InBounds(players[i].position)
      modifies this`walls, this`visited
      ensures walls == old(walls)
      ensures BestWallOf(grid, walls, Targets(), myPos, win, allW, bwall)
    {
      ghost var ts := Targets();
      ghost var ss := WallScores(grid, walls, ts, myPos, win, allW);
      bwall := None;
      var bscore := -1000;
      ghost var bk := -1;
      for i := 0 to |allW|
        invariant walls == old(walls)
        invariant ts == Targets() && ss == WallScores(grid, walls, ts, myPos, win, allW)
        invariant bk == -1 ==> bscore == -1000 && bwall == None
        invariant bk != -1 ==> 0 <= bk < i && bwall == Some(allW[bk]) && bscore == ss[bk] && -1000 < bscore
        invariant forall j :: 0 <= j < i ==> ss[j] <= bscore
        invariant forall j :: 0 <= j < bk ==> ss[j] < bscore
      {
        var (pos, dir) := allW[i];
        var score := ScoreWall(pos, dir, myPos, win);
        assert score == ss[i];
        if score > bscore {
          bwall := Some((pos, dir));
          bscore := score;
          bk := i;
        }
        KeepMax(ss, i, bscore);
      }
      assert FirstMaxAbove(ss, -1000, bk);
    }

    /** The bot's turn: with walls left and the coin up it proposes its best
        wall (or none), otherwise its best move. The wall list is left as it was. */
    method BotMakeMove(bot: Player, coin: bool) returns (choice: BotChoice)
      requires WellFormed(grid)
      requires forall i :: 0 <= i < |players| ==> InBounds(players[i].position)
      requires !(bot.remainingWalls != 0 && coin) ==> Moves(grid, walls, bot.position) != []
      modifies this`walls, this`visited
      ensures walls == old(walls)
      ensures bot.remainingWalls != 0 && coin ==>
        choice.OrientChoice? &&
        BestWallOf(grid, walls, Targets(), bot.position, bot.wins, AllWalls(walls, Targets()), choice.wall)
      ensures !(bot.remainingWalls != 0 && coin) ==>
        var ms := Moves(grid, walls, bot.position);
        exists k :: FirstMin(MoveDists(grid, walls, ms, bot.wins), k) && choice == MoveChoice(ms[k])
    {
      var placewall := false;
      if bot.remainingWalls != 0 && coin {
        placewall := true;
      }
      if placewall {
        var bwall := BestWall(bot.position, bot.wins);
        choice := OrientChoice(bwall);
      } else {
        var bmove, bscore := BestMove(bot.position, bot.wins);
        choice := MoveChoice(bmove);
      }
    }

    /** Moves the pawn on fr to to. */
    method MovePawn(fr: Pos, to: Pos)
      requires WellFormed(grid) && InBounds(fr) && InBounds(to)
      modifies this`grid
      ensures grid == Moved(old(grid), fr, to)
    {
      var x, y := fr.x, fr.y;
      var dx, dy := to.x, to.y;
      grid := grid[dx := grid[dx][dy := grid[x][y]]];
      grid := grid[x := grid[x][y := None]];
    }

    /** Adds the wall from lattice point pos towards orient. */
    method PlaceWallAt(pos: Pos, orient: Pos)
      modifies this`walls
      ensures walls == old(walls) + [PlacedWall(pos, orient)]
    {
      walls := walls + [MakeWall(pos, Pos(pos.x + 2 * orient.x, pos.y + 2 * orient.y), false)];
    }

    /** The moves of the current player, with its colour. */
    method CurrentMoves() returns (ms: seq<Pos>, colour: string)
      requires Valid()
      ensures ms == Moves(grid, walls, players[currplayer].position)
      ensures colour == players[currplayer].colour
    {
      ms := PossibleMoves(players[currplayer].position);
      colour := players[currplayer].colour;
    }

    /** The wall starts offered to the current player. */
    method CurrentWalls() returns (ret: seq<Pos>)
      requires Valid()
      modifies this`walls, this`visited
      ensures walls == old(walls)
      ensures players[currplayer].remainingWalls == 0 ==> ret == []
      ensures players[currplayer].remainingWalls != 0 ==> ret == PointsUpTo(CanStart(walls, Targets()), 8, 0)
    {
      ret := PossibleWalls(players[currplayer]);
    }

    /** The "wall" branch of a turn: adds the wall, uses up one of the current
        player's walls and passes the turn on. */
    method WallTurn(pos: Pos, orient: Pos)
      requires Valid()
      modifies this`walls, this`currplayer, players[currplayer]
      ensures Valid()
      ensures walls == old(walls) + [PlacedWall(pos, orient)]
      ensures var c := old(currplayer);
        && players[c].remainingWalls == old(players[c].remainingWalls) - 1
        && players[c].position == old(players[c].position) && players[c].won == old(players[c].won)
        && players[c].colour == old(players[c].colour)
        && currplayer == NextPlayer(c, numPlayers)
      ensures old(Placed()) ==> Placed()
    {
      var p := players[currplayer];
      ghost var ps := Positions();
      PlaceWallAt(pos, orient);
      p.PlaceWall();
      NextPlayerMod(currplayer, numPlayers);
      currplayer := currplayer + 1;
      currplayer := currplayer % numPlayers;
      assert Positions() == ps;
    }

    /** The "move" branch of a turn: moves the current player's pawn in the
        grid and the player to pos, and passes the turn on. */
    method PawnTurn(pos: Pos)
      requires Valid() && InBounds(pos)
      modifies this`grid, this`currplayer, players[currplayer]
      ensures Valid()
      ensures var c := old(currplayer);
        && grid == Moved(old(grid), old(players[c].position), pos)
        && players[c].position == pos && players[c].won == (old(players[c].won) || AtGoal(pos, players[c].wins))
        && players[c].remainingWalls == old(players[c].remainingWalls)
        && players[c].colour == old(players[c].colour)
        && currplayer == NextPlayer(c, numPlayers)
      ensures old(Placed()) && old(Free(grid, pos)) ==> Placed()
    {
      MoveCurrent(pos);
      PassTurn();
    }

    /** Hands the turn to the next player in the game, cyclically. */
    method PassTurn()
      requires Valid()
      modifies this`currplayer
      ensures Valid()
      ensures currplayer == NextPlayer(old(currplayer), numPlayers)
      ensures old(Placed()) ==> Placed()
    {
      NextPlayerMod(currplayer, numPlayers);
      currplayer := currplayer + 1;
      currplayer := currplayer % numPlayers;
    }

    /** Moves the current player's pawn to pos on the grid and in its record. */
    method MoveCurrent(pos: Pos)
      requires Valid() && InBounds(pos)
      modifies this`grid, players[currplayer]
      ensures Valid()
      ensures grid == Moved(old(grid), old(players[currplayer].position), pos)
      ensures Positions() == old(Positions())[currplayer := pos]
      ensures players[currplayer].position == pos
      ensures old(Placed()) && old(Free(grid, pos)) ==> Placed()
      ensures players[currplayer].won == (old(players[currplayer].won) || AtGoal(pos, players[currplayer].wins))
      ensures players[currplayer].remainingWalls == old(players[currplayer].remainingWalls)
      ensures players[currplayer].colour == old(players[currplayer].colour)
    {
      var p := players[currplayer];
      ghost var ps := Positions();
      MovePawn(p.position, pos);
      p.SetPos(pos);
      assert Positions() == ps[currplayer := pos];
      if old(Placed()) && old(Free(grid, pos)) {
        MovedAgrees(old(grid), ps, numPlayers, currplayer, pos);
      }
    }

    /** The current player's turn: "wall" adds the wall and uses up one of
        the player's walls, "move" moves the pawn and its player to pos;
        either passes the turn on. Any other kind changes nothing. */
    method MakeMove(kind: string, pos: Pos, orient: Pos)
      requires Valid()
      requires kind == "move" ==> InBounds(pos)
      modifies this`grid, this`walls, this`currplayer, players[currplayer]
      ensures Valid()
      ensures players == old(players) && numPlayers == old(numPlayers)
      ensures var c := old(currplayer);
        && (forall i :: 0 <= i < |players| && i != c ==> unchanged(players[i]))
        && (kind == "wall" ==>
          && walls == old(walls) + [PlacedWall(pos, orient)] && grid == old(grid)
          && players[c].remainingWalls == old(players[c].remainingWalls) - 1
          && players[c].position == old(players[c].position) && players[c].won == old(players[c].won)
          && players[c].colour == old(players[c].colour))
        && (kind == "move" ==>
          && walls == old(walls) && grid == Moved(old(grid), old(players[c].position), pos)
          && players[c].remainingWalls == old(players[c].remainingWalls)
          && players[c].position == pos && players[c].won == (old(players[c].won) || AtGoal(pos, players[c].wins))
          && players[c].colour == old(players[c].colour))
        && (kind == "wall" || kind == "move" ==> currplayer == NextPlayer(c, numPlayers))
        && (kind != "wall" && kind != "move" ==>
          walls == old(walls) && grid == old(grid) && currplayer == c && unchanged(players[c]))
      ensures kind == "move" && old(Placed()) && old(Free(grid, pos)) ==> Placed()
      ensures kind == "wall" && old(Placed()) ==> Placed()
    {
      if kind == "wall" {
        WallTurn(pos, orient);
      } else if kind == "move" {
        PawnTurn(pos);
      }
    }
  }
}
