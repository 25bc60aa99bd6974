/** A player: pawn position, walls left, goal line and the sticky win flag. */
module Players {
  import opened Geometry
  import opened MoveRules
  import opened Paths

  /** The goal a player starting on start is given: a start on row 4 must reach
      the opposite column, a start on column 4 the opposite row; -1 marks the
      unconstrained axis. Row 4 is tested first. */
  function GoalOf(start: Pos): Pos
    requires start.y == 4 || start.x == 4
  {
    if start.y == 4 then Pos(8 - start.x, -1) else Pos(-1, 8 - start.y)
  }

  /** The -1 sentinel matches no board cell, so exactly one axis is checked: a
      board cell is on the goal line iff it lies on the opposite column (start
      on row 4) or on the opposite row (otherwise). */
  lemma GoalLine(start: Pos, p: Pos)
    requires start.y == 4 || start.x == 4
    requires InBounds(p)
    ensures AtGoal(p, GoalOf(start)) <==>
      if start.y == 4 then p.x == 8 - start.x else p.y == 8 - start.y
  {
  }

  /** The four starting cells of the game are given the opposite edge. */
  lemma StartingGoals(p: Pos)
    requires InBounds(p)
    ensures AtGoal(p, GoalOf(Pos(4, 0))) <==> p.y == 8
    ensures AtGoal(p, GoalOf(Pos(8, 4))) <==> p.x == 0
    ensures AtGoal(p, GoalOf(Pos(4, 8))) <==> p.y == 0
    ensures AtGoal(p, GoalOf(Pos(0, 4))) <==> p.x == 8
  {
  }

  class Player {
    var colour: string
    var position: Pos
    var remainingWalls: int
    var won: bool
    const wins: Pos

    /** A new player: not won, with its goal computed from its start. */
    constructor (colour: string, position: Pos, walls: int)
      requires position.y == 4 || position.x == 4
      ensures this.colour == colour && this.position == position
      ensures remainingWalls == walls && !won
      ensures wins == GoalOf(position)
    {
      this.colour := colour;
      this.position := position;
      this.remainingWalls := walls;
      this.won := false;
      this.wins := GoalOf(position);
    }

    /** Moves the pawn; reaching the goal line sets won, and nothing clears it. */
    method SetPos(p: Pos)
      modifies this`position, this`won
      ensures position == p
      ensures won == (old(won) || AtGoal(p, wins))
    {
      position := p;
      if position.x == wins.x || position.y == wins.y {
        won := true;
      }
    }

    /** Uses up one wall; there is no floor at zero. */
    method PlaceWall()
      modifies this`remainingWalls
      ensures remainingWalls == old(remainingWalls) - 1
    {
      remainingWalls := remainingWalls - 1;
    }
  }
}
