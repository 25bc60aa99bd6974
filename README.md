# Quoridor rule engine in Dafny

This project models the rule engine of a Quoridor game written in Python
(`Quoridor/quoridor.py`): wall geometry and the overlap test, the pawn-move
rule (steps, straight jumps over a pawn, side-steps when the jump is
blocked), the legality of wall placements (no overlap, and every player
keeps a way to its goal line), the depth-first and breadth-first searches
behind that rule and behind the bot, the bot's greedy choice of a move or a
wall, and the turn updates of the game state.

The model is split into these modules:

- `Geometry` (geometry.dfy): the `Wall` constructor and `Wall.overlaps`, on
  any segment, including the diagonal probes of side-steps. Every
  coordinate in the program is a multiple of one half, so the model keeps
  coordinates doubled. A real wall endpoint from lattice point `p` becomes
  `2p + 1`, and a "fake" probe endpoint from cell `c` becomes `2c`. All
  arithmetic is therefore exact integer arithmetic.
- `MoveRules` (moves.dfy): the board grid (`grid[x][y]`, holding a player
  index or nothing) and `Moves`, the specification of
  `Validator.possible_moves`.
- `Paths` (paths.dfy): walks through open edges, with pawns ignored. This is
  the specification of `Validator.way_exists`.
- `Distance` (distance.dfy): runs of legal pawn moves and `Dist`, the least
  number of moves to the goal line, or 1000000 when the goal line cannot be
  reached. This is the specification of `Validator.bfs`.
- `Planner` (planner.dfy): which wall directions and wall starts may be
  placed, the list of all placeable walls, the bot's wall score, and the
  "first minimum" and "first maximum above a floor" choices made by the
  greedy scans.
- `Players` (players.dfy): the `Player` class, with its goal encoding. The
  `-1` sentinel on the unconstrained axis matches no board cell.
- `Engine` (engine.dfy): the `Game` class. In the program, `Validator`,
  `Board` and `Game` share one grid, one wall list and one player list
  (the validator aliases the board's lists). `Game` models that shared
  state as one object. The object holds the grid, the walls, the players,
  the turn, the player count and the validator's `visited` set. Its methods
  are the validator's searches, the board's updates and the game's turn
  operation.

Every loop of the program is a method with loop invariants, proved against
the ghost function that specifies it:
- `NewGrid`, the row-by-row construction of the board's grid, equals
  `EmptyGrid`.
- `PossibleMoves` equals `Moves`.
- `WayExists` returns a witness way on success. On failure, every cell it
  visited is closed. Called with an empty visited set, as
  `AllPlayersHaveWay` does, that means no way exists.
- `Bfs` returns `Dist`. When the goal line can be reached, `Dist` is at most
  81 (80 from a board cell), because a shortest run never visits a cell
  twice. So the answer 1000000 always means "unreachable".
- `PossibleOrients` equals `Orients`.
- `PossibleWalls` equals the lattice points of 0..7 x 0..7 that have a
  placeable direction, collected row by row (`PointsUpTo`), or nothing when
  the player has no walls left.
- `AllPossibleWalls` equals `AllWalls`.
- `BestMove` and `BestWall` return the first minimum or maximum of the
  scores those specifications give.

Side-steps follow the program's geometry exactly. A side-step's probe is
drawn diagonally from the pawn to the side cell, not around the occupied
neighbour. So a wall between the occupied neighbour and the side cell does
need not block the side-step; only a wall the overlap test finds against
the diagonal counts. On an anti-diagonal the swap rule leaves the probe's
ends unordered (`DiagonalProbeOrder`). Then only one of the two crossing
clauses of the overlap test can apply, so walls of only one orientation can
meet the probe, and which one depends on the order its cells are given in
(`AntiDiagonalProbeMeets`). `SideStepRule` states the side-step rule as
modelled.

The speculative append and delete of a wall in `possible_orients` and
`best_wall` is modelled as a real update of the `walls` field. Each of those
methods states that the list is the same afterwards.

Calls are made on the state the program would have, and the model requires
of its callers only what the program assumes:
- `make_move` performs no legality check of its own.
- `Player.place_wall` has no floor at zero.
- `best_move` needs at least one move, because it reads `moves[0]`.
- A player's goal is defined only for starting cells on row 4 or column 4.
- Cells are on the board, so Python's negative indexing never applies.

The choice between a wall and a move in `Bot.make_move` uses `random()`.
It is a boolean parameter `coin` here; `coin` is true when `random() > 0.75`.

## Model

| member | source | states |
|---|---|---|
| Geometry.MakeWall | Quoridor/quoridor.py:108-128 | definition of the wall constructor (doubled coordinates, shift unless fake, swap); its properties are stated by AxisAlignedCanonical, DiagonalProbeOrder and PlacedWallIsLattice |
| Geometry.Overlaps | Quoridor/quoridor.py:149-191 | definition of the overlap test, clause by clause; its properties are stated by OverlapsIdentical, ParallelOverlap, CrossingOverlap, OverlapsSymmetric, UnitProbeBlocked and JumpProbeBlocked |
| Geometry.AxisAlignedCanonical | Quoridor/quoridor.py:127-128 | an axis-aligned segment comes out with start <= end on both axes, and does not depend on the order its ends were given in |
| Geometry.DiagonalProbeOrder | Quoridor/quoridor.py:127-128 | for two cells differing on both axes, the probe is the same segment in both orders iff the cells lie on a main diagonal (both coordinates grow together); on an anti-diagonal the two orders give different segments |
| Geometry.AntiDiagonalProbeMeets | Quoridor/quoridor.py:181-190 | a probe from a cell to a diagonal cell with larger x and smaller y can be met only by a horizontal wall; drawn the other way round, only by a vertical one |
| Geometry.PlacedWallIsLattice | Quoridor/quoridor.py:108-128 | a placed wall starts on an odd (lattice) point and runs two cells right or down; a negative direction anchors it at the far end; it is horizontal iff its direction is |
| Geometry.OverlapsIdentical | Quoridor/quoridor.py:159-160 | every segment overlaps itself |
| Geometry.ParallelOverlap | Quoridor/quoridor.py:161-180 | two parallel placed walls overlap iff they lie on the same line with starts less than two cells apart; walls that only touch end to end do not overlap |
| Geometry.CrossingOverlap | Quoridor/quoridor.py:181-190 | a horizontal and a vertical placed wall overlap iff each one's fixed coordinate lies strictly inside the other's span, in either argument order |
| Geometry.OverlapsSymmetric | Quoridor/quoridor.py:149-191 | for two placed walls the overlap test does not depend on argument order |
| Geometry.UnitProbeBlocked | Quoridor/quoridor.py:265-266 | the probe between neighbouring cells meets a placed wall iff that wall crosses the edge between them |
| Geometry.JumpProbeBlocked | Quoridor/quoridor.py:229-235 | the two-cell probe of a straight jump meets a placed wall iff the wall blocks either of the two edges it spans |
| MoveRules.EmptyGrid | Quoridor/quoridor.py:459-462 | the new board is 9 by 9 and every cell is empty |
| Engine.NewGrid | Quoridor/quoridor.py:459-462 | the constructor's loop of nine row appends builds exactly the empty grid |
| MoveRules.Moves | Quoridor/quoridor.py:214-267 | definition of the move list: the contributions of the four directions of DEFAULT, in order; its properties are stated by MovesMember, MovesInBounds, StepRule, JumpRule, SideStepRule and OccupiedNeighbourExcluded |
| MoveRules.DirMoves | Quoridor/quoridor.py:226-266 | definition of one direction's contribution (nothing off the board, the jump or the side-steps past a pawn, the step otherwise); its properties are stated by DirMovesShape, JumpInDirMoves and DirMovesInMoves |
| MoveRules.SideSteps | Quoridor/quoridor.py:236-264 | definition of the two side-step tests, larger coordinate first; its properties are stated by SideStepsShape and SideStepsMember |
| MoveRules.MovesMember | Quoridor/quoridor.py:214-267 | a cell is a move iff one of the four directions of DEFAULT contributes it |
| MoveRules.DirMovesShape | Quoridor/quoridor.py:227-266 | each direction contributes only free board cells: the neighbour (distance 1), the jump cell, or a diagonal side-step (distance 2) |
| MoveRules.SideStepsShape | Quoridor/quoridor.py:236-264 | a side-step is a free cell diagonal to the pawn, two steps away |
| MoveRules.MovesInBounds | Quoridor/quoridor.py:214-267 | every move is on the board, unoccupied, different from pos, and 1 or 2 steps away (Manhattan distance) |
| MoveRules.StepRule | Quoridor/quoridor.py:265-266 | a free neighbour is a move iff no wall meets the unit probe to it |
| MoveRules.JumpRule | Quoridor/quoridor.py:227-235 | with the neighbour occupied, the jump cell is a move iff it is on the board, free, and the two-cell probe is clear |
| MoveRules.JumpInDirMoves | Quoridor/quoridor.py:228-235 | with the neighbour occupied, the direction offers the straight jump iff the jump is open |
| MoveRules.OccupiedNeighbourExcluded | Quoridor/quoridor.py:228-266 | an occupied neighbour is never a move |
| MoveRules.SideStepRule | Quoridor/quoridor.py:229-264 | an open jump offers the jump only; otherwise each cell beside the occupied neighbour (across the axis) is offered iff it is on the board, free, and its diagonal probe is clear |
| MoveRules.SideStepsMember | Quoridor/quoridor.py:236-264 | a cell beside the occupied neighbour is a side-step iff it is free and its diagonal probe is clear |
| MoveRules.DirMovesInMoves | Quoridor/quoridor.py:225-267 | whatever one direction contributes is in the full list |
| Paths.ClosedHasNoWay | Quoridor/quoridor.py:344-359 | a set of cells none of which is on the goal line and all of whose open neighbours are in the set admits no way to the goal line |
| Paths.WayPrepend | Quoridor/quoridor.py:349-358 | a way from a neighbour reached through an open edge extends to a way from the node |
| Paths.ClosedGrows | Quoridor/quoridor.py:344-359 | a closed set stays closed when more cells are visited |
| Paths.ClosedSetGrows | Quoridor/quoridor.py:349-358 | the cells a search closed stay closed while later directions visit more cells |
| Distance.ShortestExists | Quoridor/quoridor.py:361-384 | if some run of legal moves reaches the goal line, a shortest one exists |
| Distance.ShortestUnique | Quoridor/quoridor.py:361-384 | the shortest number of moves is unique |
| Distance.Dist | Quoridor/quoridor.py:361-384 | if the goal line is reachable, the distance is the least number of legal moves that reach it; otherwise it is 1000000 |
| Distance.DistIsShortest | Quoridor/quoridor.py:361-384 | any count proved shortest is the distance |
| Distance.DistZero | Quoridor/quoridor.py:378-379 | the distance is 0 exactly when the cell already matches the goal |
| Distance.RunShortcut | Quoridor/quoridor.py:361-384 | cutting out the loop between two visits of one cell leaves a run to the goal line from the same start |
| Distance.ShortestRunDistinct | Quoridor/quoridor.py:361-384 | a shortest run to the goal line visits no cell twice |
| Distance.DistBound | Quoridor/quoridor.py:361-384 | when the goal line is reachable, the distance is at most 81 moves, and at most 80 from a board cell, so it never meets the unreachable answer 1000000 |
| Distance.DistStep | Quoridor/quoridor.py:380-383 | for every move q of p, Dist(p) <= Dist(q) + 1: if the goal line is reachable from a move, it is reachable from the cell with at most one move more (only this direction: moves are not symmetric, so the distance may grow by more than one along a move) |
| Distance.FrontierBound | Quoridor/quoridor.py:371-384 | every run from the start to the goal line is at least as long as the depth at the head of the queue; with an empty queue there is no such run |
| Planner.OrientOk | Quoridor/quoridor.py:314-330 | definition of a placeable direction: end in [-1, 8], no overlap, every player keeps a way; its properties are stated by OrientsChar and Engine.Game.OrientAllowed |
| Planner.Orients | Quoridor/quoridor.py:307-331 | definition of the placeable directions in the order of DEFAULT; its properties are stated by OrientsUpToChar and OrientsChar |
| Planner.OrientsChar | Quoridor/quoridor.py:307-331 | the placeable directions are exactly those of DEFAULT whose end lies in [-1, 8] on both axes, whose wall overlaps no wall, and with which every player keeps a way; each appears once, in the order of DEFAULT |
| Planner.PointsUpToMembers | Quoridor/quoridor.py:300-303 | the points collected before (x, y) are exactly the lattice points of 0..7 x 0..7 that come before it row by row and pass the test |
| Planner.PointsUpToSorted | Quoridor/quoridor.py:300-303 | the collected points are in strictly increasing row-major order, so none appears twice |
| Planner.StartsChar | Quoridor/quoridor.py:296-305 | the wall starts are exactly the points of 0..7 x 0..7 with a placeable direction, in strictly increasing row-major order |
| Planner.AllWallsUpToMembers | Quoridor/quoridor.py:416-419 | the walls listed before (x, y) are exactly the placeable walls whose start lies in 0..7 x 0..7 before (x, y), row by row |
| Planner.AllWallsChar | Quoridor/quoridor.py:406-420 | a (start, direction) pair is listed iff its start is in 0..7 x 0..7 and the wall may be placed there |
| Planner.WallScore | Quoridor/quoridor.py:438-444 | definition of a candidate wall's score: with the wall added, the sum of the distances of the players not standing on my_pos, minus the bot's own distance; Engine.Game.ScoreWall is proved to compute it |
| Planner.FirstMin | Quoridor/quoridor.py:398-404 | definition of the first least score, the choice of best_move's strict-less scan; its properties are stated by FirstMinUnique and Engine.Game.BestMove |
| Planner.FirstMaxAbove | Quoridor/quoridor.py:433-448 | definition of the first greatest score above the floor, or -1 when none exceeds it, the choice of best_wall's strict-greater scan; its properties are stated by FirstMaxAboveUnique and Engine.Game.BestOfWalls |
| Planner.BestWallOf | Quoridor/quoridor.py:422-449 | definition of best_wall's answer: the candidate at the first maximum above -1000, or none; Engine.Game.BestWall and Engine.Game.BestOfWalls are proved to return it |
| Planner.FirstMinUnique | Quoridor/quoridor.py:398-404 | the choice made by a strict-less scan is determined by the scores |
| Planner.FirstMaxAboveUnique | Quoridor/quoridor.py:435-448 | the choice made by a strict-greater scan from a floor is determined by the scores |
| Players.GoalOf | Quoridor/quoridor.py:36-39 | definition of the goal a start is given (opposite column for a start on row 4, opposite row otherwise, -1 on the free axis); its properties are stated by GoalLine and StartingGoals |
| Players.GoalLine | Quoridor/quoridor.py:36-39 | a start on row 4 must reach the opposite column, any other (column 4) start the opposite row; the -1 sentinel matches no cell |
| Players.StartingGoals | Quoridor/quoridor.py:524-535 | each of the four starting cells is given the opposite edge of the board |
| Players.Player.constructor | Quoridor/quoridor.py:23-39 | a new player keeps its colour, position and wall count, has not won, and has the goal computed from its start |
| Players.Player.SetPos | Quoridor/quoridor.py:41-50 | the position is set; won becomes true when either coordinate matches the goal and is never cleared |
| Players.Player.PlaceWall | Quoridor/quoridor.py:52-54 | the wall count drops by exactly one, with no floor |
| Engine.PawnAtDistinct | Quoridor/quoridor.py:537-539 | with distinct starting cells, pawn i stands on starting cell i and every other cell is empty |
| Engine.PlacePawns | Quoridor/quoridor.py:537-539 | the setup loop writes player i's index on its starting cell, later players overwriting earlier ones |
| Engine.StartGrid | Quoridor/quoridor.py:524-539 | the starting grid agrees with the starting cells of the first n players |
| Engine.StartPlayers | Quoridor/quoridor.py:524-535 | fresh, distinct players: 2 with 10 walls or 4 with 5, on (4,0), (4,8) or (4,0), (8,4), (4,8), (0,4), with their colours and goals, none of them won |
| Engine.AppendWalls | Quoridor/quoridor.py:418-419 | the innermost loop appends (q, d) for each direction d of the list, in order |
| Engine.NextPlayer | Quoridor/quoridor.py:577-578 | the next player index stays in 0..n-1 |
| Engine.NextPlayerMod | Quoridor/quoridor.py:577-578 | adding one and reducing modulo the player count gives the next player: c + 1, or 0 after the last |
| Engine.StartAgrees | Quoridor/quoridor.py:524-539 | the starting cells of a game are distinct, so the starting grid shows each pawn where its player stands and nothing else |
| Engine.Moved | Quoridor/quoridor.py:470-481 | after a move, the target cell holds what stood on the source cell and the source cell is empty (so moving onto the source leaves it empty); nothing else changes |
| Engine.MovedAgrees | Quoridor/quoridor.py:580-584 | moving the current player's pawn onto a free cell keeps the grid and the players' positions in agreement |
| Engine.Game.constructor | Quoridor/quoridor.py:500-539 | no walls, player 0 to move, 2 players with 10 walls each or 4 with 5, on their starting cells, with their goals; the grid shows the first n of them |
| Engine.Game.AnyOverlap | Quoridor/quoridor.py:269-285 | true iff some wall on the board overlaps the constructed segment |
| Engine.Game.PossibleMoves | Quoridor/quoridor.py:214-267 | the result is the move list of the specification, direction by direction |
| Engine.Game.DirectionMoves | Quoridor/quoridor.py:226-266 | one pass of the direction loop gives that direction's contribution |
| Engine.Game.JumpMoves | Quoridor/quoridor.py:228-264 | with the neighbour occupied, the direction offers the straight jump when it is open and the side-steps otherwise |
| Engine.Game.StepMove | Quoridor/quoridor.py:265-266 | a free neighbour is offered iff no wall meets the unit probe to it |
| Engine.Game.SideStepMoves | Quoridor/quoridor.py:236-264 | the side-step tests give the two cells beside the neighbour, the larger coordinate first |
| Engine.Game.SideMove | Quoridor/quoridor.py:237-243 | one side-step test offers the cell iff it is on the board, free, and its probe is clear |
| Engine.Game.Reset | Quoridor/quoridor.py:211-212 | visited becomes empty |
| Engine.Game.ExploreDir | Quoridor/quoridor.py:349-358 | one direction of the search: success comes with a way from the node; on failure the neighbour, if the edge to it is open, is visited, and every cell visited here is closed |
| Engine.Game.WayExists | Quoridor/quoridor.py:333-359 | a node on the goal line succeeds at once; success comes with a way through open edges; failure leaves the node and every cell the call visited closed; at top level (empty visited set) that means no way exists from the node |
| Engine.Game.Bfs | Quoridor/quoridor.py:361-384 | the result is the distance: 0 on the goal line, the least number of legal moves, or 1000000 when the goal line cannot be reached |
| Engine.Game.ExpandHead | Quoridor/quoridor.py:375-383 | expanding the head of the queue keeps the search invariant, marks the head expanded, and shrinks the queue unless a new cell was visited |
| Engine.Game.VisitMoves | Quoridor/quoridor.py:380-383 | after the move loop every move of the head is visited with a run at most one move longer than the head's, and the queue grew by exactly the newly visited cells |
| Engine.Game.VisitMove | Quoridor/quoridor.py:381-383 | a move is visited once: when new it is queued one level deeper; the runs of cells visited before are kept |
| Engine.Game.ShortestAtHead | Quoridor/quoridor.py:375-379 | when the head of the queue is on the goal line, its depth is the distance |
| Engine.Game.AllPlayersHaveWay | Quoridor/quoridor.py:321-327 | true iff every player has a way to its goal line, pawns ignored |
| Engine.Game.PossibleOrients | Quoridor/quoridor.py:307-331 | the walls are the same afterwards, and the result is the list of placeable directions |
| Engine.Game.OrientAllowed | Quoridor/quoridor.py:314-330 | the walls are the same afterwards, and the answer is whether the wall from pos towards d may be placed |
| Engine.Game.PossibleWalls | Quoridor/quoridor.py:287-305 | the walls are the same afterwards, and the result is the list of wall starts for the player's wall count |
| Engine.Game.AllStarts | Quoridor/quoridor.py:300-303 | the walls are the same afterwards, and the result is the lattice points with a placeable direction, row by row |
| Engine.Game.RowStarts | Quoridor/quoridor.py:301-303 | one pass of the outer loop appends the starts of row y, left to right |
| Engine.Game.AllPossibleWalls | Quoridor/quoridor.py:406-420 | the walls are the same afterwards, and the result lists every placeable wall, row by row, in the order of DEFAULT |
| Engine.Game.RowWalls | Quoridor/quoridor.py:417-419 | one pass of the outer loop appends the placeable walls of row y, left to right |
| Engine.Game.BestMove | Quoridor/quoridor.py:386-404 | the move returned is the first move of least distance, returned with that distance |
| Engine.Game.ScoreWall | Quoridor/quoridor.py:438-445 | the walls are the same afterwards, and the score is the wall's score |
| Engine.Game.BestWall | Quoridor/quoridor.py:422-449 | the walls are the same afterwards, and the result is the first placeable wall of greatest score above -1000, or nothing when none scores above -1000 |
| Engine.Game.BestOfWalls | Quoridor/quoridor.py:427-449 | the scan returns the first candidate of greatest score above -1000, or nothing; the walls are the same afterwards |
| Engine.Game.BotMakeMove | Quoridor/quoridor.py:87-102 | with walls left and the coin up, the bot proposes its best wall (or none); otherwise it moves to its best move; the walls are the same afterwards |
| Engine.Game.MovePawn | Quoridor/quoridor.py:470-481 | the grid becomes the grid with the pawn moved |
| Engine.Game.PlaceWallAt | Quoridor/quoridor.py:483-493 | exactly one wall is appended: the wall from pos to pos + 2 * orient |
| Engine.Game.CurrentMoves | Quoridor/quoridor.py:541-547 | the current player's moves and colour |
| Engine.Game.CurrentWalls | Quoridor/quoridor.py:549-553 | the wall starts offered to the current player, walls the same afterwards |
| Engine.Game.WallTurn | Quoridor/quoridor.py:573-578 | one wall appended, the current player's wall count down by one, its position, won flag and colour kept, the turn passed on |
| Engine.Game.PawnTurn | Quoridor/quoridor.py:580-584 | the pawn moved in the grid, the player's position and won flag updated, its wall count and colour kept, the turn passed on |
| Engine.Game.MoveCurrent | Quoridor/quoridor.py:581-582 | the current pawn moves in the grid and in its player's record, its wall count and colour are kept, no other position changes, and a move onto a free cell keeps the grid and the positions in agreement |
| Engine.Game.PassTurn | Quoridor/quoridor.py:583-584 | the turn goes to the next player and the grid and positions still agree |
| Engine.Game.MakeMove | Quoridor/quoridor.py:564-584 | "wall" changes only the walls and the current player's wall count, "move" only the grid and the current player's position and won flag; neither touches another player; both advance the turn modulo the player count; any other kind changes nothing; a move onto a free cell keeps the grid and the positions in agreement |

`Game.possible_orients` (Quoridor/quoridor.py:555-562) forwards to the
validator's `possible_orients`, so `Engine.Game.PossibleOrients` covers it.

## Left out

- Drawing: `Player.draw`, `Wall.draw`, `Game.draw`, and the image and font loading in `Game.__init__` are screen output with floating-point pixel arithmetic.
- The UI widgets (`MenuButton`, `MoveButton`, `WallButton`, `CheckBox`, `UImanager`) are event handling and drawing, not rules.
- The application loop `Quoridor` is left out. It is top-level input and output, and that includes its reset of the `won` flag between games.
- `Game.setbots` is left out. It rebuilds the players from interface choices, with the same data as the constructor.
- The random number generator is not modelled. `Bot.make_move` takes the outcome of `random() > 0.75` as the boolean `coin`.
- `Board.print` and the commented-out `print` calls are console output.
- Engine.Game.MovePawn: it requires both cells to be on the board. Python's negative indexing for off-board cells is not modelled; the program only moves pawns between board cells.
- Engine.Game.BestWall: it requires every player to stand on the board, as the program's players always do. The depth-first search it runs for each player assumes a board cell.
- Engine.Game.BestMove: it requires at least one move, because the program reads `moves[0]` without a check.
- Engine.Game.MakeMove: "move" requires the target cell to be on the board (the same indexing restriction as MovePawn). "wall" always receives a direction.
- Players.Player.constructor: it requires a start on row 4 or column 4, the only starts for which the program defines a goal.
- Engine.Game.constructor: it requires 1 to 4 players. The player count selects either the 2-player setup or the 4-player setup. It also sets how many of those players are placed on the grid.
- The model does not capture identity between distinct Python objects beyond the shared state. The validator's aliases of the board's grid and walls, and of the game's player list, are one object here.
