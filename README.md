# 3DMazeA game logic in Dafny

This project models the game logic of the browser maze game `3DMazeA/game.js`
and proves properties of it. The renderer is not part of the model.

- **Maze generation.** `generateMaze` fills a 15 × 15 grid with walls (1). Its
  recursive `dig` carves passages (0) by a depth-first walk over the cells
  with odd coordinates, starting at (1, 1). The exit (2) is written at
  (13, 13). The empty cells other than the start are scanned row by row, up
  to four of them are drawn at random, and each becomes a chest cell (3). The
  first chest drawn holds the key.
- **Chest pickup.** `checkChestCollision` opens the closed chest in the
  player's cell. It clears that cell to a passage, adds 50 to the score, and
  for the key chest adds 100 more and gives the player the key.
- **Exit.** `checkExit` acts only when the player is on the exit cell. With
  the key, it alerts the score, generates a new level and puts the player
  back at (1.5, 1.5) with no key and a score of 0, facing the same way.
  Without the key, it alerts that a key is needed.
- **Movement.** `update` moves the player forward or back along the facing
  direction. A move goes through only when the destination cell is not a
  wall. The turning keys change the facing direction. Then the pickup runs,
  then the exit check.

Modules:

- `Maze` (`maze.dfy`) holds the grid, cell kinds, positions, reachability and
  the carving record.
- `Generator` (`generator.dfy`) holds the walk, the candidate scan and the
  chest draw.
- `Chests` (`chests.dfy`) holds chest values and what one pickup sweep does.
- `World` (`world.dfy`) holds the level invariants and the movement rule, as
  pure predicates and lemmas.
- `Game` (`game.dfy`) holds the mutable objects: a `Player` class and a
  `Game` class. The `Game` class owns the grid array, the exit, the chest
  list and the ghost carving record. Its invariant `Valid` holds before and
  after every frame.

How the source is represented:

- **Randomness.** `Math.random` is an oracle value, `Random`:
  - `shuffle(k)` is the order in which the k-th `dig` call tries the four
    directions. It may be any permutation of them.
  - `draw(j)` is the number in [0, 1) behind the j-th chest draw.

  Every property holds for every oracle.
- **Trigonometry.** The values of `Math.cos(player.dir)` and
  `Math.sin(player.dir)` are parameters of `Update` in [-1, 1].
- **Alerts.** An `alert` becomes the returned `Signal`: `NoAlert`, `Locked`
  or `Complete(score)`.
- **Reachability.** The walk records, in ghost maps, the parent and depth of
  each cell it opens. This record is what proves that every open cell can
  be reached from the start. The game invariant keeps it.
- **No loops.** Two open cells side by side are always a parent and its
  child in the carving record. Together with the record, this makes the
  passages exactly the spanning tree the walk traces, with no loop. The walk
  keeps this by never opening a wall next to two passages: the only walled
  lattice cell next to an open cell is the one the walk is about to enter,
  and its only open neighbour is the cell it comes through.
- **Completeness.** Every lattice cell the walk carves has all four of its
  lattice neighbours carved. By induction, the walk therefore carves every
  odd/odd interior cell. So the exit lands on a passage, and there are
  always at least four chest candidates. Every level therefore has exactly
  four chests.

A move into a cell outside the grid goes through. The move test is
`maze[y]?.[x] !== 1`: outside the grid, `maze[y]?.[x]` yields `undefined`,
and `undefined !== 1`. `Lookup` and `Passable` model this test as written.
`MoveKeepsSafe` then shows that, from an open cell, no single step can
reach the outside of the grid, because the border walls stop it first.

## Model

| member | source | states |
|---|---|---|
| Maze.Min | 3DMazeA/game.js:82 | How many cells the draw loop `while(selected.length < CHEST_COUNT && candidates.length > 0)` takes: at most 4, at most the number of candidates, and equal to one of the two. |
| Maze.PathTo | 3DMazeA/game.js:53-65 | Following the carving record's parents from any recorded cell gives a path of side-steps through open cells back to (1, 1). |
| Maze.PathExtend | 3DMazeA/game.js:59-61 | A path to a cell extends by one side-step to an open neighbour of it. |
| Maze.TreeConnects | 3DMazeA/game.js:53-67 | With a carving record, every open cell of the grid is reachable from the start through open cells. |
| Maze.TreeKeepsOpen | 3DMazeA/game.js:69 | Rewriting an open cell as another open kind (exit or chest) keeps the carving record valid. |
| Maze.NoLoopsKeepsOpen | 3DMazeA/game.js:69 | Rewriting an open cell as another open kind keeps the passages loop-free. The placement on line 88 and the pickup on line 215 use it too. |
| Generator.CarveOne | 3DMazeA/game.js:54 | Writing 0 into an interior cell that is not a pillar (both coordinates even) only turns cells into passages. It leaves the border and the pillars walls. |
| Generator.CarvesShrinks | 3DMazeA/game.js:53-65 | Carving never adds a wall, and carving a wall cell strictly shrinks the set of walls. This is the walk's termination measure. |
| Generator.TreeRoot | 3DMazeA/game.js:54 | Opening the start cell at depth 0 starts a valid carving record. |
| Generator.TreeCarve | 3DMazeA/game.js:54 | Opening a cell next to a recorded cell, with that cell as its parent, keeps the record valid and records the new cell. |
| Generator.TreeExtend | 3DMazeA/game.js:61 | Opening a fresh cell next to a recorded cell, as that cell's child one level deeper, keeps the record valid. |
| Generator.ShuffledDirection | 3DMazeA/game.js:55 | Each entry of a shuffled direction list is one of the four directions. |
| Generator.LatticeStep | 3DMazeA/game.js:58-61 | From a lattice cell, the interior cell two steps along a direction is a lattice cell. The cell between is interior, not a pillar, off the lattice, and adjacent to both. |
| Generator.WalledStays | 3DMazeA/game.js:53-65 | Carving keeps the border and the pillars walls. |
| Generator.MidNeighbours | 3DMazeA/game.js:58-61 | Each neighbour of the cell between a lattice cell and its lattice neighbour is one of those two, on the border, or a pillar. |
| Generator.MidWall | 3DMazeA/game.js:59-61 | While no walled lattice cell has an open neighbour, the cell between (x, y) and a walled lattice neighbour is a wall too. |
| Generator.PierceSealed | 3DMazeA/game.js:61 | Knocking out the cell between (x, y) and its walled neighbour f keeps the passages loop-free. Afterwards f is the only walled lattice cell with an open neighbour, and the new passage is that neighbour. |
| Generator.PierceNoLoops | 3DMazeA/game.js:61 | The cell knocked out has (x, y), its parent, as its only open neighbour, so no loop appears. |
| Generator.PierceKeepsSealed | 3DMazeA/game.js:61 | No walled lattice cell other than f gains an open neighbour. |
| Generator.PierceLone | 3DMazeA/game.js:61 | The new passage is f's only open neighbour, and f is not the start. |
| Generator.EnterCell | 3DMazeA/game.js:54 | `maze[y][x] = 0` on an enterable cell only adds a passage and removes a wall, keeps border and pillars walls, records the cell, and keeps the passages a loop-free tree with no walled lattice cell next to an open one. |
| Generator.EnterGrid | 3DMazeA/game.js:54 | The grid half of that write: one wall fewer, border and pillars still walls. |
| Generator.EnterRecord | 3DMazeA/game.js:54 | The record half: the cell is recorded, as the root at (1, 1) or as the child of the cell the walk came through, and the tree and the seal are kept. |
| Generator.EnterSealed | 3DMazeA/game.js:54 | Opening the one walled lattice cell that has an open neighbour, with that neighbour as its parent, keeps the passages loop-free and leaves no walled lattice cell next to an open one. |
| Generator.EnterNoLoops | 3DMazeA/game.js:54 | The loop-free half of `EnterSealed`. |
| Generator.EnterKeepsSealed | 3DMazeA/game.js:54 | The sealed half of `EnterSealed`. |
| Generator.ClosedAfterEnter | 3DMazeA/game.js:53-65 | Carving (x, y) and then finishing all its lattice neighbours leaves every lattice cell carved on the way, (x, y) included, with all its lattice neighbours carved. |
| Generator.DigStep | 3DMazeA/game.js:57-64 | One turn of the `for ... of` loop: when a direction leaves its far cell carved or outside the interior, the directions handled so far grow by one. Carving done so far composes with this turn's carving. |
| Generator.SettledAlongDone | 3DMazeA/game.js:55-64 | Handling each direction of a shuffled list handles all four neighbours, whatever the shuffle. |
| Generator.CarveBetween | 3DMazeA/game.js:61 | Knocking out the cell between a lattice cell and its walled neighbour carves one interior cell. It closes no lattice cell and adds no wall. |
| Generator.Pierce | 3DMazeA/game.js:60-61 | `maze[y+dy][x+dx] = 0` changes exactly that cell, adds no wall and closes no lattice cell. The carving record grows by the carved cell, as the child of (x, y). The far cell is then ready to be dug: still a walled lattice cell, the only one with an open neighbour, and that neighbour is the carved cell. The passages stay a loop-free tree. |
| Generator.Dig | 3DMazeA/game.js:53-65 | `dig(x, y)` writes 0 into (x, y), then runs the `for ... of` loop over the shuffled directions. It terminates, with the wall set as its measure. It only turns interior non-pillar cells into passages and leaves (x, y) carved. Every lattice cell it carves ends with all its lattice neighbours carved. The carving record stays valid, the passages stay loop-free, and no walled lattice cell is left next to an open one. |
| Generator.DigAround | 3DMazeA/game.js:57-64 | The `for ... of` loop of `dig` from a carved (x, y): afterwards all four lattice neighbours of (x, y) are carved or outside the interior, whatever the order. Only passages are added, every lattice cell carved on the way has all its lattice neighbours carved, and the passages stay a loop-free tree. |
| Generator.TryDirection | 3DMazeA/game.js:58-63 | One direction of `dig`, with the guard of line 60: afterwards the neighbour two cells along it is carved or outside the interior. Only passages are added, and the passages stay a loop-free tree. |
| Generator.Advance | 3DMazeA/game.js:61-62 | The guarded body: knock out the cell in between, then `dig(nx, ny)`. Afterwards the far cell is carved, only passages are added, and the passages stay a loop-free tree. |
| Generator.ClosedFromWalls | 3DMazeA/game.js:50-67 | A walk from the all-wall grid leaves every carved lattice cell with all its lattice neighbours carved. |
| Generator.LatticeCarvedAt | 3DMazeA/game.js:50-67 | In such a grid, with the start carved, every lattice cell is carved. The proof is by induction towards (1, 1). |
| Generator.AllLatticeCarved | 3DMazeA/game.js:50-67 | Every odd/odd interior cell is carved after the walk. |
| Generator.CollectCandidates | 3DMazeA/game.js:72-79 | The scan lists exactly the empty interior cells other than (1, 1), in row-major order. |
| Generator.PickIndex | 3DMazeA/game.js:83 | `Math.floor(Math.random() * n)` is an index below n. |
| Generator.SelectChests | 3DMazeA/game.js:81-85 | The draw takes min(4, number of candidates) cells, each taken out of the remaining list, so the result is a sub-multiset of the candidates. |
| Generator.SubmultisetNoDuplicates | 3DMazeA/game.js:81-85 | Drawing without replacement from distinct cells gives distinct cells. |
| Generator.ContainsBound | 3DMazeA/game.js:72-79 | A list containing every member of a set is at least as long as the set. |
| Chests.Hit | 3DMazeA/game.js:209 | The test `chest.x === px && chest.y === py && !chest.opened`. It has no contract of its own; `Chests.Visit` and `Chests.KeyHitIff` state what it decides. |
| Chests.Value | 3DMazeA/game.js:210-216 | What opening a chest adds: at least 50, and more than 50 exactly for the key chest (`score += 100` on line 212, then `score += 50` on line 216). |
| Chests.Visit | 3DMazeA/game.js:209-214 | The `forEach` callback's effect on one chest: position and key flag kept, and open afterwards exactly when it was open or lies in (px, py). |
| Chests.KeyHit | 3DMazeA/game.js:209-212 | Whether a sweep sets `player.hasKey`. It has no contract of its own; `Chests.KeyHitIff` states its meaning. |
| Chests.KeyHitIff | 3DMazeA/game.js:209-212 | A sweep finds the key exactly when some chest it hits holds the key. |
| Chests.OpenHits | 3DMazeA/game.js:208-214 | After a sweep from (px, py), each chest keeps its cell and key flag. It is open exactly when it was open or lies in (px, py). |
| Chests.HitGain | 3DMazeA/game.js:209-216 | The score a sweep adds is never negative. It is zero exactly when no closed chest lies in (px, py). |
| Chests.ClearHits | 3DMazeA/game.js:215 | The sweep's grid changes no cell outside (px, py) and turns no open cell into a wall. |
| Chests.Score | 3DMazeA/game.js:210-216 | The score the opened chests account for is never negative. |
| Chests.SweepPrefix | 3DMazeA/game.js:208-218 | The sweep over the first n + 1 chests is the sweep over the first n, followed by chest n, in the chest list, score, key and grid. |
| Chests.SweepStep | 3DMazeA/game.js:208-218 | Visiting chest i of the partly swept list gives the list swept up to chest i + 1. |
| Chests.SweptStep | 3DMazeA/game.js:208-218 | Running the callback on chest i of a list swept up to i gives the list, grid, score and key swept up to i + 1. |
| Chests.NoHitNoChange | 3DMazeA/game.js:204-219 | A sweep that finds no closed chest in the player's cell changes no chest, no cell, no score and no key. |
| Chests.SingleHit | 3DMazeA/game.js:204-219 | With chests in distinct cells, a sweep that hits chest i opens only that chest and clears only its cell. It pays that chest's 50 or 150, and finds the key exactly when that chest holds it. |
| Chests.SweepIdempotent | 3DMazeA/game.js:204-219 | A second sweep from the same cell opens nothing, pays nothing, finds no key and leaves the grid as the first sweep left it. |
| Chests.SweepScore | 3DMazeA/game.js:210-216 | The score of the opened chests grows by exactly what the sweep pays. |
| Chests.KeyHitFirst | 3DMazeA/game.js:92 | When only the first chest holds the key, a sweep finds the key exactly when it opens that chest. |
| World.AllWalls | 3DMazeA/game.js:50 | The all-wall grid has intact border walls and pillars and an empty, valid carving record, has no passages to form a loop, and lets the walk enter (1, 1). |
| World.AfterWalk | 3DMazeA/game.js:50-67 | The walk from the all-wall grid keeps every border cell and every pillar a wall, leaves every cell a wall or a passage, and carves every lattice cell. |
| World.PlaceExit | 3DMazeA/game.js:68-69 | Writing 2 at (13, 13) after the walk gives intact borders and pillars, the exit on a carved cell, every other lattice cell a passage, and a valid, loop-free carving record. Every cell then holds 2 exactly at (13, 13), no 3 anywhere, and otherwise a wall or a passage. |
| World.EnoughCandidates | 3DMazeA/game.js:72-85 | After the walk there are at least four chest candidates, so exactly four chests are drawn. |
| World.SortedDistinct | 3DMazeA/game.js:72-79 | The row-major scan lists no cell twice. |
| World.PlaceOne | 3DMazeA/game.js:87-88 | Writing 3 into the next selected cell keeps the earlier chest cells and the cells still to come, and keeps the passages. |
| World.KeepsOthersStep | 3DMazeA/game.js:88 | Writing 3 into selected cell n changes no cell outside the first n + 1 selected cells. |
| World.ChestsAtSnoc | 3DMazeA/game.js:89-94 | One more turn of the placement `forEach` appends one closed chest, on that cell, holding the key exactly when it is the first. |
| World.ChestsAt | 3DMazeA/game.js:89-94 | The chest list built from the selected cells has one chest per cell, in order, each closed and on its cell, with the key only in the first. Distinct cells give chests in distinct cells, and the list accounts for a score of 0. |
| World.PlacedKinds | 3DMazeA/game.js:87-95 | When chest cells are written into the selected cells of a grid that held no 3, a cell holds 3 exactly where a closed chest stands, and the exit and the other kinds are unchanged. |
| World.PlacementDone | 3DMazeA/game.js:87-95 | After the placement loop over every selected cell: the passages intact, 3 in every selected cell, and every other cell as before. |
| World.LevelPlaced | 3DMazeA/game.js:72-95 | Four distinct empty candidates turned into chest cells, and nothing else changed, give the complete level. Each chest is closed on the 3 of an allowed cell, only the first holds the key, and each cell holds 3 exactly where a chest stands. The start is unchanged and no open cell becomes a wall. |
| World.ClosedScore | 3DMazeA/game.js:93 | Closed chests account for a score of 0. |
| World.SweepKeepsLayout | 3DMazeA/game.js:204-219 | A pickup sweep keeps the level invariant and the cell kinds: the opened chest's cell becomes a passage and everything else stays laid out. |
| World.OpenOne | 3DMazeA/game.js:214-215 | Opening one closed chest and clearing its cell keeps the level invariant. |
| World.OpenKinds | 3DMazeA/game.js:214-215 | Opening one closed chest and clearing its cell keeps every cell's kind: a cell holds 3 exactly where a closed chest still stands. |
| World.Lookup | 3DMazeA/game.js:246 | `maze[y]?.[x]` is nothing exactly outside the grid. |
| World.Passable | 3DMazeA/game.js:246-249 | The test `maze[Math.floor(ny)]?.[Math.floor(nx)] !== 1` as written. It has no contract of its own; `World.PassableIff` states what it decides. |
| World.PassableIff | 3DMazeA/game.js:246 | The move test lets the player through exactly when the cell is outside the grid or not a wall. |
| World.StepStaysOnGrid | 3DMazeA/game.js:243-257 | From an open cell, a step of at most one cell per axis passes the move test exactly when it lands on an open cell of the grid. |
| World.Move | 3DMazeA/game.js:243-257 | One guarded move (lines 246-249 for up, 254-257 for down): the player either ends at the target or stays where they were. |
| World.MoveKeepsSafe | 3DMazeA/game.js:243-257 | From an open cell, such a move always ends on an open cell, and it goes through exactly when its destination is open. |
| World.Walked | 3DMazeA/game.js:243-257 | The up block then the down block, the second starting where the first left the player. It has no contract of its own; `World.WalkedSteps` and `World.WalkedSafe` state its properties. |
| World.WalkedSteps | 3DMazeA/game.js:243-257 | A forward move, then a back move by the same step from where the first one ended, is one frame's `Walked`. |
| World.WalkedSafe | 3DMazeA/game.js:243-257 | The arrow keys of one frame leave a player who stands on an open cell on an open cell. With neither held, the player stays put. |
| Game.Player.constructor | 3DMazeA/game.js:7-14 | The player starts at (1.5, 1.5), facing direction 0, with no key and a score of 0. |
| Game.Game.constructor | 3DMazeA/game.js:299 | Starting the game generates the first level; the game invariant then holds for the fresh player. |
| Game.Game.GenerateMaze | 3DMazeA/game.js:49-96 | A new grid holding a valid level: intact borders and pillars, the exit at (13, 13), four closed chests on distinct chest cells with the key in the first, score 0, the start open, and every open cell reachable from the start. The passages are the recorded spanning tree: two open cells side by side are always a parent and its child, so there is no loop. A cell holds 3 exactly where a chest stands and 2 exactly at the exit. Every other lattice cell holds 0 or 3. |
| Game.Game.CarveLevel | 3DMazeA/game.js:50-69 | The new grid after the walk and the exit has intact borders and pillars, every lattice cell other than the exit a passage, the exit at (13, 13) and no chests. Its passages are the recorded loop-free tree. Every cell holds 2 exactly at the exit, and no cell holds 3. |
| Game.Game.PlaceChests | 3DMazeA/game.js:87-95 | Each selected cell, an empty candidate before, becomes a chest cell, and every other cell keeps what it held. The chest list is built in selection order. The grid array, the exit, the passages and the carving record are kept. |
| Game.Game.PlaceChest | 3DMazeA/game.js:87-95 | One turn of the placement `forEach`: `maze[pos.y][pos.x] = 3` is the only grid change, and one closed chest is appended, holding the key exactly when it is the first. |
| Game.Game.CheckChestCollision | 3DMazeA/game.js:204-219 | The state after a pickup is the sweep of the player's floored cell: chests, grid, score and key. The player's position and facing are unchanged, and the game invariant holds. |
| Game.Game.OpenChestsAt | 3DMazeA/game.js:208-218 | The `forEach` loop over the chests computes exactly the sweep of cell (px, py). |
| Game.Game.OpenChest | 3DMazeA/game.js:209-217 | The callback for chest i opens it only when it is closed and in (px, py). It then clears its cell, pays 50 plus 100 for the key chest, and hands over the key. Nothing else changes, so the sweep moves on from chest i to chest i + 1. |
| Game.Game.CheckExit | 3DMazeA/game.js:221-236 | Off the exit: no alert and no change. On the exit without the key: `Locked` and no change. On the exit with the key: `Complete` with the old score, a fresh level, and the player reset to (1.5, 1.5) with no key and score 0. The facing is kept in every case. |
| Game.Game.ArrowMove | 3DMazeA/game.js:243-257 | A move by (dx, dy) commits exactly when the floored destination cell is not a wall, outside the grid counting as not a wall. Otherwise the position is unchanged. A step of at most one cell keeps the game invariant. |
| Game.Game.Walk | 3DMazeA/game.js:243-257 | The up key moves forward along the facing direction at speed 0.05, then the down key moves back from where the player then stands. Key and score do not change. |
| Game.Game.Turn | 3DMazeA/game.js:259-260 | Left subtracts 0.03 from the facing direction and right adds 0.03. Position, key and score do not change. |
| Game.Game.Update | 3DMazeA/game.js:239-264 | One frame: the moves, then turning, then the pickup in cell c where the moves end, then the exit check. The alert is `Complete` with the old score plus c's pickup gain when c is the exit and the key is held or found in c; `Locked` when c is the exit otherwise; and no alert off the exit. Short of completing the level, the player stands where the moves left them, and chests, grid, score and key are the sweep of c. Completing resets position, key and score and gives a fresh level with closed chests. The game invariant holds throughout. |

## Left out

- Canvas setup, the wall texture, `castRay`, `draw3D` and `drawMiniMap` are
  not modelled. They only draw the state and depend on floating-point
  trigonometry and pixels.
- The keyboard, mouse and pointer-lock listeners become the `Keys`
  parameter of `Update`. Mouse turning (`dir += movementX * 0.002`) is not
  modelled: it runs outside `update`.
- `gameLoop` and `requestAnimationFrame` are not modelled: they only
  schedule one `update` per frame. The game loop is the caller of
  `Game.Game.Update`.
- The player's `fov` is left out: only rendering uses it.
- `Math.random` becomes the oracle `Random`. The model does not capture
  which permutations a `sort` with a random comparator actually produces,
  nor how they are distributed. It allows every permutation.
- `Math.cos` and `Math.sin` become the parameters `cos` and `sin` in
  [-1, 1]. Nothing ties them to `player.dir`, and cos² + sin² = 1 is not
  assumed.
- Floating point: positions and directions are exact reals, and
  `Math.floor` is `Floor` on reals. Rounding in `player.x + cos * 0.05` is
  not modelled.
- The text of each `alert` is not modelled: an alert becomes a `Signal`
  value. That the alert blocks the page until it is dismissed is not
  modelled either.
- The grid is one array of 225 cells in row-major order, not an array of 15
  row arrays. No row is ever shared, so no aliasing is lost.
- Each chest is a value in a list that the game reassigns, not an object
  mutated in place. Nothing else holds a reference to a chest, so no
  aliasing is lost.
- Generator.Dig: it requires the cell it enters to be `Enterable`: a walled
  lattice cell whose only open neighbour is the recorded cell the walk comes
  through (the start has none), in a grid whose passages are the recorded
  loop-free tree. Both of the source's calls guarantee this, the first on the
  all-wall grid and the others through the `maze[ny][nx] === 1` guard
  (`Generator.Pierce`). Its extra `k` parameter and its result only count
  how many oracle shuffles have been used.
- Game.Game.PlaceChests: it states the placement itself. The complete level
  (four chests, score 0, cell kinds) comes from `World.LevelPlaced`, which
  needs the four cells that generation always selects
  (`World.EnoughCandidates`).
- Game.Game.ArrowMove: it requires the game invariant and a step of at most
  one cell per axis. Every move of `update` is 0.05 × a value in [-1, 1].
- Game.Game.CheckChestCollision, Game.Game.CheckExit, Game.Game.Walk and
  Game.Game.Update all require the game invariant `Valid`. Generation
  establishes it and every frame keeps it.
