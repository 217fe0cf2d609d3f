/** The game's mutable state and the operations of one frame: generating a
 *  level, picking up chests, leaving through the exit, and the movement and
 *  turning of `update`. `Math.random` is the oracle `Random`; the values
 *  `Math.cos(player.dir)` and `Math.sin(player.dir)` are parameters; an
 *  `alert` is a returned `Signal`. */
module Game {
  import opened Maze
  import opened Generator
  import opened Chests
  import opened World

  /** Distance moved per frame while an arrow key is held, and angle turned. */
  const Speed: real := 0.05
  const RotSpeed: real := 0.03

  /** A value of `Math.cos` or `Math.sin`. */
  type Trig = r: real | -1.0 <= r <= 1.0

  /** Which arrow keys are held in this frame. */
  datatype Keys = Keys(up: bool, down: bool, left: bool, right: bool)

  /** The alert a frame shows: none, "a key is needed", or "goal" with the score. */
  datatype Signal = NoAlert | Locked | Complete(score: int)

  class Player {
    var x: real
    var y: real
    var dir: real
    var hasKey: bool
    var score: int

    /** The start of the game: the centre of the start cell, facing along x. */
    constructor()
      ensures x == 1.5 && y == 1.5 && dir == 0.0 && !hasKey && score == 0
    {
      x, y, dir, hasKey, score := 1.5, 1.5, 0.0, false, 0;
    }
  }

  class Game {
    const player: Player
    var maze: array<int>
    var exitPos: Pos
    var chests: seq<Chest>
    // The record of how the walk carved the current level.
    ghost var parent: map<Pos, Pos>
    ghost var depth: map<Pos, nat>

    /** The level is laid out as generation leaves it, up to chests opened since. */
    ghost predicate LevelValid()
      reads this, maze
    {
      maze.Length == Cells && Layout(maze[..], exitPos, chests, parent, depth) &&
      Kinds(maze[..], exitPos, chests)
    }

    /** The level is laid out, the score is what the opened chests paid, the
     *  player holds the key exactly when the key chest is open, and the player
     *  stands on an open cell. */
    ghost predicate Valid()
      reads this, maze, player
    {
      LevelValid() && player.score == Score(chests) && player.hasKey == chests[0].isOpen &&
      Safe(maze[..], player.x, player.y)
    }

    /** Start the game: create the player, then generate the first level. */
    constructor(rng: Random)
      ensures Valid() && fresh(player) && fresh(maze)
      ensures player.x == 1.5 && player.y == 1.5 && player.dir == 0.0 && !player.hasKey && player.score == 0
    {
      player := new Player();
      maze := new int[0];
      exitPos, chests := Pos(0, 0), [];
      new;
      GenerateMaze(rng);
    }

    /** `generateMaze`: a fresh all-wall grid, the walk from the start, the
     *  exit in the far corner, then four closed chests drawn from the empty
     *  cells other than the start, the first one holding the key. */
    method GenerateMaze(rng: Random)
      modifies this
      ensures LevelValid() && fresh(maze)
      ensures forall i :: 0 <= i < |chests| ==> !chests[i].isOpen
      ensures Score(chests) == 0 && At(maze[..], Start.x, Start.y) == Empty
      ensures forall x, y :: InGrid(x, y) && At(maze[..], x, y) != Wall ==> Reachable(maze[..], Pos(x, y))
      // The passages are the recorded spanning tree: two open cells side by
      // side are always a parent and its child, so there is no loop.
      ensures Tree(maze[..], parent, depth) && NoLoops(maze[..], parent)
      ensures Kinds(maze[..], exitPos, chests)
      ensures forall x, y :: OnLattice(x, y) && Pos(x, y) != exitPos ==>
        At(maze[..], x, y) == Empty || At(maze[..], x, y) == ChestCell
    {
      CarveLevel(rng);
      var candidates := CollectCandidates(maze);
      EnoughCandidates(maze[..], candidates);
      SortedDistinct(candidates);
      var selected := SelectChests(candidates, rng);
      SubmultisetNoDuplicates(candidates, selected);
      forall j | 0 <= j < |selected|
        ensures IsCandidate(maze[..], selected[j])
      {
        assert selected[j] in multiset(candidates);
      }
      ghost var g0: Grid := maze[..];
      PlaceChests(selected);
      LevelPlaced(g0, maze[..], exitPos, parent, depth, selected);
      TreeConnects(maze[..], parent, depth);
    }

    /** The first half of `generateMaze`: the new grid, the walk and the exit. */
    method CarveLevel(rng: Random)
      modifies this
      ensures fresh(maze) && maze.Length == Cells && chests == []
      ensures Passages(maze[..], exitPos, parent, depth) && At(maze[..], Start.x, Start.y) == Empty
      ensures forall x, y :: OnLattice(x, y) && Pos(x, y) != ExitPos ==> At(maze[..], x, y) == Empty
      ensures Kinds(maze[..], exitPos, [])
    {
      maze := new int[Cells](_ => Wall);
      chests := [];
      ghost var g0: Grid := maze[..];
      AllWalls(g0);
      var next;
      next, parent, depth := Dig(maze, 1, 1, rng, 0, Start, map[], map[]);
      ghost var g1: Grid := maze[..];
      AfterWalk(g0, g1);
      PlaceExit(g1, parent, depth);
      exitPos := Pos(MapSize - 2, MapSize - 2);
      maze[Idx(exitPos.x, exitPos.y)] := Exit;
    }

    /** The placement loop: each selected cell becomes a chest cell and gets a
     *  closed chest, the first one holding the key. */
    method PlaceChests(selected: seq<Pos>)
      requires maze.Length == Cells && chests == [] && |selected| <= ChestCount && NoDuplicates(selected)
      requires Passages(maze[..], exitPos, parent, depth)
      requires forall j :: 0 <= j < |selected| ==> IsCandidate(maze[..], selected[j])
      modifies this, maze
      ensures maze == old(maze) && exitPos == old(exitPos) && parent == old(parent) && depth == old(depth)
      ensures chests == ChestsAt(selected) && Passages(maze[..], exitPos, parent, depth)
      ensures forall j :: 0 <= j < |selected| ==> Interior(selected[j].x, selected[j].y) && At(maze[..], selected[j].x, selected[j].y) == ChestCell
      ensures forall x, y :: InGrid(x, y) && Pos(x, y) !in selected ==> At(maze[..], x, y) == At(old(maze[..]), x, y)
    {
      ghost var g0: Grid := maze[..];
      for i := 0 to |selected|
        invariant maze == old(maze) && exitPos == old(exitPos) && parent == old(parent) && depth == old(depth)
        invariant Placing(maze[..], exitPos, parent, depth, selected, i)
        invariant chests == ChestsAt(selected[..i])
        invariant KeepsOthers(g0, maze[..], selected, i)
      {
        PlaceChest(selected, i, g0);
      }
      assert selected[..|selected|] == selected;
      PlacementDone(g0, maze[..], exitPos, parent, depth, selected);
    }

    /** The body of the placement loop for the chest at index i: its cell
     *  becomes a chest cell and the chest is appended, holding the key when it
     *  is the first. */
    method PlaceChest(selected: seq<Pos>, i: int, ghost g0: Grid)
      requires maze.Length == Cells && NoDuplicates(selected) && i < |selected|
      requires Placing(maze[..], exitPos, parent, depth, selected, i)
      requires chests == ChestsAt(selected[..i]) && KeepsOthers(g0, maze[..], selected, i)
      modifies this, maze
      ensures maze == old(maze) && exitPos == old(exitPos) && parent == old(parent) && depth == old(depth)
      ensures maze[..] == old(maze[..])[Idx(selected[i].x, selected[i].y) := ChestCell]
      ensures chests == old(chests) + [Chest(selected[i].x, selected[i].y, i == 0, false)]
      ensures Placing(maze[..], exitPos, parent, depth, selected, i + 1)
      ensures chests == ChestsAt(selected[..i + 1]) && KeepsOthers(g0, maze[..], selected, i + 1)
    {
      var pos := selected[i];
      ghost var g: Grid := maze[..];
      PlaceOne(g, exitPos, parent, depth, selected, i);
      KeepsOthersStep(g0, g, selected, i);
      maze[Idx(pos.x, pos.y)] := ChestCell;
      chests := chests + [Chest(pos.x, pos.y, i == 0, false)];
      ChestsAtSnoc(selected, i);
    }

    /** `checkChestCollision`: every closed chest in the player's cell is
     *  opened; its cell becomes a passage, it pays 50, and the key chest pays
     *  100 more and hands over the key. */
    method CheckChestCollision()
      requires Valid()
      modifies this, maze, player
      ensures Valid() && maze == old(maze)
      ensures var c := CellOf(old(player.x), old(player.y));
        chests == OpenHits(old(chests), c.x, c.y) &&
        maze[..] == ClearHits(old(maze[..]), old(chests), c.x, c.y) &&
        player.score == old(player.score) + HitGain(old(chests), c.x, c.y) &&
        player.hasKey == (old(player.hasKey) || KeyHit(old(chests), c.x, c.y))
      ensures player.x == old(player.x) && player.y == old(player.y) && player.dir == old(player.dir)
      ensures exitPos == old(exitPos) && parent == old(parent) && depth == old(depth)
    {
      var px, py := player.x.Floor, player.y.Floor;
      SweepKeepsLayout(maze[..], exitPos, chests, parent, depth, px, py);
      SweepScore(chests, px, py);
      KeyHitFirst(chests, px, py);
      OpenChestsAt(px, py);
    }

    /** The loop of `checkChestCollision` over the chests, for the player's cell (px, py). */
    method OpenChestsAt(px: int, py: int)
      requires maze.Length == Cells && InGridAll(chests)
      modifies this, maze, player
      ensures maze == old(maze) && exitPos == old(exitPos) && parent == old(parent) && depth == old(depth)
      ensures chests == OpenHits(old(chests), px, py)
      ensures maze[..] == ClearHits(old(maze[..]), old(chests), px, py)
      ensures player.score == old(player.score) + HitGain(old(chests), px, py)
      ensures player.hasKey == (old(player.hasKey) || KeyHit(old(chests), px, py))
      ensures player.x == old(player.x) && player.y == old(player.y) && player.dir == old(player.dir)
    {
      ghost var cs0, g0: Grid := chests, maze[..];
      var n := |chests|;
      assert cs0[..0] == [] && cs0[0..] == cs0;
      for i := 0 to n
        invariant maze == old(maze) && exitPos == old(exitPos) && parent == old(parent) && depth == old(depth)
        invariant SweptTo(cs0, g0, px, py, i, chests, maze[..], old(player.score), player.score, old(player.hasKey), player.hasKey)
        invariant player.x == old(player.x) && player.y == old(player.y) && player.dir == old(player.dir)
      {
        OpenChest(i, px, py, cs0, g0, old(player.score), old(player.hasKey));
      }
      assert cs0[..n] == cs0 && cs0[n..] == [];
    }

    /** The body of the loop of `checkChestCollision` for chest i: if it is
     *  closed and in the player's cell (px, py), open it, clear its cell and
     *  pay its value, handing over the key if it holds it. */
    method OpenChest(i: int, px: int, py: int, ghost cs0: seq<Chest>, ghost g0: Grid, ghost score0: int, ghost key0: bool)
      requires maze.Length == Cells && InGridAll(cs0) && i < |cs0|
      requires SweptTo(cs0, g0, px, py, i, chests, maze[..], score0, player.score, key0, player.hasKey)
      modifies this, maze, player
      ensures maze == old(maze) && exitPos == old(exitPos) && parent == old(parent) && depth == old(depth)
      ensures var c := old(chests[i]);
        chests == old(chests)[i := Visit(c, px, py)] &&
        maze[..] == (if Hit(c, px, py) then old(maze[..])[Idx(c.x, c.y) := Empty] else old(maze[..])) &&
        player.score == old(player.score) + (if Hit(c, px, py) then Value(c) else 0) &&
        player.hasKey == (old(player.hasKey) || (Hit(c, px, py) && c.hasKey))
      ensures player.x == old(player.x) && player.y == old(player.y) && player.dir == old(player.dir)
      ensures SweptTo(cs0, g0, px, py, i + 1, chests, maze[..], score0, player.score, key0, player.hasKey)
    {
      SweptStep(cs0, g0, px, py, i, chests, maze[..], score0, player.score, key0, player.hasKey);
      var chest := chests[i];
      if chest.x == px && chest.y == py && !chest.isOpen {
        if chest.hasKey {
          player.hasKey := true;
          player.score := player.score + KeyBonus;
        }
        chests := chests[i := chest.(isOpen := true)];
        maze[Idx(chest.x, chest.y)] := Empty;
        player.score := player.score + ChestBonus;
      }
    }

    /** `checkExit`: in the exit cell with the key, the level is complete: the
     *  alert shows the score, a new level is generated and the player starts
     *  over at the start without key or score, still facing the same way. In
     *  the exit cell without the key only the alert is shown; elsewhere
     *  nothing happens. */
    method CheckExit(rng: Random) returns (signal: Signal)
      requires Valid()
      modifies this, player
      ensures Valid()
      ensures var atExit := CellOf(old(player.x), old(player.y)) == old(exitPos);
        (!atExit ==> signal == NoAlert) &&
        (atExit && !old(player.hasKey) ==> signal == Locked) &&
        (atExit && old(player.hasKey) ==> signal == Complete(old(player.score)))
      ensures signal.Complete? ==>
        fresh(maze) && player.x == 1.5 && player.y == 1.5 && !player.hasKey && player.score == 0 &&
        forall i :: 0 <= i < |chests| ==> !chests[i].isOpen
      ensures !signal.Complete? ==>
        maze == old(maze) && chests == old(chests) && exitPos == old(exitPos) &&
        parent == old(parent) && depth == old(depth) &&
        player.x == old(player.x) && player.y == old(player.y) &&
        player.hasKey == old(player.hasKey) && player.score == old(player.score)
      ensures player.dir == old(player.dir)
    {
      var mapX, mapY := player.x.Floor, player.y.Floor;
      if mapX == exitPos.x && mapY == exitPos.y {
        if player.hasKey {
          signal := Complete(player.score);
          GenerateMaze(rng);
          player.x := 1.5;
          player.y := 1.5;
          player.hasKey := false;
          player.score := 0;
          assert CellOf(player.x, player.y) == Start;
        } else {
          signal := Locked;
        }
      } else {
        signal := NoAlert;
      }
    }

    /** One arrow-key move by (dx, dy): the player moves exactly when the
     *  cell there is not a wall, outside the grid counting as not a wall.
     *  A move of at most one cell along each axis keeps the player on an open
     *  cell. */
    method ArrowMove(dx: real, dy: real)
      requires Valid() && -1.0 <= dx <= 1.0 && -1.0 <= dy <= 1.0
      modifies player
      ensures Valid()
      ensures var nx, ny := old(player.x) + dx, old(player.y) + dy;
        var ok := Passable(maze[..], nx.Floor, ny.Floor);
        (ok ==> player.x == nx && player.y == ny) &&
        (!ok ==> player.x == old(player.x) && player.y == old(player.y))
      ensures (player.x, player.y) == Move(maze[..], old(player.x), old(player.y), old(player.x) + dx, old(player.y) + dy)
      ensures player.dir == old(player.dir) && player.hasKey == old(player.hasKey) && player.score == old(player.score)
    {
      var nx, ny := player.x + dx, player.y + dy;
      MoveKeepsSafe(maze[..], player.x, player.y, nx, ny);
      if Lookup(maze[..], nx.Floor, ny.Floor) != Some(Wall) {
        player.x := nx;
        player.y := ny;
      }
    }

    /** The arrow-key moves of `update`: forward along the facing direction,
     *  then back from where the forward move left the player. */
    method Walk(keys: Keys, cos: Trig, sin: Trig)
      requires Valid()
      modifies player
      ensures Valid()
      ensures (player.x, player.y) == Walked(maze[..], keys.up, keys.down, old(player.x), old(player.y), cos * Speed, sin * Speed)
      ensures player.dir == old(player.dir) && player.hasKey == old(player.hasKey) && player.score == old(player.score)
    {
      var dx, dy := cos * Speed, sin * Speed;
      ghost var g, x0, y0 := maze[..], player.x, player.y;
      if keys.up {
        ArrowMove(dx, dy);
      }
      ghost var p := (player.x, player.y);
      if keys.down {
        ArrowMove(-dx, -dy);
      }
      WalkedSteps(g, keys.up, keys.down, x0, y0, dx, dy, p, (player.x, player.y));
    }

    /** The turning keys of `update`: left turns by `RotSpeed` one way, right
     *  the other; nothing but the facing direction changes. */
    method Turn(keys: Keys)
      modifies player
      ensures player.dir == old(player.dir) - (if keys.left then RotSpeed else 0.0) + (if keys.right then RotSpeed else 0.0)
      ensures player.x == old(player.x) && player.y == old(player.y)
      ensures player.hasKey == old(player.hasKey) && player.score == old(player.score)
    {
      if keys.left {
        player.dir := player.dir - RotSpeed;
      }
      if keys.right {
        player.dir := player.dir + RotSpeed;
      }
    }

    /** `update`: forward and back along the facing direction (given by its
     *  cosine and sine), turning, then chest pickup in the cell the moves
     *  ended in, then the exit check with the key and score the pickup left.
     *  Short of completing the level, the state afterwards is the sweep of
     *  that cell; completing it starts a fresh level. */
    method Update(keys: Keys, cos: Trig, sin: Trig, rng: Random) returns (signal: Signal)
      requires Valid()
      modifies this, maze, player
      ensures Valid()
      ensures player.dir == old(player.dir) - (if keys.left then RotSpeed else 0.0) + (if keys.right then RotSpeed else 0.0)
      ensures var w := Walked(old(maze[..]), keys.up, keys.down, old(player.x), old(player.y), cos * Speed, sin * Speed);
        var c := CellOf(w.0, w.1);
        var key := old(player.hasKey) || KeyHit(old(chests), c.x, c.y);
        var score := old(player.score) + HitGain(old(chests), c.x, c.y);
        signal == (if c == old(exitPos) then (if key then Complete(score) else Locked) else NoAlert)
      ensures signal.Complete? ==>
        fresh(maze) && player.x == 1.5 && player.y == 1.5 && player.score == 0 && !player.hasKey &&
        forall i :: 0 <= i < |chests| ==> !chests[i].isOpen
      ensures var w := Walked(old(maze[..]), keys.up, keys.down, old(player.x), old(player.y), cos * Speed, sin * Speed);
        var c := CellOf(w.0, w.1);
        !signal.Complete? ==>
          (player.x, player.y) == w && maze == old(maze) && exitPos == old(exitPos) &&
          chests == OpenHits(old(chests), c.x, c.y) &&
          maze[..] == ClearHits(old(maze[..]), old(chests), c.x, c.y) &&
          player.score == old(player.score) + HitGain(old(chests), c.x, c.y) &&
          player.hasKey == (old(player.hasKey) || KeyHit(old(chests), c.x, c.y))
    {
      Walk(keys, cos, sin);
      Turn(keys);
      CheckChestCollision();
      signal := CheckExit(rng);
    }
  }
}
