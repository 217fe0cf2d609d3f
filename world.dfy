/** The shape of a level as the game keeps it between frames: walls round
 *  the border, the exit in the far corner, every lattice cell carved, every
 *  open cell connected to the start, and the chests in their cells. Also what
 *  a single step of the player can reach. Everything here is about values;
 *  the game's objects are in module Game. */
module World {
  import opened Maze
  import opened Generator
  import opened Chests

  // ---------------------------------------------------------------------
  // Invariants of a level

  /** Every lattice cell is open, so the exit and the start lie on passages. */
  ghost predicate LatticeOpen(g: Grid) {
    forall x, y :: OnLattice(x, y) ==> At(g, x, y) != Wall
  }

  /** Every pillar is a wall. */
  ghost predicate PillarWalls(g: Grid) {
    forall x, y :: InGrid(x, y) && Pillar(x, y) ==> At(g, x, y) == Wall
  }

  /** The grid as the walk and the exit placement leave it: the open cells
   *  form the recorded spanning tree. */
  ghost predicate Passages(g: Grid, exit: Pos, parent: map<Pos, Pos>, depth: map<Pos, nat>) {
    BorderWalls(g) && PillarWalls(g) && exit == ExitPos && At(g, ExitPos.x, ExitPos.y) == Exit &&
    LatticeOpen(g) && Tree(g, parent, depth) && NoLoops(g, parent)
  }

  /** Where a chest may sit: inside the border, neither the start nor the exit. */
  predicate ChestSite(x: int, y: int) {
    Interior(x, y) && Pos(x, y) != Start && Pos(x, y) != ExitPos
  }

  /** The four chests: in distinct allowed cells, the first alone holding the
   *  key, each closed one standing on a chest cell and each opened one on a
   *  passage. */
  ghost predicate ChestsPlaced(g: Grid, cs: seq<Chest>) {
    |cs| == ChestCount && DistinctCells(cs) &&
    (forall i :: 0 <= i < |cs| ==> (cs[i].hasKey <==> i == 0)) &&
    (forall i :: 0 <= i < |cs| ==>
       ChestSite(cs[i].x, cs[i].y) && At(g, cs[i].x, cs[i].y) == if cs[i].isOpen then Empty else ChestCell)
  }

  ghost predicate Layout(g: Grid, exit: Pos, cs: seq<Chest>, parent: map<Pos, Pos>, depth: map<Pos, nat>) {
    Passages(g, exit, parent, depth) && ChestsPlaced(g, cs)
  }

  /** A closed chest stands in cell (x, y). */
  ghost predicate ClosedChestAt(cs: seq<Chest>, x: int, y: int) {
    exists i :: 0 <= i < |cs| && cs[i].x == x && cs[i].y == y && !cs[i].isOpen
  }

  /** What cell (x, y) holds: the exit value exactly in the exit cell, a chest
   *  cell exactly where a closed chest stands, and otherwise a wall or a
   *  passage. */
  ghost predicate CellKind(g: Grid, exit: Pos, cs: seq<Chest>, x: int, y: int)
    requires InGrid(x, y)
  {
    (At(g, x, y) == Exit <==> Pos(x, y) == exit) &&
    (At(g, x, y) == ChestCell <==> ClosedChestAt(cs, x, y)) &&
    (At(g, x, y) == Wall || At(g, x, y) == Empty || At(g, x, y) == Exit || At(g, x, y) == ChestCell)
  }

  ghost predicate Kinds(g: Grid, exit: Pos, cs: seq<Chest>) {
    forall x, y {:trigger CellKind(g, exit, cs, x, y)} :: InGrid(x, y) ==> CellKind(g, exit, cs, x, y)
  }

  lemma LayoutInGrid(g: Grid, cs: seq<Chest>)
    requires ChestsPlaced(g, cs)
    ensures InGridAll(cs)
  {
  }

  // ---------------------------------------------------------------------
  // Building a level

  /** The grid before the walk: walls everywhere, and an empty carving record. */
  lemma AllWalls(g: Grid)
    requires forall i :: 0 <= i < Cells ==> g[i] == Wall
    ensures Tree(g, map[], map[]) && BorderWalls(g)
    ensures forall x, y :: InGrid(x, y) ==> At(g, x, y) == Wall
    ensures NoLoops(g, map[]) && Walled(g) && Sealed(g, Start) && Lone(g, Start.x, Start.y, Start)
  {
  }

  /** What the walk from the start leaves in an all-wall grid: the border and
   *  every pillar intact, every cell a wall or a passage, and every lattice
   *  cell a passage. */
  lemma AfterWalk(g0: Grid, g: Grid)
    requires forall i :: 0 <= i < Cells ==> g0[i] == Wall
    requires Carves(g0, g) && ClosedExcept(g0, g, Pos(-1, -1)) && At(g, Start.x, Start.y) != Wall
    ensures BorderWalls(g) && PillarWalls(g) && LatticeOpen(g)
    ensures forall x, y :: InGrid(x, y) ==> At(g, x, y) == Wall || At(g, x, y) == Empty
  {
    forall x, y | InGrid(x, y) && (!Interior(x, y) || Pillar(x, y))
      ensures At(g, x, y) == Wall
    {
      assert At(g0, x, y) == Wall;
    }
    ClosedFromWalls(g0, g);
    AllLatticeCarved(g);
  }

  /** Writing the exit on its carved lattice cell. */
  lemma PlaceExit(g: Grid, parent: map<Pos, Pos>, depth: map<Pos, nat>)
    requires BorderWalls(g) && PillarWalls(g) && LatticeOpen(g) && Tree(g, parent, depth) && NoLoops(g, parent)
    requires forall x, y :: InGrid(x, y) ==> At(g, x, y) == Wall || At(g, x, y) == Empty
    ensures Passages(g[Idx(ExitPos.x, ExitPos.y) := Exit], ExitPos, parent, depth)
    ensures Kinds(g[Idx(ExitPos.x, ExitPos.y) := Exit], ExitPos, [])
    ensures forall x, y :: OnLattice(x, y) && Pos(x, y) != ExitPos ==> At(g[Idx(ExitPos.x, ExitPos.y) := Exit], x, y) == Empty
  {
    TreeKeepsOpen(g, parent, depth, ExitPos.x, ExitPos.y, Exit);
    NoLoopsKeepsOpen(g, parent, ExitPos.x, ExitPos.y, Exit);
    SetAt(g, ExitPos.x, ExitPos.y, Exit);
  }

  /** A scan that finds every candidate finds at least four: the lattice cells
   *  (3, 1), (5, 1), (7, 1) and (9, 1) are passages. */
  lemma EnoughCandidates(g: Grid, candidates: seq<Pos>)
    requires forall p :: p in candidates <==> IsCandidate(g, p)
    requires forall x, y :: OnLattice(x, y) && Pos(x, y) != ExitPos ==> At(g, x, y) == Empty
    ensures |candidates| >= ChestCount
  {
    var four := {Pos(3, 1), Pos(5, 1), Pos(7, 1), Pos(9, 1)};
    assert OnLattice(3, 1) && OnLattice(5, 1) && OnLattice(7, 1) && OnLattice(9, 1);
    assert IsCandidate(g, Pos(3, 1)) && IsCandidate(g, Pos(5, 1)) && IsCandidate(g, Pos(7, 1)) && IsCandidate(g, Pos(9, 1));
    ContainsBound(candidates, four);
    assert |four - {Pos(9, 1)}| == 3;
  }

  /** The row-major scan lists each cell at most once. */
  lemma SortedDistinct(s: seq<Pos>)
    requires forall i, j :: 0 <= i < j < |s| ==> Before(s[i], s[j])
    ensures NoDuplicates(s)
  {
  }

  /** While chests are being placed: the passages so far, the chests placed so
   *  far standing on chest cells, and the cells still to come unchanged
   *  candidates. */
  ghost predicate Placing(g: Grid, exit: Pos, parent: map<Pos, Pos>, depth: map<Pos, nat>, sel: seq<Pos>, n: int) {
    0 <= n <= |sel| && Passages(g, exit, parent, depth) &&
    (forall j :: 0 <= j < |sel| ==> ChestSite(sel[j].x, sel[j].y)) &&
    (forall j :: n <= j < |sel| ==> At(g, sel[j].x, sel[j].y) == Empty) &&
    (forall j :: 0 <= j < n ==> At(g, sel[j].x, sel[j].y) == ChestCell)
  }

  /** Placing chest n on its cell. */
  lemma PlaceOne(g: Grid, exit: Pos, parent: map<Pos, Pos>, depth: map<Pos, nat>, sel: seq<Pos>, n: int)
    requires Placing(g, exit, parent, depth, sel, n) && n < |sel| && NoDuplicates(sel)
    ensures Placing(g[Idx(sel[n].x, sel[n].y) := ChestCell], exit, parent, depth, sel, n + 1)
  {
    var p := sel[n];
    SetAt(g, p.x, p.y, ChestCell);
    TreeKeepsOpen(g, parent, depth, p.x, p.y, ChestCell);
    NoLoopsKeepsOpen(g, parent, p.x, p.y, ChestCell);
    forall j | n < j < |sel|
      ensures p != sel[j]
    {
    }
  }

  /** One more selected cell adds one more chest at the end. */
  lemma ChestsAtSnoc(sel: seq<Pos>, n: int)
    requires 0 <= n < |sel|
    ensures ChestsAt(sel[..n + 1]) == ChestsAt(sel[..n]) + [Chest(sel[n].x, sel[n].y, n == 0, false)]
  {
    var a, b := ChestsAt(sel[..n + 1]), ChestsAt(sel[..n]) + [Chest(sel[n].x, sel[n].y, n == 0, false)];
    assert |a| == |b|;
    forall i | 0 <= i < |a|
      ensures a[i] == b[i]
    {
      if i < n {
        assert sel[..n + 1][i] == sel[..n][i];
      }
    }
  }

  /** Every cell outside the first n selected ones still holds what it held
   *  in g0. */
  ghost predicate KeepsOthers(g0: Grid, g: Grid, sel: seq<Pos>, n: int)
    requires 0 <= n <= |sel|
  {
    forall x, y :: InGrid(x, y) && Pos(x, y) !in sel[..n] ==> At(g, x, y) == At(g0, x, y)
  }

  /** Writing chest n touches only its own cell. */
  lemma KeepsOthersStep(g0: Grid, g: Grid, sel: seq<Pos>, n: int)
    requires |g| == Cells && 0 <= n < |sel| && InGrid(sel[n].x, sel[n].y) && KeepsOthers(g0, g, sel, n)
    ensures KeepsOthers(g0, g[Idx(sel[n].x, sel[n].y) := ChestCell], sel, n + 1)
  {
    SetAt(g, sel[n].x, sel[n].y, ChestCell);
    assert sel[..n + 1] == sel[..n] + [sel[n]];
  }

  /** The chest list the placement loop builds from the selected cells: one
   *  chest per cell, in order, with the key only in the first and all closed,
   *  so they account for no score; distinct cells give distinct chests. */
  function ChestsAt(sel: seq<Pos>): (r: seq<Chest>)
    ensures |r| == |sel|
    ensures forall i :: 0 <= i < |r| ==> Pos(r[i].x, r[i].y) == sel[i] && !r[i].isOpen
    ensures forall i :: 0 <= i < |r| ==> (r[i].hasKey <==> i == 0)
    ensures NoDuplicates(sel) ==> DistinctCells(r)
    ensures Score(r) == 0
  {
    var r := seq(|sel|, i requires 0 <= i < |sel| => Chest(sel[i].x, sel[i].y, i == 0, false));
    ClosedScore(r);
    assert NoDuplicates(sel) ==> forall i, j :: 0 <= i < j < |r| ==> sel[i] != sel[j];
    r
  }

  /** Writing chest cells into the selected cells of a grid that held no chest
   *  cell, and nowhere else, puts a chest cell exactly under each new chest. */
  lemma PlacedKinds(g0: Grid, g: Grid, exit: Pos, sel: seq<Pos>)
    requires Kinds(g0, exit, [])
    requires forall j :: 0 <= j < |sel| ==> InGrid(sel[j].x, sel[j].y) && sel[j] != exit && At(g, sel[j].x, sel[j].y) == ChestCell
    requires forall x, y :: InGrid(x, y) && Pos(x, y) !in sel ==> At(g, x, y) == At(g0, x, y)
    ensures Kinds(g, exit, ChestsAt(sel))
  {
    var cs := ChestsAt(sel);
    forall x, y | InGrid(x, y)
      ensures CellKind(g, exit, cs, x, y)
    {
      assert CellKind(g0, exit, [], x, y);
      if Pos(x, y) in sel {
        var j :| 0 <= j < |sel| && sel[j] == Pos(x, y);
        assert cs[j].x == x && cs[j].y == y && !cs[j].isOpen;
      }
    }
  }

  /** What the placement loop leaves once every selected cell holds a chest
   *  cell and nothing else moved: the passages intact, a chest cell in every
   *  selected cell and every other cell as it was. */
  lemma PlacementDone(g0: Grid, g: Grid, exit: Pos, parent: map<Pos, Pos>, depth: map<Pos, nat>, sel: seq<Pos>)
    requires Placing(g, exit, parent, depth, sel, |sel|) && KeepsOthers(g0, g, sel, |sel|)
    ensures Passages(g, exit, parent, depth)
    ensures forall j :: 0 <= j < |sel| ==> Interior(sel[j].x, sel[j].y) && At(g, sel[j].x, sel[j].y) == ChestCell
    ensures forall x, y :: InGrid(x, y) && Pos(x, y) !in sel ==> At(g, x, y) == At(g0, x, y)
  {
    assert sel[..|sel|] == sel;
  }

  /** Four chests placed on distinct empty cells other than the start, in a
   *  level that held no chest cell, make a complete level: every chest on the
   *  chest cell of an allowed cell, every cell holding what the chests say,
   *  the start as it was and no open cell walled up. */
  lemma LevelPlaced(g0: Grid, g: Grid, exit: Pos, parent: map<Pos, Pos>, depth: map<Pos, nat>, sel: seq<Pos>)
    requires Passages(g, exit, parent, depth) && Kinds(g0, exit, []) && NoDuplicates(sel) && |sel| == ChestCount
    requires forall j :: 0 <= j < |sel| ==> Interior(sel[j].x, sel[j].y) && At(g0, sel[j].x, sel[j].y) == Empty && sel[j] != Start
    requires forall j :: 0 <= j < |sel| ==> Interior(sel[j].x, sel[j].y) && At(g, sel[j].x, sel[j].y) == ChestCell
    requires forall x, y :: InGrid(x, y) && Pos(x, y) !in sel ==> At(g, x, y) == At(g0, x, y)
    ensures Layout(g, exit, ChestsAt(sel), parent, depth) && Kinds(g, exit, ChestsAt(sel))
    ensures At(g, Start.x, Start.y) == At(g0, Start.x, Start.y)
    ensures forall x, y :: InGrid(x, y) && At(g0, x, y) != Wall ==> At(g, x, y) != Wall
  {
    forall j | 0 <= j < |sel|
      ensures sel[j] != exit
    {
      assert CellKind(g0, exit, [], sel[j].x, sel[j].y);
    }
    forall x, y | InGrid(x, y) && Pos(x, y) in sel
      ensures At(g, x, y) == ChestCell
    {
      var j :| 0 <= j < |sel| && sel[j] == Pos(x, y);
    }
    PlacedKinds(g0, g, exit, sel);
  }

  lemma {:induction false} ClosedScore(cs: seq<Chest>)
    requires forall i :: 0 <= i < |cs| ==> !cs[i].isOpen
    ensures Score(cs) == 0
    decreases |cs|
  {
    if cs != [] {
      ClosedScore(Front(cs));
    }
  }

  // ---------------------------------------------------------------------
  // Picking up chests

  /** A sweep keeps the layout: it opens at most one chest, and clears that
   *  chest's cell into a passage. */
  lemma SweepKeepsLayout(g: Grid, exit: Pos, cs: seq<Chest>, parent: map<Pos, Pos>, depth: map<Pos, nat>, px: int, py: int)
    requires Layout(g, exit, cs, parent, depth) && Kinds(g, exit, cs)
    ensures InGridAll(cs)
    ensures Layout(ClearHits(g, cs, px, py), exit, OpenHits(cs, px, py), parent, depth)
    ensures Kinds(ClearHits(g, cs, px, py), exit, OpenHits(cs, px, py))
  {
    LayoutInGrid(g, cs);
    if HitGain(cs, px, py) == 0 {
      NoHitNoChange(cs, g, px, py);
    } else {
      var i :| 0 <= i < |cs| && Hit(cs[i], px, py);
      SingleHit(cs, g, px, py, i);
      OpenOne(g, exit, cs, parent, depth, i);
      OpenKinds(g, exit, cs, parent, depth, i);
    }
  }

  /** Opening chest i and clearing its cell. */
  lemma OpenOne(g: Grid, exit: Pos, cs: seq<Chest>, parent: map<Pos, Pos>, depth: map<Pos, nat>, i: int)
    requires Layout(g, exit, cs, parent, depth) && 0 <= i < |cs| && !cs[i].isOpen
    ensures Layout(g[Idx(cs[i].x, cs[i].y) := Empty], exit, cs[i := cs[i].(isOpen := true)], parent, depth)
  {
    var c := cs[i];
    SetAt(g, c.x, c.y, Empty);
    TreeKeepsOpen(g, parent, depth, c.x, c.y, Empty);
    NoLoopsKeepsOpen(g, parent, c.x, c.y, Empty);
    var g', cs' := g[Idx(c.x, c.y) := Empty], cs[i := c.(isOpen := true)];
    forall j | 0 <= j < |cs'|
      ensures ChestSite(cs'[j].x, cs'[j].y) && At(g', cs'[j].x, cs'[j].y) == if cs'[j].isOpen then Empty else ChestCell
    {
      if j != i {
        assert cs[j].x != c.x || cs[j].y != c.y;
      }
    }
    assert DistinctCells(cs');
  }

  /** Opening one closed chest and clearing its cell keeps every cell's kind:
   *  the cell becomes a passage as its chest stops being a closed one. */
  lemma OpenKinds(g: Grid, exit: Pos, cs: seq<Chest>, parent: map<Pos, Pos>, depth: map<Pos, nat>, i: int)
    requires Layout(g, exit, cs, parent, depth) && Kinds(g, exit, cs) && 0 <= i < |cs| && !cs[i].isOpen
    ensures Kinds(g[Idx(cs[i].x, cs[i].y) := Empty], exit, cs[i := cs[i].(isOpen := true)])
  {
    var c := cs[i];
    var g', cs' := g[Idx(c.x, c.y) := Empty], cs[i := c.(isOpen := true)];
    SetAt(g, c.x, c.y, Empty);
    forall x, y | InGrid(x, y)
      ensures CellKind(g', exit, cs', x, y)
    {
      assert CellKind(g, exit, cs, x, y);
      if ClosedChestAt(cs', x, y) {
        var j :| 0 <= j < |cs'| && cs'[j].x == x && cs'[j].y == y && !cs'[j].isOpen;
        assert j != i && cs[j] == cs'[j];
      }
      if x != c.x || y != c.y {
        if ClosedChestAt(cs, x, y) {
          var j :| 0 <= j < |cs| && cs[j].x == x && cs[j].y == y && !cs[j].isOpen;
          assert j != i && cs'[j] == cs[j];
        }
      }
    }
  }

  // ---------------------------------------------------------------------
  // Moving

  /** The grid cell a game coordinate lies in. */
  function CellOf(x: real, y: real): Pos {
    Pos(x.Floor, y.Floor)
  }

  /** The player stands on an open cell of the grid. */
  ghost predicate Safe(g: Grid, x: real, y: real) {
    Open(g, CellOf(x, y))
  }

  /** `maze[y]?.[x]`: the cell's kind, or nothing outside the grid. */
  function Lookup(g: Grid, x: int, y: int): (r: Option<int>)
    ensures r.None? <==> !InGrid(x, y)
  {
    if InGrid(x, y) then Some(At(g, x, y)) else None
  }

  /** The move test `maze[y]?.[x] !== 1`: it lets the player through
   *  anywhere but a wall, the outside of the grid included. */
  predicate Passable(g: Grid, x: int, y: int) {
    Lookup(g, x, y) != Some(Wall)
  }

  lemma PassableIff(g: Grid, x: int, y: int)
    ensures Passable(g, x, y) <==> !InGrid(x, y) || At(g, x, y) != Wall
  {
  }

  /** From an open cell, a move by at most one cell along each axis is let
   *  through exactly when it lands on an open cell: the border walls stop it
   *  before it can leave the grid. */
  lemma StepStaysOnGrid(g: Grid, x: real, y: real, nx: real, ny: real)
    requires BorderWalls(g) && Safe(g, x, y)
    requires -1.0 <= nx - x <= 1.0 && -1.0 <= ny - y <= 1.0
    ensures Passable(g, nx.Floor, ny.Floor) <==> Safe(g, nx, ny)
  {
    FloorStep(x, nx);
    FloorStep(y, ny);
  }

  /** Where one arrow-key move from (x, y) towards (nx, ny) leaves the player. */
  function Move(g: Grid, x: real, y: real, nx: real, ny: real): (r: (real, real))
    ensures r == (nx, ny) || r == (x, y)
  {
    if Passable(g, nx.Floor, ny.Floor) then (nx, ny) else (x, y)
  }

  /** From an open cell, a move of at most one cell along each axis ends on an
   *  open cell, and it goes through exactly when its destination is open. */
  lemma MoveKeepsSafe(g: Grid, x: real, y: real, nx: real, ny: real)
    requires BorderWalls(g) && Safe(g, x, y)
    requires -1.0 <= nx - x <= 1.0 && -1.0 <= ny - y <= 1.0
    ensures var r := Move(g, x, y, nx, ny); Safe(g, r.0, r.1)
    ensures Move(g, x, y, nx, ny) == (nx, ny) <==> Safe(g, nx, ny)
  {
    StepStaysOnGrid(g, x, y, nx, ny);
  }

  /** Where the arrow keys of one frame leave the player: a move by (dx, dy)
   *  if `up` is held, then a move back by (dx, dy) from there if `down` is. */
  function Walked(g: Grid, up: bool, down: bool, x: real, y: real, dx: real, dy: real): (real, real) {
    var p := if up then Move(g, x, y, x + dx, y + dy) else (x, y);
    if down then Move(g, p.0, p.1, p.0 - dx, p.1 - dy) else p
  }

  /** A move forward to p, then a move back by the same step to q, is `Walked`. */
  lemma WalkedSteps(g: Grid, up: bool, down: bool, x: real, y: real, dx: real, dy: real, p: (real, real), q: (real, real))
    requires p == if up then Move(g, x, y, x + dx, y + dy) else (x, y)
    requires q == if down then Move(g, p.0, p.1, p.0 + -dx, p.1 + -dy) else p
    ensures q == Walked(g, up, down, x, y, dx, dy)
  {
    assert p.0 + -dx == p.0 - dx && p.1 + -dy == p.1 - dy;
  }

  /** From an open cell, the arrow keys of one frame leave the player on an
   *  open cell; with neither key held the player stays put. */
  lemma WalkedSafe(g: Grid, up: bool, down: bool, x: real, y: real, dx: real, dy: real)
    requires BorderWalls(g) && Safe(g, x, y) && -1.0 <= dx <= 1.0 && -1.0 <= dy <= 1.0
    ensures var w := Walked(g, up, down, x, y, dx, dy); Safe(g, w.0, w.1)
    ensures !up && !down ==> Walked(g, up, down, x, y, dx, dy) == (x, y)
  {
    MoveKeepsSafe(g, x, y, x + dx, y + dy);
    var p := if up then Move(g, x, y, x + dx, y + dy) else (x, y);
    MoveKeepsSafe(g, p.0, p.1, p.0 - dx, p.1 - dy);
  }

  /** Moving by at most 1 moves the floor by at most 1. */
  lemma FloorStep(a: real, b: real)
    requires -1.0 <= b - a <= 1.0
    ensures a.Floor - 1 <= b.Floor <= a.Floor + 1
  {
  }
}
