/** The maze grid shared by the generator and the game: its size, the kinds of
 *  cell, positions, and what it means for a cell to be reachable from the start
 *  cell. The game keeps the grid as 15 rows of 15 cells, `maze[y][x]`; the
 *  model keeps the same cells in one array of 225 in row-major order, so cell
 *  (x, y) is `maze[Idx(x, y)]`, and reasons about its contents `maze[..]`, a
 *  `Grid`. */
module Maze {

  const MapSize: int := 15
  /** MapSize * MapSize, written out so that no product of constants reaches the solver. */
  const Cells: int := 225
  const ChestCount: nat := 4

  // Cell kinds, with the numbers the game stores in the grid.
  const Empty: int := 0
  const Wall: int := 1
  const Exit: int := 2
  const ChestCell: int := 3

  type Grid = g: seq<int> | |g| == Cells witness seq(Cells, _ => Wall)

  datatype Pos = Pos(x: int, y: int)

  datatype Option<T> = None | Some(value: T)

  /** The walk starts here and the player starts in this cell. */
  const Start: Pos := Pos(1, 1)
  /** The fixed exit: the far interior corner. */
  const ExitPos: Pos := Pos(MapSize - 2, MapSize - 2)

  function Min(a: int, b: int): (m: int)
    ensures m <= a && m <= b && (m == a || m == b)
  {
    if a <= b then a else b
  }

  predicate InGrid(x: int, y: int) { 0 <= x < MapSize && 0 <= y < MapSize }

  predicate Interior(x: int, y: int) { 0 < x < MapSize - 1 && 0 < y < MapSize - 1 }

  /** A cell with both coordinates even: the walk never carves one, so it
   *  stays a wall between the passages. */
  predicate Pillar(x: int, y: int) { x % 2 == 0 && y % 2 == 0 }

  /** The odd-coordinate sublattice on which the walk moves two cells at a time. */
  predicate OnLattice(x: int, y: int) { Interior(x, y) && x % 2 == 1 && y % 2 == 1 }

  /** Where cell (x, y) sits in the row-major array. The row length is the
   *  literal 15 (MapSize) so that the index stays linear arithmetic. */
  function Idx(x: int, y: int): (i: int)
    requires InGrid(x, y)
    ensures 0 <= i < Cells
  {
    y * 15 + x
  }

  /** What cell (x, y) holds. */
  function At(g: Grid, x: int, y: int): (v: int)
    requires InGrid(x, y)
  {
    g[Idx(x, y)]
  }

  /** Writing one cell changes that cell and no other. */
  lemma SetAt(g: Grid, a: int, b: int, v: int)
    requires InGrid(a, b)
    ensures forall x, y :: InGrid(x, y) ==>
              At(g[Idx(a, b) := v], x, y) == if x == a && y == b then v else At(g, x, y)
  {
  }

  ghost predicate BorderWalls(g: Grid) {
    forall x, y :: InGrid(x, y) && !Interior(x, y) ==> At(g, x, y) == Wall
  }

  predicate Adjacent(a: Pos, b: Pos) {
    (a.x == b.x && (a.y == b.y + 1 || b.y == a.y + 1)) ||
    (a.y == b.y && (a.x == b.x + 1 || b.x == a.x + 1))
  }

  /** A cell the player can stand on: inside the grid and not a wall. */
  ghost predicate Open(g: Grid, p: Pos) {
    InGrid(p.x, p.y) && At(g, p.x, p.y) != Wall
  }

  /** `p` walks from the start cell to `c` through open cells, one side-step at a time. */
  ghost predicate IsPathTo(g: Grid, p: seq<Pos>, c: Pos) {
    |p| > 0 && p[0] == Start && p[|p| - 1] == c &&
    (forall i :: 0 <= i < |p| ==> Open(g, p[i])) &&
    (forall i :: 0 < i < |p| ==> Adjacent(p[i - 1], p[i]))
  }

  ghost predicate Reachable(g: Grid, c: Pos) {
    exists p :: IsPathTo(g, p, c)
  }

  /** A carving record: the open cells are exactly the cells with a depth, and
   *  every one of them other than the start has an adjacent parent of smaller
   *  depth. The walk builds one as it carves; it is the spanning tree the walk
   *  leaves behind. */
  ghost predicate Tree(g: Grid, parent: map<Pos, Pos>, depth: map<Pos, nat>) {
    Recorded(g, depth) && RecordedOpen(g, depth) && Rooted(parent, depth)
  }

  /** Every open cell has a depth. */
  ghost predicate Recorded(g: Grid, depth: map<Pos, nat>) {
    forall x, y {:trigger Pos(x, y) in depth} :: InGrid(x, y) && At(g, x, y) != Wall ==> Pos(x, y) in depth
  }

  /** Every cell with a depth is open. */
  ghost predicate RecordedOpen(g: Grid, depth: map<Pos, nat>) {
    forall c :: c in depth ==> Open(g, c)
  }

  /** Every recorded cell but the start has a recorded, adjacent parent of smaller depth. */
  ghost predicate Rooted(parent: map<Pos, Pos>, depth: map<Pos, nat>) {
    (forall c :: c in depth && c != Start ==> c in parent) &&
    (forall c {:trigger parent[c]} :: c in parent ==>
       c != Start && c in depth && parent[c] in depth && Adjacent(parent[c], c) && depth[parent[c]] < depth[c])
  }

  /** Cells a and b are a parent and its child in the carving record. */
  ghost predicate Linked(parent: map<Pos, Pos>, a: Pos, b: Pos) {
    (a in parent && parent[a] == b) || (b in parent && parent[b] == a)
  }

  /** Every two open cells side by side are a parent and its child. With
   *  `Tree`, the side-steps between open cells are then exactly the links of
   *  the record, so the passages form a tree: no loop. */
  ghost predicate NoLoops(g: Grid, parent: map<Pos, Pos>) {
    forall a, b {:trigger Linked(parent, a, b)} :: Open(g, a) && Open(g, b) && Adjacent(a, b) ==> Linked(parent, a, b)
  }

  /** Following parents from an open cell leads back to the start through open cells. */
  lemma {:induction false} PathTo(g: Grid, parent: map<Pos, Pos>, depth: map<Pos, nat>, c: Pos)
    returns (p: seq<Pos>)
    requires Tree(g, parent, depth) && c in depth
    ensures IsPathTo(g, p, c)
    decreases depth[c]
  {
    if c == Start {
      p := [Start];
    } else {
      var q := PathTo(g, parent, depth, parent[c]);
      PathExtend(g, q, parent[c], c);
      p := q + [c];
    }
  }

  /** A path to a extends by one side-step to an open cell next to a. */
  lemma PathExtend(g: Grid, q: seq<Pos>, a: Pos, c: Pos)
    requires IsPathTo(g, q, a) && Open(g, c) && Adjacent(a, c)
    ensures IsPathTo(g, q + [c], c)
  {
    var p := q + [c];
    forall i | 0 < i < |p| ensures Adjacent(p[i - 1], p[i]) {
      if i < |q| {
        assert p[i - 1] == q[i - 1] && p[i] == q[i];
      }
    }
  }

  /** With a carving record, every open cell of the grid can be reached from the start. */
  lemma TreeConnects(g: Grid, parent: map<Pos, Pos>, depth: map<Pos, nat>)
    requires Tree(g, parent, depth)
    ensures forall x, y :: InGrid(x, y) && At(g, x, y) != Wall ==> Reachable(g, Pos(x, y))
  {
    forall x, y | InGrid(x, y) && At(g, x, y) != Wall
      ensures Reachable(g, Pos(x, y))
    {
      var p := PathTo(g, parent, depth, Pos(x, y));
    }
  }

  /** Rewriting an open cell as another open kind keeps the carving record. */
  lemma TreeKeepsOpen(g: Grid, parent: map<Pos, Pos>, depth: map<Pos, nat>, x: int, y: int, v: int)
    requires Tree(g, parent, depth) && InGrid(x, y) && At(g, x, y) != Wall && v != Wall
    ensures Tree(g[Idx(x, y) := v], parent, depth)
  {
    SetAt(g, x, y, v);
    assert Recorded(g[Idx(x, y) := v], depth);
  }

  /** Rewriting an open cell as another open kind keeps the passages loop-free. */
  lemma NoLoopsKeepsOpen(g: Grid, parent: map<Pos, Pos>, x: int, y: int, v: int)
    requires NoLoops(g, parent) && InGrid(x, y) && At(g, x, y) != Wall && v != Wall
    ensures NoLoops(g[Idx(x, y) := v], parent)
  {
    var g' := g[Idx(x, y) := v];
    SetAt(g, x, y, v);
    forall a, b | Open(g', a) && Open(g', b) && Adjacent(a, b)
      ensures Linked(parent, a, b)
    {
      assert Open(g, a) && Open(g, b) && Linked(parent, a, b);
    }
  }
}
