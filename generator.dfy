/** Maze generation: the recursive depth-first walk that carves passages on
 *  the odd sublattice, the scan for chest candidates, and the random draw
 *  of chest cells. `Math.random` is an oracle: `Random.shuffle(k)` is the
 *  order the k-th walk step tries the four directions in, and `Random.draw(j)`
 *  is the random number behind the j-th chest draw. Every property below
 *  holds for every oracle. */
module Generator {
  import opened Maze

  datatype Dir = Dir(dx: int, dy: int)

  /** The four directions, in the order the game lists them before shuffling. */
  const Directions: seq<Dir> := [Dir(1, 0), Dir(-1, 0), Dir(0, 1), Dir(0, -1)]

  /** Some permutation of the four directions. */
  type Shuffle = s: seq<Dir> | multiset(s) == multiset(Directions)
    witness [Dir(1, 0), Dir(-1, 0), Dir(0, 1), Dir(0, -1)]

  /** A value of `Math.random()`. */
  type Unit = r: real | 0.0 <= r < 1.0

  datatype Random = Random(shuffle: nat -> Shuffle, draw: nat -> Unit)

  // ---------------------------------------------------------------------
  // What the walk does to the grid

  /** From `g0` to `g1` every changed cell became a passage, and neither the
   *  border nor any pillar changed at all: only lattice cells and the cells
   *  between two of them are carved. */
  ghost predicate Carves(g0: Grid, g1: Grid) {
    (forall i :: 0 <= i < Cells ==> g1[i] == g0[i] || g1[i] == Empty) &&
    (forall x, y {:trigger At(g0, x, y)} ::
       InGrid(x, y) && (!Interior(x, y) || Pillar(x, y)) ==> At(g1, x, y) == At(g0, x, y))
  }

  lemma CarvesTrans(g0: Grid, g1: Grid, g2: Grid)
    requires Carves(g0, g1) && Carves(g1, g2)
    ensures Carves(g0, g2)
  {
  }

  /** Carving one interior cell that is not a pillar. */
  lemma CarveOne(g: Grid, x: int, y: int)
    requires Interior(x, y) && !Pillar(x, y)
    ensures Carves(g, g[Idx(x, y) := Empty])
  {
    SetAt(g, x, y, Empty);
  }

  /** The walk need not enter (x, y): outside the interior, or carved already. */
  ghost predicate Settled(g: Grid, x: int, y: int) {
    !Interior(x, y) || At(g, x, y) != Wall
  }

  /** All four lattice neighbours of (x, y) inside the bounds are carved. */
  ghost predicate Done(g: Grid, x: int, y: int) {
    Settled(g, x + 2, y) && Settled(g, x - 2, y) && Settled(g, x, y + 2) && Settled(g, x, y - 2)
  }

  lemma SettledStays(g0: Grid, g1: Grid)
    requires Carves(g0, g1)
    ensures forall x, y :: Settled(g0, x, y) ==> Settled(g1, x, y)
  {
  }

  /** Every lattice cell other than `e` that was a wall in `g0` and is carved
   *  in `g1` has all its lattice neighbours carved in `g1`. */
  ghost predicate ClosedExcept(g0: Grid, g1: Grid, e: Pos) {
    forall x, y {:trigger At(g0, x, y)} ::
      OnLattice(x, y) && At(g0, x, y) == Wall && At(g1, x, y) != Wall && Pos(x, y) != e ==> Done(g1, x, y)
  }

  /** Closing is kept by a further carving step that closes what it carves. */
  lemma ClosedCompose(g0: Grid, ga: Grid, gb: Grid, e: Pos)
    requires ClosedExcept(g0, ga, e) && Carves(ga, gb) && ClosedExcept(ga, gb, e)
    ensures ClosedExcept(g0, gb, e)
  {
    SettledStays(ga, gb);
  }

  /** Carving a cell off the lattice closes nothing new. */
  lemma CarveOffLattice(g: Grid, x: int, y: int, e: Pos)
    requires Interior(x, y) && !OnLattice(x, y)
    ensures ClosedExcept(g, g[Idx(x, y) := Empty], e)
  {
    SetAt(g, x, y, Empty);
  }

  /** Row-major indices of the wall cells; the walk's termination measure. */
  ghost function WallSet(g: Grid): set<int> {
    set i | 0 <= i < Cells && g[i] == Wall
  }

  lemma CarvesShrinks(g0: Grid, g1: Grid, x: int, y: int)
    requires Carves(g0, g1) && InGrid(x, y)
    ensures WallSet(g1) <= WallSet(g0)
    ensures At(g0, x, y) == Wall && At(g1, x, y) != Wall ==> WallSet(g1) < WallSet(g0)
  {
    if At(g0, x, y) == Wall && At(g1, x, y) != Wall {
      assert Idx(x, y) in WallSet(g0) - WallSet(g1);
    }
  }

  /** Records cell `c`, carved from the adjacent cell `p`, unless it is recorded already. */
  ghost function Attach(parent: map<Pos, Pos>, depth: map<Pos, nat>, c: Pos, p: Pos): (map<Pos, Pos>, map<Pos, nat>)
    requires p in depth
  {
    if c in depth then (parent, depth) else (parent[c := p], depth[c := depth[p] + 1])
  }

  /** Carving an interior cell next to a recorded cell, and recording it, keeps a carving record. */
  lemma TreeCarve(g: Grid, parent: map<Pos, Pos>, depth: map<Pos, nat>, c: Pos, p: Pos)
    requires Tree(g, parent, depth) && InGrid(c.x, c.y) && p in depth && Adjacent(p, c) && c != Start
    ensures c in Attach(parent, depth, c, p).1
    ensures Tree(g[Idx(c.x, c.y) := Empty], Attach(parent, depth, c, p).0, Attach(parent, depth, c, p).1)
  {
    if c in depth {
      TreeKeepsOpen(g, parent, depth, c.x, c.y, Empty);
    } else {
      assert Attach(parent, depth, c, p) == (parent[c := p], depth[c := depth[p] + 1]);
      TreeExtend(g, parent, depth, c, p);
    }
  }

  /** Carving a fresh cell next to a recorded cell, as its child, keeps a carving record. */
  lemma TreeExtend(g: Grid, parent: map<Pos, Pos>, depth: map<Pos, nat>, c: Pos, p: Pos)
    requires Tree(g, parent, depth) && InGrid(c.x, c.y) && p in depth && c !in depth && Adjacent(p, c) && c != Start
    ensures Tree(g[Idx(c.x, c.y) := Empty], parent[c := p], depth[c := depth[p] + 1])
  {
    RecordedCarve(g, depth, c, depth[p] + 1);
    RecordedOpenCarve(g, depth, c, depth[p] + 1);
    RootedExtend(parent, depth, c, p);
  }

  lemma RecordedCarve(g: Grid, depth: map<Pos, nat>, c: Pos, n: nat)
    requires Recorded(g, depth) && InGrid(c.x, c.y)
    ensures Recorded(g[Idx(c.x, c.y) := Empty], depth[c := n])
  {
    SetAt(g, c.x, c.y, Empty);
  }

  lemma RecordedOpenCarve(g: Grid, depth: map<Pos, nat>, c: Pos, n: nat)
    requires RecordedOpen(g, depth) && InGrid(c.x, c.y)
    ensures RecordedOpen(g[Idx(c.x, c.y) := Empty], depth[c := n])
  {
    SetAt(g, c.x, c.y, Empty);
  }

  lemma RootedExtend(parent: map<Pos, Pos>, depth: map<Pos, nat>, c: Pos, p: Pos)
    requires Rooted(parent, depth) && c !in depth && p in depth && Adjacent(p, c) && c != Start
    ensures Rooted(parent[c := p], depth[c := depth[p] + 1])
  {
    var parent', depth' := parent[c := p], depth[c := depth[p] + 1];
    forall q | q in parent'
      ensures q != Start && q in depth' && parent'[q] in depth' && Adjacent(parent'[q], q) && depth'[parent'[q]] < depth'[q]
    {
      if q != c {
        assert parent'[q] == parent[q];
      }
    }
  }

  /** Carving the start cell and recording it at depth 0 starts a carving record. */
  lemma TreeRoot(g: Grid, parent: map<Pos, Pos>, depth: map<Pos, nat>)
    requires Tree(g, parent, depth)
    ensures Tree(g[Idx(Start.x, Start.y) := Empty], parent, depth[Start := 0])
  {
    RecordedCarve(g, depth, Start, 0);
    RecordedOpenCarve(g, depth, Start, 0);
    RootedRoot(parent, depth);
  }

  lemma RootedRoot(parent: map<Pos, Pos>, depth: map<Pos, nat>)
    requires Rooted(parent, depth)
    ensures Rooted(parent, depth[Start := 0])
  {
    var depth' := depth[Start := 0];
    forall q | q in parent
      ensures q != Start && q in depth' && parent[q] in depth' && Adjacent(parent[q], q) && depth'[parent[q]] < depth'[q]
    {
      assert depth'[q] == depth[q];
    }
  }

  // ---------------------------------------------------------------------
  // The walk

  /** A shuffled direction is one of the four. */
  lemma ShuffledDirection(dirs: Shuffle, t: int)
    requires 0 <= t < |dirs|
    ensures dirs[t] in Directions
  {
    assert dirs[t] in multiset(dirs);
  }

  /** Two cells along a direction from a lattice cell, if interior, is a lattice
   *  cell; the cell in between is interior and off the lattice. */
  lemma LatticeStep(x: int, y: int, d: Dir)
    requires OnLattice(x, y) && d in Directions && Interior(x + d.dx * 2, y + d.dy * 2)
    ensures OnLattice(x + d.dx * 2, y + d.dy * 2)
    ensures Interior(x + d.dx, y + d.dy) && !OnLattice(x + d.dx, y + d.dy) && !Pillar(x + d.dx, y + d.dy)
    ensures Adjacent(Pos(x, y), Pos(x + d.dx, y + d.dy)) && Adjacent(Pos(x + d.dx, y + d.dy), Pos(x + d.dx * 2, y + d.dy * 2))
    ensures Idx(x + d.dx, y + d.dy) != Idx(x + d.dx * 2, y + d.dy * 2) && Idx(x + d.dx, y + d.dy) != Idx(x, y)
  {
  }

  // ---------------------------------------------------------------------
  // The passages stay a tree

  /** The border and every pillar are walls. */
  ghost predicate Walled(g: Grid) {
    forall x, y {:trigger At(g, x, y)} :: InGrid(x, y) && (!Interior(x, y) || Pillar(x, y)) ==> At(g, x, y) == Wall
  }

  lemma WalledStays(g0: Grid, g1: Grid)
    requires Walled(g0) && Carves(g0, g1)
    ensures Walled(g1)
  {
    forall x, y | InGrid(x, y) && (!Interior(x, y) || Pillar(x, y))
      ensures At(g1, x, y) == Wall
    {
      assert At(g0, x, y) == Wall;
    }
  }

  /** No open cell touches a lattice cell other than e that is still a wall:
   *  the walk opens the cell next to a lattice cell only on its way into it. */
  ghost predicate Sealed(g: Grid, e: Pos) {
    forall c: Pos, n: Pos {:trigger Adjacent(c, n), Open(g, n)} :: OnLattice(c.x, c.y) && c != e && At(g, c.x, c.y) == Wall && Adjacent(c, n) ==> !Open(g, n)
  }

  /** The only open cell next to (x, y) is `from`, and at the start there is none. */
  ghost predicate Lone(g: Grid, x: int, y: int, from: Pos) {
    forall n {:trigger Adjacent(Pos(x, y), n), Open(g, n)} :: Adjacent(Pos(x, y), n) && Open(g, n) ==> Pos(x, y) != Start && n == from
  }

  /** The cells next to the one between (x, y) and its lattice neighbour along
   *  d: those two lattice cells, and otherwise border cells or pillars. */
  lemma MidNeighbours(x: int, y: int, d: Dir, n: Pos)
    requires OnLattice(x, y) && d in Directions && Interior(x + d.dx * 2, y + d.dy * 2)
    requires Adjacent(Pos(x + d.dx, y + d.dy), n)
    ensures InGrid(n.x, n.y)
    ensures n == Pos(x, y) || n == Pos(x + d.dx * 2, y + d.dy * 2) || !Interior(n.x, n.y) || Pillar(n.x, n.y)
  {
  }

  /** The cell between an open lattice cell and a walled one is a wall. */
  lemma MidWall(g: Grid, x: int, y: int, d: Dir)
    requires OnLattice(x, y) && d in Directions && Interior(x + d.dx * 2, y + d.dy * 2)
    requires At(g, x + d.dx * 2, y + d.dy * 2) == Wall && Sealed(g, Pos(-1, -1))
    ensures InGrid(x + d.dx, y + d.dy) && At(g, x + d.dx, y + d.dy) == Wall
  {
    LatticeStep(x, y, d);
    var c, n := Pos(x + d.dx * 2, y + d.dy * 2), Pos(x + d.dx, y + d.dy);
    assert Adjacent(c, n) && !Open(g, n);
  }

  /** Carving the lattice cell (x, y) that the walk enters through `from`,
   *  with `from` as its parent, keeps the passages loop-free and leaves no
   *  walled lattice cell with an open neighbour. */
  lemma EnterSealed(g: Grid, parent: map<Pos, Pos>, parent': map<Pos, Pos>, x: int, y: int, from: Pos)
    requires OnLattice(x, y) && At(g, x, y) == Wall
    requires NoLoops(g, parent) && Sealed(g, Pos(x, y)) && Lone(g, x, y, from)
    requires forall a :: a in parent && a != Pos(x, y) ==> a in parent' && parent'[a] == parent[a]
    requires Pos(x, y) != Start ==> Pos(x, y) in parent' && parent'[Pos(x, y)] == from
    ensures NoLoops(g[Idx(x, y) := Empty], parent') && Sealed(g[Idx(x, y) := Empty], Pos(-1, -1))
  {
    EnterNoLoops(g, parent, parent', x, y, from);
    EnterKeepsSealed(g, x, y);
  }

  lemma EnterNoLoops(g: Grid, parent: map<Pos, Pos>, parent': map<Pos, Pos>, x: int, y: int, from: Pos)
    requires InGrid(x, y) && At(g, x, y) == Wall && NoLoops(g, parent) && Lone(g, x, y, from)
    requires forall a :: a in parent && a != Pos(x, y) ==> a in parent' && parent'[a] == parent[a]
    requires Pos(x, y) != Start ==> Pos(x, y) in parent' && parent'[Pos(x, y)] == from
    ensures NoLoops(g[Idx(x, y) := Empty], parent')
  {
    var g' := g[Idx(x, y) := Empty];
    var e := Pos(x, y);
    SetAt(g, x, y, Empty);
    forall a, b | Open(g', a) && Open(g', b) && Adjacent(a, b)
      ensures Linked(parent', a, b)
    {
      if a == e {
        assert Adjacent(e, b) && Open(g, b);
      } else if b == e {
        assert Adjacent(e, a) && Open(g, a);
      } else {
        assert Open(g, a) && Open(g, b) && Linked(parent, a, b);
      }
    }
  }

  lemma EnterKeepsSealed(g: Grid, x: int, y: int)
    requires OnLattice(x, y) && Sealed(g, Pos(x, y))
    ensures Sealed(g[Idx(x, y) := Empty], Pos(-1, -1))
  {
    var g' := g[Idx(x, y) := Empty];
    var e := Pos(x, y);
    SetAt(g, x, y, Empty);
    forall c: Pos, n: Pos | OnLattice(c.x, c.y) && c != Pos(-1, -1) && At(g', c.x, c.y) == Wall && Adjacent(c, n)
      ensures !Open(g', n)
    {
      assert c != e && At(g, c.x, c.y) == Wall;
      assert !Open(g, n) && n != e;
    }
  }


  /** Knocking out the cell m between the open lattice cell (x, y) and its
   *  walled neighbour f along d, with (x, y) as m's parent: the passages stay
   *  loop-free, f is the only walled lattice cell next to an open cell, and
   *  m is its only open neighbour. */
  lemma PierceSealed(g: Grid, parent: map<Pos, Pos>, depth: map<Pos, nat>, parent': map<Pos, Pos>, x: int, y: int, d: Dir)
    requires OnLattice(x, y) && d in Directions && Interior(x + d.dx * 2, y + d.dy * 2)
    requires At(g, x, y) == Empty && At(g, x + d.dx * 2, y + d.dy * 2) == Wall && Walled(g)
    requires Tree(g, parent, depth) && NoLoops(g, parent) && Sealed(g, Pos(-1, -1))
    requires parent' == parent[Pos(x + d.dx, y + d.dy) := Pos(x, y)]
    ensures InGrid(x + d.dx, y + d.dy)
    ensures var g' := g[Idx(x + d.dx, y + d.dy) := Empty];
      NoLoops(g', parent') && Sealed(g', Pos(x + d.dx * 2, y + d.dy * 2)) &&
      Lone(g', x + d.dx * 2, y + d.dy * 2, Pos(x + d.dx, y + d.dy))
  {
    LatticeStep(x, y, d);
    PierceNoLoops(g, parent, parent', x, y, d);
    PierceKeepsSealed(g, x, y, d);
    var p := PathTo(g, parent, depth, Pos(x, y));
    assert Open(g, p[0]);
    PierceLone(g, x, y, d);
  }

  /** The first part of `PierceSealed`: m's open neighbours are (x, y), its
   *  parent, so the passages stay loop-free. */
  lemma PierceNoLoops(g: Grid, parent: map<Pos, Pos>, parent': map<Pos, Pos>, x: int, y: int, d: Dir)
    requires OnLattice(x, y) && d in Directions && Interior(x + d.dx * 2, y + d.dy * 2)
    requires At(g, x + d.dx * 2, y + d.dy * 2) == Wall && Walled(g) && NoLoops(g, parent)
    requires parent' == parent[Pos(x + d.dx, y + d.dy) := Pos(x, y)]
    requires InGrid(x + d.dx, y + d.dy) && !Pillar(x + d.dx, y + d.dy)
    ensures NoLoops(g[Idx(x + d.dx, y + d.dy) := Empty], parent')
  {
    var m := Pos(x + d.dx, y + d.dy);
    var g' := g[Idx(m.x, m.y) := Empty];
    SetAt(g, m.x, m.y, Empty);
    forall a, b | Open(g', a) && Open(g', b) && Adjacent(a, b)
      ensures Linked(parent', a, b)
    {
      if a == m {
        MidNeighbours(x, y, d, b);
      } else if b == m {
        MidNeighbours(x, y, d, a);
      } else {
        assert Open(g, a) && Open(g, b) && Linked(parent, a, b);
      }
    }
  }

  /** The second part of `PierceSealed`: only f, of the walled lattice
   *  cells, gains an open neighbour. */
  lemma PierceKeepsSealed(g: Grid, x: int, y: int, d: Dir)
    requires OnLattice(x, y) && d in Directions && Interior(x + d.dx * 2, y + d.dy * 2)
    requires At(g, x, y) == Empty && Sealed(g, Pos(-1, -1))
    requires InGrid(x + d.dx, y + d.dy)
    ensures Sealed(g[Idx(x + d.dx, y + d.dy) := Empty], Pos(x + d.dx * 2, y + d.dy * 2))
  {
    var m, f := Pos(x + d.dx, y + d.dy), Pos(x + d.dx * 2, y + d.dy * 2);
    var g' := g[Idx(m.x, m.y) := Empty];
    SetAt(g, m.x, m.y, Empty);
    forall c: Pos, n: Pos | OnLattice(c.x, c.y) && c != f && At(g', c.x, c.y) == Wall && Adjacent(c, n)
      ensures !Open(g', n)
    {
      if n == m {
        MidNeighbours(x, y, d, c);
        assert false;
      }
      assert At(g, c.x, c.y) == Wall && !Open(g, n);
    }
  }

  /** The third part of `PierceSealed`: m is the only open neighbour of f,
   *  and f is not the start, which is open. */
  lemma PierceLone(g: Grid, x: int, y: int, d: Dir)
    requires OnLattice(x + d.dx * 2, y + d.dy * 2) && At(g, x + d.dx * 2, y + d.dy * 2) == Wall
    requires Open(g, Start) && Sealed(g, Pos(-1, -1)) && InGrid(x + d.dx, y + d.dy)
    ensures Lone(g[Idx(x + d.dx, y + d.dy) := Empty], x + d.dx * 2, y + d.dy * 2, Pos(x + d.dx, y + d.dy))
  {
    var m, f := Pos(x + d.dx, y + d.dy), Pos(x + d.dx * 2, y + d.dy * 2);
    var g' := g[Idx(m.x, m.y) := Empty];
    SetAt(g, m.x, m.y, Empty);
    assert f != Start;
    forall n | Adjacent(f, n) && Open(g', n)
      ensures n == m
    {
      assert At(g, f.x, f.y) == Wall && !Open(g, n);
    }
  }

  /** What `dig(x, y)` needs on entry, coming through `from`: (x, y) is a
   *  walled lattice cell, the passages so far are the recorded loop-free
   *  tree with walls round the border and on the pillars, `from` is a
   *  recorded open neighbour of (x, y) (unless (x, y) is the start), no
   *  other walled lattice cell has an open neighbour, and `from` is the only
   *  open neighbour of (x, y). */
  ghost predicate Enterable(g: Grid, x: int, y: int, from: Pos, parent: map<Pos, Pos>, depth: map<Pos, nat>) {
    OnLattice(x, y) && At(g, x, y) == Wall && Tree(g, parent, depth) &&
    (Pos(x, y) == Start || (from in depth && Adjacent(from, Pos(x, y)))) &&
    NoLoops(g, parent) && Walled(g) && Sealed(g, Pos(x, y)) && Lone(g, x, y, from)
  }

  /** The lattice neighbours of (x, y) along the first t shuffled directions are settled. */
  ghost predicate SettledAlong(g: Grid, x: int, y: int, dirs: Shuffle, t: int) {
    forall s :: 0 <= s < t && s < |dirs| ==> Settled(g, x + dirs[s].dx * 2, y + dirs[s].dy * 2)
  }

  lemma SettledAlongStep(g1: Grid, g2: Grid, x: int, y: int, dirs: Shuffle, t: int)
    requires 0 <= t < |dirs| && Carves(g1, g2) && SettledAlong(g1, x, y, dirs, t)
    requires Settled(g2, x + dirs[t].dx * 2, y + dirs[t].dy * 2)
    ensures SettledAlong(g2, x, y, dirs, t + 1)
  {
    SettledStays(g1, g2);
  }

  /** One turn of dig's loop: what the direction step promises about g1 to g2
   *  carries the loop's facts about g0 to g1 over to g2. */
  lemma DigStep(g0: Grid, g1: Grid, g2: Grid, x: int, y: int, dirs: Shuffle, t: int)
    requires 0 <= t < |dirs|
    requires Carves(g0, g1) && ClosedExcept(g0, g1, Pos(x, y)) && SettledAlong(g1, x, y, dirs, t)
    requires Carves(g1, g2) && ClosedExcept(g1, g2, Pos(x, y)) && Settled(g2, x + dirs[t].dx * 2, y + dirs[t].dy * 2)
    ensures Carves(g0, g2) && ClosedExcept(g0, g2, Pos(x, y)) && SettledAlong(g2, x, y, dirs, t + 1)
  {
    CarvesTrans(g0, g1, g2);
    SettledAlongStep(g1, g2, x, y, dirs, t);
    ClosedCompose(g0, g1, g2, Pos(x, y));
  }

  /** Settling the neighbours along all four shuffled directions settles all four neighbours. */
  lemma SettledAlongDone(g: Grid, x: int, y: int, dirs: Shuffle)
    requires SettledAlong(g, x, y, dirs, |dirs|)
    ensures Done(g, x, y)
  {
    forall e | e in Directions
      ensures Settled(g, x + e.dx * 2, y + e.dy * 2)
    {
      assert e in multiset(dirs);
      var s :| 0 <= s < |dirs| && dirs[s] == e;
    }
    assert Dir(1, 0) in Directions && Dir(-1, 0) in Directions;
    assert Dir(0, 1) in Directions && Dir(0, -1) in Directions;
  }

  /** Carving (x, y) and then settling all its lattice neighbours closes
   *  every lattice cell carved on the way. */
  lemma ClosedAfterEnter(g0: Grid, g1: Grid, g2: Grid, x: int, y: int)
    requires InGrid(x, y) && g1 == g0[Idx(x, y) := Empty]
    requires ClosedExcept(g1, g2, Pos(x, y)) && Done(g2, x, y)
    ensures ClosedExcept(g0, g2, Pos(-1, -1))
  {
    SetAt(g0, x, y, Empty);
  }

  /** The carving record once the walk enters cell c through `from`: the
   *  start at depth 0, any other cell as a child of `from`. */
  ghost function Entered(parent: map<Pos, Pos>, depth: map<Pos, nat>, c: Pos, from: Pos): (map<Pos, Pos>, map<Pos, nat>)
    requires c == Start || from in depth
  {
    if c == Start then (parent, depth[Start := 0]) else Attach(parent, depth, c, from)
  }

  /** What `maze[y][x] = 0` at the head of `dig(x, y)` does: the grid only
   *  gains a passage, loses a wall, and keeps its walls round the border and
   *  on the pillars; the record grows by (x, y) and the passages stay a
   *  tree, with no walled lattice cell next to an open one. */
  lemma EnterCell(g: Grid, parent: map<Pos, Pos>, depth: map<Pos, nat>, x: int, y: int, from: Pos)
    requires Enterable(g, x, y, from, parent, depth)
    ensures var g' := g[Idx(x, y) := Empty];
      var r := Entered(parent, depth, Pos(x, y), from);
      Carves(g, g') && At(g', x, y) == Empty && WallSet(g') < WallSet(g) && Walled(g') &&
      Tree(g', r.0, r.1) && NoLoops(g', r.0) && Sealed(g', Pos(-1, -1))
  {
    EnterGrid(g, x, y);
    EnterRecord(g, parent, depth, x, y, from);
  }

  /** The grid half of entering (x, y): one more passage, one wall fewer,
   *  border and pillars still walls. */
  lemma EnterGrid(g: Grid, x: int, y: int)
    requires OnLattice(x, y) && At(g, x, y) == Wall && Walled(g)
    ensures var g' := g[Idx(x, y) := Empty];
      Carves(g, g') && At(g', x, y) == Empty && WallSet(g') < WallSet(g) && Walled(g')
  {
    var g' := g[Idx(x, y) := Empty];
    CarveOne(g, x, y);
    SetAt(g, x, y, Empty);
    CarvesShrinks(g, g', x, y);
    WalledStays(g, g');
  }

  /** The record half of entering (x, y): the record grows by (x, y), and
   *  the passages stay the recorded loop-free tree with no walled lattice
   *  cell next to an open one. */
  lemma EnterRecord(g: Grid, parent: map<Pos, Pos>, depth: map<Pos, nat>, x: int, y: int, from: Pos)
    requires Enterable(g, x, y, from, parent, depth)
    ensures var g' := g[Idx(x, y) := Empty];
      var r := Entered(parent, depth, Pos(x, y), from);
      Tree(g', r.0, r.1) && NoLoops(g', r.0) && Sealed(g', Pos(-1, -1))
  {
    var r := Entered(parent, depth, Pos(x, y), from);
    if Pos(x, y) == Start {
      TreeRoot(g, parent, depth);
    } else {
      TreeCarve(g, parent, depth, Pos(x, y), from);
      assert Pos(x, y) !in depth;
    }
    EnterSealed(g, parent, r.0, x, y, from);
  }

  /** `dig(x, y)`: carve (x, y), then run the direction step for each of the
   *  four directions in the order the oracle shuffles them into. The ghost
   *  maps extend the carving record with each cell carved; `from` is the
   *  cell the walk came through. The result is the next unused oracle
   *  index. */
  method Dig(maze: array<int>, x: int, y: int, rng: Random, k: nat,
             ghost from: Pos, ghost parent: map<Pos, Pos>, ghost depth: map<Pos, nat>)
    returns (next: nat, ghost parent': map<Pos, Pos>, ghost depth': map<Pos, nat>)
    requires maze.Length == Cells && Enterable(maze[..], x, y, from, parent, depth)
    modifies maze
    decreases WallSet(maze[..]), 0
    ensures next > k
    ensures Carves(old(maze[..]), maze[..])
    ensures At(maze[..], x, y) == Empty && Done(maze[..], x, y)
    // Every lattice cell this call carved has all its lattice neighbours carved.
    ensures ClosedExcept(old(maze[..]), maze[..], Pos(-1, -1))
    ensures Tree(maze[..], parent', depth')
    // The passages stay a tree, and no walled lattice cell has an open neighbour.
    ensures NoLoops(maze[..], parent') && Sealed(maze[..], Pos(-1, -1))
  {
    ghost var g0: Grid := maze[..];
    EnterCell(g0, parent, depth, x, y, from);
    parent', depth' := Entered(parent, depth, Pos(x, y), from).0, Entered(parent, depth, Pos(x, y), from).1;
    maze[Idx(x, y)] := Empty;
    ghost var g1: Grid := maze[..];
    assert g1 == g0[Idx(x, y) := Empty];
    var dirs := rng.shuffle(k);
    next, parent', depth' := DigAround(maze, x, y, dirs, rng, k + 1, parent', depth');
    CarvesTrans(g0, g1, maze[..]);
    ClosedAfterEnter(g0, g1, maze[..], x, y);
  }


  /** The `for ... of` loop of `dig`: the direction step from (x, y) for each shuffled
   *  direction in turn, which settles all four lattice neighbours. */
  method DigAround(maze: array<int>, x: int, y: int, dirs: Shuffle, rng: Random, k: nat,
                   ghost parent: map<Pos, Pos>, ghost depth: map<Pos, nat>)
    returns (next: nat, ghost parent': map<Pos, Pos>, ghost depth': map<Pos, nat>)
    requires maze.Length == Cells && OnLattice(x, y) && At(maze[..], x, y) == Empty
    requires Tree(maze[..], parent, depth)
    requires NoLoops(maze[..], parent) && Walled(maze[..]) && Sealed(maze[..], Pos(-1, -1))
    modifies maze
    decreases WallSet(maze[..]), 3
    ensures next >= k
    ensures Carves(old(maze[..]), maze[..]) && At(maze[..], x, y) == Empty && Done(maze[..], x, y)
    ensures ClosedExcept(old(maze[..]), maze[..], Pos(x, y))
    ensures Tree(maze[..], parent', depth')
    ensures NoLoops(maze[..], parent') && Sealed(maze[..], Pos(-1, -1))
  {
    ghost var g0: Grid := maze[..];
    next, parent', depth' := k, parent, depth;
    for t := 0 to |dirs|
      invariant next >= k
      invariant Carves(g0, maze[..]) && At(maze[..], x, y) == Empty
      invariant ClosedExcept(g0, maze[..], Pos(x, y))
      invariant SettledAlong(maze[..], x, y, dirs, t)
      invariant Tree(maze[..], parent', depth')
      invariant NoLoops(maze[..], parent') && Walled(maze[..]) && Sealed(maze[..], Pos(-1, -1))
    {
      ShuffledDirection(dirs, t);
      ghost var g1: Grid := maze[..];
      CarvesShrinks(g0, g1, x, y);
      next, parent', depth' := TryDirection(maze, x, y, dirs[t], rng, next, parent', depth');
      DigStep(g0, g1, maze[..], x, y, dirs, t);
      WalledStays(g1, maze[..]);
    }
    SettledAlongDone(maze[..], x, y, dirs);
  }

  /** What carving the cell between (x, y) and its lattice neighbour along d does to the grid. */
  lemma CarveBetween(g: Grid, g': Grid, x: int, y: int, d: Dir)
    requires OnLattice(x, y) && d in Directions && Interior(x + d.dx * 2, y + d.dy * 2)
    requires At(g, x, y) == Empty && At(g, x + d.dx * 2, y + d.dy * 2) == Wall
    requires g' == g[Idx(x + d.dx, y + d.dy) := Empty]
    ensures Carves(g, g') && ClosedExcept(g, g', Pos(x, y)) && WallSet(g') <= WallSet(g)
    ensures At(g', x + d.dx * 2, y + d.dy * 2) == Wall && At(g', x, y) == Empty
  {
    var mx, my := x + d.dx, y + d.dy;
    LatticeStep(x, y, d);
    CarveOne(g, mx, my);
    CarveOffLattice(g, mx, my, Pos(x, y));
    SetAt(g, mx, my, Empty);
    CarvesShrinks(g, g[Idx(mx, my) := Empty], x, y);
  }

  /** `maze[y + dy][x + dx] = 0`: knocking down the wall between (x, y) and
   *  its walled lattice neighbour along d, recorded in the carving record. */
  method Pierce(maze: array<int>, x: int, y: int, d: Dir, ghost parent: map<Pos, Pos>, ghost depth: map<Pos, nat>)
    returns (ghost parent': map<Pos, Pos>, ghost depth': map<Pos, nat>)
    requires maze.Length == Cells && OnLattice(x, y) && d in Directions
    requires Interior(x + d.dx * 2, y + d.dy * 2) && At(maze[..], x + d.dx * 2, y + d.dy * 2) == Wall
    requires At(maze[..], x, y) == Empty && Tree(maze[..], parent, depth)
    requires NoLoops(maze[..], parent) && Walled(maze[..]) && Sealed(maze[..], Pos(-1, -1))
    modifies maze
    ensures InGrid(x + d.dx, y + d.dy) && maze[..] == old(maze[..])[Idx(x + d.dx, y + d.dy) := Empty]
    ensures Carves(old(maze[..]), maze[..]) && ClosedExcept(old(maze[..]), maze[..], Pos(x, y))
    ensures WallSet(maze[..]) <= WallSet(old(maze[..]))
    ensures At(maze[..], x, y) == Empty
    // The far cell is ready to be dug from the carved one: still a wall, the
    // only walled lattice cell with an open neighbour, and that neighbour is
    // the carved cell, now a child of (x, y) in the record.
    ensures Enterable(maze[..], x + d.dx * 2, y + d.dy * 2, Pos(x + d.dx, y + d.dy), parent', depth')
  {
    LatticeStep(x, y, d);
    var mx, my := x + d.dx, y + d.dy;
    ghost var g1: Grid := maze[..];
    MidWall(g1, x, y, d);
    maze[Idx(mx, my)] := Empty;
    ghost var g2: Grid := maze[..];
    assert g2 == g1[Idx(mx, my) := Empty];
    CarveBetween(g1, g2, x, y, d);
    TreeCarve(g1, parent, depth, Pos(mx, my), Pos(x, y));
    parent', depth' := Attach(parent, depth, Pos(mx, my), Pos(x, y)).0, Attach(parent, depth, Pos(mx, my), Pos(x, y)).1;
    PierceSealed(g1, parent, depth, parent', x, y, d);
    WalledStays(g1, g2);
  }

  /** The step of `dig(x, y)` for one direction d: if the cell two steps along d
   *  is interior and still a wall, carve the cell in between and dig from
   *  the far cell; otherwise do nothing. */
  method TryDirection(maze: array<int>, x: int, y: int, d: Dir, rng: Random, k: nat,
                      ghost parent: map<Pos, Pos>, ghost depth: map<Pos, nat>)
    returns (next: nat, ghost parent': map<Pos, Pos>, ghost depth': map<Pos, nat>)
    requires maze.Length == Cells && OnLattice(x, y) && d in Directions
    requires At(maze[..], x, y) == Empty && Tree(maze[..], parent, depth)
    requires NoLoops(maze[..], parent) && Walled(maze[..]) && Sealed(maze[..], Pos(-1, -1))
    modifies maze
    decreases WallSet(maze[..]), 2
    ensures next >= k
    ensures Carves(old(maze[..]), maze[..]) && At(maze[..], x, y) == Empty
    ensures ClosedExcept(old(maze[..]), maze[..], Pos(x, y))
    ensures Settled(maze[..], x + d.dx * 2, y + d.dy * 2)
    ensures Tree(maze[..], parent', depth')
    ensures NoLoops(maze[..], parent') && Sealed(maze[..], Pos(-1, -1))
  {
    next, parent', depth' := k, parent, depth;
    var nx, ny := x + d.dx * 2, y + d.dy * 2;
    if nx > 0 && nx < MapSize - 1 && ny > 0 && ny < MapSize - 1 && maze[Idx(nx, ny)] == Wall {
      next, parent', depth' := Advance(maze, x, y, d, rng, k, parent, depth);
    } else {
      SettledStays(maze[..], maze[..]);
    }
  }

  /** The body of the guard `maze[ny][nx] === 1`: knock out the wall in
   *  between, then `dig(nx, ny)`. */
  method Advance(maze: array<int>, x: int, y: int, d: Dir, rng: Random, k: nat,
                 ghost parent: map<Pos, Pos>, ghost depth: map<Pos, nat>)
    returns (next: nat, ghost parent': map<Pos, Pos>, ghost depth': map<Pos, nat>)
    requires maze.Length == Cells && OnLattice(x, y) && d in Directions
    requires Interior(x + d.dx * 2, y + d.dy * 2) && At(maze[..], x + d.dx * 2, y + d.dy * 2) == Wall
    requires At(maze[..], x, y) == Empty && Tree(maze[..], parent, depth)
    requires NoLoops(maze[..], parent) && Walled(maze[..]) && Sealed(maze[..], Pos(-1, -1))
    modifies maze
    decreases WallSet(maze[..]), 1
    ensures next >= k
    ensures Carves(old(maze[..]), maze[..]) && At(maze[..], x, y) == Empty
    ensures ClosedExcept(old(maze[..]), maze[..], Pos(x, y))
    ensures At(maze[..], x + d.dx * 2, y + d.dy * 2) != Wall
    ensures Tree(maze[..], parent', depth')
    ensures NoLoops(maze[..], parent') && Sealed(maze[..], Pos(-1, -1))
  {
    ghost var g1: Grid := maze[..];
    parent', depth' := Pierce(maze, x, y, d, parent, depth);
    ghost var g2: Grid := maze[..];
    next, parent', depth' := Dig(maze, x + d.dx * 2, y + d.dy * 2, rng, k, Pos(x + d.dx, y + d.dy), parent', depth');
    ghost var g3: Grid := maze[..];
    CarvesTrans(g1, g2, g3);
    ClosedCompose(g1, g2, g3, Pos(x, y));
  }


  /** Every carved lattice cell has all its lattice neighbours carved. */
  ghost predicate Closed(g: Grid) {
    forall i, j {:trigger Done(g, i, j)} :: OnLattice(i, j) && At(g, i, j) != Wall ==> Done(g, i, j)
  }

  /** A walk from an all-wall grid leaves a closed grid. */
  lemma ClosedFromWalls(g0: Grid, g: Grid)
    requires forall i :: 0 <= i < Cells ==> g0[i] == Wall
    requires ClosedExcept(g0, g, Pos(-1, -1))
    ensures Closed(g)
  {
    forall i, j | OnLattice(i, j) && At(g, i, j) != Wall
      ensures Done(g, i, j)
    {
      assert At(g0, i, j) == Wall;
    }
  }

  /** If the start is carved and the grid is closed, then the lattice cell
   *  (x, y) is carved: step back two cells towards the start. */
  lemma {:induction false} LatticeCarvedAt(g: Grid, x: int, y: int)
    requires At(g, Start.x, Start.y) != Wall && Closed(g)
    requires OnLattice(x, y)
    ensures At(g, x, y) != Wall
    decreases x + y
  {
    if x > 1 {
      LatticeCarvedAt(g, x - 2, y);
      assert Done(g, x - 2, y);
    } else if y > 1 {
      LatticeCarvedAt(g, x, y - 2);
      assert Done(g, x, y - 2);
    }
  }

  /** A walk from the start that closes every cell it carves carves the whole lattice. */
  lemma AllLatticeCarved(g: Grid)
    requires At(g, Start.x, Start.y) != Wall && Closed(g)
    ensures forall i, j :: OnLattice(i, j) ==> At(g, i, j) != Wall
  {
    forall i, j | OnLattice(i, j)
      ensures At(g, i, j) != Wall
    {
      LatticeCarvedAt(g, i, j);
    }
  }

  // ---------------------------------------------------------------------
  // Chest placement

  /** A chest may go on an empty interior cell other than the start. */
  predicate IsCandidate(g: Grid, p: Pos) {
    Interior(p.x, p.y) && At(g, p.x, p.y) == Empty && p != Start
  }

  /** Row-major order: by row, then by column. */
  predicate Before(p: Pos, q: Pos) { p.y < q.y || (p.y == q.y && p.x < q.x) }

  /** The scan over the interior for chest candidates, row by row. */
  method CollectCandidates(maze: array<int>) returns (candidates: seq<Pos>)
    requires maze.Length == Cells
    ensures forall p :: p in candidates <==> IsCandidate(maze[..], p)
    ensures forall i, j :: 0 <= i < j < |candidates| ==> Before(candidates[i], candidates[j])
  {
    candidates := [];
    for y := 1 to MapSize - 1
      invariant forall p :: p in candidates <==> IsCandidate(maze[..], p) && p.y < y
      invariant forall i, j :: 0 <= i < j < |candidates| ==> Before(candidates[i], candidates[j])
      invariant forall i :: 0 <= i < |candidates| ==> candidates[i].y < y
    {
      for x := 1 to MapSize - 1
        invariant forall p :: p in candidates <==> IsCandidate(maze[..], p) && (p.y < y || (p.y == y && p.x < x))
        invariant forall i, j :: 0 <= i < j < |candidates| ==> Before(candidates[i], candidates[j])
        invariant forall i :: 0 <= i < |candidates| ==> Before(candidates[i], Pos(x, y))
      {
        if maze[Idx(x, y)] == Empty && !(x == 1 && y == 1) {
          candidates := candidates + [Pos(x, y)];
        }
      }
    }
  }

  /** `Math.floor(Math.random() * n)`: an index into a list of length n. */
  function PickIndex(r: Unit, n: nat): (i: nat)
    requires n > 0
    ensures i < n
  {
    assert r * (n as real) < n as real;
    (r * (n as real)).Floor
  }

  /** Draw up to `ChestCount` candidates without replacement: each step takes
   *  the element at a random index out of the remaining list. */
  method SelectChests(candidates: seq<Pos>, rng: Random) returns (selected: seq<Pos>)
    ensures |selected| == Min(ChestCount, |candidates|)
    ensures multiset(selected) <= multiset(candidates)
  {
    var rest := candidates;
    selected := [];
    while |selected| < ChestCount && |rest| > 0
      invariant |selected| <= ChestCount
      invariant |selected| + |rest| == |candidates|
      invariant multiset(selected) + multiset(rest) == multiset(candidates)
      decreases |rest|
    {
      var idx := PickIndex(rng.draw(|selected|), |rest|);
      assert rest == rest[..idx] + [rest[idx]] + rest[idx + 1..];
      selected := selected + [rest[idx]];
      rest := rest[..idx] + rest[idx + 1..];
    }
  }

  predicate NoDuplicates(s: seq<Pos>) { forall i, j :: 0 <= i < j < |s| ==> s[i] != s[j] }

  lemma {:induction false} NoDuplicatesMultiplicity(s: seq<Pos>, v: Pos)
    requires NoDuplicates(s)
    ensures multiset(s)[v] <= 1
  {
    if s != [] {
      assert s == [s[0]] + s[1..];
      NoDuplicatesMultiplicity(s[1..], v);
      if v == s[0] {
        assert v !in s[1..];
      }
    }
  }

  /** Drawing without replacement from distinct cells gives distinct cells. */
  lemma SubmultisetNoDuplicates(s: seq<Pos>, t: seq<Pos>)
    requires NoDuplicates(s) && multiset(t) <= multiset(s)
    ensures NoDuplicates(t)
  {
    forall i, j | 0 <= i < j < |t|
      ensures t[i] != t[j]
    {
      if t[i] == t[j] {
        assert t == t[..j] + t[j..];
        assert t[i] in t[..j] && t[j] in t[j..];
        assert multiset(t)[t[j]] >= 2;
        NoDuplicatesMultiplicity(s, t[j]);
        assert false;
      }
    }
  }

  /** A list that contains every member of a set is at least as long as the set is large. */
  lemma {:induction false} ContainsBound(s: seq<Pos>, t: set<Pos>)
    requires forall p :: p in t ==> p in s
    ensures |t| <= |s|
  {
    if s != [] {
      var t' := t - {s[0]};
      forall p | p in t' ensures p in s[1..] {
        assert p in s && p != s[0];
      }
      ContainsBound(s[1..], t');
    } else {
      assert t == {};
    }
  }
}
