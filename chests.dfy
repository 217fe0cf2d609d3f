/** Treasure chests and what picking them up does. A chest is a value; the
 *  game keeps them in a list, and the pickup sweep opens every unopened chest
 *  in the player's cell, clears its cell in the grid and pays its bonus. The
 *  functions below describe one sweep over a list of chests; they are built
 *  from the back so that a sweep over the first n chests extends by one chest
 *  at a time, as the game's loop does. */
module Chests {
  import opened Maze

  datatype Chest = Chest(x: int, y: int, hasKey: bool, isOpen: bool)

  /** Score for opening any chest, and the extra score for the key chest. */
  const ChestBonus: int := 50
  const KeyBonus: int := 100

  /** The sweep opens chest c when the player stands in c's cell and c is still closed. */
  predicate Hit(c: Chest, px: int, py: int) {
    c.x == px && c.y == py && !c.isOpen
  }

  /** What opening chest c adds to the score. */
  function Value(c: Chest): (v: int)
    ensures v >= ChestBonus && (v > ChestBonus <==> c.hasKey)
  {
    if c.hasKey then KeyBonus + ChestBonus else ChestBonus
  }

  /** Chest c after the sweep has looked at it. */
  function Visit(c: Chest, px: int, py: int): (v: Chest)
    ensures v.x == c.x && v.y == c.y && v.hasKey == c.hasKey
    ensures v.isOpen == (c.isOpen || (c.x == px && c.y == py))
  {
    if Hit(c, px, py) then c.(isOpen := true) else c
  }

  function Last<T>(s: seq<T>): T requires |s| > 0 { s[|s| - 1] }

  function Front<T>(s: seq<T>): seq<T> requires |s| > 0 { s[..|s| - 1] }

  /** The chests after a sweep from (px, py): every chest hit is opened, and
   *  no other chest or field changes. */
  function OpenHits(cs: seq<Chest>, px: int, py: int): (r: seq<Chest>)
    ensures |r| == |cs|
    ensures forall i :: 0 <= i < |cs| ==>
      r[i].x == cs[i].x && r[i].y == cs[i].y && r[i].hasKey == cs[i].hasKey &&
      r[i].isOpen == (cs[i].isOpen || (cs[i].x == px && cs[i].y == py))
    decreases |cs|
  {
    if cs == [] then [] else OpenHits(Front(cs), px, py) + [Visit(Last(cs), px, py)]
  }

  /** What a sweep adds to the score. */
  function HitGain(cs: seq<Chest>, px: int, py: int): (r: int)
    ensures r >= 0
    ensures r == 0 <==> forall i :: 0 <= i < |cs| ==> !Hit(cs[i], px, py)
    decreases |cs|
  {
    if cs == [] then 0
    else HitGain(Front(cs), px, py) + (if Hit(Last(cs), px, py) then Value(Last(cs)) else 0)
  }

  /** Whether a sweep opens the key chest. */
  predicate KeyHit(cs: seq<Chest>, px: int, py: int)
    decreases |cs|
  {
    cs != [] && (KeyHit(Front(cs), px, py) || (Hit(Last(cs), px, py) && Last(cs).hasKey))
  }

  predicate InGridAll(cs: seq<Chest>) {
    forall i :: 0 <= i < |cs| ==> InGrid(cs[i].x, cs[i].y)
  }

  /** The grid after a sweep: the cell of every chest hit becomes a passage. */
  function ClearHits(g: Grid, cs: seq<Chest>, px: int, py: int): (r: Grid)
    requires InGridAll(cs)
    ensures forall x, y :: InGrid(x, y) && At(g, x, y) != Wall ==> At(r, x, y) != Wall
    ensures forall x, y :: InGrid(x, y) && (x != px || y != py) ==> At(r, x, y) == At(g, x, y)
    decreases |cs|
  {
    if cs == [] then g
    else
      var g' := ClearHits(g, Front(cs), px, py);
      var c := Last(cs);
      if Hit(c, px, py) then (SetAt(g', c.x, c.y, Empty); g'[Idx(c.x, c.y) := Empty]) else g'
  }

  /** The score the opened chests account for. */
  function Score(cs: seq<Chest>): (r: int)
    ensures r >= 0
    decreases |cs|
  {
    if cs == [] then 0 else Score(Front(cs)) + (if Last(cs).isOpen then Value(Last(cs)) else 0)
  }

  /** No two chests share a cell. */
  predicate DistinctCells(cs: seq<Chest>) {
    forall i, j :: 0 <= i < j < |cs| ==> cs[i].x != cs[j].x || cs[i].y != cs[j].y
  }

  // ---------------------------------------------------------------------
  // Properties of one sweep

  /** A sweep over the first n + 1 chests is the sweep over the first n, then chest n. */
  lemma SweepPrefix(cs: seq<Chest>, n: int, g: Grid, px: int, py: int)
    requires 0 <= n < |cs| && InGridAll(cs)
    ensures OpenHits(cs[..n + 1], px, py) == OpenHits(cs[..n], px, py) + [Visit(cs[n], px, py)]
    ensures HitGain(cs[..n + 1], px, py) == HitGain(cs[..n], px, py) + (if Hit(cs[n], px, py) then Value(cs[n]) else 0)
    ensures KeyHit(cs[..n + 1], px, py) == (KeyHit(cs[..n], px, py) || (Hit(cs[n], px, py) && cs[n].hasKey))
    ensures InGridAll(cs[..n]) && InGridAll(cs[..n + 1])
    ensures ClearHits(g, cs[..n + 1], px, py) ==
      if Hit(cs[n], px, py) then ClearHits(g, cs[..n], px, py)[Idx(cs[n].x, cs[n].y) := Empty]
      else ClearHits(g, cs[..n], px, py)
  {
    assert Front(cs[..n + 1]) == cs[..n];
    assert Last(cs[..n + 1]) == cs[n];
  }

  /** The sweep's list after i chests, with chest i visited, is its list after i + 1. */
  lemma SweepStep(cs: seq<Chest>, i: int, px: int, py: int)
    requires 0 <= i < |cs|
    ensures (OpenHits(cs[..i], px, py) + cs[i..])[i := Visit(cs[i], px, py)] ==
      OpenHits(cs[..i + 1], px, py) + cs[i + 1..]
  {
    assert Front(cs[..i + 1]) == cs[..i];
    assert Last(cs[..i + 1]) == cs[i];
    var l := (OpenHits(cs[..i], px, py) + cs[i..])[i := Visit(cs[i], px, py)];
    var r := OpenHits(cs[..i + 1], px, py) + cs[i + 1..];
    assert |l| == |r|;
    forall k | 0 <= k < |l| ensures l[k] == r[k] {
      if k < i {
        assert r[k] == OpenHits(cs[..i + 1], px, py)[k] == OpenHits(cs[..i], px, py)[k];
      }
    }
  }

  /** Where a sweep over cs0 from (px, py) stands after its first i chests:
   *  the list cs and the grid g are as those i visits leave them, the score
   *  has grown from score0 to score by what they paid, and the key is held
   *  when it was held before or one of them found it. */
  ghost predicate SweptTo(cs0: seq<Chest>, g0: Grid, px: int, py: int, i: int,
                          cs: seq<Chest>, g: Grid, score0: int, score: int, key0: bool, key: bool)
  {
    0 <= i <= |cs0| && InGridAll(cs0[..i]) &&
    cs == OpenHits(cs0[..i], px, py) + cs0[i..] && g == ClearHits(g0, cs0[..i], px, py) &&
    score == score0 + HitGain(cs0[..i], px, py) && key == (key0 || KeyHit(cs0[..i], px, py))
  }

  /** Visiting chest i moves the sweep on to i + 1. */
  lemma SweptStep(cs0: seq<Chest>, g0: Grid, px: int, py: int, i: int,
                  cs: seq<Chest>, g: Grid, score0: int, score: int, key0: bool, key: bool)
    requires InGridAll(cs0) && i < |cs0| && SweptTo(cs0, g0, px, py, i, cs, g, score0, score, key0, key)
    ensures cs[i] == cs0[i] && InGrid(cs[i].x, cs[i].y)
    ensures SweptTo(cs0, g0, px, py, i + 1, cs[i := Visit(cs[i], px, py)],
      if Hit(cs[i], px, py) then g[Idx(cs[i].x, cs[i].y) := Empty] else g,
      score0, score + (if Hit(cs[i], px, py) then Value(cs[i]) else 0),
      key0, key || (Hit(cs[i], px, py) && cs[i].hasKey))
  {
    SweepPrefix(cs0, i, g0, px, py);
    SweepStep(cs0, i, px, py);
  }

  /** A sweep that hits nothing changes nothing. */
  lemma {:induction false} NoHitNoChange(cs: seq<Chest>, g: Grid, px: int, py: int)
    requires InGridAll(cs) && forall i :: 0 <= i < |cs| ==> !Hit(cs[i], px, py)
    ensures OpenHits(cs, px, py) == cs && HitGain(cs, px, py) == 0
    ensures !KeyHit(cs, px, py) && ClearHits(g, cs, px, py) == g
    decreases |cs|
  {
    if cs != [] {
      NoHitNoChange(Front(cs), g, px, py);
      assert cs == Front(cs) + [Last(cs)];
    }
  }

  /** Replacing an element before the last one of f + [l] leaves l last. */
  lemma UpdateBeforeLast<T>(f: seq<T>, l: T, i: int, v: T)
    requires 0 <= i < |f|
    ensures (f + [l])[i := v] == f[i := v] + [l]
  {
    var a, b := (f + [l])[i := v], f[i := v] + [l];
    assert |a| == |b|;
    forall k | 0 <= k < |a| ensures a[k] == b[k] {
    }
  }

  /** With chests in distinct cells, a sweep that hits chest i hits only chest i:
   *  it opens that chest, pays its value, finds the key exactly when that
   *  chest holds it, and clears that one cell. */
  lemma {:induction false} SingleHit(cs: seq<Chest>, g: Grid, px: int, py: int, i: int)
    requires InGridAll(cs) && DistinctCells(cs) && 0 <= i < |cs| && Hit(cs[i], px, py)
    ensures OpenHits(cs, px, py) == cs[i := cs[i].(isOpen := true)]
    ensures HitGain(cs, px, py) == Value(cs[i])
    ensures KeyHit(cs, px, py) == cs[i].hasKey
    ensures ClearHits(g, cs, px, py) == g[Idx(cs[i].x, cs[i].y) := Empty]
    decreases |cs|
  {
    var f, l := Front(cs), Last(cs);
    assert cs == f + [l];
    if i == |cs| - 1 {
      forall j | 0 <= j < |f| ensures !Hit(f[j], px, py) {
        assert cs[j] == f[j];
      }
      NoHitNoChange(f, g, px, py);
    } else {
      assert f[i] == cs[i];
      assert !Hit(l, px, py) by {
        assert cs[i] == f[i] && l == cs[|cs| - 1];
      }
      SingleHit(f, g, px, py, i);
      assert Visit(l, px, py) == l;
      assert OpenHits(cs, px, py) == OpenHits(f, px, py) + [Visit(l, px, py)];
      UpdateBeforeLast(f, l, i, cs[i].(isOpen := true));
      assert ClearHits(g, cs, px, py) == ClearHits(g, f, px, py);
    }
  }

  /** A second sweep from the same cell finds nothing left to open. */
  lemma SweepIdempotent(cs: seq<Chest>, g: Grid, px: int, py: int)
    requires InGridAll(cs)
    ensures OpenHits(OpenHits(cs, px, py), px, py) == OpenHits(cs, px, py)
    ensures HitGain(OpenHits(cs, px, py), px, py) == 0
    ensures !KeyHit(OpenHits(cs, px, py), px, py)
    ensures InGridAll(OpenHits(cs, px, py)) &&
      ClearHits(ClearHits(g, cs, px, py), OpenHits(cs, px, py), px, py) == ClearHits(g, cs, px, py)
  {
    var r := OpenHits(cs, px, py);
    assert forall i :: 0 <= i < |r| ==> !Hit(r[i], px, py);
    NoHitNoChange(r, ClearHits(g, cs, px, py), px, py);
  }

  /** The score the chests account for grows by exactly what the sweep pays. */
  lemma {:induction false} SweepScore(cs: seq<Chest>, px: int, py: int)
    ensures Score(OpenHits(cs, px, py)) == Score(cs) + HitGain(cs, px, py)
    decreases |cs|
  {
    if cs != [] {
      SweepScore(Front(cs), px, py);
      var r := OpenHits(cs, px, py);
      assert Front(r) == OpenHits(Front(cs), px, py);
      assert Last(r) == Visit(Last(cs), px, py);
    }
  }

  /** The sweep finds the key exactly when some chest it hits holds it. */
  lemma {:induction false} KeyHitIff(cs: seq<Chest>, px: int, py: int)
    ensures KeyHit(cs, px, py) <==> exists i :: 0 <= i < |cs| && Hit(cs[i], px, py) && cs[i].hasKey
    decreases |cs|
  {
    if cs != [] {
      var f := Front(cs);
      KeyHitIff(f, px, py);
      if KeyHit(f, px, py) {
        var i :| 0 <= i < |f| && Hit(f[i], px, py) && f[i].hasKey;
        assert cs[i] == f[i];
      }
      if exists i :: 0 <= i < |cs| && Hit(cs[i], px, py) && cs[i].hasKey {
        var i :| 0 <= i < |cs| && Hit(cs[i], px, py) && cs[i].hasKey;
        if i < |f| {
          assert f[i] == cs[i];
        }
      }
    }
  }

  /** When only the first chest holds the key, a sweep finds the key exactly when it hits that chest. */
  lemma {:induction false} KeyHitFirst(cs: seq<Chest>, px: int, py: int)
    requires cs != [] && forall i :: 0 <= i < |cs| ==> (cs[i].hasKey <==> i == 0)
    ensures KeyHit(cs, px, py) == Hit(cs[0], px, py)
    decreases |cs|
  {
    if |cs| > 1 {
      var f := Front(cs);
      assert forall i :: 0 <= i < |f| ==> f[i] == cs[i];
      KeyHitFirst(f, px, py);
    } else {
      assert Front(cs) == [];
    }
  }
}
