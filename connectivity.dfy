/**
 * What it means for occupied voxels to be connected: the neighbourhood of a
 * cell is a discrete Euclidean ball, a component is everything reachable from
 * a seed by steps between neighbouring occupied cells, and the largest
 * component is the one the flood fill keeps.
 */
module Connectivity {

  datatype Cell = Cell(x: int, y: int, z: int)

  function Square(n: int): int { n * n }

  /** Two cells are neighbours when their squared Euclidean distance is at most d*d. */
  predicate Near(d: int, a: Cell, b: Cell)
  {
    Square(b.x - a.x) + Square(b.y - a.y) + Square(b.z - a.z) <= d * d
  }

  /** The scan order of the three nested loops: x outermost, z innermost. */
  predicate Before(a: Cell, b: Cell)
  {
    a.x < b.x || (a.x == b.x && (a.y < b.y || (a.y == b.y && a.z < b.z)))
  }

  lemma NearSymmetric(d: int, a: Cell, b: Cell)
    ensures Near(d, a, b) <==> Near(d, b, a)
  {
    assert Square(b.x - a.x) == Square(a.x - b.x);
    assert Square(b.y - a.y) == Square(a.y - b.y);
    assert Square(b.z - a.z) == Square(a.z - b.z);
  }

  /** A neighbour lies in the box of half-width d around the cell. */
  lemma NearWithinBox(d: int, a: Cell, b: Cell)
    requires d >= 0 && Near(d, a, b)
    ensures a.x - d <= b.x <= a.x + d
    ensures a.y - d <= b.y <= a.y + d
    ensures a.z - d <= b.z <= a.z + d
  {
    var sx, sy, sz := Square(b.x - a.x), Square(b.y - a.y), Square(b.z - a.z);
    SquareNonNegative(b.x - a.x);
    SquareNonNegative(b.y - a.y);
    SquareNonNegative(b.z - a.z);
    assert sx <= d * d && sy <= d * d && sz <= d * d;
    SquareBound(d, b.x - a.x);
    SquareBound(d, b.y - a.y);
    SquareBound(d, b.z - a.z);
  }

  lemma SquareNonNegative(t: int)
    ensures Square(t) >= 0
  {
  }

  lemma SquareBound(d: int, t: int)
    requires d >= 0 && Square(t) <= d * d
    ensures -d <= t <= d
  {
    var u := if t < 0 then -t else t;
    assert u * u == t * t;
    assert (d - u) * (d + u) == d * d - u * u;
    ProductSign(d - u, d + u);
  }

  lemma ProductSign(a: int, b: int)
    ensures b > 0 && a < 0 ==> a * b < 0
  {
  }

  /** A walk through occupied cells in which every step is between neighbours. */
  ghost predicate Path(occ: set<Cell>, d: int, p: seq<Cell>)
  {
    && |p| > 0
    && (forall i :: 0 <= i < |p| ==> p[i] in occ)
    && (forall i :: 0 <= i < |p| - 1 ==> Near(d, p[i], p[i + 1]))
  }

  ghost predicate Linked(occ: set<Cell>, d: int, a: Cell, b: Cell)
  {
    exists p :: Path(occ, d, p) && p[0] == a && p[|p| - 1] == b
  }

  /** The connected component of s: every occupied cell some walk from s reaches. */
  ghost function ComponentOf(occ: set<Cell>, d: int, s: Cell): set<Cell>
  {
    set c | c in occ && Linked(occ, d, s, c)
  }

  /** No occupied neighbour of a cell of S lies outside S. */
  ghost predicate Closed(occ: set<Cell>, d: int, S: set<Cell>)
  {
    forall c, n :: c in S && n in occ && Near(d, c, n) ==> n in S
  }

  /**
   * R is the component max_connected keeps: a component of occ, no smaller
   * than any other, and when another one is as large, R holds a cell that
   * the scan reaches before every cell of that other component.
   */
  ghost predicate LargestFirst(occ: set<Cell>, d: int, R: set<Cell>)
  {
    && (exists s :: s in occ && R == ComponentOf(occ, d, s))
    && (forall s :: s in occ ==> |ComponentOf(occ, d, s)| <= |R|)
    && (forall s :: s in occ && |ComponentOf(occ, d, s)| == |R| && ComponentOf(occ, d, s) != R ==>
          FoundFirst(R, ComponentOf(occ, d, s)))
  }

  /** Some cell of R comes before every cell of S in scan order. */
  ghost predicate FoundFirst(R: set<Cell>, S: set<Cell>)
  {
    exists r :: r in R && forall c :: c in S ==> Before(r, c)
  }

  lemma LinkedSelf(occ: set<Cell>, d: int, s: Cell)
    requires s in occ
    ensures Linked(occ, d, s, s)
    ensures s in ComponentOf(occ, d, s)
  {
    assert Path(occ, d, [s]);
  }

  /** One more step to an occupied neighbour extends a walk. */
  lemma LinkedExtend(occ: set<Cell>, d: int, a: Cell, b: Cell, n: Cell)
    requires Linked(occ, d, a, b) && n in occ && Near(d, b, n)
    ensures Linked(occ, d, a, n)
  {
    var p :| Path(occ, d, p) && p[0] == a && p[|p| - 1] == b;
    var q := p + [n];
    assert Path(occ, d, q);
  }

  /** Walks can be taken backwards, since neighbourhood is symmetric. */
  lemma LinkedSymmetric(occ: set<Cell>, d: int, a: Cell, b: Cell)
    requires Linked(occ, d, a, b)
    ensures Linked(occ, d, b, a)
  {
    var p :| Path(occ, d, p) && p[0] == a && p[|p| - 1] == b;
    var q := seq(|p|, i requires 0 <= i < |p| => p[|p| - 1 - i]);
    forall i | 0 <= i < |q| - 1 ensures Near(d, q[i], q[i + 1]) {
      assert q[i] == p[|p| - 1 - i] && q[i + 1] == p[|p| - 2 - i];
      NearSymmetric(d, p[|p| - 2 - i], p[|p| - 1 - i]);
    }
    assert Path(occ, d, q);
  }

  /** A walk that starts inside a closed set never leaves it. */
  lemma {:induction false} PathStaysIn(occ: set<Cell>, d: int, S: set<Cell>, p: seq<Cell>)
    requires Closed(occ, d, S) && Path(occ, d, p) && p[0] in S
    ensures p[|p| - 1] in S
  {
    if |p| > 1 {
      var q := p[..|p| - 1];
      assert Path(occ, d, q);
      PathStaysIn(occ, d, S, q);
      assert Near(d, p[|p| - 2], p[|p| - 1]);
    }
  }

  /** A component is closed: it has no occupied neighbour outside it. */
  lemma ComponentClosed(occ: set<Cell>, d: int, s: Cell)
    ensures Closed(occ, d, ComponentOf(occ, d, s))
  {
    var C := ComponentOf(occ, d, s);
    forall c, n | c in C && n in occ && Near(d, c, n) ensures n in C {
      LinkedExtend(occ, d, s, c, n);
    }
  }

  /** A closed set holding s holds the whole component of s. */
  lemma ComponentInsideClosed(occ: set<Cell>, d: int, S: set<Cell>, s: Cell)
    requires Closed(occ, d, S) && s in S
    ensures ComponentOf(occ, d, s) <= S
  {
    forall c | c in ComponentOf(occ, d, s) ensures c in S {
      var p :| Path(occ, d, p) && p[0] == s && p[|p| - 1] == c;
      PathStaysIn(occ, d, S, p);
    }
  }

  /** Every cell of a component has that same component. */
  lemma SameComponent(occ: set<Cell>, d: int, s: Cell, t: Cell)
    requires t in ComponentOf(occ, d, s)
    ensures ComponentOf(occ, d, t) == ComponentOf(occ, d, s)
  {
    ComponentClosed(occ, d, s);
    ComponentInsideClosed(occ, d, ComponentOf(occ, d, s), t);
    LinkedSymmetric(occ, d, s, t);
    var p :| Path(occ, d, p) && p[0] == t && p[|p| - 1] == s;
    assert s in occ;
    ComponentClosed(occ, d, t);
    ComponentInsideClosed(occ, d, ComponentOf(occ, d, t), s);
  }

  /** Two components are either disjoint or the same set. */
  lemma ComponentsDisjointOrEqual(occ: set<Cell>, d: int, s: Cell, t: Cell, u: Cell)
    requires u in ComponentOf(occ, d, s) && u in ComponentOf(occ, d, t)
    ensures ComponentOf(occ, d, s) == ComponentOf(occ, d, t)
  {
    SameComponent(occ, d, s, u);
    SameComponent(occ, d, t, u);
  }

  /** Occupied neighbours belong to the same component. */
  lemma NeighboursShareComponent(occ: set<Cell>, d: int, a: Cell, b: Cell)
    requires a in occ && b in occ && Near(d, a, b)
    ensures ComponentOf(occ, d, a) == ComponentOf(occ, d, b)
  {
    LinkedSelf(occ, d, a);
    LinkedExtend(occ, d, a, a, b);
    SameComponent(occ, d, a, b);
  }

  /** The component max_connected keeps is a closed subset of the occupied cells. */
  lemma LargestFirstIsClosedSubset(occ: set<Cell>, d: int, R: set<Cell>)
    requires LargestFirst(occ, d, R)
    ensures R <= occ && R != {} && Closed(occ, d, R)
  {
    var s :| s in occ && R == ComponentOf(occ, d, s);
    LinkedSelf(occ, d, s);
    ComponentClosed(occ, d, s);
  }

  /** At most one set meets LargestFirst: ties are broken by the scan order. */
  lemma LargestFirstUnique(occ: set<Cell>, d: int, R1: set<Cell>, R2: set<Cell>)
    requires LargestFirst(occ, d, R1) && LargestFirst(occ, d, R2)
    ensures R1 == R2
  {
    var s1 :| s1 in occ && R1 == ComponentOf(occ, d, s1);
    var s2 :| s2 in occ && R2 == ComponentOf(occ, d, s2);
    assert |R1| == |R2|;
    if R1 != R2 {
      assert false;
    }
  }
}
