/**
 * voxel_exist and max_connected: a bounds-checked lookup in a boolean grid,
 * and the stack-based flood fill that keeps the largest connected component
 * of the occupied cells.
 */
module VoxelMask {
  import opened Connectivity

  predicate InShape(a: array3<bool>, x: int, y: int, z: int)
  {
    0 <= x < a.Length0 && 0 <= y < a.Length1 && 0 <= z < a.Length2
  }

  predicate SameShape(a: array3<bool>, b: array3<bool>)
  {
    a.Length0 == b.Length0 && a.Length1 == b.Length1 && a.Length2 == b.Length2
  }

  /** The cells at which a holds true. */
  function Occupied(a: array3<bool>): set<Cell>
    reads a
  {
    set x, y, z | 0 <= x < a.Length0 && 0 <= y < a.Length1 && 0 <= z < a.Length2 && a[x, y, z] :: Cell(x, y, z)
  }

  /**
   * voxel_exist: false whenever a coordinate is negative or beyond its extent,
   * the stored value otherwise.
   */
  function VoxelExist(voxels: array3<bool>, x: int, y: int, z: int): (r: bool)
    reads voxels
    ensures !InShape(voxels, x, y, z) ==> !r
    ensures InShape(voxels, x, y, z) ==> r == voxels[x, y, z]
  {
    var negative := x < 0 || y < 0 || z < 0;
    var outOfBounds := x >= voxels.Length0 || y >= voxels.Length1 || z >= voxels.Length2;
    if negative || outOfBounds then false else voxels[x, y, z]
  }

  /** voxel_exist is membership in the set of occupied cells. */
  lemma VoxelExistIsMembership(voxels: array3<bool>, x: int, y: int, z: int)
    ensures VoxelExist(voxels, x, y, z) <==> Cell(x, y, z) in Occupied(voxels)
  {
  }

  /** Every cell of S lies inside the shape of a. */
  ghost predicate Within(a: array3<bool>, S: set<Cell>)
  {
    forall c :: c in S ==> InShape(a, c.x, c.y, c.z)
  }

  /** a is the mask of S: it holds true exactly at the cells of S. */
  ghost predicate Marks(a: array3<bool>, S: set<Cell>)
    reads a
  {
    && Within(a, S)
    && forall x, y, z :: InShape(a, x, y, z) ==> (a[x, y, z] <==> Cell(x, y, z) in S)
  }

  lemma MarksOccupied(a: array3<bool>, S: set<Cell>)
    requires Marks(a, S)
    ensures Occupied(a) == S
  {
    forall c | c in S ensures c in Occupied(a) {
      assert a[c.x, c.y, c.z];
    }
  }

  lemma OccupiedMarks(a: array3<bool>)
    ensures Marks(a, Occupied(a))
  {
  }

  /** Every occupied neighbour of c has been removed. */
  ghost predicate Expanded(occ: set<Cell>, d: int, removed: set<Cell>, c: Cell)
  {
    forall n :: n in occ && Near(d, c, n) ==> n in removed
  }

  /** Every occupied neighbour of centre that the ball scan has passed has been removed. */
  ghost predicate Covered(occ: set<Cell>, d: int, removed: set<Cell>, centre: Cell, bound: Cell)
  {
    forall n :: n in occ && Near(d, centre, n) && Before(n, bound) ==> n in removed
  }

  /** Every occupied cell that the start scan has passed has been removed. */
  ghost predicate Scanned(occ: set<Cell>, removed: set<Cell>, bound: Cell)
  {
    forall c :: c in occ && Before(c, bound) ==> c in removed
  }

  lemma CoveredStart(occ: set<Cell>, d: int, removed: set<Cell>, centre: Cell)
    requires d >= 0
    ensures Covered(occ, d, removed, centre, Cell(centre.x - d, centre.y - d, centre.z - d))
  {
    forall n | n in occ && Near(d, centre, n) ensures !Before(n, Cell(centre.x - d, centre.y - d, centre.z - d)) {
      NearWithinBox(d, centre, n);
    }
  }

  lemma CoveredNextRow(occ: set<Cell>, d: int, removed: set<Cell>, centre: Cell, i: int, j: int)
    requires d >= 0 && Covered(occ, d, removed, centre, Cell(i, j, centre.z + d + 1))
    ensures Covered(occ, d, removed, centre, Cell(i, j + 1, centre.z - d))
  {
    forall n | n in occ && Near(d, centre, n) && Before(n, Cell(i, j + 1, centre.z - d)) ensures n in removed {
      NearWithinBox(d, centre, n);
    }
  }

  lemma CoveredNextPlane(occ: set<Cell>, d: int, removed: set<Cell>, centre: Cell, i: int)
    requires d >= 0 && Covered(occ, d, removed, centre, Cell(i, centre.y + d + 1, centre.z - d))
    ensures Covered(occ, d, removed, centre, Cell(i + 1, centre.y - d, centre.z - d))
  {
    forall n | n in occ && Near(d, centre, n) && Before(n, Cell(i + 1, centre.y - d, centre.z - d)) ensures n in removed {
      NearWithinBox(d, centre, n);
    }
  }

  lemma CoveredAll(occ: set<Cell>, d: int, removed: set<Cell>, centre: Cell)
    requires d >= 0 && Covered(occ, d, removed, centre, Cell(centre.x + d + 1, centre.y - d, centre.z - d))
    ensures Expanded(occ, d, removed, centre)
  {
    forall n | n in occ && Near(d, centre, n) ensures n in removed {
      NearWithinBox(d, centre, n);
    }
  }

  /**
   * work is the mask of the occupied cells not yet taken by an earlier
   * component (done) nor by the current one (comp), and component is the
   * mask of comp.
   */
  ghost predicate Masks(work: array3<bool>, component: array3<bool>, occ: set<Cell>, done: set<Cell>, comp: set<Cell>)
    reads work, component
  {
    && work != component && SameShape(work, component)
    && Within(work, occ) && done <= occ && comp <= occ && done !! comp
    && Marks(work, occ - done - comp) && Marks(component, comp)
  }

  /**
   * During the ball scan around centre the component has grown from comp0 to
   * comp by exactly the cells pushed, each one a neighbour of centre.
   */
  ghost predicate Grown(d: int, centre: Cell, comp0: set<Cell>, comp: set<Cell>, pushed: seq<Cell>)
  {
    && comp0 <= comp && |pushed| == |comp| - |comp0|
    && (forall c :: c in pushed <==> c in comp - comp0)
    && (forall n :: n in comp - comp0 ==> Near(d, centre, n))
  }

  /** Moves one cell from work to component: the assignments of the innermost loop. */
  method Take(work: array3<bool>, component: array3<bool>, cell: Cell, ghost occ: set<Cell>, ghost done: set<Cell>,
              ghost comp: set<Cell>)
    requires Masks(work, component, occ, done, comp) && cell in occ - done - comp
    modifies work, component
    ensures Masks(work, component, occ, done, comp + {cell})
  {
    work[cell.x, cell.y, cell.z] := false;
    component[cell.x, cell.y, cell.z] := true;
  }

  /**
   * The body of the innermost loop for offset (i, j, k): skip it when it lies
   * outside the ball, otherwise take it over when it is still set in work.
   */
  method Visit(work: array3<bool>, component: array3<bool>, centre: Cell, distance: int, i: int, j: int, k: int,
               pushed: seq<Cell>, size: nat, ghost occ: set<Cell>, ghost done: set<Cell>, ghost comp0: set<Cell>,
               ghost comp: set<Cell>)
    returns (pushed': seq<Cell>, size': nat, ghost comp': set<Cell>)
    requires Masks(work, component, occ, done, comp) && size == |comp|
    requires Grown(distance, centre, comp0, comp, pushed)
    requires Covered(occ, distance, done + comp, centre, Cell(i, j, k))
    modifies work, component
    ensures Masks(work, component, occ, done, comp') && size' == |comp'|
    ensures Grown(distance, centre, comp0, comp', pushed')
    ensures Covered(occ, distance, done + comp', centre, Cell(i, j, k + 1))
    ensures comp <= comp' && comp' - comp <= {Cell(i, j, k)}
  {
    pushed', size', comp' := pushed, size, comp;
    var cell := Cell(i, j, k);
    if !Near(distance, centre, cell) {
      CoveredNextCell(occ, distance, done + comp, done + comp', centre, i, j, k);
      return;
    }
    if VoxelExist(work, i, j, k) {
      Take(work, component, cell, occ, done, comp);
      pushed' := pushed + [cell];
      comp' := comp + {cell};
      size' := size + 1;
    }
    CoveredNextCell(occ, distance, done + comp, done + comp', centre, i, j, k);
  }

  /** Passing cell (i, j, k) of the ball scan: covered up to it, and it removed if it is an occupied neighbour. */
  lemma CoveredNextCell(occ: set<Cell>, d: int, removed: set<Cell>, removed': set<Cell>, centre: Cell, i: int, j: int, k: int)
    requires removed <= removed' && Covered(occ, d, removed, centre, Cell(i, j, k))
    requires Cell(i, j, k) in occ && Near(d, centre, Cell(i, j, k)) ==> Cell(i, j, k) in removed'
    ensures Covered(occ, d, removed', centre, Cell(i, j, k + 1))
  {
  }

  /** The innermost loop: offsets (i, j, k) for every k of the box. */
  method ScanRow(work: array3<bool>, component: array3<bool>, centre: Cell, distance: int, i: int, j: int,
                 pushed: seq<Cell>, size: nat, ghost occ: set<Cell>, ghost done: set<Cell>, ghost comp0: set<Cell>,
                 ghost comp: set<Cell>)
    returns (pushed': seq<Cell>, size': nat, ghost comp': set<Cell>)
    requires distance > 0
    requires Masks(work, component, occ, done, comp) && size == |comp|
    requires Grown(distance, centre, comp0, comp, pushed)
    requires Covered(occ, distance, done + comp, centre, Cell(i, j, centre.z - distance))
    modifies work, component
    ensures Masks(work, component, occ, done, comp') && size' == |comp'|
    ensures Grown(distance, centre, comp0, comp', pushed')
    ensures Covered(occ, distance, done + comp', centre, Cell(i, j + 1, centre.z - distance))
  {
    pushed', size', comp' := pushed, size, comp;
    for k := centre.z - distance to centre.z + distance + 1
      invariant Masks(work, component, occ, done, comp') && size' == |comp'|
      invariant Grown(distance, centre, comp0, comp', pushed')
      invariant Covered(occ, distance, done + comp', centre, Cell(i, j, k))
    {
      pushed', size', comp' := Visit(work, component, centre, distance, i, j, k, pushed', size', occ, done, comp0, comp');
    }
    CoveredNextRow(occ, distance, done + comp', centre, i, j);
  }

  /** The middle loop: offsets (i, j, k) for every j and k of the box. */
  method ScanPlane(work: array3<bool>, component: array3<bool>, centre: Cell, distance: int, i: int,
                   pushed: seq<Cell>, size: nat, ghost occ: set<Cell>, ghost done: set<Cell>, ghost comp0: set<Cell>,
                   ghost comp: set<Cell>)
    returns (pushed': seq<Cell>, size': nat, ghost comp': set<Cell>)
    requires distance > 0
    requires Masks(work, component, occ, done, comp) && size == |comp|
    requires Grown(distance, centre, comp0, comp, pushed)
    requires Covered(occ, distance, done + comp, centre, Cell(i, centre.y - distance, centre.z - distance))
    modifies work, component
    ensures Masks(work, component, occ, done, comp') && size' == |comp'|
    ensures Grown(distance, centre, comp0, comp', pushed')
    ensures Covered(occ, distance, done + comp', centre, Cell(i + 1, centre.y - distance, centre.z - distance))
  {
    pushed', size', comp' := pushed, size, comp;
    for j := centre.y - distance to centre.y + distance + 1
      invariant Masks(work, component, occ, done, comp') && size' == |comp'|
      invariant Grown(distance, centre, comp0, comp', pushed')
      invariant Covered(occ, distance, done + comp', centre, Cell(i, j, centre.z - distance))
    {
      pushed', size', comp' := ScanRow(work, component, centre, distance, i, j, pushed', size', occ, done, comp0, comp');
    }
    CoveredNextPlane(occ, distance, done + comp', centre, i);
  }

  /**
   * The inner three loops of max_connected for one popped cell: every cell of
   * the box of half-width distance around centre that lies within the ball
   * and is still set in work is cleared there and set in component; pushed
   * lists them in scan order, for the caller to append to its stack.
   */
  method ExpandBall(work: array3<bool>, component: array3<bool>, centre: Cell, distance: int, size: nat,
                    ghost occ: set<Cell>, ghost done: set<Cell>, ghost comp: set<Cell>)
    returns (pushed: seq<Cell>, size': nat, ghost comp': set<Cell>)
    requires distance > 0
    requires Masks(work, component, occ, done, comp) && size == |comp|
    modifies work, component
    ensures Masks(work, component, occ, done, comp') && size' == |comp'|
    ensures Grown(distance, centre, comp, comp', pushed)
    ensures Expanded(occ, distance, done + comp', centre)
  {
    pushed, size', comp' := [], size, comp;
    CoveredStart(occ, distance, done + comp, centre);
    for i := centre.x - distance to centre.x + distance + 1
      invariant Masks(work, component, occ, done, comp') && size' == |comp'|
      invariant Grown(distance, centre, comp, comp', pushed)
      invariant Covered(occ, distance, done + comp', centre, Cell(i, centre.y - distance, centre.z - distance))
    {
      pushed, size', comp' := ScanPlane(work, component, centre, distance, i, pushed, size', occ, done, comp, comp');
    }
    CoveredAll(occ, distance, done + comp', centre);
  }

  lemma ExpandedGrow(occ: set<Cell>, d: int, removed: set<Cell>, removed': set<Cell>, c: Cell)
    requires removed <= removed' && Expanded(occ, d, removed, c)
    ensures Expanded(occ, d, removed', c)
  {
  }

  /**
   * The state of the flood fill from start: every cell of comp is reachable
   * from start, the stack holds cells of comp, and each cell of comp no longer
   * on the stack has had all its occupied neighbours removed.
   */
  ghost predicate Filling(occ: set<Cell>, d: int, done: set<Cell>, start: Cell, comp: set<Cell>, stack: seq<Cell>)
  {
    && start in comp
    && (forall c :: c in stack ==> c in comp)
    && (forall c :: c in comp ==> Linked(occ, d, start, c))
    && (forall c :: c in comp && c !in stack ==> Expanded(occ, d, done + comp, c))
  }

  /** Popping centre, expanding it and pushing what it took keeps the fill state. */
  lemma FillingStep(occ: set<Cell>, d: int, done: set<Cell>, start: Cell, comp0: set<Cell>, stack0: seq<Cell>,
                    comp: set<Cell>, pushed: seq<Cell>)
    requires Filling(occ, d, done, start, comp0, stack0) && |stack0| > 0 && comp <= occ
    requires Grown(d, stack0[|stack0| - 1], comp0, comp, pushed)
    requires Expanded(occ, d, done + comp, stack0[|stack0| - 1])
    ensures Filling(occ, d, done, start, comp, stack0[..|stack0| - 1] + pushed)
  {
    var centre := stack0[|stack0| - 1];
    var stack := stack0[..|stack0| - 1] + pushed;
    forall n | n in comp - comp0 ensures Linked(occ, d, start, n) {
      LinkedExtend(occ, d, start, centre, n);
    }
    forall c | c in comp && c !in stack ensures Expanded(occ, d, done + comp, c) {
      if c != centre {
        assert c in comp0 && c !in stack0;
        ExpandedGrow(occ, d, done + comp0, done + comp, c);
      }
    }
  }

  /** When the stack is empty the fill holds exactly the component of start. */
  lemma FillingDone(occ: set<Cell>, d: int, done: set<Cell>, start: Cell, comp: set<Cell>)
    requires Filling(occ, d, done, start, comp, []) && comp <= occ && done !! comp && Closed(occ, d, done)
    ensures comp == ComponentOf(occ, d, start)
  {
    forall c, n | c in comp && n in occ && Near(d, c, n) ensures n in comp {
      assert Expanded(occ, d, done + comp, c);
      NearSymmetric(d, c, n);
      assert n in done ==> c in done;
    }
    ComponentInsideClosed(occ, d, comp, start);
  }

  /** Growing the component shrinks what is left to fill. */
  lemma LeftShrinks(left: set<Cell>, comp0: set<Cell>, comp: set<Cell>)
    requires comp0 <= comp && comp != comp0 && comp <= left + comp0
    ensures |left - comp| < |left - comp0|
  {
    assert !(comp <= comp0);
    var n :| n in comp && n !in comp0;
    var small, big := left - comp, left - comp0;
    assert n in big - small;
    assert big == small + (big - small) && small !! (big - small);
    assert |big| == |small| + |big - small|;
  }

  /**
   * The flood fill of max_connected from one start cell: pop a cell, take
   * over its occupied neighbours that work still holds, push them, until the
   * stack is empty. The component built is exactly the connected component of
   * start among the occupied cells, and work loses exactly its cells.
   */
  method FloodFill(work: array3<bool>, start: Cell, distance: int, ghost occ: set<Cell>, ghost done: set<Cell>)
    returns (component: array3<bool>, size: nat)
    requires distance > 0
    requires Within(work, occ) && done <= occ && Closed(occ, distance, done)
    requires Marks(work, occ - done) && start in occ - done
    modifies work
    ensures fresh(component)
    ensures Masks(work, component, occ, done, ComponentOf(occ, distance, start))
    ensures size == |ComponentOf(occ, distance, start)|
  {
    component := new bool[work.Length0, work.Length1, work.Length2]((x, y, z) => false);
    var stack := [start];
    assert occ - done - {} == occ - done;
    Take(work, component, start, occ, done, {});
    ghost var comp := {start};
    size := 1;
    LinkedSelf(occ, distance, start);
    while |stack| > 0
      invariant fresh(component)
      invariant Masks(work, component, occ, done, comp) && size == |comp|
      invariant Filling(occ, distance, done, start, comp, stack)
      decreases |occ - done - comp|, |stack|
    {
      var centre := stack[|stack| - 1];
      ghost var stack0, comp0 := stack, comp;
      stack := stack[..|stack| - 1];
      var pushed;
      pushed, size, comp := ExpandBall(work, component, centre, distance, size, occ, done, comp);
      stack := stack + pushed;
      FillingStep(occ, distance, done, start, comp0, stack0, comp, pushed);
      if comp != comp0 {
        LeftShrinks(occ - done, comp0, comp);
      }
    }
    FillingDone(occ, distance, done, start, comp);
  }

  /**
   * The choice made so far by the start scan, up to the scan position bound:
   * best is the largest component of those taken (done), ties resolved in
   * favour of the one whose start cell, seed, came first.
   */
  ghost predicate Kept(occ: set<Cell>, d: int, done: set<Cell>, best: set<Cell>, seed: Cell, bound: Cell)
  {
    && best <= done && (done != {} ==> best != {})
    && (best != {} ==> seed in occ && best == ComponentOf(occ, d, seed) && Before(seed, bound))
    && (forall s :: s in done ==> |ComponentOf(occ, d, s)| <= |best|)
    && (forall s :: s in done && |ComponentOf(occ, d, s)| == |best| && ComponentOf(occ, d, s) != best ==>
          FoundFirst(best, ComponentOf(occ, d, s)))
  }

  /** A component larger than best replaces it. */
  lemma KeptReplaced(occ: set<Cell>, d: int, done: set<Cell>, best: set<Cell>, seed: Cell, start: Cell, next: Cell)
    requires Kept(occ, d, done, best, seed, start) && start in occ && Before(start, next)
    requires ComponentOf(occ, d, start) !! done && |ComponentOf(occ, d, start)| > |best|
    ensures Kept(occ, d, done + ComponentOf(occ, d, start), ComponentOf(occ, d, start), start, next)
  {
    var K := ComponentOf(occ, d, start);
    LinkedSelf(occ, d, start);
    forall s | s in K ensures ComponentOf(occ, d, s) == K {
      SameComponent(occ, d, start, s);
    }
  }

  /**
   * A component no larger than best leaves it in place; when it is as large,
   * its cells all come after best's start cell, since the scan reached its
   * own start cell later and every cell before that was already taken.
   */
  lemma KeptRetained(occ: set<Cell>, d: int, done: set<Cell>, best: set<Cell>, seed: Cell, start: Cell, next: Cell)
    requires Kept(occ, d, done, best, seed, start) && Scanned(occ, done, start)
    requires start in occ && Before(start, next)
    requires ComponentOf(occ, d, start) !! done && |ComponentOf(occ, d, start)| <= |best|
    ensures Kept(occ, d, done + ComponentOf(occ, d, start), best, seed, next)
  {
    var K := ComponentOf(occ, d, start);
    LinkedSelf(occ, d, start);
    forall s | s in K ensures ComponentOf(occ, d, s) == K {
      SameComponent(occ, d, start, s);
    }
    if |K| == |best| && K != best {
      forall c | c in K ensures Before(seed, c) {
        assert c in occ && c !in done;
      }
      LinkedSelf(occ, d, seed);
      assert seed in best;
    }
  }

  /**
   * The state of the start scan at position bound: work is the mask of the
   * occupied cells no component has taken yet, maxComponent the mask of best
   * and maxSize its size, and every occupied cell before bound is taken.
   */
  ghost predicate ScanState(work: array3<bool>, maxComponent: array3<bool>, occ: set<Cell>, d: int, done: set<Cell>,
                            best: set<Cell>, seed: Cell, maxSize: nat, bound: Cell)
    reads work, maxComponent
  {
    && work != maxComponent && SameShape(work, maxComponent)
    && Within(work, occ) && done <= occ && Closed(occ, d, done)
    && Marks(work, occ - done) && Marks(maxComponent, best) && maxSize == |best|
    && Scanned(occ, done, bound)
    && Kept(occ, d, done, best, seed, bound)
  }

  /**
   * A start cell still set in work: its component is filled and added to the
   * cells taken, and replaces the kept one only when strictly larger.
   */
  method FillFrom(work: array3<bool>, maxComponent: array3<bool>, x: int, y: int, z: int, distance: int,
                  maxSize: nat, ghost occ: set<Cell>, ghost done: set<Cell>, ghost best: set<Cell>, ghost seed: Cell)
    returns (maxComponent': array3<bool>, maxSize': nat, ghost done': set<Cell>, ghost best': set<Cell>,
             ghost seed': Cell)
    requires distance > 0 && InShape(work, x, y, z) && work[x, y, z]
    requires ScanState(work, maxComponent, occ, distance, done, best, seed, maxSize, Cell(x, y, z))
    modifies work
    ensures ScanState(work, maxComponent', occ, distance, done', best', seed', maxSize', Cell(x, y, z + 1))
    ensures done' == done + ComponentOf(occ, distance, Cell(x, y, z))
    ensures |ComponentOf(occ, distance, Cell(x, y, z))| > maxSize ==>
      fresh(maxComponent') && maxSize' == |ComponentOf(occ, distance, Cell(x, y, z))|
      && best' == ComponentOf(occ, distance, Cell(x, y, z)) && seed' == Cell(x, y, z)
    ensures |ComponentOf(occ, distance, Cell(x, y, z))| <= maxSize ==>
      maxComponent' == maxComponent && maxSize' == maxSize && best' == best && seed' == seed
  {
    maxComponent', maxSize', best', seed' := maxComponent, maxSize, best, seed;
    var start := Cell(x, y, z);
    var component, size := FloodFill(work, start, distance, occ, done);
    ghost var K := ComponentOf(occ, distance, start);
    done' := done + K;
    ComponentClosed(occ, distance, start);
    LinkedSelf(occ, distance, start);
    assert occ - done - K == occ - done';
    assert Marks(work, occ - done') && Closed(occ, distance, done') && Scanned(occ, done', Cell(x, y, z + 1));
    if size > maxSize {
      KeptReplaced(occ, distance, done, best, seed, start, Cell(x, y, z + 1));
      maxComponent', maxSize', best', seed' := component, size, K, start;
    } else {
      KeptRetained(occ, distance, done, best, seed, start, Cell(x, y, z + 1));
    }
  }

  /**
   * The body of the innermost start loop: a cell already cleared is skipped,
   * any other starts a new component (FillFrom).
   */
  method StartAt(work: array3<bool>, maxComponent: array3<bool>, x: int, y: int, z: int, distance: int,
                 maxSize: nat, ghost occ: set<Cell>, ghost done: set<Cell>, ghost best: set<Cell>, ghost seed: Cell)
    returns (maxComponent': array3<bool>, maxSize': nat, ghost done': set<Cell>, ghost best': set<Cell>,
             ghost seed': Cell)
    requires distance > 0 && InShape(work, x, y, z)
    requires ScanState(work, maxComponent, occ, distance, done, best, seed, maxSize, Cell(x, y, z))
    modifies work
    ensures ScanState(work, maxComponent', occ, distance, done', best', seed', maxSize', Cell(x, y, z + 1))
    ensures maxComponent' == maxComponent || fresh(maxComponent')
    ensures !old(work[x, y, z]) ==>
      maxComponent' == maxComponent && maxSize' == maxSize && done' == done && best' == best && seed' == seed
    ensures old(work[x, y, z]) ==> done' == done + ComponentOf(occ, distance, Cell(x, y, z))
    ensures old(work[x, y, z]) && |ComponentOf(occ, distance, Cell(x, y, z))| > maxSize ==>
      fresh(maxComponent') && maxSize' == |ComponentOf(occ, distance, Cell(x, y, z))|
      && best' == ComponentOf(occ, distance, Cell(x, y, z)) && seed' == Cell(x, y, z)
    ensures old(work[x, y, z]) && |ComponentOf(occ, distance, Cell(x, y, z))| <= maxSize ==>
      maxComponent' == maxComponent && maxSize' == maxSize && best' == best && seed' == seed
  {
    if !work[x, y, z] {
      assert Scanned(occ, done, Cell(x, y, z + 1)) by {
        assert Cell(x, y, z) !in occ - done;
      }
      return maxComponent, maxSize, done, best, seed;
    }
    maxComponent', maxSize', done', best', seed' :=
      FillFrom(work, maxComponent, x, y, z, distance, maxSize, occ, done, best, seed);
  }

  /** The loop over z of the start scan. */
  method ScanStartRow(work: array3<bool>, maxComponent: array3<bool>, x: int, y: int, distance: int,
                      maxSize: nat, ghost occ: set<Cell>, ghost done: set<Cell>, ghost best: set<Cell>, ghost seed: Cell)
    returns (maxComponent': array3<bool>, maxSize': nat, ghost done': set<Cell>, ghost best': set<Cell>,
             ghost seed': Cell)
    requires distance > 0 && 0 <= x < work.Length0 && 0 <= y < work.Length1
    requires ScanState(work, maxComponent, occ, distance, done, best, seed, maxSize, Cell(x, y, 0))
    modifies work
    ensures ScanState(work, maxComponent', occ, distance, done', best', seed', maxSize', Cell(x, y + 1, 0))
    ensures maxComponent' == maxComponent || fresh(maxComponent')
  {
    maxComponent', maxSize', done', best', seed' := maxComponent, maxSize, done, best, seed;
    for z := 0 to work.Length2
      invariant ScanState(work, maxComponent', occ, distance, done', best', seed', maxSize', Cell(x, y, z))
      invariant maxComponent' == maxComponent || fresh(maxComponent')
    {
      maxComponent', maxSize', done', best', seed' :=
        StartAt(work, maxComponent', x, y, z, distance, maxSize', occ, done', best', seed');
    }
  }

  /** The loop over y of the start scan. */
  method ScanStartPlane(work: array3<bool>, maxComponent: array3<bool>, x: int, distance: int,
                        maxSize: nat, ghost occ: set<Cell>, ghost done: set<Cell>, ghost best: set<Cell>, ghost seed: Cell)
    returns (maxComponent': array3<bool>, maxSize': nat, ghost done': set<Cell>, ghost best': set<Cell>,
             ghost seed': Cell)
    requires distance > 0 && 0 <= x < work.Length0
    requires ScanState(work, maxComponent, occ, distance, done, best, seed, maxSize, Cell(x, 0, 0))
    modifies work
    ensures ScanState(work, maxComponent', occ, distance, done', best', seed', maxSize', Cell(x + 1, 0, 0))
    ensures maxComponent' == maxComponent || fresh(maxComponent')
  {
    maxComponent', maxSize', done', best', seed' := maxComponent, maxSize, done, best, seed;
    for y := 0 to work.Length1
      invariant ScanState(work, maxComponent', occ, distance, done', best', seed', maxSize', Cell(x, y, 0))
      invariant maxComponent' == maxComponent || fresh(maxComponent')
    {
      maxComponent', maxSize', done', best', seed' :=
        ScanStartRow(work, maxComponent', x, y, distance, maxSize', occ, done', best', seed');
    }
  }

  /**
   * max_connected: the largest connected component of the occupied cells of
   * voxels, two cells being neighbours when their squared distance is at most
   * distance*distance. Among components of equal size the first one the scan
   * reaches is kept, and an empty grid gives an empty mask. The caller's grid
   * is only read: the fill works on a copy.
   */
  method MaxConnected(voxels: array3<bool>, distance: int) returns (maxComponent: array3<bool>)
    requires distance > 0
    ensures fresh(maxComponent) && SameShape(maxComponent, voxels)
    ensures Occupied(maxComponent) == {} <==> Occupied(voxels) == {}
    ensures Occupied(voxels) != {} ==> LargestFirst(Occupied(voxels), distance, Occupied(maxComponent))
    ensures Occupied(maxComponent) <= Occupied(voxels)
    ensures Closed(Occupied(voxels), distance, Occupied(maxComponent))
  {
    var n0, n1, n2 := voxels.Length0, voxels.Length1, voxels.Length2;
    maxComponent := new bool[n0, n1, n2]((x, y, z) => false);
    var work := new bool[n0, n1, n2]((x, y, z) reads voxels => if InShape(voxels, x, y, z) then voxels[x, y, z] else false);
    ghost var occ := Occupied(voxels);
    OccupiedMarks(voxels);
    ghost var done: set<Cell> := {};
    ghost var best: set<Cell> := {};
    ghost var seed := Cell(0, 0, 0);
    var maxSize := 0;
    assert occ - done == occ;
    for x := 0 to n0
      invariant ScanState(work, maxComponent, occ, distance, done, best, seed, maxSize, Cell(x, 0, 0))
      invariant fresh(maxComponent)
    {
      maxComponent, maxSize, done, best, seed :=
        ScanStartPlane(work, maxComponent, x, distance, maxSize, occ, done, best, seed);
    }
    assert done == occ;
    MarksOccupied(maxComponent, best);
    if occ != {} {
      LargestFirstIsClosedSubset(occ, distance, best);
    }
  }
}
