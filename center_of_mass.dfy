/**
 * center_of_mass: the occupancy-weighted centroid of a grid after cells below
 * a threshold are zeroed, with the halved shape as fallback when nothing is left.
 */
module CenterOfMass {
  import opened Reduce
  import opened Grids

  /** A cell below the threshold is set to 0; any other value is kept as is. */
  function Filtered(v: real, threshold: real): real
  {
    if v < threshold then 0.0 else v
  }

  /** The filtered copy of the grid, as a term over the index box. */
  function FilteredTerm(g: Grid, threshold: real): Term3
  {
    (x, y, z) => Filtered(g.At(x, y, z), threshold)
  }

  /** The sum of the filtered copy. */
  function Total(g: Grid, threshold: real): real
  {
    Sum3(g.nx, g.ny, g.nz, FilteredTerm(g, threshold))
  }

  /** The filtered copy summed over y and z, as a function of x. */
  function MarginalX(g: Grid, threshold: real): int -> real
  {
    SliceSums(g.ny, g.nz, FilteredTerm(g, threshold))
  }

  /** The filtered copy summed over x and z, as a function of y. */
  function MarginalY(g: Grid, threshold: real): int -> real
  {
    SliceSums(g.nx, g.nz, SwapXY(FilteredTerm(g, threshold)))
  }

  /** The filtered copy summed over x and y, as a function of z. */
  function MarginalZ(g: Grid, threshold: real): int -> real
  {
    SliceSums(g.nx, g.ny, RotateZ(FilteredTerm(g, threshold)))
  }

  /** The halved shape, with Python 2's integer division (odd extents round down). */
  function HalfShape(g: Grid): seq<real>
  {
    [(g.nx / 2) as real, (g.ny / 2) as real, (g.nz / 2) as real]
  }

  /**
   * The centroid of a 3D grid: each coordinate is the first moment of that
   * axis's marginal divided by the filtered total, or the halved shape when
   * the total is 0.
   */
  function Centroid(g: Grid, threshold: real): (center: seq<real>)
    requires g.Valid()
    ensures |center| == 3
  {
    var total := Total(g, threshold);
    if total == 0.0 then HalfShape(g)
    else
      [ Moment(g.nx, MarginalX(g, threshold)) / total,
        Moment(g.ny, MarginalY(g, threshold)) / total,
        Moment(g.nz, MarginalZ(g, threshold)) / total ]
  }

  /** center_of_mass: only a 3D array is accepted. */
  function CenterOfMass(v: Volume, threshold: real): (r: Result<seq<real>>)
    requires v.Valid()
    ensures r.Failure? <==> v.Ndim() != 3
    ensures r.Failure? ==> r.error == WrongRank
    ensures r.Success? ==> v.Single? && r.value == Centroid(v.grid, threshold)
  {
    match v
    case Single(g) => Success(Centroid(g, threshold))
    case _ => Failure(WrongRank)
  }

  /** The marginal along each axis adds up to the total. */
  lemma MarginalsAddUp(g: Grid, threshold: real)
    ensures Sum(g.nx, MarginalX(g, threshold)) == Total(g, threshold)
    ensures Sum(g.ny, MarginalY(g, threshold)) == Total(g, threshold)
    ensures Sum(g.nz, MarginalZ(g, threshold)) == Total(g, threshold)
  {
    Sum3SwapXY(g.nx, g.ny, g.nz, FilteredTerm(g, threshold));
    Sum3RotateZ(g.nx, g.ny, g.nz, FilteredTerm(g, threshold));
  }

  /**
   * When every cell is either below the threshold or zero, the filtered total
   * is 0 and the result is the halved shape; in particular an all-zero grid
   * gives the halved shape for every threshold.
   */
  lemma FallbackWhenNothingSurvives(g: Grid, threshold: real)
    requires g.Valid()
    requires forall x, y, z :: g.InBounds(x, y, z) ==> g.cells[x][y][z] < threshold || g.cells[x][y][z] == 0.0
    ensures Total(g, threshold) == 0.0
    ensures Centroid(g, threshold) == HalfShape(g)
  {
    Sum3Zero(g.nx, g.ny, g.nz, FilteredTerm(g, threshold));
  }

  /**
   * A grid whose only non-zero cell is (x0, y0, z0), holding a value that
   * survives the threshold, has its centroid exactly at that cell.
   */
  lemma SingleVoxelCentroid(g: Grid, threshold: real, x0: nat, y0: nat, z0: nat)
    requires g.Valid() && g.InBounds(x0, y0, z0)
    requires g.cells[x0][y0][z0] != 0.0 && threshold <= g.cells[x0][y0][z0]
    requires forall x, y, z :: g.InBounds(x, y, z) && (x, y, z) != (x0, y0, z0) ==> g.cells[x][y][z] == 0.0
    ensures Centroid(g, threshold) == [x0 as real, y0 as real, z0 as real]
  {
    var t := FilteredTerm(g, threshold);
    var v := g.cells[x0][y0][z0];
    SingleVoxelTerm(g, threshold, x0, y0, z0);
    Sum3Single(g.nx, g.ny, g.nz, t, x0, y0, z0);
    assert Total(g, threshold) == v;
    SingleVoxelAxis(g.nx, MarginalX(g, threshold), x0, v);
    SingleVoxelMarginalY(g, threshold, x0, y0, z0);
    SingleVoxelAxis(g.ny, MarginalY(g, threshold), y0, v);
    SingleVoxelMarginalZ(g, threshold, x0, y0, z0);
    SingleVoxelAxis(g.nz, MarginalZ(g, threshold), z0, v);
  }

  /** The filtered copy of a single-voxel grid keeps only that voxel. */
  lemma SingleVoxelTerm(g: Grid, threshold: real, x0: nat, y0: nat, z0: nat)
    requires g.Valid() && g.InBounds(x0, y0, z0)
    requires threshold <= g.cells[x0][y0][z0]
    requires forall x, y, z :: g.InBounds(x, y, z) && (x, y, z) != (x0, y0, z0) ==> g.cells[x][y][z] == 0.0
    ensures FilteredTerm(g, threshold)(x0, y0, z0) == g.cells[x0][y0][z0]
    ensures forall x, y, z :: g.InBounds(x, y, z) && (x, y, z) != (x0, y0, z0) ==> FilteredTerm(g, threshold)(x, y, z) == 0.0
  {
  }

  lemma SingleVoxelMarginalY(g: Grid, threshold: real, x0: nat, y0: nat, z0: nat)
    requires g.InBounds(x0, y0, z0)
    requires forall x, y, z :: g.InBounds(x, y, z) && (x, y, z) != (x0, y0, z0) ==> FilteredTerm(g, threshold)(x, y, z) == 0.0
    ensures forall y :: 0 <= y < g.ny ==> MarginalY(g, threshold)(y) == if y == y0 then FilteredTerm(g, threshold)(x0, y0, z0) else 0.0
  {
    Sum3Single(g.ny, g.nx, g.nz, SwapXY(FilteredTerm(g, threshold)), y0, x0, z0);
  }

  lemma SingleVoxelMarginalZ(g: Grid, threshold: real, x0: nat, y0: nat, z0: nat)
    requires g.InBounds(x0, y0, z0)
    requires forall x, y, z :: g.InBounds(x, y, z) && (x, y, z) != (x0, y0, z0) ==> FilteredTerm(g, threshold)(x, y, z) == 0.0
    ensures forall z :: 0 <= z < g.nz ==> MarginalZ(g, threshold)(z) == if z == z0 then FilteredTerm(g, threshold)(x0, y0, z0) else 0.0
  {
    Sum3Single(g.nz, g.nx, g.ny, RotateZ(FilteredTerm(g, threshold)), z0, x0, y0);
  }

  /** A marginal that is v at k and 0 elsewhere has weighted mean k. */
  lemma SingleVoxelAxis(n: nat, marginal: int -> real, k: nat, v: real)
    requires k < n && v != 0.0
    requires forall i :: 0 <= i < n ==> marginal(i) == if i == k then v else 0.0
    ensures Moment(n, marginal) / v == k as real
  {
    MomentSingle(n, marginal, k);
  }

  /**
   * When every value that survives the threshold is non-negative (always the
   * case for a threshold >= 0) and the total is not 0, each coordinate of the
   * centroid lies within [0, extent - 1] on its axis.
   */
  lemma CentroidInsideGrid(g: Grid, threshold: real)
    requires g.Valid()
    requires forall x, y, z :: g.InBounds(x, y, z) ==> g.cells[x][y][z] < threshold || 0.0 <= g.cells[x][y][z]
    requires Total(g, threshold) != 0.0
    ensures 0.0 <= Centroid(g, threshold)[0] <= (g.nx - 1) as real
    ensures 0.0 <= Centroid(g, threshold)[1] <= (g.ny - 1) as real
    ensures 0.0 <= Centroid(g, threshold)[2] <= (g.nz - 1) as real
  {
    var t := FilteredTerm(g, threshold);
    var total := Total(g, threshold);
    MarginalsAddUp(g, threshold);
    Sum3NonNegative(g.nx, g.ny, g.nz, t);
    Sum3NonNegative(g.ny, g.nx, g.nz, SwapXY(t));
    Sum3NonNegative(g.nz, g.nx, g.ny, RotateZ(t));
    AxisInside(g.nx, MarginalX(g, threshold), total);
    AxisInside(g.ny, MarginalY(g, threshold), total);
    AxisInside(g.nz, MarginalZ(g, threshold), total);
  }

  /** The weighted mean index of a non-negative marginal with a non-zero sum lies in [0, n - 1]. */
  lemma AxisInside(n: nat, marginal: int -> real, total: real)
    requires forall i :: 0 <= i < n ==> 0.0 <= marginal(i)
    requires Sum(n, marginal) == total && total != 0.0
    ensures 0.0 <= Moment(n, marginal) / total <= (n - 1) as real
  {
    SumNonNegative(n, marginal);
    MomentBounds(n, marginal);
    DivideBounds(Moment(n, marginal), (n - 1) as real, total);
  }

  lemma DivideBounds(a: real, c: real, total: real)
    requires 0.0 < total && 0.0 <= a <= c * total
    ensures 0.0 <= a / total <= c
  {
  }

  /**
   * Cells below the threshold contribute nothing: two grids of the same shape
   * that differ only in cells where both values are below the threshold have
   * the same centroid.
   */
  lemma FaintCellsIgnored(g: Grid, h: Grid, threshold: real)
    requires g.Valid() && h.Valid() && g.nx == h.nx && g.ny == h.ny && g.nz == h.nz
    requires forall x, y, z :: g.InBounds(x, y, z) && g.cells[x][y][z] != h.cells[x][y][z] ==>
      g.cells[x][y][z] < threshold && h.cells[x][y][z] < threshold
    ensures Centroid(g, threshold) == Centroid(h, threshold)
  {
    var t, u := FilteredTerm(g, threshold), FilteredTerm(h, threshold);
    FaintCellsFilterEqual(g, h, threshold);
    Sum3Congruent(g.nx, g.ny, g.nz, t, u);
    Sum3Congruent(g.ny, g.nx, g.nz, SwapXY(t), SwapXY(u));
    Sum3Congruent(g.nz, g.nx, g.ny, RotateZ(t), RotateZ(u));
    MomentCongruent(g.nx, MarginalX(g, threshold), MarginalX(h, threshold));
    MomentCongruent(g.ny, MarginalY(g, threshold), MarginalY(h, threshold));
    MomentCongruent(g.nz, MarginalZ(g, threshold), MarginalZ(h, threshold));
  }

  lemma FaintCellsFilterEqual(g: Grid, h: Grid, threshold: real)
    requires g.Valid() && h.Valid() && g.nx == h.nx && g.ny == h.ny && g.nz == h.nz
    requires forall x, y, z :: g.InBounds(x, y, z) && g.cells[x][y][z] != h.cells[x][y][z] ==>
      g.cells[x][y][z] < threshold && h.cells[x][y][z] < threshold
    ensures forall x, y, z :: 0 <= x < g.nx && 0 <= y < g.ny && 0 <= z < g.nz ==>
      FilteredTerm(g, threshold)(x, y, z) == FilteredTerm(h, threshold)(x, y, z)
  {
  }

  lemma MomentCongruent(n: nat, t: int -> real, u: int -> real)
    requires forall i :: 0 <= i < n ==> t(i) == u(i)
    ensures Moment(n, t) == Moment(n, u)
  {
    SumCongruent(n, Weighted(t), Weighted(u));
  }
}
