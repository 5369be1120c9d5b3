/**
 * The in-memory arrays that the voxel utilities take and return: a dense
 * three-dimensional grid of occupancy values, optionally stacked along a
 * leading batch axis, and the ways the utilities fail on them.
 */
module Grids {

  /**
   * A C-ordered 3D array of shape (nx, ny, nz). The extents are kept apart from
   * the nested sequences so that a grid with a zero extent still has a shape.
   */
  datatype Grid = Grid(nx: nat, ny: nat, nz: nat, cells: seq<seq<seq<real>>>)
  {
    /** The nested sequences have exactly the extents of the shape. */
    predicate Valid()
    {
      && |cells| == nx
      && (forall x :: 0 <= x < nx ==> |cells[x]| == ny)
      && (forall x, y :: 0 <= x < nx && 0 <= y < ny ==> |cells[x][y]| == nz)
    }

    /** The value stored at (x, y, z), read as 0.0 outside the array. */
    function At(x: int, y: int, z: int): real
    {
      if 0 <= x < |cells| && 0 <= y < |cells[x]| && 0 <= z < |cells[x][y]| then cells[x][y][z] else 0.0
    }

    predicate InBounds(x: int, y: int, z: int)
    {
      0 <= x < nx && 0 <= y < ny && 0 <= z < nz
    }

    /** Inside the shape of a valid grid, At reads the stored value. */
    lemma AtInBounds(x: int, y: int, z: int)
      requires Valid() && InBounds(x, y, z)
      ensures At(x, y, z) == cells[x][y][z]
    {
    }
  }

  /** A rank other than 3 and 4. */
  type OtherRank = n: nat | n != 3 && n != 4 witness 0

  /**
   * An array as handed to the utilities: a single grid, a batch of equally
   * shaped grids of shape (batch, nx, ny, nz), or an array of some other rank,
   * whose contents no utility looks at.
   */
  datatype Volume =
    | Single(grid: Grid)
    | Batch(nx: nat, ny: nat, nz: nat, slices: seq<Grid>)
    | Unsupported(ndim: OtherRank)
  {
    predicate Valid()
    {
      match this
      case Single(g) => g.Valid()
      case Batch(nx, ny, nz, slices) =>
        forall i :: 0 <= i < |slices| ==> slices[i].Valid() && slices[i].nx == nx && slices[i].ny == ny && slices[i].nz == nz
      case Unsupported(_) => true
    }

    function Ndim(): nat
    {
      match this
      case Single(_) => 3
      case Batch(_, _, _, _) => 4
      case Unsupported(n) => n
    }
  }

  /** The exceptions the utilities raise, named after the failing operation. */
  datatype Error =
    | StepNotPositive   // assertion `step > 0`
    | WrongRank         // assertion on the number of dimensions
    | UnknownMethod     // assertion that the pooling method is 'max' or 'mean'
    | EmptyRegions      // maximum of an empty label array: some extent is 0
    | ShapeMismatch     // the pooled values do not fill (nx/step, ny/step, nz/step)
    | EmptyBatch        // first slice of a batch of length 0

  datatype Result<T> = Success(value: T) | Failure(error: Error)
}
