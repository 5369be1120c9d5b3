# Voxel-grid utilities, modelled in Dafny

This project models the numerical core of the voxel visualisation utilities in
`visualization/python/util.py`. Those utilities take a dense 3D occupancy grid,
or a batch of such grids, and do four jobs:

- they convert a box between the centre+size form and the lower+upper-corner
  form (`blocktrans_cen2side`, `blocktrans_side2cen6`);
- they compute a thresholded centre of mass (`center_of_mass`);
- they pool a grid by an integer step, taking the maximum or the mean of each
  block (`downsample`);
- they keep the largest connected component of a boolean grid, using a
  stack-based flood fill over a Euclidean neighbourhood (`max_connected`, which
  calls `voxel_exist`).

Files:

- `grids.dfy` (module `Grids`): the data model. It has a grid with its shape,
  a batch of grids, an array of some other rank, the errors the utilities
  raise, and a `Result` type.
- `reduce.dfy` (module `Reduce`): finite sums and maxima over index ranges and
  over 3D boxes. It proves the rearrangement, monotonicity and single-term
  facts that the other modules use.
- `box_transform.dfy` (module `BoxTransform`): the two box conversions and
  their round trips.
- `center_of_mass.dfy` (module `CenterOfMass`): the centroid, its fallback and
  its meaning.
- `downsample.dfy` (module `Downsample`): block pooling as a function; the
  batch branch as a method with a loop that fills the result array.
- `connectivity.dfy` (module `Connectivity`): the specification of
  `max_connected`. It defines neighbourhood, walks, connected components, the
  scan order, and "the largest component, ties going to the one found first".
- `max_connected.dfy` (module `VoxelMask`): `voxel_exist`, plus the flood fill
  as imperative code over `array3<bool>`. It has a working copy, a component
  mask, a `seq` stack and the six nested loops, each loop with its invariants.

Numbers are Dafny `real`, so sums and divisions are exact. Python 2's integer
`/` is written out where the source divides integers: the halved shape in the
`center_of_mass` fallback, and the block index `x/step` in `downsample`.

Two consequences of the code are worth stating:

- `blocktrans_side2cen6([0, 1, 2, 3, 3, 7])` gives a z-size of `|7 - 2| = 5`.
  `BoxTransform.ConversionExamples` states this.
- The `center_of_mass` fallback is `length / 2` with Python 2's integer
  division (`visualization/python/util.py:81`), so an odd extent rounds down.

## Model

| member | source | states |
|---|---|---|
| BoxTransform.CenToSide | visualization/python/util.py:40-52 | the result has six entries; on each axis the upper corner minus the lower corner is the size, and the corners are symmetric about the centre |
| BoxTransform.SideToCen6 | visualization/python/util.py:54-66 | sizes are never negative; centre minus and plus half the size give back the smaller and the larger of the two corners, so the corners may come in either order |
| BoxTransform.CenterRoundTrip | visualization/python/util.py:40-66 | centre to corners to centre keeps the centre and makes each size its absolute value; it is the identity exactly when no size is negative |
| BoxTransform.SideRoundTrip | visualization/python/util.py:40-66 | corners to centre to corners sorts each axis's pair; it is the identity exactly when each lower entry is at most its upper entry |
| BoxTransform.ConversionExamples | visualization/python/util.py:40-66 | the concrete conversions of the unit tests, with the z-size 5 that the code computes |
| CenterOfMass.CenterOfMass | visualization/python/util.py:69-88 | fails with a rank error exactly when the array is not 3D; otherwise it gives the thresholded centroid |
| CenterOfMass.MarginalsAddUp | visualization/python/util.py:78-86 | the per-axis sums `sum(1).sum(1)`, `sum(0).sum(1)` and `sum(0).sum(0)` each add up to the filtered total |
| CenterOfMass.FallbackWhenNothingSurvives | visualization/python/util.py:75-81 | when every cell is below the threshold or zero, the total is 0 and the result is the shape halved with integer division |
| CenterOfMass.SingleVoxelCentroid | visualization/python/util.py:75-86 | a grid whose only non-zero cell (x, y, z) survives the threshold has centre exactly (x, y, z) |
| CenterOfMass.CentroidInsideGrid | visualization/python/util.py:75-86 | with non-negative surviving values and a non-zero total, each coordinate lies between 0 and extent - 1 |
| CenterOfMass.FaintCellsIgnored | visualization/python/util.py:75-76 | grids that differ only in cells below the threshold have the same centre |
| Downsample.ParseMethod | visualization/python/util.py:98 | only 'max' and 'mean' are accepted; anything else is the method error |
| Downsample.Pool | visualization/python/util.py:102-111 | the pooled grid is well formed and has shape (nx/step, ny/step, nz/step) |
| Downsample.PoolGrid | visualization/python/util.py:102-111 | for step > 1, a zero extent fails on the empty label array, an extent that step does not divide fails on the reshape, and otherwise the result is the pooled grid |
| Downsample.Downsample | visualization/python/util.py:90-118 | the three assertions in order, step 1 returning the input itself, the 3D case pooled, and a batch pooled slice by slice into a batch of the same length; an empty batch fails |
| Downsample.MaxPoolIsBlockMaximum | visualization/python/util.py:104-107 | a max-pooled cell bounds every input cell of its block (x/step = a, y/step = b, z/step = c) and equals one of them |
| Downsample.UniformStaysUniform | visualization/python/util.py:104-110 | a grid holding one value everywhere pools to a grid holding that value everywhere, by either method |
| Downsample.PoolStepOneIsIdentity | visualization/python/util.py:99-110 | pooling with step 1 gives back the grid, so the early return for step 1 agrees with pooling |
| Downsample.MeanPoolAtMostMaxPool | visualization/python/util.py:104-109 | each mean-pooled cell is at most the max-pooled cell of the same block |
| Connectivity.NearSymmetric | visualization/python/util.py:144 | the ball test treats the two cells alike |
| Connectivity.NearWithinBox | visualization/python/util.py:141-145 | every neighbour lies in the box the three loops scan |
| Connectivity.LinkedSymmetric | visualization/python/util.py:139-149 | a walk between occupied neighbours can be taken backwards |
| Connectivity.PathStaysIn | visualization/python/util.py:139-149 | a walk that starts in a closed set stays in it |
| Connectivity.ComponentClosed | visualization/python/util.py:139-149 | a component has no occupied neighbour outside it |
| Connectivity.ComponentInsideClosed | visualization/python/util.py:139-149 | a closed set that holds a cell holds that cell's whole component |
| Connectivity.SameComponent | visualization/python/util.py:139-149 | every cell of a component has that same component |
| Connectivity.ComponentsDisjointOrEqual | visualization/python/util.py:129-149 | two components are disjoint or equal, so the fills of different start cells never overlap |
| Connectivity.NeighboursShareComponent | visualization/python/util.py:144-149 | occupied neighbours are in the same component |
| Connectivity.LargestFirstIsClosedSubset | visualization/python/util.py:120-152 | the kept component is a non-empty subset of the input that is closed under neighbourhood |
| Connectivity.LargestFirstUnique | visualization/python/util.py:150-151 | largest-size plus first-found fixes the result uniquely |
| VoxelMask.VoxelExist | visualization/python/util.py:155-165 | false when a coordinate is negative or reaches its extent; otherwise the stored value |
| VoxelMask.VoxelExistIsMembership | visualization/python/util.py:155-165 | the lookup is membership in the set of occupied cells |
| VoxelMask.MarksOccupied | visualization/python/util.py:127-152 | a mask of a set of in-bounds cells has exactly that set as its occupied cells |
| VoxelMask.Take | visualization/python/util.py:147-148 | clearing a cell in the working copy and setting it in the component moves it from the cells left to the component |
| VoxelMask.Visit | visualization/python/util.py:144-149 | one offset: outside the ball it is skipped; otherwise it is taken over if the working copy still holds it. No other cell changes hands, and the passed part of the ball stays fully taken |
| VoxelMask.ScanRow | visualization/python/util.py:143-149 | the loop over k keeps the masks and the push list in step and covers one more row of the ball |
| VoxelMask.ScanPlane | visualization/python/util.py:142-149 | the loop over j keeps the masks and the push list in step and covers one more plane of the ball |
| VoxelMask.ExpandBall | visualization/python/util.py:141-149 | after the three loops every occupied neighbour of the popped cell is taken; the pushed cells are exactly those newly taken, each a neighbour |
| VoxelMask.FillingStep | visualization/python/util.py:139-149 | popping, expanding and pushing keeps every component cell reachable from the start and every cell off the stack fully expanded |
| VoxelMask.FillingDone | visualization/python/util.py:139-149 | once the stack is empty the cells taken are exactly the connected component of the start cell |
| VoxelMask.FloodFill | visualization/python/util.py:135-149 | the component mask is the start cell's connected component, its size is counted, and the working copy loses exactly those cells |
| VoxelMask.KeptReplaced | visualization/python/util.py:150-151 | a strictly larger component becomes the kept one |
| VoxelMask.KeptRetained | visualization/python/util.py:150-151 | a component no larger is dropped; when it is as large, the kept one's start cell precedes all its cells in scan order |
| VoxelMask.FillFrom | visualization/python/util.py:134-151 | a start cell still set: its component is filled and added to the cells taken, and it replaces the kept component, size and start cell exactly when strictly larger; the scan state moves one cell further on |
| VoxelMask.StartAt | visualization/python/util.py:131-151 | one start cell. A cell already cleared is skipped and leaves the scan state as it was. Otherwise its component is added to the cells taken, and it replaces the kept component, size and start cell exactly when strictly larger. The scan state moves one cell further on |
| VoxelMask.ScanStartRow | visualization/python/util.py:131-151 | the loop over start_z advances the scan state by one row |
| VoxelMask.ScanStartPlane | visualization/python/util.py:130-151 | the loop over start_y advances the scan state by one plane |
| VoxelMask.MaxConnected | visualization/python/util.py:120-152 | requires distance > 0 and only reads the input. The result is a new array with the input's shape. It is empty exactly when the input is, and is a closed subset of the input. It is the largest component, and among equally large ones the first the scan reaches |

## Left out

- `read_tensor` (file loading through `loadmat`), `sigmoid` (floating-point
  `exp`) and the `print` diagnostic of `center_of_mass` are not modelled. They
  are I/O, or floating point with no exact model.
- `visualization/python/util_vtk.py` and `visualization/python/visualize.py` are
  not part of this model. They are rendering and command-line plumbing around
  foreign libraries.
- The model works on exact reals. It does not capture floating-point rounding
  in sums, means and divisions, or the integer division Python 2 would apply to
  an integer-typed grid in `center_of_mass`.
- Downsample.Pool: states the meaning of `ndimage.maximum`/`ndimage.mean` over
  the block labels directly. The label arithmetic and the `ndimage` internals
  are not modelled. The reshape failure for an extent that `step` does not
  divide is modelled as a failure, not as a shape.
- VoxelMask.VoxelExist: modelled on boolean grids only, which are the grids
  `max_connected` passes it.
- VoxelMask.MaxConnected: the input is an `array3<bool>`; other dtypes, and
  their truthiness in `if not voxels[...]`, are not modelled.
- VoxelMask.MaxConnected: `component.sum()` and `max_component.sum()` are the
  running counts of cells the fill takes. Each cell is taken once, so the
  counts equal the sums.
- VoxelMask.ExpandBall: returns the cells it takes, in the order the loops
  reach them, and the caller appends them to the stack. The source appends
  each cell as it is taken, so the stack contents are the same. The contract
  does not state that order: the visiting order has no effect on the
  component found.
- VoxelMask.MaxConnected: the source assigns `max_component = component`,
  which aliases the component array. The model does the same. Every new
  component is a fresh array, so the aliasing is not observable.
- CenterOfMass.CenterOfMass: the threshold is always passed explicitly. The
  default `threshold=0.1` of `visualization/python/util.py:69` is not modelled.
- Downsample.Downsample: the method name is always passed explicitly. The
  default `method='max'` of `visualization/python/util.py:90` is not modelled.
- BoxTransform.CenToSide: requires at least six entries. The `IndexError` that
  a shorter list raises at `visualization/python/util.py:44-49` is not
  modelled as a failure.
- BoxTransform.SideToCen6: requires at least six entries. The `IndexError` that
  a shorter list raises at `visualization/python/util.py:58-59` is not
  modelled as a failure.
- VoxelMask.MaxConnected: `assert distance > 0`
  (`visualization/python/util.py:126`) is a precondition. The
  `AssertionError` it raises is not modelled as a result.
