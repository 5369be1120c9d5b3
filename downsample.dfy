/**
 * downsample: block pooling of a grid by an integer step, by maximum or by
 * mean, applied slice by slice to a batch.
 */
module Downsample {
  import opened Reduce
  import opened Grids

  datatype PoolMethod = MaxPool | MeanPool

  /** The pooling method named by the string argument: 'max' or 'mean'. */
  function ParseMethod(name: string): (r: Result<PoolMethod>)
    ensures r.Success? <==> name == "max" || name == "mean"
    ensures r.Success? ==> (r.value == MaxPool <==> name == "max")
    ensures r.Failure? ==> r.error == UnknownMethod
  {
    if name == "max" then Success(MaxPool)
    else if name == "mean" then Success(MeanPool)
    else Failure(UnknownMethod)
  }

  /** Cell (i, j, k) of block (a, b, c) is input cell (a*step + i, b*step + j, c*step + k). */
  function BlockTerm(g: Grid, step: nat, a: int, b: int, c: int): Term3
  {
    (i, j, k) => g.At(a * step + i, b * step + j, c * step + k)
  }

  /** The maximum or the mean of the step^3 cells of block (a, b, c). */
  function BlockValue(g: Grid, step: nat, m: PoolMethod, a: int, b: int, c: int): real
    requires step > 0
  {
    match m
    case MaxPool => Max3(step, step, step, BlockTerm(g, step, a, b, c))
    case MeanPool => Sum3(step, step, step, BlockTerm(g, step, a, b, c)) / (step * step * step) as real
  }

  /**
   * The labelled reduction of the 3D branch: the output has shape
   * (nx/step, ny/step, nz/step) and cell (a, b, c) is the pooled value of the
   * input cells (x, y, z) with x/step == a, y/step == b, z/step == c.
   */
  function Pool(g: Grid, step: nat, m: PoolMethod): (r: Grid)
    requires step > 0
    ensures r.Valid()
    ensures r.nx == g.nx / step && r.ny == g.ny / step && r.nz == g.nz / step
  {
    var nx, ny, nz := g.nx / step, g.ny / step, g.nz / step;
    Grid(nx, ny, nz, seq(nx, a => seq(ny, b => seq(nz, c => BlockValue(g, step, m, a, b, c)))))
  }

  /** Every extent is a multiple of step. */
  predicate Divisible(g: Grid, step: nat)
    requires step > 0
  {
    g.nx % step == 0 && g.ny % step == 0 && g.nz % step == 0
  }

  /**
   * The 3D branch for step > 1. With a zero extent the label array is empty and
   * taking its maximum fails; with an extent that step does not divide, the
   * label count differs from (nx/step)*(ny/step)*(nz/step) and the reshape fails.
   */
  function PoolGrid(g: Grid, step: nat, m: PoolMethod): (r: Result<Grid>)
    requires step > 1
    ensures r.Failure? <==> g.nx == 0 || g.ny == 0 || g.nz == 0 || !Divisible(g, step)
    ensures r.Failure? ==> (r.error == EmptyRegions <==> g.nx == 0 || g.ny == 0 || g.nz == 0)
    ensures r.Failure? ==> r.error in {EmptyRegions, ShapeMismatch}
    ensures r.Success? ==> r.value == Pool(g, step, m)
  {
    if g.nx == 0 || g.ny == 0 || g.nz == 0 then Failure(EmptyRegions)
    else if !Divisible(g, step) then Failure(ShapeMismatch)
    else Success(Pool(g, step, m))
  }

  /**
   * downsample: the three assertions in order, then step == 1 returns the input
   * itself, a 3D array is pooled, and a batch is pooled slice by slice into a
   * batch of the same length; the first slice is pooled before the result
   * array exists, so an empty batch fails on it.
   */
  method Downsample(voxels: Volume, step: int, methodName: string) returns (r: Result<Volume>)
    requires voxels.Valid()
    ensures step <= 0 ==> r == Failure(StepNotPositive)
    ensures step > 0 && voxels.Ndim() != 3 && voxels.Ndim() != 4 ==> r == Failure(WrongRank)
    ensures step > 0 && voxels.Unsupported? ==> r == Failure(WrongRank)
    ensures step > 0 && !voxels.Unsupported? && ParseMethod(methodName).Failure? ==> r == Failure(UnknownMethod)
    ensures step == 1 && !voxels.Unsupported? && ParseMethod(methodName).Success? ==> r == Success(voxels)
    ensures step > 1 && voxels.Single? && ParseMethod(methodName).Success? ==>
      var pooled := PoolGrid(voxels.grid, step, ParseMethod(methodName).value);
      r == if pooled.Success? then Success(Single(pooled.value)) else Failure(pooled.error)
    ensures step > 1 && voxels.Batch? && ParseMethod(methodName).Success? && |voxels.slices| == 0 ==>
      r == Failure(EmptyBatch)
    ensures step > 1 && voxels.Batch? && ParseMethod(methodName).Success? && |voxels.slices| > 0 ==>
      var pooled := PoolGrid(voxels.slices[0], step, ParseMethod(methodName).value);
      if pooled.Failure? then r == Failure(pooled.error)
      else
        && r.Success? && r.value.Batch? && r.value.Valid()
        && r.value.nx == voxels.nx / step && r.value.ny == voxels.ny / step && r.value.nz == voxels.nz / step
        && |r.value.slices| == |voxels.slices|
        && forall i :: 0 <= i < |voxels.slices| ==>
             r.value.slices[i] == Pool(voxels.slices[i], step, ParseMethod(methodName).value)
  {
    if step <= 0 {
      return Failure(StepNotPositive);
    }
    if voxels.Unsupported? {
      return Failure(WrongRank);
    }
    var parsed := ParseMethod(methodName);
    if parsed.Failure? {
      return Failure(UnknownMethod);
    }
    var m := parsed.value;
    if step == 1 {
      return Success(voxels);
    }
    match voxels
    case Single(g) =>
      var pooled := PoolGrid(g, step, m);
      if pooled.Failure? {
        return Failure(pooled.error);
      }
      return Success(Single(pooled.value));
    case Batch(nx, ny, nz, slices) =>
      if |slices| == 0 {
        return Failure(EmptyBatch);
      }
      var first := PoolGrid(slices[0], step, m);
      if first.Failure? {
        return Failure(first.error);
      }
      var res := new Grid[|slices|];
      res[0] := first.value;
      for ind := 1 to |slices|
        invariant res[0] == Pool(slices[0], step, m)
        invariant forall i :: 1 <= i < ind ==> res[i] == Pool(slices[i], step, m)
      {
        var pooled := PoolGrid(slices[ind], step, m);
        res[ind] := pooled.value;
      }
      return Success(Batch(nx / step, ny / step, nz / step, res[..]));
  }

  /** x lies in block a exactly when a*step <= x < a*step + step. */
  lemma BlockOfCell(x: int, step: int, a: int)
    requires 0 <= x && 0 < step
    ensures x / step == a <==> a * step <= x < a * step + step
  {
    var q, r := x / step, x % step;
    assert x == q * step + r && 0 <= r < step;
    if a * step <= x < a * step + step {
      if q < a {
        MultiplyMonotone(q + 1, a, step);
      } else if q > a {
        MultiplyMonotone(a + 1, q, step);
      }
    }
  }

  lemma MultiplyMonotone(a: int, b: int, c: int)
    requires a <= b && 0 <= c
    ensures a * c <= b * c
  {
    assert b * c - a * c == (b - a) * c;
  }

  /** The cells of block a < n/step all lie inside [0, n). */
  lemma BlockInside(n: nat, step: nat, a: int, i: int)
    requires 0 < step && 0 <= a < n / step && 0 <= i < step
    ensures 0 <= a * step + i < n
  {
    MultiplyMonotone(0, a, step);
    MultiplyMonotone(a + 1, n / step, step);
    assert (n / step) * step <= n;
  }

  /**
   * Max pooling: output cell (a, b, c) bounds every input cell (x, y, z) with
   * x/step == a, y/step == b, z/step == c, and one of those cells attains it.
   */
  lemma MaxPoolIsBlockMaximum(g: Grid, step: nat, a: nat, b: nat, c: nat) returns (x: nat, y: nat, z: nat)
    requires g.Valid() && step > 0
    requires a < g.nx / step && b < g.ny / step && c < g.nz / step
    ensures forall x, y, z :: g.InBounds(x, y, z) && x / step == a && y / step == b && z / step == c ==>
      g.cells[x][y][z] <= Pool(g, step, MaxPool).cells[a][b][c]
    ensures g.InBounds(x, y, z) && x / step == a && y / step == b && z / step == c
    ensures g.cells[x][y][z] == Pool(g, step, MaxPool).cells[a][b][c]
  {
    var t := BlockTerm(g, step, a, b, c);
    assert Pool(g, step, MaxPool).cells[a][b][c] == Max3(step, step, step, t);
    forall x, y, z | g.InBounds(x, y, z) && x / step == a && y / step == b && z / step == c
      ensures g.cells[x][y][z] <= Max3(step, step, step, t)
    {
      BlockOfCell(x, step, a);
      BlockOfCell(y, step, b);
      BlockOfCell(z, step, c);
      g.AtInBounds(x, y, z);
      assert t(x - a * step, y - b * step, z - c * step) == g.cells[x][y][z];
      Max3Bound(step, step, step, t, x - a * step, y - b * step, z - c * step);
    }
    var i, j, k := Max3IsMaximum(step, step, step, t);
    BlockInside(g.nx, step, a, i);
    BlockInside(g.ny, step, b, j);
    BlockInside(g.nz, step, c, k);
    x, y, z := a * step + i, b * step + j, c * step + k;
    BlockOfCell(x, step, a);
    BlockOfCell(y, step, b);
    BlockOfCell(z, step, c);
    g.AtInBounds(x, y, z);
  }

  /** A grid holding v everywhere pools to a grid holding v everywhere, by either method. */
  lemma UniformStaysUniform(g: Grid, step: nat, m: PoolMethod, v: real)
    requires g.Valid() && step > 0
    requires forall x, y, z :: g.InBounds(x, y, z) ==> g.cells[x][y][z] == v
    ensures forall a, b, c :: Pool(g, step, m).InBounds(a, b, c) ==> Pool(g, step, m).cells[a][b][c] == v
  {
    var r := Pool(g, step, m);
    forall a, b, c | r.InBounds(a, b, c) ensures r.cells[a][b][c] == v {
      var t := BlockTerm(g, step, a, b, c);
      forall i, j, k | 0 <= i < step && 0 <= j < step && 0 <= k < step ensures t(i, j, k) == v {
        BlockInside(g.nx, step, a, i);
        BlockInside(g.ny, step, b, j);
        BlockInside(g.nz, step, c, k);
        g.AtInBounds(a * step + i, b * step + j, c * step + k);
      }
      match m
      case MaxPool =>
        var i, j, k := Max3IsMaximum(step, step, step, t);
        assert Max3(step, step, step, t) == v;
      case MeanPool =>
        Sum3Constant(step, step, step, t, v);
        CubeMean(step, v);
    }
  }

  /** step^3 copies of v have mean v. */
  lemma CubeMean(step: nat, v: real)
    requires step > 0
    ensures step as real * (step as real * (step as real * v)) / (step * step * step) as real == v
  {
    var s := step as real;
    CubeCast(step);
    assert s * (s * (s * v)) == (s * s * s) * v;
  }

  lemma CubeCast(step: nat)
    ensures (step * step * step) as real == step as real * step as real * step as real
  {
    var s := step as real;
    assert (step * step) as real == s * s;
    assert (step * step * step) as real == (step * step) as real * s;
  }

  /** With step 1 every block is a single cell, so pooling gives back the grid. */
  lemma PoolStepOneIsIdentity(g: Grid, m: PoolMethod)
    requires g.Valid()
    ensures Pool(g, 1, m) == g
  {
    var r := Pool(g, 1, m);
    forall a, b, c | g.InBounds(a, b, c) ensures r.cells[a][b][c] == g.cells[a][b][c] {
      var t := BlockTerm(g, 1, a, b, c);
      g.AtInBounds(a, b, c);
      assert t(0, 0, 0) == g.cells[a][b][c];
      match m
      case MaxPool =>
        var i, j, k := Max3IsMaximum(1, 1, 1, t);
      case MeanPool =>
        Sum3Single(1, 1, 1, t, 0, 0, 0);
    }
    forall a, b | 0 <= a < g.nx && 0 <= b < g.ny ensures r.cells[a][b] == g.cells[a][b] {
    }
    forall a | 0 <= a < g.nx ensures r.cells[a] == g.cells[a] {
    }
  }

  /** Each mean-pooled cell is at most the max-pooled cell of the same block. */
  lemma MeanPoolAtMostMaxPool(g: Grid, step: nat, a: nat, b: nat, c: nat)
    requires g.Valid() && step > 0
    requires a < g.nx / step && b < g.ny / step && c < g.nz / step
    ensures Pool(g, step, MeanPool).cells[a][b][c] <= Pool(g, step, MaxPool).cells[a][b][c]
  {
    var t := BlockTerm(g, step, a, b, c);
    var m := Max3(step, step, step, t);
    forall i, j, k | 0 <= i < step && 0 <= j < step && 0 <= k < step ensures t(i, j, k) <= m {
      Max3Bound(step, step, step, t, i, j, k);
    }
    var top: Term3 := (i, j, k) => m;
    Sum3Monotone(step, step, step, t, top);
    Sum3Constant(step, step, step, top, m);
    CubeMeanBound(step, Sum3(step, step, step, t), m);
  }

  lemma CubeMeanBound(step: nat, total: real, m: real)
    requires step > 0 && total <= step as real * (step as real * (step as real * m))
    ensures total / (step * step * step) as real <= m
  {
    var s := step as real;
    CubeCast(step);
    assert s * (s * (s * m)) == (s * s * s) * m;
    assert s * s * s > 0.0;
  }
}
