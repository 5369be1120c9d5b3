/**
 * Exact reductions over an index range [0, n): the sums and maxima that the
 * array library computes for `sum()`, `ndimage.mean` and `ndimage.maximum`.
 * Values are reals, so every sum is exact and independent of summation order.
 */
module Reduce {

  /** The sum t(0) + t(1) + ... + t(n - 1). */
  function Sum(n: nat, t: int -> real): real
  {
    if n == 0 then 0.0 else Sum(n - 1, t) + t(n - 1)
  }

  /** The largest of t(0), ..., t(n - 1); the range must not be empty. */
  function MaxOf(n: nat, t: int -> real): real
    requires n > 0
  {
    if n == 1 then t(0)
    else
      var rest := MaxOf(n - 1, t);
      if rest < t(n - 1) then t(n - 1) else rest
  }

  /** MaxOf is an upper bound of the terms that one of them attains. */
  lemma {:induction false} MaxOfIsMaximum(n: nat, t: int -> real) returns (k: int)
    requires n > 0
    ensures forall i :: 0 <= i < n ==> t(i) <= MaxOf(n, t)
    ensures 0 <= k < n && t(k) == MaxOf(n, t)
  {
    if n == 1 {
      k := 0;
    } else {
      k := MaxOfIsMaximum(n - 1, t);
      if MaxOf(n - 1, t) < t(n - 1) {
        k := n - 1;
      }
    }
  }

  /** Sums only depend on the terms inside the range. */
  lemma {:induction false} SumCongruent(n: nat, t: int -> real, u: int -> real)
    requires forall i :: 0 <= i < n ==> t(i) == u(i)
    ensures Sum(n, t) == Sum(n, u)
  {
    if n > 0 {
      SumCongruent(n - 1, t, u);
    }
  }

  /** n equal terms c sum to n * c. */
  lemma {:induction false} SumConstant(n: nat, t: int -> real, c: real)
    requires forall i :: 0 <= i < n ==> t(i) == c
    ensures Sum(n, t) == n as real * c
  {
    if n > 0 {
      SumConstant(n - 1, t, c);
      assert Sum(n, t) == Sum(n - 1, t) + t(n - 1);
      assert (n - 1) as real * c + c == n as real * c;
    }
  }

  /** When every term but t(k) is zero, the sum is t(k). */
  lemma {:induction false} SumSingle(n: nat, t: int -> real, k: int)
    requires 0 <= k < n
    requires forall i :: 0 <= i < n && i != k ==> t(i) == 0.0
    ensures Sum(n, t) == t(k)
  {
    if n - 1 == k {
      SumConstant(n - 1, t, 0.0);
    } else {
      SumSingle(n - 1, t, k);
    }
  }

  /** Termwise comparison carries over to the sums. */
  lemma {:induction false} SumMonotone(n: nat, t: int -> real, u: int -> real)
    requires forall i :: 0 <= i < n ==> t(i) <= u(i)
    ensures Sum(n, t) <= Sum(n, u)
  {
    if n > 0 {
      SumMonotone(n - 1, t, u);
    }
  }

  /** A sum of non-negative terms is non-negative. */
  lemma SumNonNegative(n: nat, t: int -> real)
    requires forall i :: 0 <= i < n ==> 0.0 <= t(i)
    ensures 0.0 <= Sum(n, t)
  {
    SumMonotone(n, _ => 0.0, t);
    SumConstant(n, _ => 0.0, 0.0);
  }

  /** A constant factor moves out of a sum. */
  lemma {:induction false} SumScale(n: nat, t: int -> real, c: real)
    ensures Sum(n, i => c * t(i)) == c * Sum(n, t)
  {
    if n > 0 {
      SumScale(n - 1, t, c);
    }
  }

  /** Row i of a two-index term, as a function of the second index. */
  function Row(t: (int, int) -> real, i: int): int -> real
  {
    j => t(i, j)
  }

  /** Column j of a two-index term, as a function of the first index. */
  function Column(t: (int, int) -> real, j: int): int -> real
  {
    i => t(i, j)
  }

  /** The row sums over m columns, as a function of the row. */
  function RowSums(m: nat, t: (int, int) -> real): int -> real
  {
    i => Sum(m, Row(t, i))
  }

  /** The column sums over n rows, as a function of the column. */
  function ColumnSums(n: nat, t: (int, int) -> real): int -> real
  {
    j => Sum(n, Column(t, j))
  }

  /** Two nested sums can be taken in either order. */
  lemma {:induction false} SumSwap(n: nat, m: nat, t: (int, int) -> real)
    ensures Sum(n, RowSums(m, t)) == Sum(m, ColumnSums(n, t))
  {
    if n == 0 {
      SumConstant(m, ColumnSums(0, t), 0.0);
    } else {
      SumSwap(n - 1, m, t);
      SumSplitLast(n, m, t);
    }
  }

  /** Splitting off the last row on the column side of SumSwap. */
  lemma {:induction false} SumSplitLast(n: nat, m: nat, t: (int, int) -> real)
    requires n > 0
    ensures Sum(m, ColumnSums(n, t)) == Sum(m, ColumnSums(n - 1, t)) + Sum(m, Row(t, n - 1))
  {
    if m > 0 {
      SumSplitLast(n, m - 1, t);
    }
  }

  /** The term t(i) weighted by its own index i. */
  function Weighted(t: int -> real): int -> real
  {
    i => i as real * t(i)
  }

  /** The first moment: the sum of i * t(i) over [0, n). */
  function Moment(n: nat, t: int -> real): real
  {
    Sum(n, Weighted(t))
  }

  /**
   * Over non-negative terms the first moment lies between 0 and (n - 1) times
   * the plain sum: the index-weighted mean stays inside [0, n - 1].
   */
  lemma MomentBounds(n: nat, t: int -> real)
    requires n > 0
    requires forall i :: 0 <= i < n ==> 0.0 <= t(i)
    ensures 0.0 <= Moment(n, t) <= (n - 1) as real * Sum(n, t)
  {
    var top := i => (n - 1) as real * t(i);
    forall i | 0 <= i < n ensures 0.0 <= Weighted(t)(i) <= top(i) {
      assert 0.0 <= i as real <= (n - 1) as real;
    }
    SumNonNegative(n, Weighted(t));
    SumMonotone(n, Weighted(t), top);
    SumScale(n, t, (n - 1) as real);
  }

  /** When only t(k) can be non-zero, the first moment is k * t(k). */
  lemma MomentSingle(n: nat, t: int -> real, k: int)
    requires 0 <= k < n
    requires forall i :: 0 <= i < n && i != k ==> t(i) == 0.0
    ensures Moment(n, t) == k as real * t(k)
  {
    SumSingle(n, Weighted(t), k);
  }

  /*
   * Triple sums over a box [0, nx) x [0, ny) x [0, nz), taken x outermost and
   * z innermost, the order in which a C-ordered grid is laid out.
   */

  type Term3 = (int, int, int) -> real

  /** The terms along z at fixed x and y. */
  function Fiber(t: Term3, x: int, y: int): int -> real
  {
    z => t(x, y, z)
  }

  /** For fixed x, the sum along z as a function of y. */
  function FiberSums(nz: nat, t: Term3, x: int): int -> real
  {
    y => Sum(nz, Fiber(t, x, y))
  }

  /** The sum over the (y, z) slice as a function of x. */
  function SliceSums(ny: nat, nz: nat, t: Term3): int -> real
  {
    x => Sum(ny, FiberSums(nz, t, x))
  }

  /** The sum of t over the whole box. */
  function Sum3(nx: nat, ny: nat, nz: nat, t: Term3): real
  {
    Sum(nx, SliceSums(ny, nz, t))
  }

  /** t with its first two indices exchanged. */
  function SwapXY(t: Term3): Term3
  {
    (a, b, c) => t(b, a, c)
  }

  /** t with its last two indices exchanged. */
  function SwapYZ(t: Term3): Term3
  {
    (a, b, c) => t(a, c, b)
  }

  /** t with its last index moved to the front. */
  function RotateZ(t: Term3): Term3
  {
    (c, a, b) => t(a, b, c)
  }

  /** Slice sums and triple sums only depend on the terms inside the box. */
  lemma Sum3Congruent(nx: nat, ny: nat, nz: nat, t: Term3, u: Term3)
    requires forall x, y, z :: 0 <= x < nx && 0 <= y < ny && 0 <= z < nz ==> t(x, y, z) == u(x, y, z)
    ensures forall x :: 0 <= x < nx ==> SliceSums(ny, nz, t)(x) == SliceSums(ny, nz, u)(x)
    ensures Sum3(nx, ny, nz, t) == Sum3(nx, ny, nz, u)
  {
    forall x | 0 <= x < nx ensures SliceSums(ny, nz, t)(x) == SliceSums(ny, nz, u)(x) {
      forall y | 0 <= y < ny ensures FiberSums(nz, t, x)(y) == FiberSums(nz, u, x)(y) {
        SumCongruent(nz, Fiber(t, x, y), Fiber(u, x, y));
      }
      SumCongruent(ny, FiberSums(nz, t, x), FiberSums(nz, u, x));
    }
    SumCongruent(nx, SliceSums(ny, nz, t), SliceSums(ny, nz, u));
  }

  /** A triple sum of non-negative terms is non-negative, and so is every slice sum. */
  lemma Sum3NonNegative(nx: nat, ny: nat, nz: nat, t: Term3)
    requires forall x, y, z :: 0 <= x < nx && 0 <= y < ny && 0 <= z < nz ==> 0.0 <= t(x, y, z)
    ensures forall x :: 0 <= x < nx ==> 0.0 <= SliceSums(ny, nz, t)(x)
    ensures 0.0 <= Sum3(nx, ny, nz, t)
  {
    forall x | 0 <= x < nx ensures 0.0 <= SliceSums(ny, nz, t)(x) {
      forall y | 0 <= y < ny ensures 0.0 <= FiberSums(nz, t, x)(y) {
        SumNonNegative(nz, Fiber(t, x, y));
      }
      SumNonNegative(ny, FiberSums(nz, t, x));
    }
    SumNonNegative(nx, SliceSums(ny, nz, t));
  }

  /** A triple sum of zero terms is 0, and so is every slice sum. */
  lemma Sum3Zero(nx: nat, ny: nat, nz: nat, t: Term3)
    requires forall x, y, z :: 0 <= x < nx && 0 <= y < ny && 0 <= z < nz ==> t(x, y, z) == 0.0
    ensures forall x :: 0 <= x < nx ==> SliceSums(ny, nz, t)(x) == 0.0
    ensures Sum3(nx, ny, nz, t) == 0.0
  {
    forall x | 0 <= x < nx ensures SliceSums(ny, nz, t)(x) == 0.0 {
      forall y | 0 <= y < ny ensures FiberSums(nz, t, x)(y) == 0.0 {
        SumConstant(nz, Fiber(t, x, y), 0.0);
      }
      SumConstant(ny, FiberSums(nz, t, x), 0.0);
    }
    SumConstant(nx, SliceSums(ny, nz, t), 0.0);
  }

  /**
   * When t vanishes everywhere in the box except possibly at (x0, y0, z0), the
   * slice sums pick out that one term and so does the triple sum.
   */
  lemma Sum3Single(nx: nat, ny: nat, nz: nat, t: Term3, x0: int, y0: int, z0: int)
    requires 0 <= x0 < nx && 0 <= y0 < ny && 0 <= z0 < nz
    requires forall x, y, z :: 0 <= x < nx && 0 <= y < ny && 0 <= z < nz && (x, y, z) != (x0, y0, z0) ==> t(x, y, z) == 0.0
    ensures forall x :: 0 <= x < nx ==> SliceSums(ny, nz, t)(x) == if x == x0 then t(x0, y0, z0) else 0.0
    ensures Sum3(nx, ny, nz, t) == t(x0, y0, z0)
  {
    forall x | 0 <= x < nx ensures SliceSums(ny, nz, t)(x) == if x == x0 then t(x0, y0, z0) else 0.0 {
      forall y | 0 <= y < ny ensures FiberSums(nz, t, x)(y) == if x == x0 && y == y0 then t(x0, y0, z0) else 0.0 {
        if x == x0 && y == y0 {
          SumSingle(nz, Fiber(t, x, y), z0);
        } else {
          SumConstant(nz, Fiber(t, x, y), 0.0);
        }
      }
      if x == x0 {
        SumSingle(ny, FiberSums(nz, t, x), y0);
      } else {
        SumConstant(ny, FiberSums(nz, t, x), 0.0);
      }
    }
    SumSingle(nx, SliceSums(ny, nz, t), x0);
  }

  /** Summing over y outermost instead of x gives the same total. */
  lemma Sum3SwapXY(nx: nat, ny: nat, nz: nat, t: Term3)
    ensures Sum3(ny, nx, nz, SwapXY(t)) == Sum3(nx, ny, nz, t)
  {
    var lines: (int, int) -> real := (x, y) => Sum(nz, Fiber(t, x, y));
    forall x | 0 <= x < nx ensures SliceSums(ny, nz, t)(x) == RowSums(ny, lines)(x) {
      SumCongruent(ny, FiberSums(nz, t, x), Row(lines, x));
    }
    SumCongruent(nx, SliceSums(ny, nz, t), RowSums(ny, lines));
    forall y | 0 <= y < ny ensures SliceSums(nx, nz, SwapXY(t))(y) == ColumnSums(nx, lines)(y) {
      forall x | 0 <= x < nx ensures FiberSums(nz, SwapXY(t), y)(x) == Column(lines, y)(x) {
        SumCongruent(nz, Fiber(SwapXY(t), y, x), Fiber(t, x, y));
      }
      SumCongruent(nx, FiberSums(nz, SwapXY(t), y), Column(lines, y));
    }
    SumCongruent(ny, SliceSums(nx, nz, SwapXY(t)), ColumnSums(nx, lines));
    SumSwap(nx, ny, lines);
  }

  /** Summing over z before y gives the same total. */
  lemma Sum3SwapYZ(nx: nat, ny: nat, nz: nat, t: Term3)
    ensures Sum3(nx, nz, ny, SwapYZ(t)) == Sum3(nx, ny, nz, t)
  {
    forall x | 0 <= x < nx ensures SliceSums(nz, ny, SwapYZ(t))(x) == SliceSums(ny, nz, t)(x) {
      var plane: (int, int) -> real := (y, z) => t(x, y, z);
      forall y | 0 <= y < ny ensures FiberSums(nz, t, x)(y) == RowSums(nz, plane)(y) {
        SumCongruent(nz, Fiber(t, x, y), Row(plane, y));
      }
      SumCongruent(ny, FiberSums(nz, t, x), RowSums(nz, plane));
      forall z | 0 <= z < nz ensures FiberSums(ny, SwapYZ(t), x)(z) == ColumnSums(ny, plane)(z) {
        SumCongruent(ny, Fiber(SwapYZ(t), x, z), Column(plane, z));
      }
      SumCongruent(nz, FiberSums(ny, SwapYZ(t), x), ColumnSums(ny, plane));
      SumSwap(ny, nz, plane);
    }
    SumCongruent(nx, SliceSums(nz, ny, SwapYZ(t)), SliceSums(ny, nz, t));
  }

  /** Summing over z outermost gives the same total. */
  lemma Sum3RotateZ(nx: nat, ny: nat, nz: nat, t: Term3)
    ensures Sum3(nz, nx, ny, RotateZ(t)) == Sum3(nx, ny, nz, t)
  {
    Sum3SwapXY(nz, nx, ny, RotateZ(t));
    Sum3Congruent(nx, nz, ny, SwapXY(RotateZ(t)), SwapYZ(t));
    Sum3SwapYZ(nx, ny, nz, t);
  }

  /** For fixed x, the maximum along z as a function of y. */
  function FiberMaxes(nz: nat, t: Term3, x: int): int -> real
    requires nz > 0
  {
    y => MaxOf(nz, Fiber(t, x, y))
  }

  /** The maximum over the (y, z) slice as a function of x. */
  function SliceMaxes(ny: nat, nz: nat, t: Term3): int -> real
    requires ny > 0 && nz > 0
  {
    x => MaxOf(ny, FiberMaxes(nz, t, x))
  }

  /** The largest term over a non-empty box. */
  function Max3(nx: nat, ny: nat, nz: nat, t: Term3): real
    requires nx > 0 && ny > 0 && nz > 0
  {
    MaxOf(nx, SliceMaxes(ny, nz, t))
  }

  /** Max3 bounds every term of the box from above, and some term attains it. */
  lemma Max3IsMaximum(nx: nat, ny: nat, nz: nat, t: Term3) returns (x: int, y: int, z: int)
    requires nx > 0 && ny > 0 && nz > 0
    ensures forall x, y, z :: 0 <= x < nx && 0 <= y < ny && 0 <= z < nz ==> t(x, y, z) <= Max3(nx, ny, nz, t)
    ensures 0 <= x < nx && 0 <= y < ny && 0 <= z < nz && t(x, y, z) == Max3(nx, ny, nz, t)
  {
    forall x, y, z | 0 <= x < nx && 0 <= y < ny && 0 <= z < nz ensures t(x, y, z) <= Max3(nx, ny, nz, t) {
      Max3Bound(nx, ny, nz, t, x, y, z);
    }
    var sm := SliceMaxes(ny, nz, t);
    x := MaxOfIsMaximum(nx, sm);
    var fm := FiberMaxes(nz, t, x);
    y := MaxOfIsMaximum(ny, fm);
    var fiber := Fiber(t, x, y);
    z := MaxOfIsMaximum(nz, fiber);
  }

  lemma Max3Bound(nx: nat, ny: nat, nz: nat, t: Term3, x: int, y: int, z: int)
    requires nx > 0 && ny > 0 && nz > 0
    requires 0 <= x < nx && 0 <= y < ny && 0 <= z < nz
    ensures t(x, y, z) <= Max3(nx, ny, nz, t)
  {
    var fiber := Fiber(t, x, y);
    var _ := MaxOfIsMaximum(nz, fiber);
    assert t(x, y, z) == fiber(z) <= MaxOf(nz, fiber);
    var fm := FiberMaxes(nz, t, x);
    var _ := MaxOfIsMaximum(ny, fm);
    assert MaxOf(nz, fiber) == fm(y) <= MaxOf(ny, fm);
    var sm := SliceMaxes(ny, nz, t);
    var _ := MaxOfIsMaximum(nx, sm);
    assert MaxOf(ny, fm) == sm(x) <= MaxOf(nx, sm);
  }

  /** n * n * n equal terms c sum to n * n * n * c. */
  lemma Sum3Constant(nx: nat, ny: nat, nz: nat, t: Term3, c: real)
    requires forall x, y, z :: 0 <= x < nx && 0 <= y < ny && 0 <= z < nz ==> t(x, y, z) == c
    ensures Sum3(nx, ny, nz, t) == nx as real * (ny as real * (nz as real * c))
  {
    forall x | 0 <= x < nx ensures SliceSums(ny, nz, t)(x) == ny as real * (nz as real * c) {
      forall y | 0 <= y < ny ensures FiberSums(nz, t, x)(y) == nz as real * c {
        SumConstant(nz, Fiber(t, x, y), c);
      }
      SumConstant(ny, FiberSums(nz, t, x), nz as real * c);
    }
    SumConstant(nx, SliceSums(ny, nz, t), ny as real * (nz as real * c));
  }

  /** Termwise comparison carries over to triple sums. */
  lemma Sum3Monotone(nx: nat, ny: nat, nz: nat, t: Term3, u: Term3)
    requires forall x, y, z :: 0 <= x < nx && 0 <= y < ny && 0 <= z < nz ==> t(x, y, z) <= u(x, y, z)
    ensures Sum3(nx, ny, nz, t) <= Sum3(nx, ny, nz, u)
  {
    forall x | 0 <= x < nx ensures SliceSums(ny, nz, t)(x) <= SliceSums(ny, nz, u)(x) {
      forall y | 0 <= y < ny ensures FiberSums(nz, t, x)(y) <= FiberSums(nz, u, x)(y) {
        SumMonotone(nz, Fiber(t, x, y), Fiber(u, x, y));
      }
      SumMonotone(ny, FiberSums(nz, t, x), FiberSums(nz, u, x));
    }
    SumMonotone(nx, SliceSums(ny, nz, t), SliceSums(ny, nz, u));
  }
}
