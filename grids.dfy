/**
 * Two-dimensional real images (numpy arrays of float) as sequences of rows,
 * with the cell-wise operations the reconstruction pipeline uses.
 */
module Grids {

  datatype Option<T> = None | Some(value: T)

  /** A pixel shape `(rows, cols)`, as numpy's `shape` of a 2-D array. */
  datatype Shape = Shape(rows: nat, cols: nat)

  /** A pixel position `(row, col)`. */
  type Pos = (nat, nat)

  type Matrix = seq<seq<real>>

  /** `m` has `r` rows of `c` cells each. */
  predicate IsGrid<T>(m: seq<seq<T>>, r: nat, c: nat)
  {
    |m| == r && forall i :: 0 <= i < r ==> |m[i]| == c
  }

  predicate HasShape<T>(m: seq<seq<T>>, s: Shape)
  {
    IsGrid(m, s.rows, s.cols)
  }

  /** A rectangular array with at least one row and one column. */
  predicate NonEmpty<T>(m: seq<seq<T>>)
  {
    |m| >= 1 && |m[0]| >= 1 && IsGrid(m, |m|, |m[0]|)
  }

  function Cols<T>(m: seq<seq<T>>): nat
  {
    if |m| == 0 then 0 else |m[0]|
  }

  function ShapeOf<T>(m: seq<seq<T>>): Shape
  {
    Shape(|m|, Cols(m))
  }

  predicate InBounds(p: Pos, s: Shape)
  {
    p.0 < s.rows && p.1 < s.cols
  }

  /** `np.zeros(shape)` */
  function Zeros(s: Shape): (z: Matrix)
    ensures HasShape(z, s)
    ensures forall i, j :: 0 <= i < s.rows && 0 <= j < s.cols ==> z[i][j] == 0.0
  {
    seq(s.rows, i => seq(s.cols, j => 0.0))
  }

  /** `s = np.zeros(shape); s[*p] = v`: an image that is `v` at `p` and 0 elsewhere. */
  function PointSource(s: Shape, p: Pos, v: real): (z: Matrix)
    requires InBounds(p, s)
    ensures HasShape(z, s)
    ensures z[p.0][p.1] == v
    ensures forall i, j :: 0 <= i < s.rows && 0 <= j < s.cols && (i != p.0 || j != p.1) ==> z[i][j] == 0.0
  {
    seq(s.rows, i => seq(s.cols, j => if i == p.0 && j == p.1 then v else 0.0))
  }

  /** `k * m` */
  function Scale(k: real, m: Matrix): (z: Matrix)
    ensures |z| == |m| && forall i :: 0 <= i < |m| ==> |z[i]| == |m[i]|
    ensures forall i, j :: 0 <= i < |m| && 0 <= j < |m[i]| ==> z[i][j] == k * m[i][j]
  {
    seq(|m|, i requires 0 <= i < |m| => seq(|m[i]|, j requires 0 <= j < |m[i]| => k * m[i][j]))
  }

  /** `a + b` for two arrays of the same shape. */
  function Add(a: Matrix, b: Matrix): (z: Matrix)
    requires IsGrid(b, |a|, Cols(a)) && IsGrid(a, |a|, Cols(a))
    ensures IsGrid(z, |a|, Cols(a))
    ensures forall i, j :: 0 <= i < |a| && 0 <= j < Cols(a) ==> z[i][j] == a[i][j] + b[i][j]
  {
    seq(|a|, i requires 0 <= i < |a| => seq(Cols(a), j requires 0 <= j < Cols(a) => a[i][j] + b[i][j]))
  }

  /** `a - b` for two arrays of the same shape. */
  function Sub(a: Matrix, b: Matrix): (z: Matrix)
    requires IsGrid(b, |a|, Cols(a)) && IsGrid(a, |a|, Cols(a))
    ensures IsGrid(z, |a|, Cols(a))
    ensures forall i, j :: 0 <= i < |a| && 0 <= j < Cols(a) ==> z[i][j] == a[i][j] - b[i][j]
  {
    seq(|a|, i requires 0 <= i < |a| => seq(Cols(a), j requires 0 <= j < Cols(a) => a[i][j] - b[i][j]))
  }

  /** `a * b`, the cell-wise product of two arrays of the same shape. */
  function Product(a: Matrix, b: Matrix): (z: Matrix)
    requires IsGrid(b, |a|, Cols(a)) && IsGrid(a, |a|, Cols(a))
    ensures IsGrid(z, |a|, Cols(a))
    ensures forall i, j :: 0 <= i < |a| && 0 <= j < Cols(a) ==> z[i][j] == a[i][j] * b[i][j]
  {
    seq(|a|, i requires 0 <= i < |a| => seq(Cols(a), j requires 0 <= j < Cols(a) => a[i][j] * b[i][j]))
  }

  /** `m / d`, every cell divided by the scalar `d`. */
  function DivideCells(m: Matrix, d: real): (z: Matrix)
    requires d != 0.0
    ensures |z| == |m| && forall i :: 0 <= i < |m| ==> |z[i]| == |m[i]|
    ensures forall i, j :: 0 <= i < |m| && 0 <= j < |m[i]| ==> z[i][j] == m[i][j] / d
  {
    seq(|m|, i requires 0 <= i < |m| => seq(|m[i]|, j requires 0 <= j < |m[i]| => m[i][j] / d))
  }

  /** `np.square(m)` */
  function Square(m: Matrix): (z: Matrix)
    ensures |z| == |m| && forall i :: 0 <= i < |m| ==> |z[i]| == |m[i]|
    ensures forall i, j :: 0 <= i < |m| && 0 <= j < |m[i]| ==> z[i][j] == m[i][j] * m[i][j]
  {
    seq(|m|, i requires 0 <= i < |m| => seq(|m[i]|, j requires 0 <= j < |m[i]| => m[i][j] * m[i][j]))
  }

  /**
   * `m` summed in row-major order up to, not including, cell `(i, j)`: every
   * row before `i` and the first `j` cells of row `i`.
   */
  function SumTo(m: Matrix, i: nat, j: nat): real
    requires i <= |m| && (i < |m| ==> j <= |m[i]|) && (i == |m| ==> j == 0)
    decreases i, j
  {
    if j > 0 then SumTo(m, i, j - 1) + m[i][j - 1]
    else if i == 0 then 0.0
    else SumTo(m, i - 1, |m[i - 1]|)
  }

  /** `m.sum()`: the sum of every cell. */
  function Sum(m: Matrix): real
  {
    SumTo(m, |m|, 0)
  }

  /** Every cell of `m` is non-negative. */
  predicate NonNegative(m: Matrix)
  {
    forall i, j :: 0 <= i < |m| && 0 <= j < |m[i]| ==> m[i][j] >= 0.0
  }

  /** `a` and `b` have the same, possibly ragged, shape. */
  predicate SameShape(a: Matrix, b: Matrix)
  {
    |a| == |b| && forall i :: 0 <= i < |a| ==> |a[i]| == |b[i]|
  }

  lemma {:induction false} SumToAdd(a: Matrix, b: Matrix, z: Matrix, i: nat, j: nat)
    requires SameShape(a, z) && SameShape(b, z)
    requires forall i, j :: 0 <= i < |z| && 0 <= j < |z[i]| ==> z[i][j] == a[i][j] + b[i][j]
    requires i <= |z| && (i < |z| ==> j <= |z[i]|) && (i == |z| ==> j == 0)
    ensures SumTo(z, i, j) == SumTo(a, i, j) + SumTo(b, i, j)
    decreases i, j
  {
    if j > 0 {
      SumToAdd(a, b, z, i, j - 1);
    } else if i > 0 {
      SumToAdd(a, b, z, i - 1, |z[i - 1]|);
    }
  }

  /** The sum of a cell-wise sum of two arrays is the sum of their sums. */
  lemma SumAdd(a: Matrix, b: Matrix, z: Matrix)
    requires SameShape(a, z) && SameShape(b, z)
    requires forall i, j :: 0 <= i < |z| && 0 <= j < |z[i]| ==> z[i][j] == a[i][j] + b[i][j]
    ensures Sum(z) == Sum(a) + Sum(b)
  {
    SumToAdd(a, b, z, |z|, 0);
  }

  lemma {:induction false} SumToScale(k: real, a: Matrix, z: Matrix, i: nat, j: nat)
    requires SameShape(a, z)
    requires forall i, j :: 0 <= i < |z| && 0 <= j < |z[i]| ==> z[i][j] == k * a[i][j]
    requires i <= |z| && (i < |z| ==> j <= |z[i]|) && (i == |z| ==> j == 0)
    ensures SumTo(z, i, j) == k * SumTo(a, i, j)
    decreases i, j
  {
    if j > 0 {
      SumToScale(k, a, z, i, j - 1);
    } else if i > 0 {
      SumToScale(k, a, z, i - 1, |z[i - 1]|);
    }
  }

  /** Scaling every cell of an array by `k` scales its sum by `k`. */
  lemma SumMultiple(k: real, a: Matrix, z: Matrix)
    requires SameShape(a, z)
    requires forall i, j :: 0 <= i < |z| && 0 <= j < |z[i]| ==> z[i][j] == k * a[i][j]
    ensures Sum(z) == k * Sum(a)
  {
    SumToScale(k, a, z, |z|, 0);
  }

  /** Scaling an array scales its sum. */
  lemma SumScale(k: real, m: Matrix)
    ensures Sum(Scale(k, m)) == k * Sum(m)
  {
    SumMultiple(k, m, Scale(k, m));
  }

  /** The sum of `k*a + b` is `k` times the sum of `a` plus the sum of `b`. */
  lemma SumLinear(k: real, a: Matrix, b: Matrix, z: Matrix)
    requires SameShape(a, z) && SameShape(b, z)
    requires forall i, j :: 0 <= i < |z| && 0 <= j < |z[i]| ==> z[i][j] == k * a[i][j] + b[i][j]
    ensures Sum(z) == k * Sum(a) + Sum(b)
  {
    var ka := Scale(k, a);
    SumScale(k, a);
    SumAdd(ka, b, z);
  }

  lemma {:induction false} SumToOfZeros(m: Matrix, i: nat, j: nat)
    requires forall i, j :: 0 <= i < |m| && 0 <= j < |m[i]| ==> m[i][j] == 0.0
    requires i <= |m| && (i < |m| ==> j <= |m[i]|) && (i == |m| ==> j == 0)
    ensures SumTo(m, i, j) == 0.0
    decreases i, j
  {
    if j > 0 {
      SumToOfZeros(m, i, j - 1);
    } else if i > 0 {
      SumToOfZeros(m, i - 1, |m[i - 1]|);
    }
  }

  /** An all-zero array sums to 0. */
  lemma SumOfZeros(m: Matrix)
    requires forall i, j :: 0 <= i < |m| && 0 <= j < |m[i]| ==> m[i][j] == 0.0
    ensures Sum(m) == 0.0
  {
    SumToOfZeros(m, |m|, 0);
  }

  /** A point source of value `k*v` is `k` times the point source of value `v`. */
  lemma PointSourceScale(s: Shape, p: Pos, k: real, v: real)
    requires InBounds(p, s)
    ensures PointSource(s, p, k * v) == Scale(k, PointSource(s, p, v))
  {
    var a, b := PointSource(s, p, k * v), Scale(k, PointSource(s, p, v));
    assert |a| == |b|;
    forall i | 0 <= i < |a| ensures a[i] == b[i] {
      assert |a[i]| == |b[i]|;
      forall j | 0 <= j < |a[i]| ensures a[i][j] == b[i][j] {
        if i != p.0 || j != p.1 {
          assert a[i][j] == 0.0 && b[i][j] == k * 0.0;
        }
      }
    }
  }
}
