/**
 * Two-dimensional cross-correlation, `scipy.signal.correlate(a, b, mode)`,
 * defined by its index formula: the first operand is slid over the second,
 * which is read as 0 outside its bounds.
 */
module Correlation {
  import opened Grids

  /** `b[x][y]`, and 0 outside the bounds of `b`. */
  function Pad(b: Matrix, x: int, y: int): real
  {
    if 0 <= x < |b| && 0 <= y < |b[x]| then b[x][y] else 0.0
  }

  /** The cell-wise product of `a` with `b` shifted by `(dx, dy)`: `a[i][j] * b[i + dx][j + dy]`. */
  function ShiftedProduct(a: Matrix, b: Matrix, dx: int, dy: int): (z: Matrix)
    ensures |z| == |a| && forall i :: 0 <= i < |a| ==> |z[i]| == |a[i]|
    ensures forall i, j :: 0 <= i < |a| && 0 <= j < |a[i]| ==> z[i][j] == a[i][j] * Pad(b, i + dx, j + dy)
  {
    seq(|a|, i requires 0 <= i < |a| => seq(|a[i]|, j requires 0 <= j < |a[i]| => a[i][j] * Pad(b, i + dx, j + dy)))
  }

  /** The sum of the products of `a` with `b` shifted by `(dx, dy)`. */
  function Overlap(a: Matrix, b: Matrix, dx: int, dy: int): real
  {
    Sum(ShiftedProduct(a, b, dx, dy))
  }

  /**
   * Cell `(k, l)` of `correlate(a, b, mode='full')`:
   * `sum_{i,j} a[i][j] * b[i - k + nb - 1][j - l + mb - 1]`.
   */
  function FullCell(a: Matrix, b: Matrix, k: int, l: int): real
  {
    Overlap(a, b, |b| - 1 - k, Cols(b) - 1 - l)
  }

  /** `correlate(a, b, mode='full')`: every shift at which the two operands overlap at all. */
  function FullCorrelate(a: Matrix, b: Matrix): (z: Matrix)
    requires NonEmpty(a) && NonEmpty(b)
    ensures IsGrid(z, |a| + |b| - 1, Cols(a) + Cols(b) - 1)
    ensures forall k, l :: 0 <= k < |z| && 0 <= l < |z[k]| ==> z[k][l] == FullCell(a, b, k, l)
  {
    seq(|a| + |b| - 1, k => seq(Cols(a) + Cols(b) - 1, l => FullCell(a, b, k, l)))
  }

  /** scipy's condition for mode 'valid': one operand is at least as large as the other on both axes. */
  predicate Dominates(a: Matrix, b: Matrix)
  {
    (|a| >= |b| && Cols(a) >= Cols(b)) || (|b| >= |a| && Cols(b) >= Cols(a))
  }

  function Min(x: nat, y: nat): nat
  {
    if x <= y then x else y
  }

  function Dist(x: nat, y: nat): nat
  {
    if x <= y then y - x else x - y
  }

  /**
   * `correlate(a, b, mode='valid')`: the cells of the full correlation at which
   * the smaller operand lies wholly inside the larger, `|na - nb| + 1` by
   * `|ma - mb| + 1` of them; scipy raises ValueError (here None) when neither
   * operand dominates the other.
   */
  function ValidCorrelate(a: Matrix, b: Matrix): (r: Option<Matrix>)
    requires NonEmpty(a) && NonEmpty(b)
    ensures r.Some? <==> Dominates(a, b)
    ensures r.Some? ==> IsGrid(r.value, Dist(|a|, |b|) + 1, Dist(Cols(a), Cols(b)) + 1)
    ensures r.Some? ==> forall t, u :: 0 <= t < |r.value| && 0 <= u < |r.value[t]| ==>
              r.value[t][u] == Overlap(a, b, |b| - Min(|a|, |b|) - t, Cols(b) - Min(Cols(a), Cols(b)) - u)
  {
    if !Dominates(a, b) then None
    else
      Some(seq(Dist(|a|, |b|) + 1, t => seq(Dist(Cols(a), Cols(b)) + 1, u =>
        Overlap(a, b, |b| - Min(|a|, |b|) - t, Cols(b) - Min(Cols(a), Cols(b)) - u))))
  }

  /** Mode 'valid' is the central part of mode 'full', where neither operand hangs over the other. */
  lemma ValidIsCentralFull(a: Matrix, b: Matrix, t: nat, u: nat)
    requires NonEmpty(a) && NonEmpty(b) && Dominates(a, b)
    requires t < Dist(|a|, |b|) + 1 && u < Dist(Cols(a), Cols(b)) + 1
    ensures t + Min(|a|, |b|) - 1 < |FullCorrelate(a, b)|
    ensures u + Min(Cols(a), Cols(b)) - 1 < Cols(a) + Cols(b) - 1
    ensures ValidCorrelate(a, b).value[t][u] ==
              FullCorrelate(a, b)[t + Min(|a|, |b|) - 1][u + Min(Cols(a), Cols(b)) - 1]
  {
  }

  // ---- linearity in the second operand ----

  /** `z == b1 + b2`, cell by cell, all three of one shape. */
  predicate IsSum(z: Matrix, b1: Matrix, b2: Matrix)
  {
    IsGrid(b1, |z|, Cols(z)) && IsGrid(b2, |z|, Cols(z)) && IsGrid(z, |z|, Cols(z)) &&
    forall i, j :: 0 <= i < |z| && 0 <= j < Cols(z) ==> z[i][j] == b1[i][j] + b2[i][j]
  }

  /** `z == k * b`, cell by cell, both of one shape. */
  predicate IsMultiple(z: Matrix, k: real, b: Matrix)
  {
    IsGrid(b, |z|, Cols(z)) && IsGrid(z, |z|, Cols(z)) &&
    forall i, j :: 0 <= i < |z| && 0 <= j < Cols(z) ==> z[i][j] == k * b[i][j]
  }

  /** `z == k*b1 + b2`, cell by cell, all three of one shape. */
  predicate IsCombination(z: Matrix, k: real, b1: Matrix, b2: Matrix)
  {
    IsGrid(b1, |z|, Cols(z)) && IsGrid(b2, |z|, Cols(z)) && IsGrid(z, |z|, Cols(z)) &&
    forall i, j :: 0 <= i < |z| && 0 <= j < Cols(z) ==> z[i][j] == k * b1[i][j] + b2[i][j]
  }

  lemma PadSum(z: Matrix, b1: Matrix, b2: Matrix, x: int, y: int)
    requires IsSum(z, b1, b2)
    ensures Pad(z, x, y) == Pad(b1, x, y) + Pad(b2, x, y)
  {
  }

  lemma PadMultiple(z: Matrix, k: real, b: Matrix, x: int, y: int)
    requires IsMultiple(z, k, b)
    ensures Pad(z, x, y) == k * Pad(b, x, y)
  {
  }

  lemma Distribute(c: real, p1: real, p2: real)
    ensures c * (p1 + p2) == c * p1 + c * p2
  {
  }

  lemma Commute(c: real, k: real, p: real)
    ensures c * (k * p) == k * (c * p)
  {
  }

  /** A shifted product sum is additive in the second operand. */
  lemma OverlapAdd(a: Matrix, z: Matrix, b1: Matrix, b2: Matrix, dx: int, dy: int)
    requires IsSum(z, b1, b2)
    ensures Overlap(a, z, dx, dy) == Overlap(a, b1, dx, dy) + Overlap(a, b2, dx, dy)
  {
    var p, p1, p2 := ShiftedProduct(a, z, dx, dy), ShiftedProduct(a, b1, dx, dy), ShiftedProduct(a, b2, dx, dy);
    forall i, j | 0 <= i < |p| && 0 <= j < |p[i]|
      ensures p[i][j] == p1[i][j] + p2[i][j]
    {
      PadSum(z, b1, b2, i + dx, j + dy);
      Distribute(a[i][j], Pad(b1, i + dx, j + dy), Pad(b2, i + dx, j + dy));
    }
    SumAdd(p1, p2, p);
  }

  lemma ShiftedProductScaleCell(a: Matrix, z: Matrix, k: real, b: Matrix, dx: int, dy: int, i: nat, j: nat)
    requires IsMultiple(z, k, b)
    requires i < |a| && j < |a[i]|
    ensures ShiftedProduct(a, z, dx, dy)[i][j] == k * ShiftedProduct(a, b, dx, dy)[i][j]
  {
    PadMultiple(z, k, b, i + dx, j + dy);
    Commute(a[i][j], k, Pad(b, i + dx, j + dy));
  }

  /** A shifted product sum is homogeneous in the second operand. */
  lemma OverlapScale(a: Matrix, z: Matrix, k: real, b: Matrix, dx: int, dy: int)
    requires IsMultiple(z, k, b)
    ensures Overlap(a, z, dx, dy) == k * Overlap(a, b, dx, dy)
  {
    var p, p1 := ShiftedProduct(a, z, dx, dy), ShiftedProduct(a, b, dx, dy);
    forall i, j | 0 <= i < |p| && 0 <= j < |p[i]|
      ensures p[i][j] == k * p1[i][j]
    {
      ShiftedProductScaleCell(a, z, k, b, dx, dy, i, j);
    }
    SumMultiple(k, p1, p);
  }

  /** Every shifted product sum is linear in the second operand. */
  lemma OverlapLinear(a: Matrix, z: Matrix, k: real, b1: Matrix, b2: Matrix, dx: int, dy: int)
    requires IsCombination(z, k, b1, b2)
    ensures Overlap(a, z, dx, dy) == k * Overlap(a, b1, dx, dy) + Overlap(a, b2, dx, dy)
  {
    var w := seq(|z|, i requires 0 <= i < |z| => seq(Cols(z), j requires 0 <= j < Cols(z) => k * b1[i][j]));
    assert IsMultiple(w, k, b1);
    assert IsSum(z, w, b2);
    OverlapScale(a, w, k, b1, dx, dy);
    OverlapAdd(a, z, w, b2, dx, dy);
  }

  /** Cell `(t, u)` of the valid-mode correlation, at the shift of that cell. */
  lemma ValidCell(a: Matrix, b: Matrix, t: nat, u: nat, dx: int, dy: int)
    requires NonEmpty(a) && NonEmpty(b) && Dominates(a, b)
    requires t < Dist(|a|, |b|) + 1 && u < Dist(Cols(a), Cols(b)) + 1
    requires dx == |b| - Min(|a|, |b|) - t && dy == Cols(b) - Min(Cols(a), Cols(b)) - u
    ensures ValidCorrelate(a, b).value[t][u] == Overlap(a, b, dx, dy)
  {
  }

  /** Correlating with an all-zero array gives 0 at every shift. */
  lemma OverlapZero(a: Matrix, b: Matrix, dx: int, dy: int)
    requires forall i, j :: 0 <= i < |b| && 0 <= j < |b[i]| ==> b[i][j] == 0.0
    ensures Overlap(a, b, dx, dy) == 0.0
  {
    SumOfZeros(ShiftedProduct(a, b, dx, dy));
  }
}
